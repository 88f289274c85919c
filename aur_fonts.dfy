/** The AUR lookup (fetch_aur_fonts, main.py lines 78-109): for every selected
    folder, the parsed `aursearch -vr <name>` response decides whether a new
    package "<name>-fonts" is proposed. */
module AurFonts {
  import opened Text

  /** One object of the aursearch JSON list: its `resultcount` and the `Name` of
      each package in its `results`. */
  datatype SearchResult = SearchResult(resultCount: int, names: seq<string>)

  /** What the lookup concludes for one folder. */
  datatype Verdict =
      /** The JSON list was empty: an error is printed and the folder is skipped. */
    | NoResponse
      /** A new package of this name is proposed. */
    | Propose(pkg: string)
      /** These existing packages may already provide the font (printed). */
    | Satisfied(packages: seq<string>)

  const PackageSuffix := "-fonts"

  /** A result is a potential match when its name contains the font name and
      one of the keywords "ttf" and "font" (main.py line 100). */
  predicate IsPotentialMatch(name: string, pkg: string)
  {
    Contains(pkg, name) && (Contains(pkg, "ttf") || Contains(pkg, "font"))
  }

  /** The potential matches among the result names, in their order. */
  function Matching(name: string, pkgs: seq<string>): (ms: seq<string>)
    ensures forall x :: x in ms <==> x in pkgs && IsPotentialMatch(name, x)
    decreases |pkgs|
  {
    if pkgs == [] then []
    else
      var last := pkgs[|pkgs| - 1];
      assert pkgs == pkgs[..|pkgs| - 1] + [last];
      Matching(name, pkgs[..|pkgs| - 1]) + (if IsPotentialMatch(name, last) then [last] else [])
  }

  /** Matching keeps every potential match as often as it occurs, and nothing else. */
  lemma {:induction false} MatchingCount(name: string, pkgs: seq<string>, x: string)
    ensures multiset(Matching(name, pkgs))[x] ==
              if IsPotentialMatch(name, x) then multiset(pkgs)[x] else 0
    decreases |pkgs|
  {
    if pkgs != [] {
      var last := pkgs[|pkgs| - 1];
      MatchingCount(name, pkgs[..|pkgs| - 1], x);
      assert pkgs == pkgs[..|pkgs| - 1] + [last];
    }
  }

  /** The scan of the results (main.py lines 94-102): collects the potential
      matches and records whether there was one. */
  method ScanResults(name: string, results: seq<string>)
    returns (fontPackages: seq<string>, potentialMatches: bool)
    ensures fontPackages == Matching(name, results)
    ensures potentialMatches <==> exists x :: x in results && IsPotentialMatch(name, x)
  {
    fontPackages := [];
    potentialMatches := false;
    var i := 0;
    while i < |results|
      invariant 0 <= i <= |results|
      invariant fontPackages == Matching(name, results[..i])
      invariant potentialMatches <==> fontPackages != []
    {
      var pkgName := results[i];
      assert results[..i + 1][..i] == results[..i];
      if IsPotentialMatch(name, pkgName) {
        fontPackages := fontPackages + [pkgName];
        potentialMatches := true;
      }
      i := i + 1;
    }
    assert results[..i] == results;
    if potentialMatches {
      assert fontPackages[0] in fontPackages;
    }
  }

  /** The verdict for a font name and the parsed response of the search. */
  function Decide(name: string, response: seq<SearchResult>): (v: Verdict)
    ensures v.NoResponse? <==> response == []
    ensures v.Propose? <==>
              response != [] &&
              (response[0].resultCount == 0 ||
               forall x | x in response[0].names :: !IsPotentialMatch(name, x))
    ensures v.Propose? ==> v.pkg == name + "-fonts"
    ensures v.Satisfied? ==>
              && v.packages != []
              && forall x | x in v.packages :: x in response[0].names && IsPotentialMatch(name, x)
    ensures v.Satisfied? ==> v.packages == Matching(name, response[0].names)
  {
    if response == [] then NoResponse
    else if response[0].resultCount == 0 then Propose(name + PackageSuffix)
    else
      var ms := Matching(name, response[0].names);
      if ms == [] then Propose(name + PackageSuffix)
      else
        assert ms[0] in ms;
        Satisfied(ms)
  }

  /** The proposals for the selected folders among done. */
  function ProposalsOn(fontNames: map<string, string>, search: string -> seq<SearchResult>,
                       done: set<string>): map<string, string>
  {
    map p | p in fontNames && p in done && Decide(fontNames[p], search(fontNames[p])).Propose? ::
      fontNames[p] + PackageSuffix
  }

  /** The folders among done reported as potentially satisfied, with the
      matching packages. */
  function SatisfactionsOn(fontNames: map<string, string>, search: string -> seq<SearchResult>,
                           done: set<string>): map<string, seq<string>>
  {
    map p | p in fontNames && p in done && Decide(fontNames[p], search(fontNames[p])).Satisfied? ::
      Decide(fontNames[p], search(fontNames[p])).packages
  }

  /** The proposals fetch_aur_fonts returns. */
  function Proposals(fontNames: map<string, string>, search: string -> seq<SearchResult>)
    : map<string, string>
  {
    ProposalsOn(fontNames, search, fontNames.Keys)
  }

  /** The folders reported as potentially satisfied. */
  function Satisfactions(fontNames: map<string, string>, search: string -> seq<SearchResult>)
    : map<string, seq<string>>
  {
    SatisfactionsOn(fontNames, search, fontNames.Keys)
  }

  lemma ProposalsStep(fontNames: map<string, string>, search: string -> seq<SearchResult>,
                      done: set<string>, p: string)
    requires p in fontNames && p !in done
    ensures ProposalsOn(fontNames, search, done + {p}) ==
              if Decide(fontNames[p], search(fontNames[p])).Propose?
              then ProposalsOn(fontNames, search, done)[p := fontNames[p] + PackageSuffix]
              else ProposalsOn(fontNames, search, done)
  {
  }

  lemma SatisfactionsStep(fontNames: map<string, string>, search: string -> seq<SearchResult>,
                          done: set<string>, p: string)
    requires p in fontNames && p !in done
    ensures SatisfactionsOn(fontNames, search, done + {p}) ==
              if Decide(fontNames[p], search(fontNames[p])).Satisfied?
              then SatisfactionsOn(fontNames, search, done)[p := Decide(fontNames[p], search(fontNames[p])).packages]
              else SatisfactionsOn(fontNames, search, done)
  {
  }

  /** Proposals are made only for selected folders, and for a folder exactly when
      the search answered and found no potential match (or no result at all). */
  lemma ProposalsSpec(fontNames: map<string, string>, search: string -> seq<SearchResult>, p: string)
    ensures Proposals(fontNames, search).Keys <= fontNames.Keys
    ensures p in Proposals(fontNames, search) <==>
              && p in fontNames
              && var response := search(fontNames[p]);
              && response != []
              && (response[0].resultCount == 0 ||
                  forall x | x in response[0].names :: !IsPotentialMatch(fontNames[p], x))
    ensures p in Proposals(fontNames, search) ==>
              Proposals(fontNames, search)[p] == fontNames[p] + "-fonts"
  {
  }

  /** The loop of fetch_aur_fonts over the selected folders. The printed report
      of potential matches is returned as `satisfied`. */
  method FetchAurFonts(fontNames: map<string, string>, search: string -> seq<SearchResult>)
    returns (fonts: map<string, string>, satisfied: map<string, seq<string>>)
    ensures fonts == Proposals(fontNames, search)
    ensures satisfied == Satisfactions(fontNames, search)
  {
    fonts, satisfied := map[], map[];
    var todo := fontNames.Keys;
    while todo != {}
      invariant todo <= fontNames.Keys
      invariant fonts == ProposalsOn(fontNames, search, fontNames.Keys - todo)
      invariant satisfied == SatisfactionsOn(fontNames, search, fontNames.Keys - todo)
      decreases |todo|
    {
      var fontPath :| fontPath in todo;
      var name := fontNames[fontPath];
      var result := search(name);
      ghost var done := fontNames.Keys - todo;
      ghost var verdict := Decide(name, result);
      ProposalsStep(fontNames, search, done, fontPath);
      SatisfactionsStep(fontNames, search, done, fontPath);
      if result != [] {
        var first := result[0];
        if first.resultCount == 0 {
          fonts := fonts[fontPath := name + PackageSuffix];
        } else {
          var fontPackages, potentialMatches := ScanResults(name, first.names);
          if !potentialMatches {
            fonts := fonts[fontPath := name + PackageSuffix];
          } else {
            assert verdict == Satisfied(fontPackages);
            satisfied := satisfied[fontPath := fontPackages];
          }
        }
      }
      assert fontNames.Keys - (todo - {fontPath}) == done + {fontPath};
      todo := todo - {fontPath};
    }
  }

  /** A search with no results proposes a package for "roboto". */
  lemma NoResultsProposes()
    ensures Decide("roboto", [SearchResult(0, [])]) == Propose("roboto-fonts")
  {
    assert "roboto" + PackageSuffix == "roboto-fonts";
  }

  /** An empty response proposes nothing. */
  lemma EmptyResponseSkips()
    ensures Decide("roboto", []) == NoResponse
  {
  }

  /** "ttf-roboto-font" contains both the font name and a keyword, so nothing is
      proposed for "roboto". */
  lemma KeywordMatchSatisfies()
    ensures Decide("roboto", [SearchResult(1, ["ttf-roboto-font"])]) == Satisfied(["ttf-roboto-font"])
  {
    var s := "ttf-roboto-font";
    assert OccursAt(s, "roboto", 4);
    assert OccursAt(s, "ttf", 0);
    assert IsPotentialMatch("roboto", s);
    assert Matching("roboto", [s]) == [s];
  }

  /** "unrelated-pkg" does not contain "roboto", so the search falls back to
      proposing "roboto-fonts". */
  lemma UnrelatedResultProposes()
    ensures Decide("roboto", [SearchResult(1, ["unrelated-pkg"])]) == Propose("roboto-fonts")
  {
    UnrelatedIsNoMatch();
    NoMatchProposes("roboto", "unrelated-pkg", 1);
    assert "roboto" + PackageSuffix == "roboto-fonts";
  }

  lemma NoMatchProposes(name: string, pkg: string, count: int)
    requires !IsPotentialMatch(name, pkg)
    ensures Decide(name, [SearchResult(count, [pkg])]) == Propose(name + PackageSuffix)
  {
    assert Matching(name, [pkg]) == [];
  }

  lemma UnrelatedIsNoMatch()
    ensures !IsPotentialMatch("roboto", "unrelated-pkg")
  {
    MissingCharNotContained("unrelated-pkg", "roboto", 'b');
  }
}
