/** The main block of main.py (lines 112-129): the repository index, the folder
    index, the collision loop, the choice of folders to query and the AUR
    lookup, run one after the other. */
module FontFengshui {
  import opened Wrappers
  import opened Failures
  import opened Text
  import opened RepoFonts
  import opened GoogleFonts
  import opened AurFonts

  /** What the run reports: the proposed package for each folder, and the
      folders that existing packages may already satisfy. */
  datatype Report = Report(proposals: map<string, string>, satisfied: map<string, seq<string>>)

  /** The whole run, given the pkgfile output, the walk of the cloned repository,
      the fc-query output for a file path and the parsed aursearch response for a
      font name. */
  function Pipeline(pkgfileOutput: string, walk: seq<Folder>,
                    query: string -> string, search: string -> seq<SearchResult>)
    : Result<Report, Failure>
  {
    match RepoFontIndex(pkgfileOutput)
    case Err(e) => Err(e)
    case Ok(repo) =>
      match FontNames(walk, Collisions(GoogleIndex(walk), repo), query)
      case Err(e) => Err(e)
      case Ok(names) => Ok(Report(Proposals(names, search), Satisfactions(names, search)))
  }

  /** The main block. */
  method Run(pkgfileOutput: string, walk: seq<Folder>,
             query: string -> string, search: string -> seq<SearchResult>)
    returns (r: Result<Report, Failure>)
    ensures r == Pipeline(pkgfileOutput, walk, query, search)
  {
    var repoFontDict := FetchRepoFonts(pkgfileOutput);
    if repoFontDict.Err? {
      return Err(repoFontDict.error);
    }
    var googleFontDict := FetchGoogleFonts(walk);
    var flaggedGoogleFonts := FlagCollisions(googleFontDict, repoFontDict.value);
    var fontNames := FetchGoogleFontNames(walk, flaggedGoogleFonts, query);
    if fontNames.Err? {
      return Err(fontNames.error);
    }
    var autogenFontNames, satisfied := FetchAurFonts(fontNames.value, search);
    return Ok(Report(autogenFontNames, satisfied));
  }

  /** Every folder with a proposal or a list of satisfying packages is a folder
      of the walk that holds a .ttf file and whose path is not flagged; every
      proposal ends in "-fonts". */
  lemma ReportedFoldersAreCandidates(pkgfileOutput: string, walk: seq<Folder>,
                                     query: string -> string, search: string -> seq<SearchResult>,
                                     p: string)
    requires Pipeline(pkgfileOutput, walk, query, search).Ok?
    requires p in Pipeline(pkgfileOutput, walk, query, search).value.proposals
          || p in Pipeline(pkgfileOutput, walk, query, search).value.satisfied
    ensures RepoFontIndex(pkgfileOutput).Ok?
    ensures exists i :: 0 <= i < |walk| && walk[i].dir == p
              && IsCandidate(walk[i], Collisions(GoogleIndex(walk), RepoFontIndex(pkgfileOutput).value))
    ensures p in Pipeline(pkgfileOutput, walk, query, search).value.proposals ==>
              EndsWith(Pipeline(pkgfileOutput, walk, query, search).value.proposals[p], "-fonts")
  {
    var repo := RepoFontIndex(pkgfileOutput).value;
    var flagged := Collisions(GoogleIndex(walk), repo);
    var names := FontNames(walk, flagged, query).value;
    assert p in names;
    FontNamesKeys(walk, flagged, query, p);
    if p in Pipeline(pkgfileOutput, walk, query, search).value.proposals {
      var proposal := names[p] + PackageSuffix;
      assert proposal[|proposal| - 6..] == PackageSuffix;
    }
  }

  /** A folder whose base name the repository index already holds, and that is
      the last folder of that base name, gets neither a proposal nor a list of
      satisfying packages. */
  lemma CollidingFolderNotReported(pkgfileOutput: string, walk: seq<Folder>,
                                   query: string -> string, search: string -> seq<SearchResult>,
                                   i: nat)
    requires Pipeline(pkgfileOutput, walk, query, search).Ok?
    requires RepoFontIndex(pkgfileOutput).Ok?
    requires i < |walk| && LastWithBase(walk, i, BaseName(walk[i].dir))
    requires BaseName(walk[i].dir) in RepoFontIndex(pkgfileOutput).value
    ensures walk[i].dir !in Pipeline(pkgfileOutput, walk, query, search).value.proposals
    ensures walk[i].dir !in Pipeline(pkgfileOutput, walk, query, search).value.satisfied
  {
    var p := walk[i].dir;
    var repo := RepoFontIndex(pkgfileOutput).value;
    var flagged := Collisions(GoogleIndex(walk), repo);
    FlaggedFolders(walk, repo, p);
    assert p in flagged;
    FontNamesKeys(walk, flagged, query, p);
  }

  /** Empty pkgfile output gives an empty repository index. */
  lemma EmptyRepoIndex()
    ensures RepoFontIndex("") == Ok(map[])
  {
    assert Split("", '\n') == [""];
    assert ReadLines([""]) == [Blank];
  }

  /** A search that answers nothing for every name leaves both maps empty. */
  lemma SilentSearchReportsNothing(names: map<string, string>)
    ensures Proposals(names, _ => []) == map[]
    ensures Satisfactions(names, _ => []) == map[]
  {
  }

  /** A walk of one folder that is a candidate and whose family line exists
      yields that one name. */
  lemma SingleCandidate(f: Folder, flagged: set<string>, query: string -> string)
    requires IsCandidate(f, flagged) && Family(f, query).Some?
    ensures FontNames([f], flagged, query) == Ok(map[f.dir := Family(f, query).value])
  {
    assert [f][..0] == [];
  }

  /** With no repository fonts, one folder with a .ttf file and an fc-query
      answer whose second line is "open-sans", and an empty search response,
      the folder is queried, skipped, and nothing is reported. */
  lemma EmptyResponseEndToEnd()
    ensures Pipeline("", [Folder("fonts/ofl/opensans", ["OpenSans.ttf"])],
                     _ => "open-sans\nopen-sans\n", _ => []) == Ok(Report(map[], map[]))
  {
    var f := Folder("fonts/ofl/opensans", ["OpenSans.ttf"]);
    var query: string -> string := _ => "open-sans\nopen-sans\n";
    EmptyRepoIndex();
    var flagged := Collisions(GoogleIndex([f]), map[]);
    assert flagged == {};
    assert HasTtf(f.files) by {
      assert IsTtf("OpenSans.ttf");
    }
    SecondLineIsFamilyLine("open-sans\nopen-sans\n", "open-sans", "open-sans", "\n");
    SingleCandidate(f, flagged, query);
    SilentSearchReportsNothing(FontNames([f], flagged, query).value);
  }
}
