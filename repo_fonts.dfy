/** The repository font index (fetch_repo_fonts, main.py lines 26-42): the lines
    printed by `pkgfile -rv`, each "<repo>/<pkg> <version>\t<path>", become a map
    from normalised font file name to the package that provides it. */
module RepoFonts {
  import opened Wrappers
  import opened Failures
  import opened Text

  /** Packages that are never considered (main.py lines 8-19). */
  const FontBlacklist: seq<string> := [
    "xorg-font-util",
    "xorg-fonts-100dpi",
    "xorg-fonts-75dpi",
    "xorg-fonts-encodings",
    "xorg-fonts-alias",
    "xorg-fonts-cyrillic",
    "artwiz-fonts",
    "xorg-fonts-misc",
    "xorg-fonts-type1",
    "wqy-bitmapfont",
    "wqy-microhei"
  ]

  /** One parsed line: the package and the normalised name of its font file. */
  datatype RepoFont = RepoFont(pkg: string, font: string)

  /** The body of the loop for a non-empty line (main.py lines 33-36). */
  function ParseLine(line: string): Result<RepoFont, Failure>
  {
    var fields := Split(line, '\t');
    if |fields| != 2 then Err(FieldCount(line, |fields|))
    else match PackageName(Strip(fields[0]))
      case None => Err(NoPackageName(line))
      case Some(pkg) => Ok(RepoFont(pkg, Normalise(AfterLast(fields[1], '/'))))
  }

  /** The split into fields fails exactly when the line does not hold one tab. */
  lemma ParseLineFieldCount(line: string)
    ensures (ParseLine(line).Err? && ParseLine(line).error.FieldCount?) <==> Count(line, '\t') != 1
  {
    SplitCount(line, '\t');
  }

  /** A line "a\tb" parses iff some '/' in the stripped first field is followed
      by whitespace; the package is then the text between the first '/' and the
      last whitespace, and the font is the normalised name of the file that ends
      the path b. */
  lemma ParseLineOfFields(a: string, b: string)
    requires '\t' !in a && '\t' !in b && '\n' !in a
    ensures ParseLine(a + "\t" + b).Ok? <==> SlashThenSpace(Strip(a), 0)
    ensures ParseLine(a + "\t" + b).Ok? ==>
              && FirstSlashToLastSpace(Strip(a), 0, ParseLine(a + "\t" + b).value.pkg)
              && ParseLine(a + "\t" + b).value.font == Normalise(AfterLast(b, '/'))
  {
    JoinSplit([a, b], '\t');
    assert Join([a, b], '\t') == a + "\t" + b;
    PackageNameOneLine(Strip(a));
  }

  /** What one line of the pkgfile output amounts to. */
  datatype Line = Blank | Parsed(entry: RepoFont) | Malformed(failure: Failure)

  function ReadLine(line: string): Line
  {
    if line == "" then Blank
    else match ParseLine(line)
      case Err(e) => Malformed(e)
      case Ok(f) => Parsed(f)
  }

  function ReadLines(lines: seq<string>): (ls: seq<Line>)
    ensures |ls| == |lines|
    ensures forall i | 0 <= i < |lines| :: ls[i] == ReadLine(lines[i])
  {
    seq(|lines|, i requires 0 <= i < |lines| => ReadLine(lines[i]))
  }

  /** Exactly the empty lines of the output are blank. */
  lemma BlankIffEmpty(line: string)
    ensures ReadLine(line) == Blank <==> line == ""
  {
  }

  /** The line gives its package the normalised name k. */
  predicate Claims(l: Line, k: string)
  {
    l.Parsed? && l.entry.pkg !in FontBlacklist && l.entry.font == k
  }

  /** One turn of the loop: empty lines are skipped, a blacklisted package is
      ignored, and a name already in the index keeps its package. */
  function AddLine(index: map<string, string>, l: Line): Result<map<string, string>, Failure>
  {
    match l
    case Blank => Ok(index)
    case Malformed(e) => Err(e)
    case Parsed(f) =>
      Ok(if f.pkg !in FontBlacklist && f.font !in index then index[f.font := f.pkg] else index)
  }

  /** The index after the given lines, or the failure of the first bad line. */
  function BuildIndex(ls: seq<Line>): Result<map<string, string>, Failure>
    decreases |ls|
  {
    if ls == [] then Ok(map[])
    else match BuildIndex(ls[..|ls| - 1])
      case Err(e) => Err(e)
      case Ok(index) => AddLine(index, ls[|ls| - 1])
  }

  /** The index after one more line is the index before it with that line
      added. */
  lemma BuildIndexStep(ls: seq<Line>, i: nat)
    requires i < |ls| && BuildIndex(ls[..i]).Ok?
    ensures BuildIndex(ls[..i + 1]) == AddLine(BuildIndex(ls[..i]).value, ls[i])
  {
    assert ls[..i + 1][..i] == ls[..i];
    assert ls[..i + 1][i] == ls[i];
  }

  /** A blank line anywhere among the lines changes nothing: empty lines are
      skipped. */
  lemma {:induction false} BlankSkipped(ls1: seq<Line>, ls2: seq<Line>)
    ensures BuildIndex(ls1 + [Blank] + ls2) == BuildIndex(ls1 + ls2)
    decreases |ls2|
  {
    if ls2 == [] {
      assert (ls1 + [Blank] + ls2)[..|ls1|] == ls1;
      assert ls1 + ls2 == ls1;
    } else {
      var init := ls2[..|ls2| - 1];
      var last := ls2[|ls2| - 1];
      BlankSkipped(ls1, init);
      assert (ls1 + [Blank] + ls2)[..|ls1| + |ls2|] == ls1 + [Blank] + init;
      assert (ls1 + ls2)[..|ls1| + |ls2| - 1] == ls1 + init;
    }
  }

  /** fetch_repo_fonts on the text printed by pkgfile. */
  function RepoFontIndex(output: string): Result<map<string, string>, Failure>
  {
    BuildIndex(ReadLines(Split(output, '\n')))
  }

  /** Once a line fails, later lines change nothing: the run has stopped. */
  lemma {:induction false} BuildIndexStops(ls: seq<Line>, more: seq<Line>)
    requires BuildIndex(ls).Err?
    ensures BuildIndex(ls + more) == BuildIndex(ls)
    decreases |more|
  {
    if more == [] {
      assert ls + more == ls;
    } else {
      var all := ls + more;
      BuildIndexStops(ls, more[..|more| - 1]);
      assert all[..|all| - 1] == ls + more[..|more| - 1];
    }
  }

  /** The index is built iff no line is malformed. */
  lemma {:induction false} BuildIndexOk(ls: seq<Line>)
    ensures BuildIndex(ls).Ok? <==> forall i | 0 <= i < |ls| :: !ls[i].Malformed?
    decreases |ls|
  {
    if ls != [] {
      var init := ls[..|ls| - 1];
      BuildIndexOk(init);
      assert forall i | 0 <= i < |init| :: init[i] == ls[i];
    }
  }

  /** The run stops with the failure of the first malformed line. */
  lemma BuildIndexFirstFailure(ls: seq<Line>, i: nat)
    requires i < |ls| && ls[i].Malformed?
    requires forall j | 0 <= j < i :: !ls[j].Malformed?
    ensures BuildIndex(ls) == Err(ls[i].failure)
  {
    var init := ls[..i];
    BuildIndexOk(init);
    assert ls[..i + 1][..i] == init;
    BuildIndexStops(ls[..i + 1], ls[i + 1..]);
    assert ls[..i + 1] + ls[i + 1..] == ls;
  }

  /** The keys of the index are exactly the names some line claims. */
  lemma {:induction false} IndexKeys(ls: seq<Line>, k: string)
    requires BuildIndex(ls).Ok?
    ensures k in BuildIndex(ls).value <==> exists i :: 0 <= i < |ls| && Claims(ls[i], k)
    decreases |ls|
  {
    if ls != [] {
      var init := ls[..|ls| - 1];
      IndexKeys(init, k);
      assert forall i | 0 <= i < |init| :: init[i] == ls[i];
      if k in BuildIndex(ls).value && k !in BuildIndex(init).value {
        assert Claims(ls[|ls| - 1], k);
      }
    }
  }

  /** First write wins: a name maps to the package of the first line that claims it. */
  lemma {:induction false} IndexFirstWins(ls: seq<Line>, i: nat, k: string)
    requires BuildIndex(ls).Ok?
    requires i < |ls| && Claims(ls[i], k)
    requires forall j | 0 <= j < i :: !Claims(ls[j], k)
    ensures k in BuildIndex(ls).value
    ensures BuildIndex(ls).value[k] == ls[i].entry.pkg
    decreases |ls|
  {
    var init := ls[..|ls| - 1];
    assert forall j | 0 <= j < |init| :: init[j] == ls[j];
    if i < |init| {
      IndexFirstWins(init, i, k);
    } else {
      IndexKeys(init, k);
    }
  }

  /** No blacklisted package is ever a value of the index. */
  lemma {:induction false} IndexNoBlacklisted(ls: seq<Line>)
    requires BuildIndex(ls).Ok?
    ensures forall k | k in BuildIndex(ls).value :: BuildIndex(ls).value[k] !in FontBlacklist
    decreases |ls|
  {
    if ls != [] {
      IndexNoBlacklisted(ls[..|ls| - 1]);
    }
  }

  /** Later lines never change an entry that is already there. */
  lemma {:induction false} IndexStable(ls: seq<Line>, more: seq<Line>)
    requires BuildIndex(ls + more).Ok?
    ensures BuildIndex(ls).Ok?
    ensures forall k | k in BuildIndex(ls).value ::
              k in BuildIndex(ls + more).value
              && BuildIndex(ls + more).value[k] == BuildIndex(ls).value[k]
    decreases |more|
  {
    if more == [] {
      assert ls + more == ls;
    } else {
      var all := ls + more;
      assert all[..|all| - 1] == ls + more[..|more| - 1];
      IndexStable(ls, more[..|more| - 1]);
    }
  }

  /** The loop of fetch_repo_fonts over the lines of the pkgfile output. */
  method FetchRepoFonts(output: string) returns (r: Result<map<string, string>, Failure>)
    ensures r == RepoFontIndex(output)
  {
    var fonts := Split(output, '\n');
    ghost var ls := ReadLines(fonts);
    var repoFonts: map<string, string> := map[];
    var i := 0;
    while i < |fonts|
      invariant 0 <= i <= |fonts|
      invariant BuildIndex(ls[..i]) == Ok(repoFonts)
    {
      var font := fonts[i];
      assert ls[i] == ReadLine(font);
      BuildIndexStep(ls, i);
      if font != "" {
        match ParseLine(font)
        case Err(e) =>
          BuildIndexStops(ls[..i + 1], ls[i + 1..]);
          assert ls[..i + 1] + ls[i + 1..] == ls;
          return Err(e);
        case Ok(f) =>
          if f.pkg !in FontBlacklist {
            if f.font !in repoFonts {
              repoFonts := repoFonts[f.font := f.pkg];
            }
          }
      }
      i := i + 1;
    }
    assert ls[..i] == ls;
    return Ok(repoFonts);
  }
}
