/** The Google Fonts side of main.py: the folder index (fetch_google_fonts, lines
    44-55), the collision loop of the main block (lines 118-123) and the choice of
    the folders whose family name is queried (fetch_google_font_names, lines
    61-72). The walk of the cloned repository is an input. */
module GoogleFonts {
  import opened Wrappers
  import opened Failures
  import opened Text

  /** One step of the walk: a directory (os.walk's root) and the names of the
      files directly in it. */
  datatype Folder = Folder(dir: string, files: seq<string>)

  /** fnmatch(file, '*.ttf'). */
  predicate IsTtf(file: string)
  {
    EndsWith(file, ".ttf")
  }

  /** Some file of the folder matches '*.ttf'. */
  predicate HasTtf(files: seq<string>)
    decreases |files|
  {
    files != [] && (IsTtf(files[0]) || HasTtf(files[1..]))
  }

  /** HasTtf holds iff some file matches. */
  lemma {:induction false} HasTtfAt(files: seq<string>)
    ensures HasTtf(files) <==> exists k :: 0 <= k < |files| && IsTtf(files[k])
    decreases |files|
  {
    if files != [] {
      HasTtfAt(files[1..]);
      assert forall k | 1 <= k < |files| :: files[1..][k - 1] == files[k];
    }
  }

  /** root.rpartition('/')[-1]. */
  function BaseName(dir: string): string
  {
    AfterLast(dir, '/')
  }

  // ---------------------------------------------------------------- folder index

  /** The folder index after the given part of the walk: a folder with a .ttf
      file records its base name, overwriting any earlier folder of that name. */
  function GoogleIndex(walk: seq<Folder>): map<string, string>
    decreases |walk|
  {
    if walk == [] then map[]
    else
      var f := walk[|walk| - 1];
      var index := GoogleIndex(walk[..|walk| - 1]);
      if HasTtf(f.files) then index[BaseName(f.dir) := f.dir] else index
  }

  /** Folder i is the last folder with a .ttf file whose base name is k. */
  predicate LastWithBase(walk: seq<Folder>, i: nat, k: string)
  {
    && i < |walk| && HasTtf(walk[i].files) && BaseName(walk[i].dir) == k
    && forall j | i < j < |walk| :: !(HasTtf(walk[j].files) && BaseName(walk[j].dir) == k)
  }

  lemma LastWithBaseExtend(walk: seq<Folder>, i: nat, k: string)
    requires walk != [] && LastWithBase(walk[..|walk| - 1], i, k)
    requires !(HasTtf(walk[|walk| - 1].files) && BaseName(walk[|walk| - 1].dir) == k)
    ensures LastWithBase(walk, i, k)
  {
    var init := walk[..|walk| - 1];
    assert init[i] == walk[i];
    forall j | i < j < |walk|
      ensures !(HasTtf(walk[j].files) && BaseName(walk[j].dir) == k)
    {
      if j < |init| {
        assert init[j] == walk[j];
      }
    }
  }

  /** The index has an entry for k iff some folder with a .ttf file has base name k. */
  lemma {:induction false} GoogleIndexKeys(walk: seq<Folder>, k: string)
    ensures k in GoogleIndex(walk) <==>
              exists i :: 0 <= i < |walk| && HasTtf(walk[i].files) && BaseName(walk[i].dir) == k
    decreases |walk|
  {
    if walk != [] {
      var init := walk[..|walk| - 1];
      GoogleIndexKeys(init, k);
      assert forall i | 0 <= i < |init| :: init[i] == walk[i];
    }
  }

  /** Last write wins: k maps to the last folder with a .ttf file and base name k. */
  lemma {:induction false} GoogleIndexLastWins(walk: seq<Folder>, i: nat, k: string)
    requires LastWithBase(walk, i, k)
    ensures k in GoogleIndex(walk) && GoogleIndex(walk)[k] == walk[i].dir
    decreases |walk|
  {
    var init := walk[..|walk| - 1];
    if i < |init| {
      assert forall j | i < j < |init| :: init[j] == walk[j];
      GoogleIndexLastWins(init, i, k);
    }
  }

  /** Every entry comes from the last folder with that base name; in particular
      the key of an entry is the base name of its path. */
  lemma {:induction false} GoogleIndexValues(walk: seq<Folder>, k: string)
    requires k in GoogleIndex(walk)
    ensures exists i: nat :: LastWithBase(walk, i, k) && GoogleIndex(walk)[k] == walk[i].dir
    ensures BaseName(GoogleIndex(walk)[k]) == k
    decreases |walk|
  {
    var init := walk[..|walk| - 1];
    var f := walk[|walk| - 1];
    if HasTtf(f.files) && BaseName(f.dir) == k {
      assert LastWithBase(walk, |walk| - 1, k);
    } else {
      assert GoogleIndex(walk)[k] == GoogleIndex(init)[k];
      GoogleIndexValues(init, k);
      var i: nat :| LastWithBase(init, i, k) && GoogleIndex(init)[k] == init[i].dir;
      LastWithBaseExtend(walk, i, k);
    }
  }

  /** The walk loop of fetch_google_fonts: the first .ttf file of a folder
      records it and ends the scan of that folder. */
  method FetchGoogleFonts(walk: seq<Folder>) returns (fonts: map<string, string>)
    ensures fonts == GoogleIndex(walk)
  {
    fonts := map[];
    var i := 0;
    while i < |walk|
      invariant 0 <= i <= |walk|
      invariant fonts == GoogleIndex(walk[..i])
    {
      var root, files := walk[i].dir, walk[i].files;
      assert walk[..i + 1][..i] == walk[..i];
      ghost var before := fonts;
      if files != [] {
        var j := 0;
        while j < |files|
          invariant 0 <= j <= |files|
          invariant forall k | 0 <= k < j :: !IsTtf(files[k])
          invariant fonts == before
        {
          if IsTtf(files[j]) {
            fonts := fonts[BaseName(root) := root];
            break;
          }
          j := j + 1;
        }
      }
      HasTtfAt(files);
      assert fonts == if HasTtf(files) then before[BaseName(root) := root] else before;
      i := i + 1;
    }
    assert walk[..i] == walk;
  }

  // ---------------------------------------------------------------- collisions

  /** The flagged set: the path of every indexed folder whose base name is also a
      name in the repository index. It holds folder paths, not package names. */
  function Collisions(google: map<string, string>, repo: map<string, string>): set<string>
  {
    set n | n in google && n in repo :: google[n]
  }

  /** A path is flagged iff its base name is in the repository index and it is the
      last folder with a .ttf file of that base name. */
  lemma FlaggedFolders(walk: seq<Folder>, repo: map<string, string>, p: string)
    ensures p in Collisions(GoogleIndex(walk), repo) <==>
              BaseName(p) in repo && exists i: nat :: LastWithBase(walk, i, BaseName(p)) && walk[i].dir == p
  {
    var google := GoogleIndex(walk);
    if p in Collisions(google, repo) {
      var n :| n in google && n in repo && google[n] == p;
      GoogleIndexValues(walk, n);
      assert BaseName(p) == n;
    }
    if BaseName(p) in repo && exists i: nat :: LastWithBase(walk, i, BaseName(p)) && walk[i].dir == p {
      var i: nat :| LastWithBase(walk, i, BaseName(p)) && walk[i].dir == p;
      GoogleIndexLastWins(walk, i, BaseName(p));
      assert google[BaseName(p)] == p;
    }
  }

  /** The flagged set holds the folder's path: a repository font "roboto" and a
      folder "fonts/ofl/roboto" flag the path, not the repository package. */
  lemma CollisionFlagsPath()
    ensures Collisions(map["roboto" := "fonts/ofl/roboto"], map["roboto" := "ttf-roboto"])
            == {"fonts/ofl/roboto"}
  {
    var google := map["roboto" := "fonts/ofl/roboto"];
    assert "roboto" in google;
  }

  /** The collision loop of the main block (lines 120-123). */
  method FlagCollisions(google: map<string, string>, repo: map<string, string>)
    returns (flagged: set<string>)
    ensures flagged == Collisions(google, repo)
  {
    flagged := {};
    var todo := google.Keys;
    while todo != {}
      invariant todo <= google.Keys
      invariant flagged == set n | n in google && n !in todo && n in repo :: google[n]
      decreases |todo|
    {
      var googleFontName :| googleFontName in todo;
      if googleFontName in repo {
        flagged := flagged + {google[googleFontName]};
      }
      todo := todo - {googleFontName};
    }
  }

  // ---------------------------------------------------------------- candidate folders

  /** The index of the first .ttf file of a folder. */
  function FirstTtf(files: seq<string>): (k: nat)
    requires HasTtf(files)
    ensures k < |files| && IsTtf(files[k])
    ensures forall j | 0 <= j < k :: !IsTtf(files[j])
    decreases |files|
  {
    if IsTtf(files[0]) then 0 else 1 + FirstTtf(files[1..])
  }

  /** The path handed to fc-query: root + '/' + file (os.path.abspath is left out). */
  function QueryPath(dir: string, file: string): string
  {
    dir + "/" + file
  }

  /** exec_cmd(cmd).split('\n')[1]: the second line of the fc-query output, or
      None where Python raises IndexError. */
  function FamilyLine(output: string): Option<string>
  {
    var lines := Split(output, '\n');
    if |lines| < 2 then None else Some(lines[1])
  }

  /** The family line exists iff the output holds a newline. */
  lemma FamilyLineFound(output: string)
    ensures FamilyLine(output).Some? <==> Count(output, '\n') >= 1
  {
    SplitCount(output, '\n');
  }

  /** output is a first line a, a newline, v, then either the end or a newline. */
  predicate SecondLineAt(output: string, a: string, v: string, b: string)
  {
    && '\n' !in a && '\n' !in v && (b == [] || b[0] == '\n')
    && output == a + "\n" + v + b
  }

  /** The family line is the text between the first newline and the next one
      (or the end). */
  lemma FamilyLineIsSecondLine(output: string)
    requires FamilyLine(output).Some?
    ensures exists a, b :: SecondLineAt(output, a, FamilyLine(output).value, b)
  {
    var lines := Split(output, '\n');
    SplitJoin(output, '\n');
    JoinSecond(lines, '\n');
    assert lines[0] in lines && lines[1] in lines;
    var b := if |lines| == 2 then "" else "\n" + Join(lines[2..], '\n');
    assert output == lines[0] + "\n" + lines[1] + b;
    assert SecondLineAt(output, lines[0], lines[1], b);
  }

  /** Conversely, text that sits between the first newline and the next one (or
      the end) is the family line. */
  lemma SecondLineIsFamilyLine(output: string, a: string, v: string, b: string)
    requires SecondLineAt(output, a, v, b)
    ensures FamilyLine(output) == Some(v)
  {
    var t := "\n" + v + b;
    assert output == a + t;
    SplitPrefix(a, t, '\n');
    assert t[1..] == v + b;
    assert Split(t, '\n') == [""] + Split(v + b, '\n');
    SplitPrefix(v, b, '\n');
    assert Split(b, '\n')[0] == "";
    assert Split(v + b, '\n')[0] == v;
    assert Split(output, '\n')[1] == Split(t, '\n')[1];
  }

  /** The folder is queried: it has a .ttf file and its path is not flagged. */
  predicate IsCandidate(f: Folder, flagged: set<string>)
  {
    HasTtf(f.files) && f.dir !in flagged
  }

  /** The family name fc-query reports for the first .ttf file of the folder. */
  function Family(f: Folder, query: string -> string): Option<string>
    requires HasTtf(f.files)
  {
    FamilyLine(query(QueryPath(f.dir, f.files[FirstTtf(f.files)])))
  }

  /** fetch_google_font_names after the given part of the walk: every candidate
      folder maps to its family name, or the run stops at the first candidate
      whose fc-query output has no second line. */
  function FontNames(walk: seq<Folder>, flagged: set<string>, query: string -> string)
    : Result<map<string, string>, Failure>
    decreases |walk|
  {
    if walk == [] then Ok(map[])
    else match FontNames(walk[..|walk| - 1], flagged, query)
      case Err(e) => Err(e)
      case Ok(names) =>
        var f := walk[|walk| - 1];
        if !IsCandidate(f, flagged) then Ok(names)
        else match Family(f, query)
          case None => Err(NoFamilyLine(f.dir))
          case Some(n) => Ok(names[f.dir := n])
  }

  /** Once a folder fails, later folders change nothing: the run has stopped. */
  lemma {:induction false} FontNamesStops(walk: seq<Folder>, more: seq<Folder>,
                                          flagged: set<string>, query: string -> string)
    requires FontNames(walk, flagged, query).Err?
    ensures FontNames(walk + more, flagged, query) == FontNames(walk, flagged, query)
    decreases |more|
  {
    if more == [] {
      assert walk + more == walk;
    } else {
      var all := walk + more;
      FontNamesStops(walk, more[..|more| - 1], flagged, query);
      assert all[..|all| - 1] == walk + more[..|more| - 1];
    }
  }

  /** The names are found iff every candidate folder has a family line. */
  lemma {:induction false} FontNamesOk(walk: seq<Folder>, flagged: set<string>, query: string -> string)
    ensures FontNames(walk, flagged, query).Ok? <==>
              forall i | 0 <= i < |walk| && IsCandidate(walk[i], flagged) :: Family(walk[i], query).Some?
    decreases |walk|
  {
    if walk != [] {
      var init := walk[..|walk| - 1];
      FontNamesOk(init, flagged, query);
      assert forall i | 0 <= i < |init| :: init[i] == walk[i];
    }
  }

  /** The run stops at the first candidate folder without a family line. */
  lemma FontNamesFirstFailure(walk: seq<Folder>, flagged: set<string>, query: string -> string, i: nat)
    requires i < |walk| && IsCandidate(walk[i], flagged) && Family(walk[i], query).None?
    requires forall j | 0 <= j < i && IsCandidate(walk[j], flagged) :: Family(walk[j], query).Some?
    ensures FontNames(walk, flagged, query) == Err(NoFamilyLine(walk[i].dir))
  {
    var init := walk[..i];
    FontNamesOk(init, flagged, query);
    assert walk[..i + 1][..i] == init;
    FontNamesStops(walk[..i + 1], walk[i + 1..], flagged, query);
    assert walk[..i + 1] + walk[i + 1..] == walk;
  }

  /** The selected folders are exactly the folders with a .ttf file whose path is
      not flagged. */
  lemma {:induction false} FontNamesKeys(walk: seq<Folder>, flagged: set<string>,
                                         query: string -> string, p: string)
    requires FontNames(walk, flagged, query).Ok?
    ensures p in FontNames(walk, flagged, query).value <==>
              exists i :: 0 <= i < |walk| && walk[i].dir == p && IsCandidate(walk[i], flagged)
    decreases |walk|
  {
    if walk != [] {
      var init := walk[..|walk| - 1];
      FontNamesKeys(init, flagged, query, p);
      assert forall i | 0 <= i < |init| :: init[i] == walk[i];
    }
  }

  /** A selected folder maps to the family line of the fc-query output for its
      first .ttf file (taken from its last appearance in the walk). */
  lemma {:induction false} FontNamesValue(walk: seq<Folder>, flagged: set<string>,
                                          query: string -> string, i: nat)
    requires FontNames(walk, flagged, query).Ok?
    requires i < |walk| && IsCandidate(walk[i], flagged)
    requires forall j | i < j < |walk| :: walk[j].dir == walk[i].dir ==> !HasTtf(walk[j].files)
    ensures walk[i].dir in FontNames(walk, flagged, query).value
    ensures Family(walk[i], query).Some?
    ensures FontNames(walk, flagged, query).value[walk[i].dir] == Family(walk[i], query).value
    decreases |walk|
  {
    var init := walk[..|walk| - 1];
    if i < |init| {
      assert init[i] == walk[i];
      forall j | i < j < |init| ensures init[j].dir == init[i].dir ==> !HasTtf(init[j].files) {
        assert init[j] == walk[j];
      }
      FontNamesValue(init, flagged, query, i);
    }
  }

  /** What one folder contributes to the names: nothing when it is not a
      candidate, its family line when it is one, or the failure when the
      fc-query output has no second line. */
  function FolderStep(f: Folder, flagged: set<string>, query: string -> string)
    : Result<Option<string>, Failure>
  {
    if !IsCandidate(f, flagged) then Ok(None)
    else match Family(f, query)
      case None => Err(NoFamilyLine(f.dir))
      case Some(n) => Ok(Some(n))
  }

  /** The names after one more folder, given the names before it and what the
      folder contributes. */
  function AddFolder(names: map<string, string>, f: Folder, step: Result<Option<string>, Failure>)
    : Result<map<string, string>, Failure>
  {
    match step
    case Err(e) => Err(e)
    case Ok(None) => Ok(names)
    case Ok(Some(n)) => Ok(names[f.dir := n])
  }

  /** The names after one more folder follow from the names before it and what
      that folder contributes. */
  lemma FontNamesStep(walk: seq<Folder>, flagged: set<string>, query: string -> string, i: nat)
    requires i < |walk| && FontNames(walk[..i], flagged, query).Ok?
    ensures FontNames(walk[..i + 1], flagged, query) ==
              AddFolder(FontNames(walk[..i], flagged, query).value, walk[i], FolderStep(walk[i], flagged, query))
  {
    assert walk[..i + 1][..i] == walk[..i];
    assert walk[..i + 1][i] == walk[i];
  }

  /** One turn of the walk loop: a failing folder ends the run with its
      failure, any other folder extends the names by what it contributes. */
  lemma FontNamesNext(walk: seq<Folder>, flagged: set<string>, query: string -> string, i: nat,
                      names: map<string, string>, step: Result<Option<string>, Failure>)
    requires i < |walk| && FontNames(walk[..i], flagged, query) == Ok(names)
    requires step == FolderStep(Folder(walk[i].dir, walk[i].files), flagged, query)
    ensures step.Err? ==> FontNames(walk, flagged, query) == Err(step.error)
    ensures step.Ok? ==>
              FontNames(walk[..i + 1], flagged, query) ==
              Ok(if step.value.Some? then names[walk[i].dir := step.value.value] else names)
  {
    assert walk[i] == Folder(walk[i].dir, walk[i].files);
    FontNamesStep(walk, flagged, query, i);
    if step.Err? {
      FontNamesStops(walk[..i + 1], walk[i + 1..], flagged, query);
      assert walk[..i + 1] + walk[i + 1..] == walk;
    }
  }

  /** The inner loop of fetch_google_font_names for one folder (main.py lines
      64-70): the first .ttf file is queried unless the folder's path is
      flagged, and the search stops there. */
  method QueryFolder(root: string, files: seq<string>, flagged: set<string>, query: string -> string)
    returns (r: Result<Option<string>, Failure>)
    ensures r == FolderStep(Folder(root, files), flagged, query)
  {
    HasTtfAt(files);
    if files != [] {
      var j := 0;
      while j < |files|
        invariant 0 <= j <= |files|
        invariant root !in flagged ==> forall k | 0 <= k < j :: !IsTtf(files[k])
      {
        if IsTtf(files[j]) {
          var cmd := QueryPath(root, files[j]);
          if root !in flagged {
            assert FirstTtf(files) == j;
            var lines := Split(query(cmd), '\n');
            if |lines| < 2 {
              return Err(NoFamilyLine(root));
            }
            return Ok(Some(lines[1]));
          }
        }
        j := j + 1;
      }
    }
    return Ok(None);
  }

  /** The walk loop of fetch_google_font_names: every folder adds its family
      line, if it has one to add; a failed query ends the run. */
  method FetchGoogleFontNames(walk: seq<Folder>, flagged: set<string>, query: string -> string)
    returns (r: Result<map<string, string>, Failure>)
    ensures r == FontNames(walk, flagged, query)
  {
    var fontNames: map<string, string> := map[];
    var i := 0;
    while i < |walk|
      invariant 0 <= i <= |walk|
      invariant FontNames(walk[..i], flagged, query) == Ok(fontNames)
    {
      var root := walk[i].dir;
      var step := QueryFolder(root, walk[i].files, flagged, query);
      FontNamesNext(walk, flagged, query, i, fontNames, step);
      if step.Err? {
        return Err(step.error);
      }
      if step.value.Some? {
        fontNames := fontNames[root := step.value.value];
      }
      i := i + 1;
    }
    assert walk[..i] == walk;
    return Ok(fontNames);
  }
}
