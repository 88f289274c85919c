# font-fengshui in Dafny

font-fengshui (`main.py`) looks for Google Fonts font families that Arch Linux has
no package for. It works in four steps:

1. **Repository font index.** It reads the `pkgfile -rv` listing of packages that
   ship `.ttf` files under `/usr/share/fonts`. From it, it builds a map from each
   normalised font file name to the package that first provides it. Blacklisted
   packages are skipped.
2. **Folder index.** It walks a clone of the Google Fonts repository and indexes
   every folder that holds a `.ttf` file by the folder's base name. A later folder
   with the same base name overwrites an earlier one.
3. **Collisions and family names.**
   - It flags every indexed folder whose base name is also in the repository index.
   - For each folder that is not flagged, it asks `fc-query` for the family name of
     the folder's first `.ttf` file. It takes the second line of the answer.
4. **AUR lookup.** It asks `aursearch` about each family name and decides one of
   three things:
   - propose a new package `<name>-fonts`;
   - report the existing packages that may already provide the font;
   - skip the folder, when the response is empty.

The model has one module per stage, plus shared modules:

- `Text` models the Python string operations the program relies on:
  - `str.split` with a one-character separator, and the join that inverts it;
  - `str.strip`, `str.rpartition('/')[-1]` and `str.lower`;
  - the regular expressions `/(.*)\s` and `([a-zA-Z]*)`;
  - substring tests;
  - `fnmatch` against `*.ttf`.
- `RepoFonts`, `GoogleFonts` and `AurFonts` model the stages. Each stage has two
  parts:
  - a specification function over the whole input (`RepoFontIndex`,
    `GoogleIndex`, `Collisions`, `FontNames`, `Proposals`/`Satisfactions`);
  - a method with the source's loop, proved equal to that function.
- `FontFengshui` chains the stages (`Pipeline`, `Run`).

Inputs that come from other programs or from the file system are parameters:

- the `pkgfile` output is a string;
- the walk of the clone is a sequence of `Folder(dir, files)`;
- `fc-query` is a function from a file path to its output;
- `aursearch`, already parsed from JSON, is a function from a name to a list of
  `SearchResult(resultCount, names)`.

Where Python raises an exception, the model returns a `Failure` value instead:

- `ValueError`: the line does not have exactly two tab-separated fields.
- `AttributeError`: the package regex does not match.
- `IndexError`: the `fc-query` output has no second line.

**Flagged folders are paths.** The collision loop (main.py:118-123) adds
`google_font_dict[google_font_name]` to the flagged set. That is the folder's
path, not the name of the colliding repository package, although the comment on
line 118 says the set holds packages. `fetch_google_font_names` then tests folder
paths against this set. The model follows the code: `Collisions` holds paths.
Two consequences follow from `FlaggedFolders`:

- A folder is flagged only if it is the last folder with a `.ttf` file of its
  base name.
- An earlier folder that shares that base name is not flagged, so it is still
  queried.

## Model

| member | source | states |
|---|---|---|
| Text.Split | main.py:28 | `str.split` on one separator gives at least one part, and no part contains the separator |
| Text.SplitJoin | main.py:28 | joining the parts of a split with the separator gives back the original string |
| Text.JoinSplit | main.py:28 | splitting a join of separator-free parts gives back the parts |
| Text.SplitCount | main.py:33 | a split has exactly one more part than the string has separators, so `pkgname, path = font.split('\t')` succeeds iff the line has exactly one tab |
| Text.TrimStart | main.py:34 | leading whitespace removal keeps a suffix, drops only whitespace and stops at a non-whitespace character |
| Text.TrimEnd | main.py:34 | trailing whitespace removal keeps a prefix, drops only whitespace and stops at a non-whitespace character |
| Text.Strip | main.py:34 | `strip()` gives a slice of the input: everything outside it is whitespace, and its ends are not |
| Text.AfterLastSuffix | main.py:35 | `rpartition('/')[-1]` is a suffix with no '/' in it; when shorter than the input, a '/' comes right before it |
| Text.AfterLastFree | main.py:35 | by induction on the name: `rpartition('/')[-1]` is the longest '/'-free suffix (`FreeSuffix`), growing by one character at a time until a '/' is met |
| Text.LowerChar | main.py:36 | lowering one character yields no ASCII capital; an ASCII letter becomes the one a–z letter at the same place in the alphabet; U+212A (KELVIN SIGN) becomes "k" and U+0130 becomes "i" followed by U+0307, as Python's full case mapping does; any other character is kept |
| Text.Lower | main.py:36 | `lower()` yields no ASCII capital |
| Text.LowerAppend | main.py:36 | `lower()` of a concatenation is the concatenation of the lowered parts |
| Text.LowerPointwise | main.py:36 | without U+212A and U+0130, `lower()` keeps the length, lowers each ASCII letter in place and keeps every other character |
| Text.LowerOfLowerWord | main.py:36 | lowering a string of lower-case ASCII letters leaves it unchanged |
| Text.LetterPrefix | main.py:36 | `([a-zA-Z]*)` matches the longest prefix made only of ASCII letters |
| Text.Normalise | main.py:36 | the normalised font name is lower-case letters only, is a prefix of the lowered file name, and stops at its first non-letter |
| Text.NormaliseIdempotent | main.py:36 | normalising a normalised name changes nothing |
| Text.LetterPrefixStops | main.py:36 | a run of letters followed by a non-letter or the end is exactly what `([a-zA-Z]*)` matches |
| Text.NormaliseLetters | main.py:35-36 | without U+212A and U+0130, the normalised name is as long as the file name's leading run of ASCII letters, and each of its characters is the lowered letter at that place |
| Text.NormaliseStopsAtDash | main.py:36 | a file name made of a word of letters, a dash and anything normalises to the lowered word |
| Text.NormaliseRoboto | main.py:36 | "Roboto-Regular.ttf" normalises to "roboto" |
| Text.LineEnd | main.py:34 | the end of the line that `.` may match: no newline before it, a newline or the end at it |
| Text.LastSpace | main.py:34 | the last whitespace character before a bound, or none |
| Text.SearchPackageOneLine | main.py:34 | from a start index on a line, the search for `/(.*)\s` succeeds iff a '/' is followed later by whitespace; the group runs from the first '/' to the last whitespace |
| Text.PackageNameOneLine | main.py:34 | `re.search(r'/(.*)\s', t)` on a one-line string matches iff some '/' has whitespace after it; the group is the text between the first '/' and the last whitespace |
| RepoFonts.ParseLineFieldCount | main.py:33 | a line fails with the field-count error iff it does not contain exactly one tab |
| RepoFonts.ParseLineOfFields | main.py:33-36 | a line `a\tb` parses iff the stripped `a` has a '/' followed by whitespace; the package is the regex group and the key is the normalised last path component of `b` |
| RepoFonts.BlankIffEmpty | main.py:32 | a line counts as blank exactly when it is the empty string |
| RepoFonts.BlankSkipped | main.py:32 | inserting a blank line anywhere leaves the index, and the error, unchanged |
| RepoFonts.BuildIndexStops | main.py:33-34 | after a malformed line, later lines change nothing: the exception ends the run |
| RepoFonts.BuildIndexOk | main.py:31-40 | the index is built iff no line is malformed |
| RepoFonts.BuildIndexFirstFailure | main.py:31-36 | the error reported is the one of the first malformed line |
| RepoFonts.IndexKeys | main.py:38-40 | a font name is in the index iff some line with a package outside the blacklist provides it |
| RepoFonts.IndexFirstWins | main.py:39-40 | the package recorded for a font name is that of the first line that provides it (first write wins) |
| RepoFonts.IndexNoBlacklisted | main.py:8-19 | no package in the index is on the blacklist |
| RepoFonts.IndexStable | main.py:39-40 | later lines never change or remove an entry already made |
| RepoFonts.FetchRepoFonts | main.py:26-42 | the loop over the output lines returns exactly the index function of the output, including its first error |
| GoogleFonts.HasTtfAt | main.py:50-52 | a folder has a `.ttf` file iff one of its file names ends in ".ttf" |
| GoogleFonts.GoogleIndexKeys | main.py:49-53 | a base name is in the folder index iff some folder with a `.ttf` file has that base name |
| GoogleFonts.GoogleIndexLastWins | main.py:53 | the path recorded for a base name is that of the last folder with a `.ttf` file of that name (last write wins) |
| GoogleFonts.GoogleIndexValues | main.py:53 | every recorded path belongs to the last folder of its base name, and its base name is its key |
| GoogleFonts.FetchGoogleFonts | main.py:48-55 | the walk loop, with its `break` after the first `.ttf` file, returns exactly the folder index of the walk |
| GoogleFonts.FlaggedFolders | main.py:120-123 | a path is flagged iff its base name is in the repository index and it is the last folder with a `.ttf` file of that base name |
| GoogleFonts.CollisionFlagsPath | main.py:123 | a collision on "roboto" flags the folder path, not the repository package |
| GoogleFonts.FlagCollisions | main.py:118-123 | the collision loop returns exactly the set of paths of indexed folders whose base name is a repository key |
| GoogleFonts.FirstTtf | main.py:65-66 | the file queried is the first `.ttf` file of the folder |
| GoogleFonts.FamilyLineFound | main.py:69 | `split('\n')[1]` exists iff the `fc-query` output holds a newline; otherwise it is the IndexError |
| GoogleFonts.FamilyLineIsSecondLine | main.py:69 | the family line is the text after the first newline, up to the next newline or the end |
| GoogleFonts.SecondLineIsFamilyLine | main.py:69 | conversely, the text between the first and the second newline is the family line |
| GoogleFonts.FontNamesStops | main.py:69 | once a query fails, later folders change nothing: the exception ends the run |
| GoogleFonts.FontNamesOk | main.py:63-70 | names are found iff every unflagged folder with a `.ttf` file gets a family line |
| GoogleFonts.FontNamesFirstFailure | main.py:63-69 | the error names the first queried folder whose output has no second line |
| GoogleFonts.FontNamesKeys | main.py:64-69 | a path gets a name iff it is a folder with a `.ttf` file that is not flagged |
| GoogleFonts.FontNamesValue | main.py:65-69 | the name of a path is the family line for the first `.ttf` file of its last folder |
| GoogleFonts.FontNamesNext | main.py:63-70 | a folder whose query fails ends the run with that failure; any other folder extends the names by its family line, if it is a candidate |
| GoogleFonts.QueryFolder | main.py:64-70 | the inner loop over a folder's files, which queries the first `.ttf` file unless the path is flagged, returns exactly what the folder contributes |
| GoogleFonts.FetchGoogleFontNames | main.py:61-72 | the walk loop returns exactly the names function of the walk, including its first error |
| AurFonts.Matching | main.py:96-101 | the packages kept are exactly the results that contain the font name and "ttf" or "font" |
| AurFonts.MatchingCount | main.py:96-101 | the kept list preserves multiplicity: a result appears as often as it matched |
| AurFonts.ScanResults | main.py:94-102 | the scan returns the kept list, and its flag holds iff some result is a potential match |
| AurFonts.Decide | main.py:83-107 | an empty response is skipped; zero results or no match proposes name + "-fonts"; otherwise the non-empty list of all matching packages, in result order, is reported |
| AurFonts.ProposalsSpec | main.py:80-105 | a folder gets a proposal iff it has a name and its response is non-empty with zero results or no match; the proposal is the name + "-fonts" |
| AurFonts.FetchAurFonts | main.py:78-109 | the loop over the names returns exactly the proposals and the reported matches of every folder |
| AurFonts.NoResultsProposes | main.py:90-91 | a zero result count proposes "roboto-fonts" |
| AurFonts.EmptyResponseSkips | main.py:83-86 | an empty JSON list leaves the folder out |
| AurFonts.KeywordMatchSatisfies | main.py:100-107 | "ttf-roboto-font" satisfies "roboto" |
| AurFonts.UnrelatedResultProposes | main.py:100-105 | a result that does not contain the name leads to a proposal |
| AurFonts.NoMatchProposes | main.py:104-105 | a single result that is not a potential match leads to a proposal |
| FontFengshui.Run | main.py:112-129 | the main block returns exactly the pipeline function of its inputs |
| FontFengshui.ReportedFoldersAreCandidates | main.py:118-126 | every reported folder is a walked folder with a `.ttf` file that is not flagged, and every proposal ends in "-fonts" |
| FontFengshui.CollidingFolderNotReported | main.py:118-126 | the last folder of a base name that the repository already provides is neither proposed nor reported |
| FontFengshui.EmptyRepoIndex | main.py:28-32 | empty `pkgfile` output gives an empty index |
| FontFengshui.SilentSearchReportsNothing | main.py:83-86 | if every response is empty, there are no proposals and no reports |
| FontFengshui.EmptyResponseEndToEnd | main.py:112-126 | one folder whose family is "open-sans", with an empty AUR response, gives an empty report |

## Left out

- Running the external programs is not modelled: `exec_cmd`, `subprocess`, and the UTF-8 decoding of their output. Their outputs are parameters.
- `git clone` is left out. `os.walk` is also left out: its walk is a parameter, and its `dirs` component is never used.
- main.py walks `fonts` twice (lines 49 and 63). The model takes both walks to yield the same sequence of folders, and feeds one `walk` to both `GoogleIndex` and `FontNames`.
- `os.path.abspath` is not modelled. The path given to `fc-query` is `root + '/' + file`.
- `json.loads` is left out, because it parses the response before the logic sees it. `int(result['resultcount'])` is taken as an already-parsed integer. Malformed JSON and missing keys are not modelled.
- The printed output is not modelled: the error lines, the "potentially satisfied" lines and the final listing. The packages that may satisfy a folder are returned as `satisfied` instead.
- Dictionary iteration order is not modelled, and neither is the resulting printing order. The maps and sets have no order, and no step depends on it.
- Text.Lower: lowers ASCII letters, U+212A (Kelvin sign) and U+0130. Every other character is left unchanged, which differs from Python's full Unicode table. Those two are the only code points whose lower case starts with an ASCII letter. So `Normalise` agrees with Python on every input, and only `Lower` itself differs.
- Text.Lower: its own contract says only that no ASCII capital remains. The letter-by-letter statement is the lemma `LowerPointwise`, together with `LowerAppend`.
- Text.IsSpace: uses Python's `isspace` set for `strip`. The same set stands for the regex `\s`.
- GoogleFonts.IsTtf: `fnmatch` on POSIX is case-sensitive and is modelled as a suffix test. Case folding on other platforms is not modelled.
- The `pkgfile -u` comment in the main block is not code and is not modelled.
