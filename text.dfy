/** The string operations of main.py, written out as functions: str.split with a
    one-character separator, str.strip, str.rpartition, str.lower, the `in`
    substring test, fnmatch '*.ttf', and the two regular expressions. */
module Text {
  import opened Wrappers

  /** Python's str.isspace for one code point; the regex class \s on str
      patterns and str.strip() use the same set. */
  predicate IsSpace(c: char)
  {
    || ('\t' <= c <= '\r')
    || ('\U{1C}' <= c <= '\U{1F}')
    || c == ' ' || c == '\U{85}' || c == '\U{A0}' || c == '\U{1680}'
    || ('\U{2000}' <= c <= '\U{200A}')
    || c == '\U{2028}' || c == '\U{2029}' || c == '\U{202F}' || c == '\U{205F}'
    || c == '\U{3000}'
  }

  predicate IsAsciiLetter(c: char)
  {
    'a' <= c <= 'z' || 'A' <= c <= 'Z'
  }

  /** The number of times c occurs in s. */
  function Count(s: string, c: char): nat
  {
    multiset(s)[c]
  }

  // ---------------------------------------------------------------- split

  /** s.split(sep) for a one-character separator: the pieces between separators,
      including empty ones, and always at least one. */
  function Split(s: string, sep: char): (parts: seq<string>)
    ensures |parts| >= 1
    ensures forall p | p in parts :: sep !in p
    decreases |s|
  {
    if s == [] then [""]
    else
      var rest := Split(s[1..], sep);
      if s[0] == sep then [""] + rest
      else [[s[0]] + rest[0]] + rest[1..]
  }

  /** sep.join(parts), the inverse of Split. */
  function Join(parts: seq<string>, sep: char): string
    requires |parts| >= 1
    decreases |parts|
  {
    if |parts| == 1 then parts[0] else parts[0] + [sep] + Join(parts[1..], sep)
  }

  lemma {:induction false} JoinCons(p: string, parts: seq<string>, sep: char)
    requires |parts| >= 1
    ensures Join([p + parts[0]] + parts[1..], sep) == p + Join(parts, sep)
  {
    var ps := [p + parts[0]] + parts[1..];
    assert ps[1..] == parts[1..];
  }

  /** Joining the pieces with the separator gives back the text. */
  /** A join of two or more parts is the first part, the separator, the second
      part, and then the rest, each after a separator. */
  lemma JoinSecond(parts: seq<string>, sep: char)
    requires |parts| >= 2
    ensures Join(parts, sep) ==
              parts[0] + [sep] + parts[1] + (if |parts| == 2 then [] else [sep] + Join(parts[2..], sep))
  {
    assert parts[1..][0] == parts[1];
    assert parts[1..][1..] == parts[2..];
  }

  lemma {:induction false} SplitJoin(s: string, sep: char)
    ensures Join(Split(s, sep), sep) == s
    decreases |s|
  {
    if s != [] {
      var rest := Split(s[1..], sep);
      SplitJoin(s[1..], sep);
      if s[0] == sep {
        assert ([""] + rest)[1..] == rest;
        assert s == [sep] + s[1..];
      } else {
        JoinCons([s[0]], rest, sep);
        assert s == [s[0]] + s[1..];
      }
    }
  }

  lemma {:induction false} SplitPrefix(p: string, t: string, sep: char)
    requires sep !in p
    ensures Split(p + t, sep) == [p + Split(t, sep)[0]] + Split(t, sep)[1..]
    decreases |p|
  {
    if p != [] {
      assert (p + t)[1..] == p[1..] + t;
      assert p[0] in p;
      SplitPrefix(p[1..], t, sep);
      assert [p[0]] + (p[1..] + Split(t, sep)[0]) == p + Split(t, sep)[0];
    } else {
      var parts := Split(t, sep);
      assert p + t == t;
      assert p + parts[0] == parts[0];
      assert parts == [parts[0]] + parts[1..];
    }
  }

  /** Splitting pieces that hold no separator, once joined, gives back the pieces. */
  lemma {:induction false} JoinSplit(parts: seq<string>, sep: char)
    requires |parts| >= 1
    requires forall p | p in parts :: sep !in p
    ensures Split(Join(parts, sep), sep) == parts
    decreases |parts|
  {
    assert parts[0] in parts;
    if |parts| == 1 {
      SplitPrefix(parts[0], "", sep);
      assert parts[0] + "" == parts[0];
    } else {
      var j := Join(parts[1..], sep);
      forall p | p in parts[1..] ensures sep !in p { assert p in parts; }
      JoinSplit(parts[1..], sep);
      assert parts[0] + [sep] + j == parts[0] + ([sep] + j);
      SplitPrefix(parts[0], [sep] + j, sep);
      assert ([sep] + j)[1..] == j;
      assert Split([sep] + j, sep) == [""] + parts[1..];
      assert parts[0] + "" == parts[0];
      assert parts == [parts[0]] + parts[1..];
    }
  }

  /** There is one more piece than there are separators. */
  lemma {:induction false} SplitCount(s: string, sep: char)
    ensures |Split(s, sep)| == Count(s, sep) + 1
    decreases |s|
  {
    if s != [] {
      SplitCount(s[1..], sep);
      assert s == [s[0]] + s[1..];
      assert multiset(s) == multiset{s[0]} + multiset(s[1..]);
    }
  }

  // ---------------------------------------------------------------- strip

  /** s.lstrip(): drops the leading whitespace. */
  function TrimStart(s: string): (r: string)
    ensures |r| <= |s| && r == s[|s| - |r|..]
    ensures forall k | 0 <= k < |s| - |r| :: IsSpace(s[k])
    ensures r == [] || !IsSpace(r[0])
    decreases |s|
  {
    if s != [] && IsSpace(s[0]) then TrimStart(s[1..]) else s
  }

  /** s.rstrip(): drops the trailing whitespace. */
  function TrimEnd(s: string): (r: string)
    ensures |r| <= |s| && r == s[..|r|]
    ensures forall k | |r| <= k < |s| :: IsSpace(s[k])
    ensures r == [] || !IsSpace(r[|r| - 1])
    decreases |s|
  {
    if s != [] && IsSpace(s[|s| - 1]) then TrimEnd(s[..|s| - 1]) else s
  }

  /** s.strip(): the slice of s between its leading and trailing whitespace. */
  function Strip(s: string): (r: string)
    ensures exists i, j ::
              && 0 <= i <= j <= |s| && r == s[i..j]
              && (forall k | 0 <= k < i :: IsSpace(s[k]))
              && (forall k | j <= k < |s| :: IsSpace(s[k]))
    ensures r == [] || (!IsSpace(r[0]) && !IsSpace(r[|r| - 1]))
  {
    var t := TrimStart(s);
    var r := TrimEnd(t);
    var i := |s| - |t|;
    assert r == s[i..i + |r|];
    r
  }

  // ---------------------------------------------------------------- rpartition

  /** s.rpartition(c)[-1]: the text after the last c, or all of s when it has none. */
  function AfterLast(s: string, c: char): string
    decreases |s|
  {
    if s == [] || s[|s| - 1] == c then [] else AfterLast(s[..|s| - 1], c) + [s[|s| - 1]]
  }

  /** r is the longest suffix of s free of c: it is a suffix, holds no c, and is
      either all of s or preceded by a c. */
  predicate FreeSuffix(s: string, c: char, r: string)
  {
    && |r| <= |s| && r == s[|s| - |r|..]
    && c !in r
    && (|r| < |s| ==> s[|s| - |r| - 1] == c)
  }

  /** AfterLast gives the longest suffix of s free of c: it is a suffix, holds no
      c, and is either all of s or preceded by a c. */
  lemma {:induction false} AfterLastSuffix(s: string, c: char)
    ensures |AfterLast(s, c)| <= |s| && AfterLast(s, c) == s[|s| - |AfterLast(s, c)|..]
    ensures c !in AfterLast(s, c)
    ensures |AfterLast(s, c)| < |s| ==> s[|s| - |AfterLast(s, c)| - 1] == c
  {
    AfterLastFree(s, c);
  }

  /** The induction behind AfterLastSuffix, one character at a time. */
  lemma {:induction false} AfterLastFree(s: string, c: char)
    ensures FreeSuffix(s, c, AfterLast(s, c))
    decreases |s|
  {
    if s != [] && s[|s| - 1] != c {
      AfterLastFree(s[..|s| - 1], c);
      SuffixGrows(s, c, AfterLast(s[..|s| - 1], c));
    }
  }

  /** The step of AfterLastFree: the longest c-free suffix r of s without its
      last character, extended by that character (when it is not c), is the
      longest c-free suffix of s. */
  lemma SuffixGrows(s: string, c: char, r: string)
    requires s != [] && s[|s| - 1] != c
    requires FreeSuffix(s[..|s| - 1], c, r)
    ensures FreeSuffix(s, c, r + [s[|s| - 1]])
  {
    assert s[|s| - |r| - 1..] == s[..|s| - 1][|s| - 1 - |r|..] + [s[|s| - 1]];
  }

  // ---------------------------------------------------------------- substrings

  /** sub occurs in s starting at index i. */
  predicate OccursAt(s: string, sub: string, i: nat)
  {
    i + |sub| <= |s| && s[i..i + |sub|] == sub
  }

  /** sub in s. */
  predicate Contains(s: string, sub: string)
  {
    exists i: nat :: i + |sub| <= |s| && OccursAt(s, sub, i)
  }

  /** A text that lacks one of the characters of sub does not contain sub. */
  lemma MissingCharNotContained(s: string, sub: string, c: char)
    requires c in sub && c !in s
    ensures !Contains(s, sub)
  {
  }

  /** fnmatch(s, '*' + suffix) on POSIX, where the pattern has no other wildcard. */
  predicate EndsWith(s: string, suffix: string)
  {
    |suffix| <= |s| && s[|s| - |suffix|..] == suffix
  }

  // ---------------------------------------------------------------- lower

  /** d is the lower-case form of the ASCII letter c: the letter of a-z at the
      same place in the alphabet. */
  predicate LowerOf(c: char, d: char)
  {
    && 'a' <= d <= 'z'
    && if 'A' <= c <= 'Z' then d as int - 'a' as int == c as int - 'A' as int else d == c
  }

  /** The two code points outside ASCII whose lower case starts with an ASCII
      letter. */
  predicate HasWideCapital(s: string)
  {
    '\U{212A}' in s || '\U{130}' in s
  }

  /** str.lower() of one code point, as far as ASCII letters are concerned:
      A-Z become a-z, KELVIN SIGN becomes 'k' and LATIN CAPITAL LETTER I WITH
      DOT ABOVE becomes 'i' followed by COMBINING DOT ABOVE. */
  function LowerChar(c: char): (r: string)
    ensures forall k | 0 <= k < |r| :: !('A' <= r[k] <= 'Z')
    ensures IsAsciiLetter(c) ==> |r| == 1 && LowerOf(c, r[0])
    ensures !IsAsciiLetter(c) && c != '\U{212A}' && c != '\U{130}' ==> r == [c]
    ensures c == '\U{212A}' ==> r == "k"
    ensures c == '\U{130}' ==> r == "i\U{307}"
  {
    if 'A' <= c <= 'Z' then [(c as int + 32) as char]
    else if c == '\U{212A}' then "k"
    else if c == '\U{130}' then "i\U{307}"
    else [c]
  }

  /** s.lower(), see LowerChar. */
  function Lower(s: string): (r: string)
    ensures forall k | 0 <= k < |r| :: !('A' <= r[k] <= 'Z')
    decreases |s|
  {
    if s == [] then [] else
      var h := LowerChar(s[0]);
      var t := Lower(s[1..]);
      assert forall k | |h| <= k < |h + t| :: (h + t)[k] == t[k - |h|];
      h + t
  }

  /** Lowering distributes over concatenation. */
  lemma {:induction false} LowerAppend(a: string, b: string)
    ensures Lower(a + b) == Lower(a) + Lower(b)
    decreases |a|
  {
    if a == [] {
      assert a + b == b;
    } else {
      assert (a + b)[0] == a[0];
      assert (a + b)[1..] == a[1..] + b;
      LowerAppend(a[1..], b);
    }
  }

  /** Away from the two wide capitals, lowering works letter by letter in place:
      the length is kept and each character is lowered on its own. */
  lemma {:induction false} LowerPointwise(s: string)
    requires !HasWideCapital(s)
    ensures |Lower(s)| == |s|
    ensures forall k | 0 <= k < |s| :: IsAsciiLetter(s[k]) ==> LowerOf(s[k], Lower(s)[k])
    ensures forall k | 0 <= k < |s| :: !IsAsciiLetter(s[k]) ==> Lower(s)[k] == s[k]
    decreases |s|
  {
    if s != [] {
      assert forall x | x in s[1..] :: x in s;
      LowerPointwise(s[1..]);
      assert s[0] in s;
      var h := LowerChar(s[0]);
      var t := Lower(s[1..]);
      assert |h| == 1;
      assert Lower(s) == h + t;
      forall k | 1 <= k < |s|
        ensures s[1..][k - 1] == s[k] && Lower(s)[k] == t[k - 1]
      {
      }
    }
  }

  predicate IsLowerWord(s: string)
  {
    forall k | 0 <= k < |s| :: 'a' <= s[k] <= 'z'
  }

  /** Lowering a word of a-z changes nothing. */
  lemma {:induction false} LowerOfLowerWord(s: string)
    requires IsLowerWord(s)
    ensures Lower(s) == s
    decreases |s|
  {
    if s != [] {
      assert 'a' <= s[0] <= 'z';
      assert IsLowerWord(s[1..]) by {
        forall k | 0 <= k < |s[1..]|
          ensures 'a' <= s[1..][k] <= 'z'
        {
          assert s[1..][k] == s[k + 1];
        }
      }
      LowerOfLowerWord(s[1..]);
      assert Lower(s) == LowerChar(s[0]) + Lower(s[1..]);
      assert s == [s[0]] + s[1..];
    }
  }

  /** The leading run of ASCII letters: what re.search(r'([a-zA-Z]*)', s).group(1)
      returns, since that pattern matches, possibly empty, at position 0. */
  function LetterPrefix(s: string): (r: string)
    ensures |r| <= |s| && r == s[..|r|]
    ensures forall k | 0 <= k < |r| :: IsAsciiLetter(r[k])
    ensures |r| == |s| || !IsAsciiLetter(s[|r|])
    decreases |s|
  {
    if s == [] || !IsAsciiLetter(s[0]) then [] else [s[0]] + LetterPrefix(s[1..])
  }

  /** A run of letters followed by a non-letter (or nothing) is the whole
      letter prefix. */
  lemma {:induction false} LetterPrefixStops(w: string, t: string)
    requires forall k | 0 <= k < |w| :: IsAsciiLetter(w[k])
    requires t == [] || !IsAsciiLetter(t[0])
    ensures LetterPrefix(w + t) == w
    decreases |w|
  {
    if w == [] {
      assert w + t == t;
    } else {
      assert (w + t)[0] == w[0];
      assert (w + t)[1..] == w[1..] + t;
      LetterPrefixStops(w[1..], t);
      assert w == [w[0]] + w[1..];
    }
  }

  /** The normalised font name of a file name (main.py line 36). */
  function Normalise(file: string): (r: string)
    ensures IsLowerWord(r)
    ensures |r| <= |Lower(file)| && r == Lower(file)[..|r|]
    ensures |r| == |Lower(file)| || !IsAsciiLetter(Lower(file)[|r|])
  {
    LetterPrefix(Lower(file))
  }

  /** Normalising a normalised name returns it unchanged. */
  lemma NormaliseIdempotent(file: string)
    ensures Normalise(Normalise(file)) == Normalise(file)
  {
    var n := Normalise(file);
    LowerOfLowerWord(n);
  }

  /** For a file name without the two wide capitals, the normalised name is the
      leading run of ASCII letters of the name itself, each letter lowered. */
  lemma NormaliseLetters(file: string)
    requires !HasWideCapital(file)
    ensures |Normalise(file)| == |LetterPrefix(file)|
    ensures forall k | 0 <= k < |Normalise(file)| :: LowerOf(file[k], Normalise(file)[k])
  {
    var low := Lower(file);
    var n := Normalise(file);
    var p := LetterPrefix(file);
    LowerPointwise(file);
    assert forall k | 0 <= k < |file| :: IsAsciiLetter(low[k]) <==> IsAsciiLetter(file[k]);
  }

  lemma LowerRoboto()
    ensures Lower("Roboto") == "roboto"
  {
    LowerPointwise("Roboto");
  }

  lemma LowerKeepsDash(t: string)
    ensures Lower("-" + t)[0] == '-'
  {
    LowerAppend("-", t);
  }

  /** A file name that starts with a word of ASCII letters followed by a dash
      normalises to that word, lowered. */
  lemma NormaliseStopsAtDash(w: string, rest: string)
    requires forall k | 0 <= k < |w| :: IsAsciiLetter(w[k])
    ensures Normalise(w + "-" + rest) == Lower(w)
  {
    LowerDashed(w, rest);
    LowerOfLetters(w);
    NormaliseFromParts(w + "-" + rest, Lower(w), Lower("-" + rest));
  }

  /** Lowering a name with a dash lowers the two sides apart, and keeps the dash. */
  lemma LowerDashed(w: string, rest: string)
    ensures Lower(w + "-" + rest) == Lower(w) + Lower("-" + rest)
    ensures Lower("-" + rest)[0] == '-'
  {
    assert w + "-" + rest == w + ("-" + rest);
    LowerAppend(w, "-" + rest);
    LowerKeepsDash(rest);
  }

  /** When the lowered name is a run of letters followed by a non-letter, the
      normalised name is that run. */
  lemma NormaliseFromParts(file: string, low: string, tail: string)
    requires Lower(file) == low + tail
    requires forall k | 0 <= k < |low| :: IsAsciiLetter(low[k])
    requires tail == [] || !IsAsciiLetter(tail[0])
    ensures Normalise(file) == low
  {
    LetterPrefixStops(low, tail);
  }

  /** Lowering a word of ASCII letters gives a word of ASCII letters. */
  lemma LowerOfLetters(w: string)
    requires forall k | 0 <= k < |w| :: IsAsciiLetter(w[k])
    ensures forall k | 0 <= k < |Lower(w)| :: IsAsciiLetter(Lower(w)[k])
  {
    assert !HasWideCapital(w) by {
      assert forall k | 0 <= k < |w| :: w[k] != '\U{212A}' && w[k] != '\U{130}';
    }
    LowerPointwise(w);
  }

  /** A typical Google Fonts file name: "Roboto-Regular.ttf" is indexed as
      "roboto". */
  lemma NormaliseRoboto()
    ensures Normalise("Roboto-Regular.ttf") == "roboto"
  {
    assert "Roboto-Regular.ttf" == "Roboto" + "-" + "Regular.ttf";
    NormaliseStopsAtDash("Roboto", "Regular.ttf");
    LowerRoboto();
  }

  // ---------------------------------------------------------------- the package regex

  /** The index of the first '\n' at or after j, or |t| when there is none. */
  function LineEnd(t: string, j: nat): (e: nat)
    requires j <= |t|
    ensures j <= e <= |t|
    ensures forall k | j <= k < e :: t[k] != '\n'
    ensures e < |t| ==> t[e] == '\n'
    decreases |t| - j
  {
    if j == |t| || t[j] == '\n' then j else LineEnd(t, j + 1)
  }

  /** The last index in [lo, hi) that holds whitespace. */
  function LastSpace(t: string, lo: nat, hi: nat): (r: Option<nat>)
    requires lo <= hi <= |t|
    ensures r.Some? ==>
              && lo <= r.value < hi && IsSpace(t[r.value])
              && forall k | r.value < k < hi :: !IsSpace(t[k])
    ensures r.None? ==> forall k | lo <= k < hi :: !IsSpace(t[k])
    decreases hi - lo
  {
    if lo == hi then None
    else if IsSpace(t[hi - 1]) then Some(hi - 1)
    else LastSpace(t, lo, hi - 1)
  }

  /** re.search(r'/(.*)\s', t).group(1), trying start positions from i on: at a
      '/', the greedy '.*' (which does not cross a newline) backs off to the last
      whitespace it can reach; when there is none the search moves on. */
  function SearchPackage(t: string, i: nat): Option<string>
    requires i <= |t|
    decreases |t| - i
  {
    if i == |t| then None
    else if t[i] == '/' then
      var e := LineEnd(t, i + 1);
      match LastSpace(t, i + 1, if e < |t| then e + 1 else e)
      case Some(k) => Some(t[i + 1..k])
      case None => SearchPackage(t, i + 1)
    else SearchPackage(t, i + 1)
  }

  /** The package name taken from the stripped first field (main.py line 34). */
  function PackageName(t: string): Option<string>
  {
    SearchPackage(t, 0)
  }

  lemma LineEndOneLine(t: string, j: nat)
    requires j <= |t|
    requires '\n' !in t
    ensures LineEnd(t, j) == |t|
  {
  }

  /** Some '/' at or after i is followed, later, by whitespace. */
  predicate SlashThenSpace(t: string, i: nat)
  {
    exists a, k :: i <= a < k < |t| && t[a] == '/' && IsSpace(t[k])
  }

  /** p is the text between the first '/' at or after i and the last whitespace. */
  predicate FirstSlashToLastSpace(t: string, i: nat, p: string)
  {
    exists a, k ::
      && i <= a < k < |t| && t[a] == '/' && IsSpace(t[k])
      && (forall j | i <= j < a :: t[j] != '/')
      && (forall j | k < j < |t| :: !IsSpace(t[j]))
      && p == t[a + 1..k]
  }

  lemma {:induction false} SearchPackageOneLine(t: string, i: nat)
    requires i <= |t|
    requires '\n' !in t
    ensures SearchPackage(t, i).Some? <==> SlashThenSpace(t, i)
    ensures SearchPackage(t, i).Some? ==> FirstSlashToLastSpace(t, i, SearchPackage(t, i).value)
    decreases |t| - i
  {
    if i < |t| {
      SearchPackageOneLine(t, i + 1);
      if t[i] == '/' {
        LineEndOneLine(t, i + 1);
        match LastSpace(t, i + 1, |t|)
        case Some(k) =>
          SlashFindsSpace(t, i, k);
        case None =>
          SlashFindsNoSpace(t, i);
      } else {
        NonSlashSkipped(t, i);
        if SearchPackage(t, i).Some? {
          FirstSlashShift(t, i, SearchPackage(t, i).value);
        }
      }
    }
  }

  /** At a '/' with whitespace later on the line, the search stops with the text
      up to the last whitespace. */
  lemma SlashFindsSpace(t: string, i: nat, k: nat)
    requires i < |t| && '\n' !in t && t[i] == '/'
    requires LineEnd(t, i + 1) == |t|
    requires LastSpace(t, i + 1, |t|) == Some(k)
    ensures SearchPackage(t, i) == Some(t[i + 1..k])
    ensures SlashThenSpace(t, i)
    ensures FirstSlashToLastSpace(t, i, t[i + 1..k])
  {
    assert i < k && t[i] == '/' && IsSpace(t[k]);
  }

  /** At a '/' with no whitespace after it, the search moves on, and no later
      '/' can be followed by whitespace either. */
  lemma SlashFindsNoSpace(t: string, i: nat)
    requires i < |t| && '\n' !in t && t[i] == '/'
    requires LineEnd(t, i + 1) == |t|
    requires LastSpace(t, i + 1, |t|).None?
    ensures SearchPackage(t, i) == SearchPackage(t, i + 1)
    ensures !SlashThenSpace(t, i) && !SlashThenSpace(t, i + 1)
  {
  }

  /** A character other than '/' is passed over. */
  lemma NonSlashSkipped(t: string, i: nat)
    requires i < |t| && t[i] != '/'
    ensures SearchPackage(t, i) == SearchPackage(t, i + 1)
    ensures SlashThenSpace(t, i) == SlashThenSpace(t, i + 1)
  {
    if SlashThenSpace(t, i) {
      var a, k :| i <= a < k < |t| && t[a] == '/' && IsSpace(t[k]);
      assert i + 1 <= a;
    }
  }

  lemma FirstSlashShift(t: string, i: nat, p: string)
    requires i < |t| && t[i] != '/'
    requires FirstSlashToLastSpace(t, i + 1, p)
    ensures FirstSlashToLastSpace(t, i, p)
  {
    var a, k :| && i + 1 <= a < k < |t| && t[a] == '/' && IsSpace(t[k])
                && (forall j | i + 1 <= j < a :: t[j] != '/')
                && (forall j | k < j < |t| :: !IsSpace(t[j]))
                && p == t[a + 1..k];
    assert forall j | i <= j < a :: t[j] != '/';
  }

  /** For text without a newline, the package name is the text after the first
      '/' up to the last whitespace, and it is found iff some whitespace follows
      a '/'. */
  lemma PackageNameOneLine(t: string)
    requires '\n' !in t
    ensures PackageName(t).Some? <==> SlashThenSpace(t, 0)
    ensures PackageName(t).Some? ==> FirstSlashToLastSpace(t, 0, PackageName(t).value)
  {
    SearchPackageOneLine(t, 0);
  }
}
