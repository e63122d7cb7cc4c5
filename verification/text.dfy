/** The JavaScript string operations the scripts rely on: character classes,
    `toLowerCase`, `trim`, `indexOf`, `split`, and `replace` with a string pattern. */
module Text {
  import opened JsValues

  predicate IsAsciiLetter(c: char) { 'a' <= c <= 'z' || 'A' <= c <= 'Z' }

  predicate IsLowerLetter(c: char) { 'a' <= c <= 'z' }

  predicate IsDigit(c: char) { '0' <= c <= '9' }

  predicate AllLowerLetters(s: string) { forall i :: 0 <= i < |s| ==> IsLowerLetter(s[i]) }

  predicate AllLetters(s: string) { forall i :: 0 <= i < |s| ==> IsAsciiLetter(s[i]) }

  predicate AllDigits(s: string) { forall i :: 0 <= i < |s| ==> IsDigit(s[i]) }

  /** The characters `String.prototype.trim` removes (white space and line terminators). */
  predicate IsJsWhitespace(c: char) {
    || c == '\t' || c == '\n' || c == '\U{000B}' || c == '\U{000C}' || c == '\r' || c == ' '
    || c == '\U{00A0}' || c == '\U{1680}' || ('\U{2000}' <= c <= '\U{200A}')
    || c == '\U{2028}' || c == '\U{2029}' || c == '\U{202F}' || c == '\U{205F}'
    || c == '\U{3000}' || c == '\U{FEFF}'
  }

  predicate IsBlank(s: string) { forall i :: 0 <= i < |s| ==> IsJsWhitespace(s[i]) }

  /** ASCII lower-casing of one character. */
  function LowerChar(c: char): (d: char)
    ensures IsAsciiLetter(c) ==> IsLowerLetter(d)
    ensures !('A' <= c <= 'Z') ==> d == c
    ensures IsAsciiLetter(d) <==> IsAsciiLetter(c)
  {
    if 'A' <= c <= 'Z' then (c as int - 'A' as int + 'a' as int) as char else c
  }

  function Lower(s: string): (r: string)
    ensures |r| == |s|
    ensures forall i :: 0 <= i < |s| ==> r[i] == LowerChar(s[i])
  {
    seq(|s|, i requires 0 <= i < |s| => LowerChar(s[i]))
  }

  /** Drops leading white space. */
  function TrimStart(s: string): (r: string)
    ensures |r| <= |s| && r == s[|s| - |r|..]
    ensures forall i :: 0 <= i < |s| - |r| ==> IsJsWhitespace(s[i])
    ensures |r| > 0 ==> !IsJsWhitespace(r[0])
    decreases |s|
  {
    if |s| > 0 && IsJsWhitespace(s[0]) then TrimStart(s[1..]) else s
  }

  /** Drops trailing white space. */
  function TrimEnd(s: string): (r: string)
    ensures |r| <= |s| && r == s[..|r|]
    ensures forall i :: |r| <= i < |s| ==> IsJsWhitespace(s[i])
    ensures |r| > 0 ==> !IsJsWhitespace(r[|r| - 1])
    decreases |s|
  {
    if |s| > 0 && IsJsWhitespace(s[|s| - 1]) then TrimEnd(s[..|s| - 1]) else s
  }

  /** `s.trim()`: the input with its leading and trailing white space cut off. The result
      is empty exactly when the input is all white space. */
  function Trim(s: string): (r: string)
    ensures exists i, j :: 0 <= i <= j <= |s| && r == s[i..j] && IsBlank(s[..i]) && IsBlank(s[j..])
    ensures r == "" <==> IsBlank(s)
    ensures |r| > 0 ==> !IsJsWhitespace(r[0]) && !IsJsWhitespace(r[|r| - 1])
  {
    TrimIsSlice(s);
    TrimEnd(TrimStart(s))
  }

  /** Trimming keeps a slice of the input with only white space around it. */
  lemma TrimIsSlice(s: string)
    ensures exists i, j :: 0 <= i <= j <= |s| && TrimEnd(TrimStart(s)) == s[i..j] && IsBlank(s[..i]) && IsBlank(s[j..])
  {
    var t := TrimStart(s);
    var r := TrimEnd(t);
    assert |t| <= |s| && t == s[|s| - |t|..];
    assert |r| <= |t| && r == t[..|r|];
    BlankAround(s, t, r);
  }

  /** A prefix `r` of a suffix `t` of `s`, with white space only before `t` and after `r`,
      is a slice of `s` with blank text around it. */
  lemma BlankAround(s: string, t: string, r: string)
    requires |t| <= |s| && t == s[|s| - |t|..]
    requires forall k :: 0 <= k < |s| - |t| ==> IsJsWhitespace(s[k])
    requires |r| <= |t| && r == t[..|r|]
    requires forall k :: |r| <= k < |t| ==> IsJsWhitespace(t[k])
    ensures exists i, j :: 0 <= i <= j <= |s| && r == s[i..j] && IsBlank(s[..i]) && IsBlank(s[j..])
  {
    var i := |s| - |t|;
    var j := i + |r|;
    assert r == s[i..j];
    assert IsBlank(s[..i]) by {
      forall k | 0 <= k < i ensures IsJsWhitespace(s[..i][k]) {
        assert s[..i][k] == s[k];
      }
    }
    assert IsBlank(s[j..]) by {
      forall k | 0 <= k < |s| - j ensures IsJsWhitespace(s[j..][k]) {
        assert s[j..][k] == t[|r| + k];
      }
    }
  }

  /** `pat` starts at position `i` of `s`. */
  predicate OccursAt(s: string, pat: string, i: nat) {
    i + |pat| <= |s| && s[i..i + |pat|] == pat
  }

  function IndexFrom(s: string, pat: string, from: nat): (r: Option<nat>)
    requires |pat| > 0
    ensures r.Some? ==> from <= r.value && OccursAt(s, pat, r.value)
    ensures r.Some? ==> forall j: nat :: from <= j < r.value ==> !OccursAt(s, pat, j)
    ensures r.None? ==> forall j: nat :: from <= j ==> !OccursAt(s, pat, j)
    decreases |s| - from
  {
    if from + |pat| > |s| then None
    else if OccursAt(s, pat, from) then Some(from)
    else IndexFrom(s, pat, from + 1)
  }

  /** `s.indexOf(pat)` for a non-empty pattern: the leftmost occurrence, or None. */
  function IndexOf(s: string, pat: string): (r: Option<nat>)
    requires |pat| > 0
    ensures r.Some? ==> OccursAt(s, pat, r.value)
    ensures r.Some? ==> forall j: nat :: j < r.value ==> !OccursAt(s, pat, j)
    ensures r.None? ==> forall j: nat :: !OccursAt(s, pat, j)
  {
    IndexFrom(s, pat, 0)
  }

  /** A one-character pattern occurs exactly where that character is. */
  lemma OccursAtChar(s: string, c: char, j: nat)
    requires j < |s|
    ensures OccursAt(s, [c], j) <==> s[j] == c
  {
    assert s[j..j + 1] == [s[j]];
  }

  /** For a one-character pattern, `indexOf` finds the first position holding that character. */
  lemma IndexOfChar(s: string, c: char)
    ensures IndexOf(s, [c]).Some? <==> c in s
    ensures IndexOf(s, [c]).Some? ==>
              var i := IndexOf(s, [c]).value;
              i < |s| && s[i] == c && c !in s[..i]
  {
    var r := IndexOf(s, [c]);
    if r.Some? {
      OccursAtChar(s, c, r.value);
      forall j | 0 <= j < r.value ensures s[j] != c {
        OccursAtChar(s, c, j);
      }
    } else if c in s {
      var j :| 0 <= j < |s| && s[j] == c;
      OccursAtChar(s, c, j);
    }
  }

  /** `parts.join(sep)`. */
  function Join(parts: seq<string>, sep: string): string {
    if |parts| == 0 then ""
    else if |parts| == 1 then parts[0]
    else parts[0] + sep + Join(parts[1..], sep)
  }

  /** `s.split(sep)` for a non-empty separator: cuts at every leftmost occurrence, so
      that no piece holds the separator and joining the pieces back with `sep` gives the
      input again. */
  function Split(s: string, sep: string): (parts: seq<string>)
    requires |sep| > 0
    ensures |parts| >= 1
    ensures Join(parts, sep) == s
    ensures forall k :: 0 <= k < |parts| ==> IndexOf(parts[k], sep).None?
    ensures forall k :: 0 <= k < |parts| - 1 ==> IndexOf(parts[k] + sep, sep) == Some(|parts[k]|)
    decreases |s|
  {
    match IndexOf(s, sep)
    case None => [s]
    case Some(i) =>
      var rest := Split(s[i + |sep|..], sep);
      var parts := [s[..i]] + rest;
      assert parts[1..] == rest;
      assert IndexOf(s[..i], sep).None? by {
        BeforeFirstOccurrence(s, sep, i);
      }
      FirstCut(s, sep, i);
      assert s == s[..i] + sep + s[i + |sep|..] by {
        assert s[i..i + |sep|] == sep;
        assert s == s[..i] + s[i..i + |sep|] + s[i + |sep|..];
      }
      parts
  }

  /** An occurrence in a prefix is an occurrence in the whole string, wholly inside the
      prefix. */
  lemma PrefixOccurrences(s: string, k: nat, pat: string)
    requires k <= |s|
    ensures forall j: nat :: OccursAt(s[..k], pat, j) ==> j + |pat| <= k && OccursAt(s, pat, j)
  {
    forall j: nat | OccursAt(s[..k], pat, j) ensures j + |pat| <= k && OccursAt(s, pat, j) {
      assert s[..k][j..j + |pat|] == s[j..j + |pat|];
    }
  }

  /** The text before the leftmost occurrence of `pat` holds no occurrence of it. */
  lemma BeforeFirstOccurrence(s: string, pat: string, i: nat)
    requires |pat| > 0 && IndexOf(s, pat) == Some(i)
    ensures IndexOf(s[..i], pat).None?
  {
    PrefixOccurrences(s, i, pat);
  }

  /** Cutting at the leftmost occurrence: in the text up to and including it, that
      occurrence is the first. */
  lemma FirstCut(s: string, pat: string, i: nat)
    requires |pat| > 0 && IndexOf(s, pat) == Some(i)
    ensures IndexOf(s[..i] + pat, pat) == Some(i)
  {
    var t := s[..i] + pat;
    assert t == s[..i + |pat|];
    assert OccursAt(t, pat, i) by {
      assert t[i..i + |pat|] == pat;
    }
    PrefixOccurrences(s, i + |pat|, pat);
  }

  /** The text before the leftmost `sep`, or all of `s` when there is none. */
  function BeforeSep(s: string, sep: string): string
    requires |sep| > 0
  {
    match IndexOf(s, sep)
    case None => s
    case Some(i) => s[..i]
  }

  /** The text after the `n`-th leftmost `sep`, counting from the previous cut; None when
      there are fewer than `n`. */
  function AfterSeps(s: string, sep: string, n: nat): Option<string>
    requires |sep| > 0
    decreases n
  {
    if n == 0 then Some(s)
    else
      match IndexOf(s, sep)
      case None => None
      case Some(i) => AfterSeps(s[i + |sep|..], sep, n - 1)
  }

  /** Piece `n` of a split is the text after `n` separators, up to the next one; there
      is a piece `n` exactly when the string has `n` separators. */
  lemma {:induction false} SplitPieces(s: string, sep: string, n: nat)
    requires |sep| > 0
    ensures n < |Split(s, sep)| <==> AfterSeps(s, sep, n).Some?
    ensures n < |Split(s, sep)| ==> Split(s, sep)[n] == BeforeSep(AfterSeps(s, sep, n).value, sep)
    decreases n
  {
    match IndexOf(s, sep)
    case None =>
      PiecesWithoutSep(s, sep, n);
    case Some(i) =>
      if n == 0 {
        FirstPiece(s, sep, i);
      } else {
        var m: nat := n - 1;
        var rest := s[i + |sep|..];
        SplitPieces(rest, sep, m);
        SplitAt(s, sep, i);
        LaterPiece(s, sep, i, m, n);
        PiecesStep(Split(s, sep), s[..i], Split(rest, sep), sep, m, n, AfterSeps(s, sep, n));
      }
  }

  lemma PiecesWithoutSep(s: string, sep: string, n: nat)
    requires |sep| > 0 && IndexOf(s, sep).None?
    ensures n < |Split(s, sep)| <==> AfterSeps(s, sep, n).Some?
    ensures n < |Split(s, sep)| ==> Split(s, sep)[n] == BeforeSep(AfterSeps(s, sep, n).value, sep)
  {
    SplitFirst(s, sep);
  }

  lemma FirstPiece(s: string, sep: string, i: nat)
    requires |sep| > 0 && IndexOf(s, sep) == Some(i)
    ensures 0 < |Split(s, sep)| && AfterSeps(s, sep, 0).Some?
    ensures Split(s, sep)[0] == BeforeSep(AfterSeps(s, sep, 0).value, sep)
  {
    SplitFirst(s, sep);
  }

  /** Past the leftmost separator, the split moves on by one piece... */
  lemma SplitAt(s: string, sep: string, i: nat)
    requires |sep| > 0 && IndexOf(s, sep) == Some(i)
    ensures Split(s, sep) == [s[..i]] + Split(s[i + |sep|..], sep)
  {
    SplitFirst(s, sep);
  }

  /** ... and so does the count of separators. */
  lemma LaterPiece(s: string, sep: string, i: nat, m: nat, n: nat)
    requires |sep| > 0 && IndexOf(s, sep) == Some(i) && n == m + 1
    ensures AfterSeps(s, sep, n) == AfterSeps(s[i + |sep|..], sep, m)
  {
    var k: nat := n - 1;
    assert k == m;
  }

  /** The induction step of `SplitPieces`, on plain sequences. */
  lemma PiecesStep(parts: seq<string>, first: string, rest: seq<string>, sep: string, m: nat, n: nat, after: Option<string>)
    requires |sep| > 0 && parts == [first] + rest && n == m + 1
    requires m < |rest| <==> after.Some?
    requires m < |rest| ==> rest[m] == BeforeSep(after.value, sep)
    ensures n < |parts| <==> after.Some?
    ensures n < |parts| ==> parts[n] == BeforeSep(after.value, sep)
  {
  }

  /** One step of a split: no separator leaves the string whole, otherwise the text
      before the leftmost one is the first piece and the rest is split again. */
  lemma SplitFirst(s: string, sep: string)
    requires |sep| > 0
    ensures IndexOf(s, sep).None? ==> Split(s, sep) == [s]
    ensures IndexOf(s, sep).Some? ==>
              Split(s, sep) == [s[..IndexOf(s, sep).value]] + Split(s[IndexOf(s, sep).value + |sep|..], sep)
  {
  }

  /** `s.replace(pat, rep)` with a string pattern: only the leftmost occurrence is replaced. */
  function ReplaceFirst(s: string, pat: string, rep: string): (r: string)
    requires |pat| > 0
    ensures IndexOf(s, pat).None? ==> r == s
    ensures IndexOf(s, pat).Some? ==>
              var i := IndexOf(s, pat).value;
              |r| == |s| - |pat| + |rep| && r[..i] == s[..i] && r[i..i + |rep|] == rep && r[i + |rep|..] == s[i + |pat|..]
  {
    match IndexOf(s, pat)
    case None => s
    case Some(i) => s[..i] + rep + s[i + |pat|..]
  }

  /** In `head + [sep] + tail` with no `sep` in the tail, the tail is what follows the
      last `sep`, so its length is fixed by the whole string. */
  lemma SeparatorTailLength(h1: string, t1: string, h2: string, t2: string, sep: char)
    requires sep !in t1 && sep !in t2
    ensures h1 + [sep] + t1 == h2 + [sep] + t2 ==> |t1| == |t2|
  {
    var k1 := h1 + [sep] + t1;
    var k2 := h2 + [sep] + t2;
    if |t1| < |t2| {
      assert k1[|k1| - |t1| - 1] == sep;
      assert k2[|k2| - |t1| - 1] == t2[|t2| - |t1| - 1];
    } else if |t2| < |t1| {
      assert k2[|k2| - |t2| - 1] == sep;
      assert k1[|k1| - |t2| - 1] == t1[|t1| - |t2| - 1];
    }
  }

  /** In `head + [sep] + tail` with no `sep` in the head, the head is what precedes the
      first `sep`, so its length is fixed by the whole string. */
  lemma SeparatorHeadLength(h1: string, t1: string, h2: string, t2: string, sep: char)
    requires sep !in h1 && sep !in h2
    ensures h1 + [sep] + t1 == h2 + [sep] + t2 ==> |h1| == |h2|
  {
    var k1 := h1 + [sep] + t1;
    var k2 := h2 + [sep] + t2;
    if |h1| < |h2| {
      assert k1[|h1|] == sep;
      assert k2[|h1|] == h2[|h1|];
    } else if |h2| < |h1| {
      assert k2[|h2|] == sep;
      assert k1[|h2|] == h1[|h2|];
    }
  }
}
