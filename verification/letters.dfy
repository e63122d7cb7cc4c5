/** `lettersToIndex` of `scripts/main.js` and `scripts/custom.js` (the two copies are
    identical): a bijective base-26 numbering of letter strings, "" -> 0, "a" -> 1,
    "z" -> 26, "aa" -> 27. */
module Letters {
  import opened Text

  /** `char.charCodeAt(0) - "a".charCodeAt(0) + 1` after lower-casing: 1 for 'a' .. 26 for 'z'. */
  function CharValue(c: char): int {
    LowerChar(c) as int - 'a' as int + 1
  }

  /** The value the source's loop computes, written in Horner form over the prefix. On
      letter strings it is non-negative, and positive unless the string is empty. */
  function LettersToIndex(letters: string): (n: int)
    ensures AllLetters(letters) ==> n >= 0
    ensures AllLetters(letters) && |letters| > 0 ==> n >= 1
    decreases |letters|
  {
    if |letters| == 0 then 0
    else
      var prefix := letters[..|letters| - 1];
      assert AllLetters(letters) ==> AllLetters(prefix) by {
        if AllLetters(letters) {
          assert forall i :: 0 <= i < |prefix| ==> prefix[i] == letters[i];
        }
      }
      LettersToIndex(prefix) * 26 + CharValue(letters[|letters| - 1])
  }

  /** The loop of `lettersToIndex`: `index = index * 26 + value(char)` for each character
      of the lower-cased string. */
  method ComputeLettersToIndex(letters: string) returns (index: int)
    ensures index == LettersToIndex(letters)
  {
    if letters == "" {
      return 0;
    }
    var lowered := Lower(letters);
    index := 0;
    var i := 0;
    while i < |lowered|
      invariant 0 <= i <= |lowered|
      invariant index == LettersToIndex(letters[..i])
    {
      assert letters[..i + 1][..i] == letters[..i];
      assert CharValue(lowered[i]) == CharValue(letters[i]);
      index := index * 26 + CharValue(lowered[i]);
      i := i + 1;
    }
    assert letters[..i] == letters;
  }

  /** The inverse numbering: the letter string whose index is `n`. */
  function IndexToLetters(n: nat): (s: string)
    ensures AllLowerLetters(s)
    ensures |s| > 0 <==> n > 0
    decreases n
  {
    if n == 0 then ""
    else
      var s := IndexToLetters((n - 1) / 26) + [('a' as int + (n - 1) % 26) as char];
      assert forall i :: 0 <= i < |s| - 1 ==> s[i] == IndexToLetters((n - 1) / 26)[i];
      s
  }

  lemma AppendLetter(s: string, c: char)
    ensures LettersToIndex(s + [c]) == LettersToIndex(s) * 26 + CharValue(c)
  {
    assert (s + [c])[..|s|] == s;
  }

  /** Numbering the string of index `n` gives back `n`. */
  lemma {:induction false} IndexToLettersRoundTrip(n: nat)
    ensures LettersToIndex(IndexToLetters(n)) == n
    decreases n
  {
    if n > 0 {
      IndexToLettersRoundTrip((n - 1) / 26);
      AppendLetter(IndexToLetters((n - 1) / 26), ('a' as int + (n - 1) % 26) as char);
    }
  }

  /** Every lower-case letter string is the string of its own index: the numbering is
      onto the non-negative integers and one-to-one on lower-case strings. */
  lemma {:induction false} LettersToIndexRoundTrip(s: string)
    requires AllLowerLetters(s)
    ensures LettersToIndex(s) >= 0
    ensures IndexToLetters(LettersToIndex(s)) == s
    decreases |s|
  {
    if |s| > 0 {
      var prefix := s[..|s| - 1];
      var c := s[|s| - 1];
      assert s == prefix + [c];
      LettersToIndexRoundTrip(prefix);
      var p := LettersToIndex(prefix);
      var n := LettersToIndex(s);
      assert n == p * 26 + (c as int - 'a' as int + 1);
      assert (n - 1) / 26 == p && (n - 1) % 26 == c as int - 'a' as int;
    }
  }

  /** Lower-casing first does not change the index. */
  lemma {:induction false} LettersToIndexIgnoresCase(s: string)
    ensures LettersToIndex(Lower(s)) == LettersToIndex(s)
    decreases |s|
  {
    if |s| > 0 {
      var prefix := s[..|s| - 1];
      LettersToIndexIgnoresCase(prefix);
      assert Lower(s)[..|s| - 1] == Lower(prefix);
    }
  }

  /** On letter strings two indexes agree exactly when the strings agree up to case. */
  lemma LettersToIndexInjective(s: string, t: string)
    requires AllLetters(s) && AllLetters(t)
    ensures LettersToIndex(s) == LettersToIndex(t) <==> Lower(s) == Lower(t)
  {
    LettersToIndexIgnoresCase(s);
    LettersToIndexIgnoresCase(t);
    LettersToIndexRoundTrip(Lower(s));
    LettersToIndexRoundTrip(Lower(t));
  }

  /** The values the numbering is known by. */
  lemma LettersToIndexExamples()
    ensures LettersToIndex("") == 0
    ensures LettersToIndex("a") == 1 && LettersToIndex("A") == 1
    ensures LettersToIndex("j") == 10
    ensures LettersToIndex("z") == 26
    ensures LettersToIndex("aa") == 27
  {
    assert "aa"[..1] == "a";
  }
}
