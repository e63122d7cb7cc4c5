/** The sprite-identifier rules of `database/database.js`: the base id is the sprite id
    without its trailing letter run, and a sprite is an alternate ("alt") exactly when its
    id contains a letter. */
module SpriteIds {
  import opened Text

  /** The two image kinds of the `images.type` column. */
  datatype ImageType = Main | Alt

  /** Length of the maximal run of ASCII letters at the end of `s`. */
  function TrailingLetterCount(s: string): (n: nat)
    ensures n <= |s|
    ensures AllLetters(s[|s| - n..])
    ensures n < |s| ==> !IsAsciiLetter(s[|s| - n - 1])
    decreases |s|
  {
    if |s| > 0 && IsAsciiLetter(s[|s| - 1]) then
      var t := s[..|s| - 1];
      var m := TrailingLetterCount(t);
      assert s[|s| - (m + 1)..] == t[|t| - m..] + [s[|s| - 1]];
      assert m + 1 < |s| ==> s[|s| - (m + 1) - 1] == t[|t| - m - 1];
      m + 1
    else 0
  }

  /** What `/[a-zA-Z]+$/` (equivalently `/[a-z]+$/i`) matches at the end of `s`,
      or "" when `s` does not end in a letter. */
  function AltSuffix(s: string): string {
    s[|s| - TrailingLetterCount(s)..]
  }

  /** `getBaseId`: the sprite id with its trailing letter run removed. The result is a
      prefix of the id, what was removed is all letters, and the result does not end
      in a letter (so the removed run is maximal). */
  function GetBaseId(spriteId: string): (b: string)
    ensures |b| <= |spriteId| && spriteId == b + AltSuffix(spriteId)
    ensures AllLetters(spriteId[|b|..])
    ensures |b| > 0 ==> !IsAsciiLetter(b[|b| - 1])
  {
    spriteId[..|spriteId| - TrailingLetterCount(spriteId)]
  }

  /** The three facts of `GetBaseId`'s contract determine its result: any prefix with
      them is the base id. */
  lemma GetBaseIdUnique(spriteId: string, p: string)
    requires |p| <= |spriteId| && p == spriteId[..|p|]
    requires AllLetters(spriteId[|p|..])
    requires |p| > 0 ==> !IsAsciiLetter(p[|p| - 1])
    ensures p == GetBaseId(spriteId)
  {
  }

  /** Stripping twice is stripping once. */
  lemma GetBaseIdIdempotent(spriteId: string)
    ensures GetBaseId(GetBaseId(spriteId)) == GetBaseId(spriteId)
  {
    var b := GetBaseId(spriteId);
    GetBaseIdUnique(b, b);
  }

  /** `/[a-zA-Z]/.test(s)`, scanning left to right. */
  function HasLetter(s: string): (r: bool)
    ensures r <==> exists i :: 0 <= i < |s| && IsAsciiLetter(s[i])
    decreases |s|
  {
    if |s| == 0 then false
    else if IsAsciiLetter(s[0]) then true
    else
      var r := HasLetter(s[1..]);
      assert forall i :: 1 <= i < |s| ==> s[i] == s[1..][i - 1];
      r
  }

  /** The image type the catalog stores: "alt" when the id contains a letter anywhere,
      "main" otherwise. */
  function ImageTypeOf(spriteId: string): (t: ImageType)
    ensures t == Alt <==> exists i :: 0 <= i < |spriteId| && IsAsciiLetter(spriteId[i])
  {
    if HasLetter(spriteId) then Alt else Main
  }

  /** A main sprite id has nothing to strip: its base id is the id itself. */
  lemma MainIdIsOwnBase(spriteId: string)
    requires ImageTypeOf(spriteId) == Main
    ensures GetBaseId(spriteId) == spriteId
  {
  }

  /** A letter anywhere makes an alt, not only a trailing one. */
  lemma ImageTypeExamples()
    ensures ImageTypeOf("25") == Main && ImageTypeOf("25.6") == Main
    ensures ImageTypeOf("25a") == Alt && ImageTypeOf("5a.3") == Alt
  {
    assert "25a"[2] == 'a' && "5a.3"[1] == 'a';
  }
}
