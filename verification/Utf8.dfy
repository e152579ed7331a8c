/** Bytes and UTF-8 characters, as section 3 of RFC 3629 lays them out. */
module Utf8 {

  newtype byte = x: int | 0 <= x < 256

  const NEWLINE: byte := 10

  /** `utf8::multibyte<char>::partial`: any byte of a character longer than one byte. */
  predicate Partial(b: byte) {
    0x80 <= b
  }

  /** `utf8::multibyte<char>::is_start`: the first byte of such a character. */
  predicate IsStart(b: byte) {
    0xC0 <= b
  }

  /** A byte that continues a character, 10xxxxxx. */
  predicate Continues(b: byte) {
    0x80 <= b < 0xC0
  }

  /** What the two tests of the source say together. */
  lemma PartOfCharacter(b: byte)
    ensures Continues(b) <==> Partial(b) && !IsStart(b)
    ensures Continues(b) || 0xF8 <= b <==> CharLength(b) == 0
    ensures Partial(b) <==> CharLength(b) != 1
  {
  }

  /** The length that a first byte announces; 0 for a byte that cannot be first. */
  function CharLength(b: byte): nat {
    if b < 0x80 then 1
    else if 0xC0 <= b < 0xE0 then 2
    else if 0xE0 <= b < 0xF0 then 3
    else if 0xF0 <= b < 0xF8 then 4
    else 0
  }

  /** `s` consists of whole characters. */
  predicate Whole(s: seq<byte>) {
    s == [] ||
    var n := CharLength(s[0]);
    0 < n <= |s| && (forall i | 1 <= i < n :: Continues(s[i])) && Whole(s[n..])
  }

  /** Characters can be separated wherever one begins. */
  lemma {:induction false} SplitBetween(s: seq<byte>, i: nat)
    requires Whole(s) && i <= |s|
    requires i == |s| || !Continues(s[i])
    ensures Whole(s[..i]) && Whole(s[i..])
  {
    hide CharLength, Continues;
    if i == 0 {
      assert s[0..] == s;
    } else {
      var n := CharLength(s[0]);
      assert n <= i && forall k | 1 <= k < n :: s[..i][k] == s[k];
      SplitBetween(s[n..], i - n);
      assert s[n..][i - n..] == s[i..] && s[n..][..i - n] == s[..i][n..];
    }
  }

  /** What is left behind whole characters of a whole text is whole. */
  lemma {:induction false} WholeRest(s: seq<byte>, i: nat)
    requires Whole(s) && i <= |s| && Whole(s[..i])
    ensures Whole(s[i..])
  {
    if i == 0 {
      assert s[0..] == s;
    } else {
      var n := CharLength(s[0]);
      assert s[..i][0] == s[0];
      assert s[n..][..i - n] == s[..i][n..] && s[n..][i - n..] == s[i..];
      WholeRest(s[n..], i - n);
    }
  }
}
