/**
64-bit words as their bits, and walking the bits of a word byte by byte.
*/
module BitWord {

  type Word = w: seq<bool> | |w| == 64 witness seq(64, i => false)

  const ZERO: Word := seq(64, i => false)

  /** Listed in strictly ascending order. */
  ghost predicate Rising(s: seq<nat>) { forall i, j :: 0 <= i < j < |s| ==> s[i] < s[j] }

  /** The bits of w below `top`, ascending. */
  ghost predicate ListsBits(s: seq<nat>, w: Word, top: nat) {
    Rising(s) && forall b: nat :: b in s <==> b < top && b < 64 && w[b]
  }

  lemma IndexOf(ids: seq<nat>, b: nat)
    ensures b in ids ==> exists j :: 0 <= j < |ids| && ids[j] == b
  {
  }

  predicate IsZero(w: Word) { forall i :: 0 <= i < 64 ==> !w[i] }

  lemma RisingOne(s: seq<nat>, b: nat)
    requires Rising(s) && forall x :: x in s ==> x < b
    ensures Rising(s + [b]) && forall x :: x in s + [b] <==> x in s || x == b
  {
    forall i | 0 <= i < |s|
      ensures s[i] < b
    {
      assert s[i] in s;
    }
  }

  /** The set bits of a word, found through its non-zero bytes. */
  method Bits(w: Word) returns (s: seq<nat>)
    ensures ListsBits(s, w, 64)
  {
    s := [];
    for b := 0 to 8
      invariant ListsBits(s, w, 8 * b)
    {
      if w[8 * b..8 * b + 8] != seq(8, i => false) {
        for i := 0 to 8
          invariant ListsBits(s, w, 8 * b + i)
        {
          if w[8 * b + i] {
            RisingOne(s, 8 * b + i);
            s := s + [8 * b + i];
          }
        }
      } else {
        forall i | 8 * b <= i < 8 * b + 8
          ensures !w[i]
        {
          assert w[8 * b..8 * b + 8][i - 8 * b] == w[i];
        }
      }
    }
  }
}
