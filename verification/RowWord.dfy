/**
Row ids and the link words built from them. A row id is a 32-bit word; bit 31 is free
for a tag, and the low 31 bits hold the id. Words are written here as the unsigned
number their bits spell.
*/
module RowWord {

  const MSB: nat := 0x8000_0000

  /** Row ids stay below this bound, so that a sum of four link words cannot wrap to 0. */
  const RID_LIMIT: nat := 0x1000_0000

  type Word = w: nat | w < 0x1_0000_0000

  /** The tag bit of a word. */
  predicate Tagged(w: nat) { w >= MSB }

  /** The word with its tag bit cleared: the row id it carries. */
  function Rid(w: nat): nat { if w >= MSB then w - MSB else w }

  /** The word with its tag bit set to `tag`, its low bits kept. */
  function WithTag(w: Word, tag: bool): Word { Rid(w) + (if tag then MSB else 0) }

  /** The word with its low bits replaced by `rid`, its tag bit kept. */
  function WithRid(w: Word, rid: nat): Word
    requires rid < MSB
  {
    rid + (if Tagged(w) then MSB else 0)
  }

  function Pow2(j: nat): nat { if j == 0 then 1 else 2 * Pow2(j - 1) }

  /** The sum of words as 32-bit machine arithmetic computes it. */
  function Wrap(sum: nat): Word { sum % 0x1_0000_0000 }
}
