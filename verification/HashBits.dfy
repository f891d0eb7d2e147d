/**
Slot masks. A slot count is a power of two and the mask one less, so masking a hash value
keeps its low bits. Doubling the slot count keeps one bit more: a value stays in its slot
or moves up by the old count.
*/
module HashBits {
  import opened RowWord

  /** Bitwise and. */
  function And(a: nat, b: nat): nat {
    if a == 0 || b == 0 then 0 else 2 * And(a / 2, b / 2) + (if a % 2 == 1 && b % 2 == 1 then 1 else 0)
  }

  /** The low j bits. */
  function LowBits(h: nat, j: nat): nat { if j == 0 then 0 else 2 * LowBits(h / 2, j - 1) + h % 2 }

  lemma HalfRest(h: nat, m: nat)
    requires m > 0
    ensures h % (2 * m) == 2 * ((h / 2) % m) + h % 2
  {
    var q, r := (h / 2) / m, (h / 2) % m;
    assert q * (2 * m) == 2 * (q * m);
    OneRest(h, 2 * m, q, 2 * r + h % 2);
  }

  lemma OneRest(h: nat, n: nat, q: nat, r: nat)
    requires n > 0 && r < n && h == q * n + r
    ensures h % n == r
  {
    var p := h / n;
    assert (p - q) * n == p * n - q * n == r - h % n;
    if p > q {
      AtLeast(p - q, n);
    } else if p < q {
      AtLeast(q - p, n);
    }
  }

  lemma AtLeast(a: int, n: nat)
    requires a >= 1
    ensures a * n >= n
  {
  }

  lemma {:induction false} MaskKeepsLowBits(h: nat, j: nat)
    ensures Pow2(j) > 0 && And(h, Pow2(j) - 1) == LowBits(h, j) < Pow2(j)
    ensures LowBits(h, j) == h % Pow2(j)
  {
    if j > 0 {
      MaskKeepsLowBits(h / 2, j - 1);
      var m := Pow2(j - 1);
      assert (2 * m - 1) / 2 == m - 1 && (2 * m - 1) % 2 == 1;
      if h == 0 {
        assert And(0, m - 1) == 0;
      }
      HalfRest(h, m);
    }
  }

  /** With twice the slots a value stays or moves up by the old slot count. */
  lemma {:induction false} OneBitMore(h: nat, j: nat)
    ensures LowBits(h, j + 1) == LowBits(h, j) || LowBits(h, j + 1) == LowBits(h, j) + Pow2(j)
  {
    if j > 0 {
      OneBitMore(h / 2, j - 1);
    }
  }
}
