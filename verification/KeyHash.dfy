/**
Hashing the integer columns of an index key. A row and a list of values are hashed by two
different loops over 64-bit words; the index keeps the low 32 bits. Both compute one
polynomial in 17, but not of the same words: a row gives the bits of its columns, a value
its 64 bits or, when it has an unsigned type, 0.
*/
module KeyHash {
  import opened RowWord
  import opened Keys

  const W32: nat := 0x1_0000_0000
  const W64: nat := 0x1_0000_0000_0000_0000

  datatype Column = Bool | TinyInt | SmallInt | Int | BigInt | UTinyInt | USmallInt | UInt | UBigInt {
    predicate Unsigned() { UTinyInt? || USmallInt? || UInt? || UBigInt? }

    /** How many values the bits of the column spell. */
    function Range(): nat {
      if Bool? || TinyInt? || UTinyInt? then 0x100
      else if SmallInt? || USmallInt? then 0x1_0000
      else if Int? || UInt? then W32
      else W64
    }

    /** A number that the column can hold. */
    predicate Holds(v: int) {
      if Bool? then 0 <= v <= 1 else if Unsigned() then 0 <= v < Range() else 0 <= 2 * v + Range() < 2 * Range()
    }

    /** What a comparison with a value reads of the column: its bits as a signed number, whatever its type. */
    function Read(v: int): int {
      var bits := v % Range();
      if 2 * bits < Range() then bits else bits - Range()
    }

    /** A number that can be read of the column. */
    predicate Fits(k: int) { if Bool? then 0 <= k <= 1 else 0 <= 2 * k + Range() < 2 * Range() }
  }

  /** A remainder of a number that is not far from its range. */
  lemma NearMod(v: int, n: int)
    requires n > 0
    ensures 0 <= v < n ==> v % n == v
    ensures -n <= v < 0 ==> v % n == v + n
  {
    if -n <= v < 0 {
      ModUp(v, n);
    }
  }

  lemma ModUp(v: int, n: int)
    requires -n <= v < 0
    ensures v % n == v + n
  {
    assert v == -1 * n + (v + n);
  }

  /** What is read of a column spells the same bits, and is the number itself up to half the range. */
  lemma ReadFits(c: Column, v: int)
    requires c.Holds(v)
    ensures c.Fits(c.Read(v)) && c.Read(v) % c.Range() == v % c.Range()
    ensures c.Read(v) == v <==> 2 * v < c.Range()
  {
    NearMod(v, c.Range());
    NearMod(v % c.Range(), c.Range());
    NearMod(v % c.Range() - c.Range(), c.Range());
  }

  /** The type of a value: unsigned only for a literal that an unsigned column is compared with. */
  datatype ValType = Signed | UnsignedType

  /** A value a query gives for a column, and its 64 bits as a signed number. */
  datatype Val = Val(typ: ValType, ival: int)

  /** A number written in a statement. */
  function Literal(c: Column, v: int): Val { Val(if c.Unsigned() then UnsignedType else Signed, v) }

  /** A number bound to a parameter: as a 64-bit one, and as an unsigned one, which is cast to a signed one. */
  function Bound(v: int): Val { Val(Signed, v) }

  function BoundUint(v: int): Val { Bound(Int.Read(v)) }

  function BoundUint64(v: int): Val { Bound(BigInt.Read(v)) }

  function Numbers(vals: seq<Val>): (k: Key)
    ensures |k| == |vals| && forall i :: 0 <= i < |k| ==> k[i] == vals[i].ival
  {
    seq(|vals|, i requires 0 <= i < |vals| => vals[i].ival)
  }

  /** What the hash of a row takes of a column, and the hash of a value. */
  function RowBits(c: Column, k: int): nat { k % c.Range() }

  function ValBits(v: Val): nat { if v.typ == Signed then v.ival % W64 else 0 }

  /** The widths of columns, in numbers: what they can hold, what is hashed of them, and what can be read. */
  lemma Widths(c: Column, k: int)
    ensures c.Holds(k) <==>
      match c
      case Bool => 0 <= k <= 1
      case TinyInt => -0x80 <= k < 0x80
      case UTinyInt => 0 <= k < 0x100
      case SmallInt => -0x8000 <= k < 0x8000
      case USmallInt => 0 <= k < 0x1_0000
      case Int => -0x8000_0000 <= k < 0x8000_0000
      case UInt => 0 <= k < 0x1_0000_0000
      case BigInt => -0x8000_0000_0000_0000 <= k < 0x8000_0000_0000_0000
      case UBigInt => 0 <= k < 0x1_0000_0000_0000_0000
    ensures RowBits(c, k) ==
      match c
      case Bool | TinyInt | UTinyInt => k % 0x100
      case SmallInt | USmallInt => k % 0x1_0000
      case Int | UInt => k % 0x1_0000_0000
      case BigInt | UBigInt => k % 0x1_0000_0000_0000_0000
    ensures c.Fits(k) <==>
      match c
      case Bool => 0 <= k <= 1
      case TinyInt | UTinyInt => -0x80 <= k < 0x80
      case SmallInt | USmallInt => -0x8000 <= k < 0x8000
      case Int | UInt => -0x8000_0000 <= k < 0x8000_0000
      case BigInt | UBigInt => -0x8000_0000_0000_0000 <= k < 0x8000_0000_0000_0000
  {
  }

  /** What a comparison reads of a column that holds a number. */
  lemma ReadOf(c: Column, k: int)
    ensures c.Holds(k) ==> (c.Read(k) ==
      match c
      case UTinyInt => if k < 0x80 then k else k - 0x100
      case USmallInt => if k < 0x8000 then k else k - 0x1_0000
      case UInt => if k < 0x8000_0000 then k else k - 0x1_0000_0000
      case UBigInt => if k < 0x8000_0000_0000_0000 then k else k - 0x1_0000_0000_0000_0000
      case _ => k)
  {
    NearMod(k, c.Range());
  }

  /** All bits of -1 are set. */
  lemma BitsOfMinusOne()
    ensures RowBits(TinyInt, -1) == 0xFF && RowBits(SmallInt, -1) == 0xFFFF
    ensures RowBits(Int, -1) == 0xFFFF_FFFF && RowBits(BigInt, -1) == 0xFFFF_FFFF_FFFF_FFFF
  {
    NearMod(-1, 0x100);
    NearMod(-1, 0x1_0000);
    NearMod(-1, W32);
    NearMod(-1, W64);
  }

  function RowWords(cols: seq<Column>, k: Key): (ws: seq<int>)
    requires |cols| == |k|
    ensures |ws| == |k| && forall i :: 0 <= i < |k| ==> ws[i] == RowBits(cols[i], k[i])
  {
    seq(|k|, i requires 0 <= i < |k| => RowBits(cols[i], k[i]))
  }

  function ValWords(vals: seq<Val>): (ws: seq<int>)
    ensures |ws| == |vals| && forall i :: 0 <= i < |vals| ==> ws[i] == ValBits(vals[i])
  {
    seq(|vals|, i requires 0 <= i < |vals| => ValBits(vals[i]))
  }

  function Pow17(n: nat): nat { if n == 0 then 1 else 17 * Pow17(n - 1) }

  /** ws[0] * 17^(n-1) + ... + ws[n-1], over the integers. */
  function Poly(ws: seq<int>): int { if ws == [] then 0 else ws[0] * Pow17(|ws| - 1) + Poly(ws[1..]) }

  // ----- arithmetic

  lemma {:induction false} PolyNext(ws: seq<int>, x: int)
    ensures Poly(ws + [x]) == 17 * Poly(ws) + x
  {
    var wx := ws + [x];
    if ws == [] {
      assert wx[1..] == [];
    } else {
      assert wx[0] == ws[0] && wx[1..] == ws[1..] + [x];
      PolyNext(ws[1..], x);
      Scaled(ws[0], Pow17(|ws| - 1));
    }
  }

  lemma Scaled(a: int, p: nat)
    ensures a * (17 * p) == 17 * (a * p)
  {
  }

  lemma {:induction false} PrefixNext(ws: seq<int>, i: nat)
    requires i < |ws|
    ensures Poly(ws[..i + 1]) == 17 * Poly(ws[..i]) + ws[i]
  {
    assert ws[..i + 1] == ws[..i] + [ws[i]];
    PolyNext(ws[..i], ws[i]);
  }

  lemma Shift(v: int, q: int)
    ensures (v + W32 * q) % W32 == v % W32
  {
  }

  lemma Up(a: int, b: int, x: int, y: int)
    requires a % W32 == b % W32 && x % W32 == y % W32
    ensures (17 * a + x) % W32 == (17 * b + y) % W32
  {
    var q := 17 * (a / W32 - b / W32) + (x / W32 - y / W32);
    Shift(17 * b + y, q);
    assert 17 * a + x == 17 * b + y + W32 * q;
  }

  /** Multiplying by 17 keeps low words apart, since 17 * 0xF0F0F0F1 is 1 modulo 2^32. */
  lemma Down(p: int, r: int, a: int, b: int, x: int, y: int)
    requires p == 17 * a + x && r == 17 * b + y && p % W32 == r % W32 && x % W32 == y % W32
    ensures a % W32 == b % W32
  {
    var q := p / W32 - r / W32 - (x / W32 - y / W32);
    assert 17 * (a - b) == W32 * q;
    Shift(b, 0xF0F0F0F1 * q - 16 * (a - b));
    assert a == b + W32 * (0xF0F0F0F1 * q - 16 * (a - b));
  }

  lemma Last(p: int, r: int, a: int, b: int, x: int, y: int)
    requires p == 17 * a + x && r == 17 * b + y && p % W32 == r % W32 && a % W32 == b % W32
    ensures x % W32 == y % W32
  {
    var q := p / W32 - r / W32 - 17 * (a / W32 - b / W32);
    Shift(y, q);
    assert x == y + W32 * q;
  }

  /** One round of either loop. */
  lemma Round(sum: nat, ws: seq<int>, i: nat)
    requires i < |ws| && sum == Poly(ws[..i]) % W64
    ensures (sum * 17 + ws[i]) % W64 == Poly(ws[..i + 1]) % W64
  {
    PrefixNext(ws, i);
    Carried(sum, Poly(ws[..i]), ws[i]);
  }

  lemma Carried(sum: nat, p: int, x: int)
    requires sum == p % W64
    ensures (sum * 17 + x) % W64 == (17 * p + x) % W64
  {
    assert 17 * p + x == sum * 17 + x + W64 * (17 * (p / W64));
  }

  lemma BitsFit(c: Column, v: int)
    ensures RowBits(c, v) < W64 && RowBits(c, v) % W64 == RowBits(c, v)
  {
  }

  lemma LowOf(a: int)
    ensures (a % W64) % W32 == a % W32
  {
  }

  // ----- the two loops

  /** The hash of a row starts over while the sum is 0. */
  method RowHash(cols: seq<Column>, k: Key) returns (hashsum: nat)
    requires |cols| == |k|
    ensures hashsum == Poly(RowWords(cols, k)) % W64
  {
    ghost var ws := RowWords(cols, k);
    hashsum := 0;
    for i := 0 to |k|
      invariant hashsum < W64 && hashsum == Poly(ws[..i]) % W64
    {
      Round(hashsum, ws, i);
      BitsFit(cols[i], k[i]);
      var hash := RowBits(cols[i], k[i]);
      if hashsum == 0 {
        hashsum := hash;
      } else {
        hashsum := (hashsum * 17 + hash) % W64;
      }
    }
    assert ws[..|k|] == ws;
  }

  /** The hash of a list of values looks at the type of each. */
  method ValHash(vals: seq<Val>) returns (hashsum: nat)
    ensures hashsum == Poly(ValWords(vals)) % W64
  {
    ghost var ws := ValWords(vals);
    hashsum := 0;
    for i := 0 to |vals|
      invariant hashsum < W64 && hashsum == Poly(ws[..i]) % W64
    {
      Round(hashsum, ws, i);
      var hash := match vals[i].typ case Signed => vals[i].ival % W64 case UnsignedType => 0;
      hashsum := (hashsum * 17 + hash) % W64;
    }
    assert ws[..|vals|] == ws;
  }

  // ----- when they agree

  /** The word an index stores for a row, and the word a query looks for. */
  function Stored(cols: seq<Column>, k: Key): Word { if |cols| == |k| then Poly(RowWords(cols, k)) % W32 else 0 }

  function Sought(vals: seq<Val>): Word { Poly(ValWords(vals)) % W32 }

  /** A row that reads as the value, and the value, give the same low 32 bits. */
  predicate SameBits(c: Column, v: Val) { RowBits(c, v.ival) % W32 == ValBits(v) % W32 }

  /** The low 32 bits of a column, said of the value it reads as. */
  lemma LowRowBits(c: Column, k: int)
    requires c.Fits(k)
    ensures RowBits(c, k) % W32 == if c.Range() >= W32 then k % W32 else if k >= 0 then k else k + c.Range()
  {
    LowOf(k);
    NearMod(k, c.Range());
    NearMod(k % c.Range(), W32);
  }

  /** A wide column agrees with any signed value, whether it can hold it or not. */
  lemma WideSame(c: Column, v: Val)
    requires c.Range() >= W32 && v.typ == Signed
    ensures SameBits(c, v)
  {
    LowOf(v.ival);
  }

  lemma SameSigned(c: Column, v: Val)
    requires c.Fits(v.ival) && v.typ == Signed
    ensures SameBits(c, v) <==> c.Range() >= W32 || v.ival >= 0
  {
    LowRowBits(c, v.ival);
    LowOf(v.ival);
    NearMod(v.ival, W32);
  }

  /**
  A signed value agrees with a column of 32 or 64 bits always and with a narrower one when
  it is not negative; an unsigned one agrees only when its low 32 bits are 0.
  */
  lemma SameBitsWhen(c: Column, v: Val)
    requires c.Fits(v.ival)
    ensures v.typ == Signed ==> (SameBits(c, v) <==> c.Range() >= W32 || v.ival >= 0)
    ensures v.typ == UnsignedType ==> (SameBits(c, v) <==> v.ival % W32 == 0)
    ensures v.typ == UnsignedType && !c.BigInt? && !c.UBigInt? ==> (SameBits(c, v) <==> v.ival == 0)
  {
    if v.typ == Signed {
      SameSigned(c, v);
    } else {
      LowRowBits(c, v.ival);
      NearMod(v.ival, W32);
    }
  }

  /** A row that holds v is found by a value: it reads as the value and hashes alike. */
  predicate Found(c: Column, v: int, val: Val) { c.Read(v) == val.ival && SameBits(c, val) }

  /** By the number it holds, written as a literal: the narrow signed columns and the unsigned ones fail. */
  lemma FoundByLiteral(c: Column, v: int)
    requires c.Holds(v)
    ensures Found(c, v, Literal(c, v)) <==>
      match c
      case Bool | Int | BigInt => true
      case TinyInt | SmallInt => v >= 0
      case UTinyInt | USmallInt | UInt => v == 0
      case UBigInt => v < 0x8000_0000_0000_0000 && v % 0x1_0000_0000 == 0
  {
    ReadFits(c, v);
    if c.Read(v) == v {
      SameBitsWhen(c, Literal(c, v));
    }
  }

  /** Bound to a parameter it must be what is read of the column, and not negative in a narrow one. */
  lemma FoundWhen(c: Column, v: int, k: int)
    requires c.Holds(v)
    ensures Found(c, v, Bound(k)) <==> k == c.Read(v) && (c.Range() >= W32 || k >= 0)
  {
    ReadFits(c, v);
    if k == c.Read(v) {
      SameBitsWhen(c, Bound(k));
    }
  }

  /** Bound as a signed number, unsigned columns are found up to half their range. */
  lemma FoundByInt64(c: Column, v: int)
    requires c.Holds(v)
    ensures Found(c, v, Bound(v)) <==>
      match c
      case Bool | Int | BigInt => true
      case TinyInt | SmallInt => v >= 0
      case UTinyInt => v < 0x80
      case USmallInt => v < 0x8000
      case UInt => v < 0x8000_0000
      case UBigInt => v < 0x8000_0000_0000_0000
  {
    ReadFits(c, v);
    FoundWhen(c, v, v);
  }

  /** Bound as an unsigned number of its own width an unsigned column is always found, a wider one not always. */
  lemma FoundByUint(c: Column, v: int)
    requires c.Holds(v) && 0 <= v < W32
    ensures Found(c, v, BoundUint(v)) <==>
      match c
      case Bool | TinyInt | SmallInt | Int | UInt => true
      case UTinyInt => v < 0x80
      case USmallInt => v < 0x8000
      case BigInt | UBigInt => v < 0x8000_0000
  {
    ReadFits(c, v);
    ReadFits(UInt, v);
    FoundWhen(c, v, Int.Read(v));
  }

  lemma FoundByUint64(c: Column, v: int)
    requires c.Holds(v) && 0 <= v < W64
    ensures Found(c, v, BoundUint64(v)) <==>
      match c
      case Bool | TinyInt | SmallInt | Int | BigInt | UBigInt => true
      case UTinyInt => v < 0x80
      case USmallInt => v < 0x8000
      case UInt => v < 0x8000_0000
  {
    ReadFits(c, v);
    ReadFits(UBigInt, v);
    FoundWhen(c, v, BigInt.Read(v));
  }

  predicate AllSame(cols: seq<Column>, vals: seq<Val>) {
    |cols| == |vals| && forall i :: 0 <= i < |vals| ==> SameBits(cols[i], vals[i])
  }

  /** The words kept by an index are the low bits of the two hashes. */
  lemma WordsKept(cols: seq<Column>, k: Key, vals: seq<Val>)
    requires |cols| == |k|
    ensures Stored(cols, k) == (Poly(RowWords(cols, k)) % W64) % W32
    ensures Sought(vals) == (Poly(ValWords(vals)) % W64) % W32
  {
    LowOf(Poly(RowWords(cols, k)));
    LowOf(Poly(ValWords(vals)));
  }

  /** Columns that agree hash alike. */
  lemma {:induction false} SameSoFar(cols: seq<Column>, vals: seq<Val>, n: nat)
    requires |cols| == |vals| && n <= |vals| && forall i :: 0 <= i < n ==> SameBits(cols[i], vals[i])
    ensures Poly(RowWords(cols, Numbers(vals))[..n]) % W32 == Poly(ValWords(vals)[..n]) % W32
  {
    if n > 0 {
      var rs, vs := RowWords(cols, Numbers(vals)), ValWords(vals);
      SameSoFar(cols, vals, n - 1);
      PrefixNext(rs, n - 1);
      PrefixNext(vs, n - 1);
      Up(Poly(rs[..n - 1]), Poly(vs[..n - 1]), rs[n - 1], vs[n - 1]);
    }
  }

  /** When all the other columns agree, equal sums make one column agree too. */
  lemma {:induction false} ApartSoFar(cols: seq<Column>, vals: seq<Val>, at: nat, n: nat)
    requires |cols| == |vals| && at < n <= |vals|
    requires forall i :: 0 <= i < |vals| && i != at ==> SameBits(cols[i], vals[i])
    requires Poly(RowWords(cols, Numbers(vals))[..n]) % W32 == Poly(ValWords(vals)[..n]) % W32
    ensures SameBits(cols[at], vals[at])
  {
    var rs, vs := RowWords(cols, Numbers(vals)), ValWords(vals);
    PrefixNext(rs, n - 1);
    PrefixNext(vs, n - 1);
    if at == n - 1 {
      SameSoFar(cols, vals, at);
      Last(Poly(rs[..n]), Poly(vs[..n]), Poly(rs[..at]), Poly(vs[..at]), rs[at], vs[at]);
    } else {
      Down(Poly(rs[..n]), Poly(vs[..n]), Poly(rs[..n - 1]), Poly(vs[..n - 1]), rs[n - 1], vs[n - 1]);
      ApartSoFar(cols, vals, at, n - 1);
    }
  }

  lemma WholeWords(cols: seq<Column>, vals: seq<Val>)
    requires |cols| == |vals|
    ensures RowWords(cols, Numbers(vals))[..|vals|] == RowWords(cols, Numbers(vals))
    ensures ValWords(vals)[..|vals|] == ValWords(vals)
  {
  }

  /** A row and the values it reads as hash to one word when every column agrees. */
  lemma OneHash(cols: seq<Column>, vals: seq<Val>)
    requires AllSame(cols, vals)
    ensures Stored(cols, Numbers(vals)) == Sought(vals)
  {
    SameSoFar(cols, vals, |vals|);
    WholeWords(cols, vals);
  }

  /** With one column that differs they never do: the row cannot be found by its values. */
  lemma TwoHashes(cols: seq<Column>, vals: seq<Val>, at: nat)
    requires |cols| == |vals| && at < |vals|
    requires forall i :: 0 <= i < |vals| ==> (SameBits(cols[i], vals[i]) <==> i != at)
    ensures Stored(cols, Numbers(vals)) != Sought(vals)
  {
    WholeWords(cols, vals);
    if Stored(cols, Numbers(vals)) == Sought(vals) {
      ApartSoFar(cols, vals, at, |vals|);
    }
  }

  /** In an index of one column they agree exactly when the column does. */
  lemma OneColumn(c: Column, v: Val)
    ensures Stored([c], [v.ival]) == Sought([v]) <==> SameBits(c, v)
  {
    assert Numbers([v]) == [v.ival];
    if SameBits(c, v) {
      OneHash([c], [v]);
    } else {
      TwoHashes([c], [v], 0);
    }
  }
}
