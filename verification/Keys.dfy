/**
Index keys: the integer values of the indexed columns of a row, compared column by column.
*/
module Keys {

  type Key = seq<int>

  /** The sign of the first difference, 0 when there is none. */
  ghost function Cmp(a: Key, b: Key): int
    requires |a| == |b|
  {
    if a == [] then 0
    else if a[0] > b[0] then 1
    else if a[0] < b[0] then -1
    else Cmp(a[1..], b[1..])
  }

  ghost predicate Less(a: Key, b: Key) { |a| == |b| && Cmp(a, b) < 0 }

  /** The lexicographic order: at the first column that differs the value is smaller. */
  lemma {:induction false} LessMeans(a: Key, b: Key)
    ensures Less(a, b) <==> |a| == |b| && exists i :: 0 <= i < |a| && a[..i] == b[..i] && a[i] < b[i]
  {
    if |a| == |b| && a != [] {
      var s, t := a[1..], b[1..];
      LessMeans(s, t);
      assert a[..0] == b[..0];
      if a[0] == b[0] {
        forall i | 0 <= i < |s|
          ensures s[..i] == t[..i] <==> a[..i + 1] == b[..i + 1]
        {
          assert a[..i + 1] == [a[0]] + s[..i] && b[..i + 1] == [b[0]] + t[..i];
          assert a[..i + 1][1..] == s[..i] && b[..i + 1][1..] == t[..i];
        }
        if i :| 0 <= i < |s| && s[..i] == t[..i] && s[i] < t[i] {
          assert a[..i + 1] == b[..i + 1] && a[i + 1] < b[i + 1];
        }
        if i :| 0 <= i < |a| && a[..i] == b[..i] && a[i] < b[i] {
          assert s[..i - 1] == t[..i - 1] && s[i - 1] < t[i - 1];
        }
      } else {
        forall i | 0 < i < |a|
          ensures a[..i] != b[..i]
        {
          assert a[..i][0] != b[..i][0];
        }
      }
    }
  }

  /** Compares the first `count` columns: the sign is that of the first difference. */
  method CompareKeys(a: Key, b: Key, count: nat) returns (cmp: int)
    requires count <= |a| && count <= |b|
    ensures cmp == Cmp(a[..count], b[..count])
    ensures cmp == 0 <==> a[..count] == b[..count]
    ensures cmp < 0 <==> exists i :: 0 <= i < count && a[..i] == b[..i] && a[i] < b[i]
    ensures cmp > 0 <==> exists i :: 0 <= i < count && a[..i] == b[..i] && a[i] > b[i]
  {
    var i := 0;
    while i < count
      invariant 0 <= i <= count && a[..i] == b[..i]
      invariant Cmp(a[..count], b[..count]) == Cmp(a[i..count], b[i..count])
    {
      assert a[i..count][1..] == a[i + 1..count] && b[i..count][1..] == b[i + 1..count];
      if a[i] != b[i] {
        return if a[i] > b[i] then 1 else -1;
      }
      i := i + 1;
    }
    return 0;
  }

  lemma {:induction false} CmpEqual(a: Key, b: Key)
    requires |a| == |b|
    ensures Cmp(a, b) == 0 <==> a == b
    ensures -1 <= Cmp(a, b) <= 1
  {
    if a != [] {
      CmpEqual(a[1..], b[1..]);
      assert a == [a[0]] + a[1..] && b == [b[0]] + b[1..];
    }
  }

  lemma {:induction false} CmpFlip(a: Key, b: Key)
    requires |a| == |b|
    ensures Cmp(a, b) == -Cmp(b, a)
  {
    if a != [] {
      CmpFlip(a[1..], b[1..]);
    }
  }

  /** Comparing all columns tells equal, less and greater apart. */
  lemma FullCmp(a: Key, b: Key)
    requires |a| == |b|
    ensures a[..|a|] == a && b[..|a|] == b
    ensures Cmp(a, b) == 0 <==> a == b
    ensures Cmp(a, b) < 0 <==> Less(a, b)
    ensures Cmp(a, b) > 0 <==> Less(b, a)
  {
    CmpEqual(a, b);
    CmpFlip(a, b);
  }

  lemma {:induction false} LessTransitive(a: Key, b: Key, c: Key)
    requires Less(a, b) && Less(b, c)
    ensures Less(a, c)
  {
    if a != [] && a[0] == b[0] == c[0] {
      LessTransitive(a[1..], b[1..], c[1..]);
    }
  }

  /** A prefix compares the same way or equal. */
  lemma {:induction false} CmpPrefix(a: Key, b: Key, m: nat)
    requires Less(a, b) && m <= |a|
    ensures Cmp(a[..m], b[..m]) <= 0
  {
    if m > 0 && a[0] == b[0] {
      CmpPrefix(a[1..], b[1..], m - 1);
      assert a[..m][1..] == a[1..][..m - 1] && b[..m][1..] == b[1..][..m - 1];
    }
  }
}
