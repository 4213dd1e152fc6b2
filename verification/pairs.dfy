/** The ordering of sorted-set members: (score, name) pairs compared the way zset.cc compares them. */
module Pairs {

  newtype byte = x: int | 0 <= x < 0x100

  type Name = seq<byte>

  /** The number of values of uint32_t. */
  const UINT32_RANGE: nat := 0x1_0000_0000

  /** The number of values of uint64_t. */
  const UINT64_RANGE: nat := 0x1_0000_0000_0000_0000

  /** A double is never NaN here, so it is represented by its position in the numeric order. */
  datatype Pair = Pair(score: int, name: Name)

  function Min(a: nat, b: nat): nat {
    if a < b then a else b
  }

  /** memcmp(): the sign of the first difference among the first n bytes. */
  function Memcmp(a: Name, b: Name, n: nat): int
    requires n <= |a| && n <= |b|
  {
    if n == 0 then 0
    else if a[0] != b[0] then a[0] as int - b[0] as int
    else Memcmp(a[1..], b[1..], n - 1)
  }

  predicate ZLess(lhs: Pair, rhs: Pair) {
    if lhs.score != rhs.score then
      lhs.score < rhs.score
    else
      var rv := Memcmp(lhs.name, rhs.name, Min(|lhs.name|, |rhs.name|));
      if rv != 0 then rv < 0 else |lhs.name| < |rhs.name|
  }

  /** Dictionary order, stated without reference to memcmp. */
  ghost predicate Precedes(a: Name, b: Name) {
    exists k: nat :: DiffersAt(a, b, k)
  }

  ghost predicate DiffersAt(a: Name, b: Name, k: nat) {
    && k <= |a| && k < |b|
    && a[..k] == b[..k]
    && (k < |a| ==> a[k] < b[k])
  }

  lemma {:induction false} MemcmpIsDictionaryOrder(a: Name, b: Name)
    ensures var rv := Memcmp(a, b, Min(|a|, |b|));
            (if rv != 0 then rv < 0 else |a| < |b|) <==> Precedes(a, b)
  {
    if |a| == 0 || |b| == 0 {
      if |b| > 0 {
        assert DiffersAt(a, b, 0);
      }
    } else if a[0] != b[0] {
      if a[0] < b[0] {
        assert DiffersAt(a, b, 0);
      } else {
        assert forall k: nat | DiffersAt(a, b, k) && k > 0 :: a[..k][0] == b[..k][0];
      }
    } else {
      MemcmpIsDictionaryOrder(a[1..], b[1..]);
      if Precedes(a[1..], b[1..]) {
        var k: nat :| DiffersAt(a[1..], b[1..], k);
        assert a[..k + 1] == [a[0]] + a[1..][..k];
        assert b[..k + 1] == [b[0]] + b[1..][..k];
        assert DiffersAt(a, b, k + 1);
      }
      if Precedes(a, b) {
        var k: nat :| DiffersAt(a, b, k);
        assert a[1..][..k - 1] == a[..k][1..] == b[..k][1..] == b[1..][..k - 1];
        assert DiffersAt(a[1..], b[1..], k - 1);
      }
    }
  }

  /** The comparator is a strict total order, so a set of pairs has exactly one sorted listing. */
  lemma ZLessIsStrictTotalOrder(a: Pair, b: Pair, c: Pair)
    ensures !ZLess(a, a)
    ensures ZLess(a, b) && ZLess(b, c) ==> ZLess(a, c)
    ensures ZLess(a, b) || ZLess(b, a) || a == b
    ensures !(ZLess(a, b) && ZLess(b, a))
  {
    MemcmpIsDictionaryOrder(a.name, a.name);
    MemcmpIsDictionaryOrder(a.name, b.name);
    MemcmpIsDictionaryOrder(b.name, a.name);
    MemcmpIsDictionaryOrder(b.name, c.name);
    MemcmpIsDictionaryOrder(a.name, c.name);
    PrecedesTransitive(a.name, b.name, c.name);
    PrecedesTransitive(a.name, b.name, a.name);
    PrecedesTotal(a.name, b.name);
    PrecedesIrreflexive(a.name);
  }

  lemma PrecedesIrreflexive(a: Name)
    ensures !Precedes(a, a)
  {
  }

  lemma PrecedesTransitive(a: Name, b: Name, c: Name)
    ensures Precedes(a, b) && Precedes(b, c) ==> Precedes(a, c)
  {
    if Precedes(a, b) && Precedes(b, c) {
      var i: nat :| DiffersAt(a, b, i);
      var j: nat :| DiffersAt(b, c, j);
      var k := Min(i, j);
      assert a[..k] == a[..i][..k] == b[..k] == b[..j][..k] == c[..k];
      assert k < i ==> a[k] == a[..i][k] == b[k];
      assert k < j ==> b[k] == b[..j][k] == c[k];
      assert DiffersAt(a, c, k);
    }
  }

  lemma {:induction false} PrecedesTotal(a: Name, b: Name)
    ensures Precedes(a, b) || Precedes(b, a) || a == b
  {
    var k: nat := 0;
    while k < |a| && k < |b| && a[k] == b[k]
      invariant k <= |a| && k <= |b| && a[..k] == b[..k]
    {
      assert a[..k + 1] == a[..k] + [a[k]];
      assert b[..k + 1] == b[..k] + [b[k]];
      k := k + 1;
    }
    if k == |a| == |b| {
      assert a == a[..k] && b == b[..k];
    } else if k < |b| && (k == |a| || a[k] < b[k]) {
      assert DiffersAt(a, b, k);
    } else {
      assert DiffersAt(b, a, k);
    }
  }
}
