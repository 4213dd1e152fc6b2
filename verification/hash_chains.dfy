/** Chained hash slots as values: which nodes hang in which slot, and what one link change does to them. */
module HashChains {

  /** HNode of hashtable.hh; `owner` is the enclosing struct, reached there by container_of. */
  class HNode<T> {
    var next: HNode?<T>
    const hcode: nat
    const owner: T

    constructor (hcode: nat, owner: T)
      ensures this.hcode == hcode && this.owner == owner
    {
      this.hcode, this.owner, next := hcode, owner, null;
    }
  }

  type Chain<T> = seq<HNode<T>>

  // ---- powers of two and masks ----

  function BitAnd(x: nat, y: nat): (r: nat)
    ensures r <= y
  {
    if x == 0 || y == 0 then 0 else (if x % 2 == 1 && y % 2 == 1 then 1 else 0) + 2 * BitAnd(x / 2, y / 2)
  }

  function Pow2(k: nat): (r: nat)
    ensures r > 0
  {
    if k == 0 then 1 else 2 * Pow2(k - 1)
  }

  /** The least power of two that is not below n, as round_up_power_of_2() finds it. */
  function RoundedUp(n: nat): nat {
    if n <= 1 then 1 else 2 * RoundedUp((n + 1) / 2)
  }

  lemma {:induction false} PowersStay(k: nat)
    ensures RoundedUp(Pow2(k)) == Pow2(k)
  {
    if k > 0 {
      PowersStay(k - 1);
      assert (Pow2(k) + 1) / 2 == Pow2(k - 1);
    }
  }

  predicate IsPowerOfTwo(n: nat) {
    n == 1 || (n > 0 && n % 2 == 0 && IsPowerOfTwo(n / 2))
  }

  /** The slot computation hcode & mask is hcode % capacity. */
  lemma {:induction false} SlotIsRemainder(hcode: nat, mask: nat)
    requires IsPowerOfTwo(mask + 1)
    ensures BitAnd(hcode, mask) == hcode % (mask + 1)
  {
    var k := Log2(mask + 1);
    MaskIsModulo(hcode, k);
  }

  lemma {:induction false} PowersArePowers(k: nat)
    ensures IsPowerOfTwo(Pow2(k))
  {
    if k > 0 {
      PowersArePowers(k - 1);
    }
  }

  ghost function Log2(n: nat): (k: nat)
    requires IsPowerOfTwo(n)
    ensures Pow2(k) == n
  {
    if n == 1 then 0 else 1 + Log2(n / 2)
  }

  lemma MaskStep(x: nat, p: nat)
    requires p > 0
    ensures BitAnd(x, 2 * p - 1) == x % 2 + 2 * BitAnd(x / 2, p - 1)
  {
    assert (2 * p - 1) / 2 == p - 1 && (2 * p - 1) % 2 == 1;
    if x == 0 {
      assert BitAnd(0, p - 1) == 0;
    }
  }

  lemma {:induction false} Pow2Doubles(k: nat)
    ensures Pow2(0) == 1 && Pow2(k + 1) == 2 * Pow2(k)
  {
  }

  lemma MaskDoubled(x: nat, p: nat)
    requires p > 0 && BitAnd(x / 2, p - 1) == Remainder(x / 2, p)
    ensures BitAnd(x, 2 * p - 1) == Remainder(x, 2 * p)
  {
    hide BitAnd;
    MaskStep(x, p);
    HalveModulo(x, p);
  }

  /** Masking with a power of two minus one is reduction modulo that power. */
  lemma {:induction false} MaskIsModulo(x: nat, k: nat)
    ensures BitAnd(x, Pow2(k) - 1) == Remainder(x, Pow2(k))
  {
    hide BitAnd, Pow2, Remainder;
    if k > 0 {
      var p := Pow2(k - 1);
      Pow2Doubles(k - 1);
      MaskIsModulo(x / 2, k - 1);
      MaskDoubled(x, p);
    } else {
      Pow2Doubles(0);
      MaskZero(x);
    }
  }

  function Remainder(x: nat, p: nat): nat
    requires p > 0
  {
    x % p
  }

  lemma MaskZero(x: nat)
    ensures BitAnd(x, 0) == 0 && Remainder(x, 1) == 0
  {
  }

  lemma HalveModulo(x: nat, p: nat)
    requires p > 0
    ensures x % (2 * p) == x % 2 + 2 * ((x / 2) % p)
  {
    var q, r := (x / 2) / p, (x / 2) % p;
    assert x / 2 == q * p + r;
    assert x == 2 * (x / 2) + x % 2;
    assert x == q * (2 * p) + (x % 2 + 2 * r);
    DivisionIsUnique(x, 2 * p, q, x % 2 + 2 * r);
  }

  lemma DivisionIsUnique(x: nat, d: nat, q: nat, r: nat)
    requires d > 0 && x == q * d + r && r < d
    ensures x % d == r
  {
    var q', r' := x / d, x % d;
    assert x == q' * d + r';
    NextMultiple(q, q', d);
    NextMultiple(q', q, d);
  }

  lemma NextMultiple(a: nat, b: nat, d: nat)
    ensures a < b ==> a * d + d <= b * d
  {
    if a < b {
      var k: nat := b - a - 1;
      assert b * d == a * d + d + k * d;
    }
  }

  // ---- chains ----

  type Links<!T> = map<HNode<T>, HNode?<T>>

  function Head<T>(s: Chain<T>): HNode?<T> {
    if s == [] then null else s[0]
  }

  /** The nodes of s are linked by `next` in this order, starting from `head`. */
  ghost predicate Linked<T>(m: Links<T>, s: Chain<T>, head: HNode?<T>) {
    head == Head(s) && (s != [] ==> s[0] in m && Linked(m, s[1..], m[s[0]]))
  }

  lemma {:induction false} LinkedFrame<T>(m: Links<T>, m': Links<T>, s: Chain<T>, head: HNode?<T>)
    requires Linked(m, s, head)
    requires forall n | n in s && n in m :: n in m' && m'[n] == m[n]
    ensures Linked(m', s, head)
  {
    if s != [] {
      LinkedFrame(m, m', s[1..], m[s[0]]);
    }
  }

  ghost function Without<T>(s: seq<T>, j: nat): seq<T>
    requires j < |s|
  {
    s[..j] + s[j + 1..]
  }

  /** Unlinking the j-th node: its predecessor, or the slot, takes over its `next`. */
  lemma {:induction false} LinkedRemove<T>(m: Links<T>, m': Links<T>, s: Chain<T>, head: HNode?<T>, j: nat)
    requires Linked(m, s, head) && j < |s| && s[j] in m
    requires j > 0 ==> s[j - 1] in m' && m'[s[j - 1]] == m[s[j]]
    requires forall i | 0 <= i < |s| && i != j && i != j - 1 && s[i] in m :: s[i] in m' && m'[s[i]] == m[s[i]]
    ensures Linked(m', Without(s, j), if j == 0 then m[s[0]] else head)
  {
    if j == 0 {
      assert Without(s, 0) == s[1..];
      LinkedFrame(m, m', s[1..], m[s[0]]);
    } else {
      assert Without(s, j) == [s[0]] + Without(s[1..], j - 1);
      LinkedRemove(m, m', s[1..], m[s[0]], j - 1);
    }
  }

  lemma {:induction false} LinkedMember<T>(m: Links<T>, s: Chain<T>, head: HNode?<T>, j: nat)
    requires Linked(m, s, head) && j < |s|
    ensures s[j] in m && m[s[j]] == Head(s[j + 1..])
    ensures Linked(m, s[j..], s[j])
  {
    if j > 0 {
      LinkedMember(m, s[1..], m[s[0]], j - 1);
      assert s[1..][j..] == s[j + 1..] && s[1..][j - 1..] == s[j..];
    }
  }

  // ---- tables ----

  /** What a table looks like: the links between nodes, the slots, and the chains that start there. */
  datatype Shape<!T> = Shape(links: Links<T>, slots: seq<HNode?<T>>, chains: seq<Chain<T>>)

  /**
   Slots, chains and links agree; the chains hold exactly the given nodes, each of them once,
   in the slot its hash code selects.
   */
  ghost predicate TableOk<T>(t: Shape<T>, mask: nat, nodes: set<HNode<T>>) {
    && |t.slots| == |t.chains| == mask + 1
    && (forall i | 0 <= i < |t.chains| :: Linked(t.links, t.chains[i], t.slots[i]))
    && (forall i, j | 0 <= i < |t.chains| && 0 <= j < |t.chains[i]| ::
          t.chains[i][j] in nodes && BitAnd(t.chains[i][j].hcode, mask) == i)
    && (forall n | n in nodes :: n in t.chains[BitAnd(n.hcode, mask)])
    && forall i, j, k | 0 <= i < |t.chains| && 0 <= j < k < |t.chains[i]| :: t.chains[i][j] != t.chains[i][k]
  }

  /** The table after the node has been put in front of the chain at pos. */
  ghost function Inserted<T>(t: Shape<T>, pos: nat, node: HNode<T>): Shape<T>
    requires pos < |t.slots| == |t.chains|
  {
    Shape(t.links[node := t.slots[pos]], t.slots[pos := node], t.chains[pos := [node] + t.chains[pos]])
  }

  lemma InsertedOk<T>(t: Shape<T>, mask: nat, nodes: set<HNode<T>>, node: HNode<T>)
    requires TableOk(t, mask, nodes) && node !in nodes
    ensures TableOk(Inserted(t, BitAnd(node.hcode, mask), node), mask, nodes + {node})
  {
    var pos := BitAnd(node.hcode, mask);
    var t' := Inserted(t, pos, node);
    forall i | 0 <= i < |t.chains|
      ensures Linked(t'.links, t'.chains[i], t'.slots[i])
    {
      LinkedFrame(t.links, t'.links, t.chains[i], t.slots[i]);
      assert ([node] + t.chains[pos])[1..] == t.chains[pos];
    }
  }

  /** The link that leads to the j-th node at pos is the slot itself or `next` of the predecessor. */
  lemma IncomingLink<T>(t: Shape<T>, mask: nat, nodes: set<HNode<T>>, pos: nat, j: nat)
    requires TableOk(t, mask, nodes) && pos < |t.chains| && j < |t.chains[pos]|
    ensures |t.slots| == |t.chains|
    ensures var s := t.chains[pos];
            && s[j] in nodes && s[j] in t.links
            && (j == 0 ==> t.slots[pos] == s[j])
            && (j > 0 ==> s[j - 1] in nodes && s[j - 1] in t.links && t.links[s[j - 1]] == s[j] && s[j - 1] != s[j])
  {
    LinkedMember(t.links, t.chains[pos], t.slots[pos], j);
    if j > 0 {
      LinkedMember(t.links, t.chains[pos], t.slots[pos], j - 1);
    }
  }

  /** The table after the link to the j-th node at pos, the slot or `next` of its predecessor, bypasses it. */
  ghost function Detached<T>(t: Shape<T>, pos: nat, j: nat): Shape<T>
    requires pos < |t.slots| == |t.chains| && j < |t.chains[pos]| && t.chains[pos][j] in t.links
  {
    var s := t.chains[pos];
    var chains := t.chains[pos := Without(s, j)];
    if j == 0 then Shape(t.links - {s[j]}, t.slots[pos := t.links[s[j]]], chains)
    else Shape(t.links[s[j - 1] := t.links[s[j]]] - {s[j]}, t.slots, chains)
  }

  lemma DetachedChains<T>(t: Shape<T>, pos: nat, j: nat)
    requires pos < |t.slots| == |t.chains| && j < |t.chains[pos]| && t.chains[pos][j] in t.links
    ensures Detached(t, pos, j).chains == t.chains[pos := Without(t.chains[pos], j)]
  {
  }

  lemma DetachedLinks<T>(t: Shape<T>, mask: nat, nodes: set<HNode<T>>, pos: nat, j: nat, i: nat)
    requires TableOk(t, mask, nodes) && i < |t.chains|
    requires pos < |t.chains| && j < |t.chains[pos]| && t.chains[pos][j] in t.links
    ensures var t' := Detached(t, pos, j); Linked(t'.links, t'.chains[i], t'.slots[i])
  {
    var t' := Detached(t, pos, j);
    if i == pos {
      LinkedRemove(t.links, t'.links, t.chains[pos], t.slots[pos], j);
    } else {
      LinkedFrame(t.links, t'.links, t.chains[i], t.slots[i]);
    }
  }

  /** Where the k-th node of chain i came from. */
  lemma DetachedPlace<T>(t: Shape<T>, pos: nat, j: nat, i: nat, k: nat)
    requires pos < |t.slots| == |t.chains| && j < |t.chains[pos]| && t.chains[pos][j] in t.links
    requires i < |t.chains| && k < |Detached(t, pos, j).chains[i]|
    ensures var k' := if i == pos && k >= j then k + 1 else k;
            k' < |t.chains[i]| && Detached(t, pos, j).chains[i][k] == t.chains[i][k']
  {
  }

  lemma DetachedOk<T>(t: Shape<T>, mask: nat, nodes: set<HNode<T>>, pos: nat, j: nat)
    requires TableOk(t, mask, nodes)
    requires pos < |t.chains| && j < |t.chains[pos]| && t.chains[pos][j] in t.links
    ensures TableOk(Detached(t, pos, j), mask, nodes - {t.chains[pos][j]})
  {
    var s, t' := t.chains[pos], Detached(t, pos, j);
    forall i | 0 <= i < |t.chains|
      ensures Linked(t'.links, t'.chains[i], t'.slots[i])
    {
      DetachedLinks(t, mask, nodes, pos, j, i);
    }
    forall i, k | 0 <= i < |t'.chains| && 0 <= k < |t'.chains[i]|
      ensures t'.chains[i][k] in nodes - {s[j]} && BitAnd(t'.chains[i][k].hcode, mask) == i
    {
      DetachedPlace(t, pos, j, i, k);
    }
    forall i, k, l | 0 <= i < |t'.chains| && 0 <= k < l < |t'.chains[i]|
      ensures t'.chains[i][k] != t'.chains[i][l]
    {
      DetachedPlace(t, pos, j, i, k);
      DetachedPlace(t, pos, j, i, l);
    }
    forall n | n in nodes && n != s[j]
      ensures n in t'.chains[BitAnd(n.hcode, mask)]
    {
      WithoutKeeps(s, j, n);
    }
  }

  /** While nodes remain and all slots below `pos` are empty, `pos` is still a slot. */
  lemma SlotsRemain<T>(t: Shape<T>, mask: nat, nodes: set<HNode<T>>, pos: nat)
    requires TableOk(t, mask, nodes) && nodes != {}
    requires forall i | 0 <= i < pos && i < |t.chains| :: t.chains[i] == []
    ensures pos < |t.chains|
    ensures t.slots[pos] == null ==> t.chains[pos] == []
    ensures t.slots[pos] != null ==> |t.chains[pos]| > 0 && t.chains[pos][0] == t.slots[pos]
  {
    var n :| n in nodes;
    assert n in t.chains[BitAnd(n.hcode, mask)];
    assert Linked(t.links, t.chains[pos], t.slots[pos]);
  }

  lemma WithoutKeeps<T>(s: seq<T>, j: nat, n: T)
    requires j < |s| && n != s[j]
    ensures n in s ==> n in Without(s, j)
  {
    if n in s {
      var k :| 0 <= k < |s| && s[k] == n;
      assert Without(s, j)[if k < j then k else k - 1] == n;
    }
  }

  // ---- iteration order ----

  ghost function Flatten<T>(chains: seq<seq<T>>): seq<T> {
    if chains == [] then [] else Flatten(chains[..|chains| - 1]) + chains[|chains| - 1]
  }

  lemma {:induction false} FlattenPrefix<T>(chains: seq<seq<T>>, i: nat, j: nat)
    requires i < |chains| && j <= |chains[i]|
    ensures Flatten(chains[..i]) + chains[i][..j] <= Flatten(chains)
  {
    var rest := chains[..|chains| - 1];
    if i == |chains| - 1 {
    } else {
      FlattenPrefix(rest, i, j);
      assert rest[..i] == chains[..i];
    }
  }

  /** The iteration order of the first k slots lists the nodes that belong there. */
  lemma {:induction false} FlattenElements<T>(t: Shape<T>, mask: nat, nodes: set<HNode<T>>, k: nat)
    requires TableOk(t, mask, nodes) && k <= |t.chains|
    ensures forall n | n in Flatten(t.chains[..k]) :: n in nodes && BitAnd(n.hcode, mask) < k
    ensures forall n | n in nodes && BitAnd(n.hcode, mask) < k :: n in Flatten(t.chains[..k])
  {
    hide TableOk, BitAnd, Flatten;
    if k > 0 {
      FlattenElements(t, mask, nodes, k - 1);
      FlattenNext(t.chains, k - 1);
      ChainElements(t, mask, nodes, k - 1);
      var done, s := Flatten(t.chains[..k - 1]), t.chains[k - 1];
      assert forall n :: n in done + s <==> n in done || n in s;
    } else {
      NothingFlattened<HNode<T>>();
    }
  }

  lemma NothingFlattened<T>()
    ensures Flatten<T>([]) == []
  {
  }

  lemma ChainElements<T>(t: Shape<T>, mask: nat, nodes: set<HNode<T>>, k: nat)
    requires TableOk(t, mask, nodes) && k < |t.chains|
    ensures forall n :: n in t.chains[k] <==> n in nodes && BitAnd(n.hcode, mask) == k
  {
    hide BitAnd;
  }

  /** The iteration order of a table lists each of its nodes exactly once. */
  lemma {:induction false} FlattenOnce<T>(t: Shape<T>, mask: nat, nodes: set<HNode<T>>, k: nat)
    requires TableOk(t, mask, nodes) && k <= |t.chains|
    ensures Distinct(Flatten(t.chains[..k]))
  {
    hide TableOk, BitAnd, Flatten, Distinct;
    if k > 0 {
      FlattenOnce(t, mask, nodes, k - 1);
      FlattenNext(t.chains, k - 1);
      FlattenElements(t, mask, nodes, k - 1);
      ChainElements(t, mask, nodes, k - 1);
      ChainOnce(t, mask, nodes, k - 1);
      DistinctConcat(Flatten(t.chains[..k - 1]), t.chains[k - 1]);
    } else {
      NothingFlattened<HNode<T>>();
      NothingTwice<HNode<T>>();
    }
  }

  lemma NothingTwice<T>()
    ensures Distinct<T>([])
  {
  }

  lemma ChainOnce<T>(t: Shape<T>, mask: nat, nodes: set<HNode<T>>, k: nat)
    requires TableOk(t, mask, nodes) && k < |t.chains|
    ensures Distinct(t.chains[k])
  {
    hide BitAnd;
  }

  ghost predicate Distinct<T>(s: seq<T>) {
    forall i, j | 0 <= i < j < |s| :: s[i] != s[j]
  }

  lemma DistinctConcat<T>(a: seq<T>, b: seq<T>)
    requires Distinct(a) && Distinct(b) && forall x | x in a :: x !in b
    ensures Distinct(a + b)
  {
    forall i, j | 0 <= i < j < |a + b| ensures (a + b)[i] != (a + b)[j] {
      if i < |a| <= j {
        assert a[i] in a && b[j - |a|] in b;
      }
    }
  }

  lemma {:induction false} DistinctCount<T>(s: seq<T>, elements: set<T>)
    requires Distinct(s) && forall x | x in s :: x in elements
    requires forall x | x in elements :: x in s
    ensures |s| == |elements|
  {
    if s != [] {
      var rest := s[1..];
      assert s == [s[0]] + rest;
      DistinctCount(rest, elements - {s[0]});
    }
  }

  lemma FlattenNext<T>(chains: seq<seq<T>>, i: nat)
    requires i < |chains|
    ensures Flatten(chains[..i + 1]) == Flatten(chains[..i]) + chains[i]
  {
    assert chains[..i + 1][..i] == chains[..i];
  }
}
