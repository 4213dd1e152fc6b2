/** hashtable.cc: a chained table, and a map of two tables that migrates between them step by step. */
module HashTable {
  import opened HashChains

  /** The heap links the given nodes as m says. */
  ghost predicate Holds<T>(m: Links<T>, nodes: set<HNode<T>>)
    reads nodes
  {
    m.Keys == nodes && forall n | n in nodes :: n.next == m[n]
  }

  /** The test a lookup applies to a node: first the hash code, then the caller's callback. */
  predicate Matches<T>(n: HNode<T>, hcode: nat, eq: HNode<T> -> bool) {
    n.hcode == hcode && eq(n)
  }

  /** The callback was called for the nodes of `order` in turn, until it returned false or to the end. */
  ghost predicate Visits<T>(visited: seq<HNode<T>>, completed: bool, order: seq<HNode<T>>, cb: HNode<T> -> bool) {
    && visited <= order
    && if completed then visited == order && forall k | 0 <= k < |visited| :: cb(visited[k])
       else visited != [] && !cb(visited[|visited| - 1]) && forall k | 0 <= k < |visited| - 1 :: cb(visited[k])
  }

  lemma VisitsConcat<T>(visited: seq<HNode<T>>, more: seq<HNode<T>>, completed: bool, a: seq<HNode<T>>,
                        b: seq<HNode<T>>, cb: HNode<T> -> bool)
    requires Visits(visited, true, a, cb) && Visits(more, completed, b, cb)
    ensures Visits(visited + more, completed, a + b, cb)
  {
  }

  lemma VisitsStop<T>(visited: seq<HNode<T>>, a: seq<HNode<T>>, b: seq<HNode<T>>, cb: HNode<T> -> bool)
    requires Visits(visited, false, a, cb)
    ensures Visits(visited, false, a + b, cb)
  {
  }

  lemma StoppedAt<T>(visited: seq<HNode<T>>, s: seq<HNode<T>>, cb: HNode<T> -> bool)
    requires visited <= s && visited != [] && !cb(visited[|visited| - 1])
    requires forall k | 0 <= k < |visited| - 1 :: cb(visited[k])
    ensures Visits(visited, false, s, cb)
  {
  }

  lemma RanThrough<T>(visited: seq<HNode<T>>, s: seq<HNode<T>>, cb: HNode<T> -> bool)
    requires visited == s && forall k | 0 <= k < |visited| :: cb(visited[k])
    ensures Visits(visited, true, s, cb)
  {
  }

  lemma VisitsContinue<T>(visited: seq<HNode<T>>, more: seq<HNode<T>>, completed: bool, chains: seq<Chain<T>>,
                          i: nat, cb: HNode<T> -> bool)
    requires i < |chains| && Visits(visited, true, Flatten(chains[..i]), cb) && Visits(more, completed, chains[i], cb)
    ensures completed ==> Visits(visited + more, true, Flatten(chains[..i + 1]), cb)
    ensures !completed ==> Visits(visited + more, false, Flatten(chains), cb)
  {
    hide Flatten;
    var front := Flatten(chains[..i]);
    VisitsConcat(visited, more, completed, front, chains[i], cb);
    FlattenNext(chains, i);
    FlattenPrefix(chains, i, |chains[i]|);
    assert chains[i][..|chains[i]|] == chains[i];
    if !completed {
      var all := Flatten(chains);
      VisitsStop(visited + more, front + chains[i], all[|front + chains[i]|..], cb);
      assert all == front + chains[i] + all[|front + chains[i]|..];
    }
  }

  class HTab<T> {
    var tab: array?<HNode?<T>>
    var mask: nat
    var size: nat
    ghost var nodes: set<HNode<T>>
    ghost var shape: Shape<T>
    ghost var exponent: nat

    ghost predicate Valid()
      reads this, tab, nodes
    {
      && size == |nodes|
      && if tab == null then mask == 0 && nodes == {} && shape.chains == []
         else
           && tab.Length == mask + 1 == |shape.slots| && mask + 1 == Pow2(exponent)
           && (forall i | 0 <= i < tab.Length :: tab[i] == shape.slots[i])
           && Holds(shape.links, nodes)
           && TableOk(shape, mask, nodes)
    }

    /** HTab{} */
    constructor ()
      ensures Valid() && tab == null && nodes == {} && size == 0 && shape.chains == []
    {
      tab, mask, size, nodes, shape := null, 0, 0, {}, Shape(map[], [], []);
    }

    /** h_init() for a capacity that is a power of two, which the rounding leaves alone. */
    method Init(n: nat, ghost k: nat)
      requires n == Pow2(k)
      modifies this
      ensures Valid() && fresh(tab) && mask == n - 1 && exponent == k && nodes == {} && size == 0
    {
      PowersStay(k);
      var capacity := RoundedUp(n);
      tab := new HNode?<T>[capacity](_ => null);
      mask, size := capacity - 1, 0;
      nodes, shape, exponent := {}, Shape(map[], seq(n, _ => null), seq(n, _ => [])), k;
    }

    /** The struct assignment *this = *other. */
    method CopyFrom(other: HTab<T>)
      requires other.Valid()
      modifies this
      ensures tab == other.tab && mask == other.mask && nodes == other.nodes && shape == other.shape
      ensures exponent == other.exponent
      ensures size == other.size && (this != other ==> Valid())
    {
      tab, mask, size := other.tab, other.mask, other.size;
      nodes, shape, exponent := other.nodes, other.shape, other.exponent;
    }

    /** The first table of a map: h_init(&hmap->newer, 4). */
    method InitFirst()
      modifies this
      ensures Valid() && fresh(tab) && mask == 3 && nodes == {} && size == 0
    {
      assert Pow2(2) == 4;
      Init(4, 2);
    }

    /** *htab = HTab{} */
    method Reset()
      modifies this
      ensures Valid() && tab == null && nodes == {} && size == 0 && shape.chains == []
    {
      tab, mask, size, nodes, shape := null, 0, 0, {}, Shape(map[], [], []);
    }

    lemma Sizes()
      requires Valid() && tab != null
      ensures tab.Length == mask + 1 == |shape.slots| == |shape.chains|
    {
    }

    /** The pointer work of h_insert(): the node goes in front of its slot. */
    method Push(pos: nat, node: HNode<T>)
      requires tab != null && pos < tab.Length
      modifies tab, node
      ensures node.next == old(tab[pos])
      ensures forall i | 0 <= i < tab.Length :: tab[i] == if i == pos then node else old(tab[i])
    {
      var next := tab[pos];
      node.next := next;
      tab[pos] := node;
    }

    /** The slots and links of the heap are those of t. */
    ghost predicate Shows(t: Shape<T>, S: set<HNode<T>>)
      requires tab != null
      reads `tab, tab, S
    {
      && tab.Length == |t.slots| == |t.chains| && Holds(t.links, S)
      && forall i | 0 <= i < tab.Length :: tab[i] == t.slots[i]
    }

    /** The heap follows when a node is put in front. */
    method PushShown(pos: nat, node: HNode<T>, ghost t: Shape<T>, ghost S: set<HNode<T>>)
      requires tab != null && Shows(t, S) && pos < tab.Length && node !in S
      modifies tab, node
      ensures Shows(Inserted(t, pos, node), S + {node})
    {
      Push(pos, node);
    }

    /** h_insert(): the node becomes the first of its chain. */
    method Insert(node: HNode<T>)
      requires Valid() && tab != null && node !in nodes
      modifies this, tab, node
      ensures Valid() && tab == old(tab) && mask == old(mask)
      ensures nodes == old(nodes) + {node} && size == old(size) + 1
    {
      hide TableOk, BitAnd, Pow2, HTab.Valid, HTab.Shows, Inserted;
      Parts();
      InsertedOk(shape, mask, nodes, node);
      var pos := BitAnd(node.hcode, mask);
      PushShown(pos, node, shape, nodes);
      size := size + 1;
      nodes, shape := nodes + {node}, Inserted(shape, pos, node);
      Whole();
    }

    lemma Parts()
      requires Valid() && tab != null
      ensures Shows(shape, nodes) && TableOk(shape, mask, nodes) && mask + 1 == Pow2(exponent) && size == |nodes|
      ensures tab.Length == mask + 1 == |shape.slots| == |shape.chains|
    {
      hide BitAnd, Pow2;
    }

    lemma Whole()
      requires tab != null && Shows(shape, nodes) && TableOk(shape, mask, nodes)
      requires mask + 1 == Pow2(exponent) && size == |nodes| && tab.Length == mask + 1
      ensures Valid()
    {
      hide TableOk, Pow2, Holds;
    }

    /** Where the address *from that h_lookup() returns lies: slot `pos`, or the `next` field of `prev`. */
    ghost predicate IsAt(node: HNode<T>, prev: HNode?<T>, pos: nat, j: nat)
      reads this
    {
      && pos < |shape.chains| && j < |shape.chains[pos]| && shape.chains[pos][j] == node
      && prev == (if j == 0 then null else shape.chains[pos][j - 1])
    }

    lemma IncomingIsOwn(target: HNode<T>, prev: HNode?<T>, pos: nat, j: nat)
      requires Valid() && tab != null && IsAt(target, prev, pos, j)
      ensures (prev == null || prev in nodes) && pos < |shape.chains| && shape.chains[pos] != []
    {
      hide BitAnd, Pow2;
    }

    /** h_lookup(): the incoming pointer to the first matching node, given by its slot and its predecessor. */
    method Lookup(hcode: nat, eq: HNode<T> -> bool) returns (found: HNode?<T>, pos: nat, prev: HNode?<T>, ghost j: nat)
      requires Valid()
      ensures found != null ==> tab != null && found in nodes && Matches(found, hcode, eq)
      ensures found != null ==> IsAt(found, prev, pos, j)
      ensures found == null ==> forall n | n in nodes :: !Matches(n, hcode, eq)
    {
      found, pos, prev, j := null, 0, null, 0;
      if tab == null {
        return;
      }
      pos := BitAnd(hcode, mask);
      ghost var m, s := shape.links, shape.chains[pos];
      found := tab[pos];
      while found != null && !Matches(found, hcode, eq)
        invariant j <= |s| && Linked(m, s[j..], found)
        invariant prev == if j == 0 then null else s[j - 1]
        invariant forall i | 0 <= i < j :: !Matches(s[i], hcode, eq)
        decreases |s| - j
      {
        assert s[j..][1..] == s[j + 1..];
        prev, found, j := found, found.next, j + 1;
      }
    }

    /** The pointer work of h_detach(): *from = (*from)->next. */
    method Bypass(pos: nat, prev: HNode?<T>) returns (node: HNode<T>)
      requires tab != null && pos < tab.Length
      requires (if prev == null then tab[pos] else prev.next) !in {null, prev}
      modifies tab, prev
      ensures node == old(if prev == null then tab[pos] else prev.next) && node.next == old(node.next)
      ensures forall i | 0 <= i < tab.Length :: tab[i] == if prev == null && i == pos then node.next else old(tab[i])
      ensures prev != null ==> prev.next == node.next
    {
      if prev == null {
        node := tab[pos];
        tab[pos] := node.next;
      } else {
        node := prev.next;
        prev.next := node.next;
      }
    }

    /** h_detach(): unlinks the node and returns it. */
    method Detach(pos: nat, prev: HNode?<T>, ghost target: HNode<T>, ghost j: nat) returns (node: HNode<T>)
      requires Valid() && tab != null && IsAt(target, prev, pos, j)
      modifies this, tab, prev
      ensures Valid() && tab == old(tab) && mask == old(mask)
      ensures node == target && node in old(nodes) && nodes == old(nodes) - {node}
      ensures size == old(size) - 1
      ensures shape.chains == old(shape.chains)[pos := Without(old(shape.chains[pos]), j)]
    {
      hide TableOk, BitAnd, Pow2, HTab.Valid, HTab.Shows, Detached;
      Parts();
      IncomingLink(shape, mask, nodes, pos, j);
      DetachedOk(shape, mask, nodes, pos, j);
      DetachedChains(shape, pos, j);
      node := BypassShown(pos, prev, shape, nodes, j);
      size := size - 1;
      nodes, shape := nodes - {node}, Detached(shape, pos, j);
      Whole();
    }

    /** The heap follows when a node is bypassed. */
    method BypassShown(pos: nat, prev: HNode?<T>, ghost t: Shape<T>, ghost S: set<HNode<T>>, ghost j: nat)
      returns (node: HNode<T>)
      requires tab != null && Shows(t, S) && pos < tab.Length && j < |t.chains[pos]| && t.chains[pos][j] in t.links
      requires prev == (if j == 0 then null else t.chains[pos][j - 1])
      requires if j == 0 then t.slots[pos] == t.chains[pos][j]
               else var before := t.chains[pos][j - 1]; before in S && t.links[before] == t.chains[pos][j] != before
      modifies tab, prev
      ensures node == t.chains[pos][j] && Shows(Detached(t, pos, j), S - {node})
    {
      node := Bypass(pos, prev);
    }

    /** The inner loop of h_foreach(): walks one chain. */
    method VisitChain(i: nat, cb: HNode<T> -> bool) returns (visited: seq<HNode<T>>, completed: bool)
      requires Valid() && tab != null && i < tab.Length
      ensures Visits(visited, completed, shape.chains[i], cb)
    {
      hide HTab.Valid, TableOk, Visits;
      ChainAt(i);
      var node := tab[i];
      ghost var s := shape.chains[i];
      visited := [];
      while node != null
        invariant |visited| <= |s| && Linked(shape.links, s[|visited|..], node)
        invariant visited == s[..|visited|] && forall k | 0 <= k < |visited| :: cb(visited[k])
        decreases |s| - |visited|
      {
        visited := visited + [node];
        assert s[|visited| - 1..][1..] == s[|visited|..];
        if !cb(node) {
          StoppedAt(visited, s, cb);
          return visited, false;
        }
        node := node.next;
      }
      completed := true;
      RanThrough(visited, s, cb);
    }

    lemma ChainAt(i: nat)
      requires Valid() && tab != null && i < tab.Length
      ensures i < |shape.chains| && Linked(shape.links, shape.chains[i], tab[i]) && Holds(shape.links, nodes)
    {
    }

    /** h_foreach(): a table of one slot would be skipped, but capacities start at four. */
    method Foreach(cb: HNode<T> -> bool) returns (visited: seq<HNode<T>>, completed: bool)
      requires Valid() && (tab != null ==> mask != 0)
      ensures Visits(visited, completed, Flatten(shape.chains), cb)
    {
      hide TableOk, HTab.Valid, Holds;
      visited, completed := [], true;
      var i := 0;
      Slots();
      while mask != 0 && i <= mask
        invariant completed && i <= |shape.chains| && Visits(visited, true, Flatten(shape.chains[..i]), cb)
      {
        var more;
        more, completed := VisitChain(i, cb);
        VisitsContinue(visited, more, completed, shape.chains, i, cb);
        visited := visited + more;
        if !completed {
          return;
        }
        i := i + 1;
      }
      assert shape.chains[..|shape.chains|] == shape.chains;
    }

    /** The iteration order meets each node of the table exactly once. */
    lemma OrderOfTable()
      requires Valid()
      ensures forall n | n in Flatten(shape.chains) :: n in nodes
      ensures forall n | n in nodes :: n in Flatten(shape.chains)
      ensures Distinct(Flatten(shape.chains))
    {
      if tab != null {
        FlattenElements(shape, mask, nodes, |shape.chains|);
        FlattenOnce(shape, mask, nodes, |shape.chains|);
        assert shape.chains[..|shape.chains|] == shape.chains;
      }
    }

    lemma Slots()
      requires Valid()
      ensures tab != null ==> tab.Length == |shape.chains| == mask + 1
      ensures tab == null ==> mask == 0 && shape.chains == []
    {
    }

    /** The mask picks the slot hcode % capacity. */
    lemma SlotOf(hcode: nat)
      requires Valid() && tab != null
      ensures BitAnd(hcode, mask) == hcode % tab.Length
    {
      PowersArePowers(exponent);
      SlotIsRemainder(hcode, mask);
    }

    lemma SizeIsCount()
      requires Valid()
      ensures size == |nodes| && (tab == null ==> size == 0)
    {
    }

    /** Below `pos` everything is empty, yet nodes remain: `pos` is a slot. */
    lemma NextSlot(pos: nat)
      requires Valid() && size > 0 && forall i | 0 <= i < pos && i < |shape.chains| :: shape.chains[i] == []
      ensures tab != null && pos < tab.Length == |shape.chains|
      ensures tab[pos] == null ==> shape.chains[pos] == []
      ensures tab[pos] != null ==> |shape.chains[pos]| > 0 && IsAt(shape.chains[pos][0], null, pos, 0)
    {
      SlotsRemain(shape, mask, nodes, pos);
    }
  }

  const MAX_LOAD_FACTOR: nat := 8
  const REHASHING_WORK: nat := 128

  class HMap<T> {
    const newer: HTab<T>
    const older: HTab<T>
    var migratePos: nat

    /** HMap{} */
    constructor ()
      ensures Valid() && Nodes() == {} && Tables() == {null} && fresh(newer) && fresh(older)
    {
      newer := new HTab();
      older := new HTab();
      migratePos := 0;
    }

    ghost function Nodes(): set<HNode<T>>
      reads newer, older
    {
      newer.nodes + older.nodes
    }

    ghost function Tables(): set<array?<HNode?<T>>>
      reads newer, older
    {
      {newer.tab, older.tab}
    }

    /** Each node is in exactly one table, and the slots of `older` below migratePos are empty. */
    ghost predicate Separate()
      reads this, newer, older, newer.tab, older.tab, newer.nodes, older.nodes
    {
      && newer != older && newer.Valid() && older.Valid() && newer.nodes !! older.nodes
      && (older.tab != null ==> newer.tab != null && newer.tab != older.tab)
      && forall i | 0 <= i < migratePos && i < |older.shape.chains| :: older.shape.chains[i] == []
    }

    /** Moves the first node of the slot at migratePos to the newer table. */
    method MoveFirst()
      requires Separate() && older.tab != null && migratePos < |older.shape.chains|
      requires older.shape.chains[migratePos] != []
      requires older.IsAt(older.shape.chains[migratePos][0], null, migratePos, 0)
      requires older.tab.Length == |older.shape.chains|
      modifies this, newer, older, Tables(), Nodes()
      ensures Separate() && Nodes() == old(Nodes())
      ensures newer.tab == old(newer.tab) && older.tab == old(older.tab)
      ensures newer.mask == old(newer.mask) && older.mask == old(older.mask)
      ensures older.size == old(older.size) - 1 && newer.size == old(newer.size) + 1 && migratePos == old(migratePos)
      ensures |older.shape.chains| == old(|older.shape.chains|)
    {
      hide TableOk, HTab.Valid, Pow2;
      var node := older.Detach(migratePos, null, older.shape.chains[migratePos][0], 0);
      assert newer.Valid();
      newer.Insert(node);
      assert newer.Valid() && older.Valid();
      assert newer.nodes !! older.nodes && Nodes() == old(Nodes());
      assert forall i | 0 <= i < migratePos && i < |older.shape.chains| :: older.shape.chains[i] == [];
    }

    /** One round of the loop of hm_help_rehashing(): skip an empty slot, or move its first node. */
    method Migrate() returns (moved: bool)
      requires Separate() && older.size > 0
      modifies this, newer, older, Tables(), Nodes()
      ensures Separate() && Nodes() == old(Nodes())
      ensures newer.tab == old(newer.tab) && older.tab == old(older.tab)
      ensures newer.mask == old(newer.mask) && older.mask == old(older.mask)
      ensures old(migratePos) < |older.shape.chains| == old(|older.shape.chains|)
      ensures moved ==>
                older.size == old(older.size) - 1 && newer.size == old(newer.size) + 1 && migratePos == old(migratePos)
      ensures !moved ==>
                older.size == old(older.size) && newer.size == old(newer.size) && migratePos == old(migratePos) + 1
    {
      hide TableOk, HTab.Valid, Pow2;
      older.NextSlot(migratePos);
      moved := older.tab[migratePos] != null;
      if moved {
        MoveFirst();
      } else {
        migratePos := migratePos + 1;
        assert newer.Valid() && older.Valid();
      }
    }

    /** The loop of hm_help_rehashing(): moves up to 128 nodes. */
    method MigrateSome()
      requires Separate()
      modifies this, newer, older, Tables(), Nodes()
      ensures Separate() && Nodes() == old(Nodes())
      ensures newer.tab == old(newer.tab) && newer.mask == old(newer.mask)
      ensures older.tab == old(older.tab) && older.mask == old(older.mask)
      ensures newer.size + older.size == old(newer.size + older.size)
      ensures older.size == if old(older.size) < REHASHING_WORK then 0 else old(older.size) - REHASHING_WORK
    {
      hide TableOk, HTab.Valid, HMap.Separate;
      var nwork := 0;
      while nwork < REHASHING_WORK && older.size > 0
        invariant Separate() && Nodes() == old(Nodes())
        invariant newer.tab == old(newer.tab) && newer.mask == old(newer.mask)
        invariant older.tab == old(older.tab) && older.mask == old(older.mask)
        invariant nwork <= REHASHING_WORK && older.size == old(older.size) - nwork
        invariant newer.size == old(newer.size) + nwork
        decreases older.size, |older.shape.chains| - migratePos
      {
        var moved := Migrate();
        if moved {
          nwork := nwork + 1;
        }
      }
    }

    /** hm_help_rehashing(): the older table is discarded once it is empty. */
    method HelpRehashing()
      requires Separate()
      modifies this, newer, older, Tables(), Nodes()
      ensures Separate() && Nodes() == old(Nodes())
      ensures newer.tab == old(newer.tab) && newer.mask == old(newer.mask)
      ensures newer.size + older.size == old(newer.size + older.size)
      ensures older.size == if old(older.size) < REHASHING_WORK then 0 else old(older.size) - REHASHING_WORK
      ensures older.tab == null <==> older.size == 0
      ensures older.tab != null ==> older.tab == old(older.tab) && older.mask == old(older.mask)
    {
      hide TableOk, HTab.Valid;
      MigrateSome();
      older.SizeIsCount();
      if older.size == 0 && older.tab != null {
        older.Reset();
        assert newer.Valid();
      }
    }

    /**
     The load of the tables: a lookup never meets chains of more than eight nodes on average, and while
     a rehash is under way the newer table has twice the capacity and the migration keeps ahead of insertions.
     */
    ghost predicate Valid()
      reads this, newer, older, newer.tab, older.tab, newer.nodes, older.nodes
    {
      && Separate()
      && (newer.tab != null ==> newer.mask >= 3)
      && Load(newer.size, newer.mask + 1, older.size, OlderCap())
    }

    ghost function OlderCap(): nat
      reads older
    {
      if older.tab == null then 0 else older.mask + 1
    }

    /** hm_size() */
    method Size() returns (n: nat)
      requires Valid()
      ensures n == |Nodes()|
    {
      older.SizeIsCount();
      newer.SizeIsCount();
      n := newer.size + older.size;
    }

    /** hm_trigger_rehashing(): the full table becomes the older one, next to a new table twice its size. */
    method TriggerRehashing()
      requires Separate() && older.tab == null && newer.tab != null
      modifies this, newer, older
      ensures Separate() && Nodes() == old(Nodes()) && fresh(newer.tab) && newer.size == 0
      ensures older.size == old(newer.size)
      ensures older.tab == old(newer.tab) && older.nodes == old(newer.nodes) && older.mask == old(newer.mask)
      ensures newer.mask + 1 == 2 * (older.mask + 1)
    {
      hide TableOk;
      older.CopyFrom(newer);
      newer.Init((newer.mask + 1) * 2, newer.exponent + 1);
      migratePos := 0;
      assert older.Valid() && newer.Valid();
    }

    /** hm_help_rehashing() between two calls of the interface. */
    method HelpAlong()
      requires Valid()
      modifies this, newer, older, Tables(), Nodes()
      ensures Valid() && Nodes() == old(Nodes()) && Tables() <= old(Tables()) + {null}
    {
      older.SizeIsCount();
      ghost var ns, os, ocap := newer.size, older.size, OlderCap();
      HelpRehashing();
      LoadAfterHelp(ns, newer.mask + 1, os, ocap);
    }

    /** hm_lookup(): every lookup first helps the migration along, then searches both tables. */
    method Lookup(hcode: nat, eq: HNode<T> -> bool) returns (found: HNode?<T>)
      requires Valid()
      modifies this, newer, older, Tables(), Nodes()
      ensures Valid() && Nodes() == old(Nodes()) && Tables() <= old(Tables()) + {null}
      ensures found != null ==> found in Nodes() && Matches(found, hcode, eq)
      ensures found == null ==> forall n | n in Nodes() :: !Matches(n, hcode, eq)
    {
      hide TableOk, HTab.Valid;
      HelpAlong();
      var inNewer, pos, prev;
      ghost var j;
      found, inNewer, pos, prev, j := Search(hcode, eq);
    }

    /** Searches the newer table and then the older one; tells where the incoming pointer of the node lies. */
    method Search(hcode: nat, eq: HNode<T> -> bool)
      returns (found: HNode?<T>, inNewer: bool, pos: nat, prev: HNode?<T>, ghost j: nat)
      requires newer.Valid() && older.Valid()
      ensures found != null ==> found in Nodes() && Matches(found, hcode, eq)
      ensures found != null ==> var t := if inNewer then newer else older; t.tab != null && t.IsAt(found, prev, pos, j)
      ensures found == null ==> forall n | n in Nodes() :: !Matches(n, hcode, eq)
    {
      inNewer := true;
      found, pos, prev, j := newer.Lookup(hcode, eq);
      if found == null {
        inNewer := false;
        found, pos, prev, j := older.Lookup(hcode, eq);
      }
    }

    /** h_init(&hmap->newer, 4) on first use. */
    method EnsureTable()
      requires Separate()
      modifies newer
      ensures Separate() && newer.nodes == old(newer.nodes) && newer.size == old(newer.size)
      ensures newer.tab != null && (newer.tab == old(newer.tab) || fresh(newer.tab))
      ensures newer.mask == if old(newer.tab) == null then 3 else old(newer.mask)
    {
      hide TableOk;
      if newer.tab == null {
        newer.InitFirst();
        assert older.Valid() && newer.Valid();
      }
    }

    /** The first half of hm_insert(): the node goes to the newer table. */
    method AddToNewer(node: HNode<T>)
      requires Separate() && node !in Nodes() && newer.tab != null
      modifies newer, newer.tab, node
      ensures Separate() && Nodes() == old(Nodes()) + {node}
      ensures newer.tab == old(newer.tab) && newer.mask == old(newer.mask) && newer.size == old(newer.size) + 1
    {
      hide TableOk, HTab.Valid, Pow2;
      newer.Insert(node);
      assert older.Valid() && newer.Valid();
    }

    /** hm_insert(): no rehash is under way and the threshold has been reached. */
    method ResizeIfFull()
      requires Separate() && newer.tab != null
      modifies this, newer, older
      ensures Separate() && Nodes() == old(Nodes()) && newer.tab != null
      ensures newer.tab == old(newer.tab) || fresh(newer.tab)
      ensures older.tab == old(older.tab) || older.tab == old(newer.tab)
      ensures if old(IsFull())
              then HasSizes(0, 2 * (old(newer.mask) + 1), old(newer.size), old(newer.mask) + 1)
              else HasSizes(old(newer.size), old(newer.mask) + 1, old(older.size), old(OlderCap()))
    {
      if older.tab == null {
        var threshold := (newer.mask + 1) * MAX_LOAD_FACTOR;
        if newer.size >= threshold {
          TriggerRehashing();
        }
      }
    }

    /** Sizes and capacities of the two tables. */
    ghost predicate HasSizes(ns: nat, ncap: nat, os: nat, ocap: nat)
      reads newer, older
    {
      newer.size == ns && newer.mask + 1 == ncap && older.size == os && OlderCap() == ocap
    }

    /** hm_insert() starts a rehash in this state. */
    ghost predicate IsFull()
      reads newer, older
    {
      older.tab == null && newer.size >= (newer.mask + 1) * MAX_LOAD_FACTOR
    }

    /** The first half of hm_insert(): the node goes to the newer table, which is allocated if need be. */
    method AddNode(node: HNode<T>)
      requires Separate() && node !in Nodes()
      modifies newer, newer.tab, node
      ensures Separate() && Nodes() == old(Nodes()) + {node}
      ensures newer.tab != null && (newer.tab == old(newer.tab) || fresh(newer.tab))
      ensures HasSizes(old(newer.size) + 1, if old(newer.tab) == null then 4 else old(newer.mask) + 1,
                       old(older.size), old(OlderCap()))
    {
      assert newer != older;
      hide TableOk, HTab.Valid, HMap.Separate;
      EnsureTable();
      AddToNewer(node);
    }

    /** The second half of hm_insert(): starts a rehash if the threshold is reached, and migrates some nodes. */
    method Rebalance(ghost ns: nat, ghost ncap: nat, ghost os: nat, ghost ocap: nat)
      requires Separate() && newer.tab != null && HasSizes(ns + 1, ncap, os, ocap)
      requires Load(ns, ncap, os, ocap) && (ocap == 0 ==> os == 0) && ncap >= 4
      modifies this, newer, older, Tables(), Nodes()
      ensures Valid() && Nodes() == old(Nodes())
      ensures newer.tab == old(newer.tab) || fresh(newer.tab)
      ensures older.tab in old(Tables()) + {null}
    {
      hide TableOk, HTab.Valid, HMap.Separate;
      ResizeIfFull();
      HelpRehashing();
      LoadAfterInsert(ns, ncap, os, ocap);
    }

    lemma Sizes()
      requires Valid()
      ensures Separate() && (OlderCap() == 0 ==> older.size == 0)
      ensures Load(newer.size, if newer.tab == null then 4 else newer.mask + 1, older.size, OlderCap())
      ensures newer.tab != null ==> newer.mask >= 3
    {
      older.SizeIsCount();
      newer.SizeIsCount();
    }

    /**
     hm_insert(): the load threshold is checked only while no rehash is under way; the invariant shows
     that a needed resize is never suppressed, since the newer table stays below the threshold until then.
     */
    method Insert(node: HNode<T>)
      requires Valid() && node !in Nodes()
      modifies this, newer, older, Tables(), Nodes(), node
      ensures Valid() && Nodes() == old(Nodes()) + {node}
      ensures newer.tab in old(Tables()) || fresh(newer.tab)
      ensures older.tab == null || older.tab in old(Tables()) || fresh(older.tab)
    {
      hide HMap.Valid, HMap.Separate, HTab.Valid, TableOk, Load, Holds;
      Sizes();
      ghost var ns, os, ocap := newer.size, older.size, OlderCap();
      ghost var ncap := if newer.tab == null then 4 else newer.mask + 1;
      AddNode(node);
      Rebalance(ns, ncap, os, ocap);
    }

    /** Unlinks a node found in one of the tables. */
    method Unlink(inNewer: bool, pos: nat, prev: HNode?<T>, ghost target: HNode<T>,
                  ghost j: nat) returns (node: HNode<T>)
      requires Separate() && var t := if inNewer then newer else older; t.tab != null && t.IsAt(target, prev, pos, j)
      modifies newer, older, Tables(), Nodes()
      ensures Separate() && node == target && node in old(Nodes()) && Nodes() == old(Nodes()) - {node}
      ensures newer.tab == old(newer.tab) && newer.mask == old(newer.mask)
      ensures older.tab == old(older.tab) && older.mask == old(older.mask)
      ensures newer.size == old(newer.size) - (if inNewer then 1 else 0)
      ensures older.size == old(older.size) - (if inNewer then 0 else 1)
    {
      hide TableOk, HTab.Valid, Pow2;
      if inNewer {
        node := DetachFrom(newer, older, pos, prev, target, j);
        assert newer.nodes !! older.nodes && Nodes() == old(Nodes()) - {node};
      } else {
        node := DetachFrom(older, newer, pos, prev, target, j);
        assert newer.nodes !! older.nodes && Nodes() == old(Nodes()) - {node};
      }
    }

    /** Looks a node up in both tables and unlinks it. */
    method Remove(hcode: nat, eq: HNode<T> -> bool) returns (found: HNode?<T>)
      requires Separate()
      modifies newer, older, Tables(), Nodes()
      ensures Separate()
      ensures found != null ==> found in old(Nodes()) && Matches(found, hcode, eq) && Nodes() == old(Nodes()) - {found}
      ensures found == null ==> Nodes() == old(Nodes()) && forall n | n in Nodes() :: !Matches(n, hcode, eq)
      ensures newer.tab == old(newer.tab) && newer.mask == old(newer.mask)
      ensures older.tab == old(older.tab) && older.mask == old(older.mask)
      ensures newer.size <= old(newer.size) && older.size <= old(older.size)
    {
      hide TableOk, HTab.Valid, Pow2;
      var inNewer, pos, prev;
      ghost var j;
      found, inNewer, pos, prev, j := Search(hcode, eq);
      if found != null {
        found := Unlink(inNewer, pos, prev, found, j);
      }
    }

    /** hm_delete(): returns the node that was unlinked, or null when none matches. */
    method Delete(hcode: nat, eq: HNode<T> -> bool) returns (found: HNode?<T>)
      requires Valid()
      modifies this, newer, older, Tables(), Nodes()
      ensures Valid() && Tables() <= old(Tables()) + {null}
      ensures found != null ==> found in old(Nodes()) && Matches(found, hcode, eq) && Nodes() == old(Nodes()) - {found}
      ensures found == null ==> Nodes() == old(Nodes()) && forall n | n in Nodes() :: !Matches(n, hcode, eq)
    {
      hide TableOk, HTab.Valid, HMap.Separate;
      HelpAlong();
      found := Remove(hcode, eq);
    }

    /** hm_foreach(): visits the nodes in table order until the callback returns false. */
    method Foreach(cb: HNode<T> -> bool) returns (visited: seq<HNode<T>>, completed: bool)
      requires Valid()
      ensures Visits(visited, completed, Order(), cb)
    {
      assert newer.Valid() && older.Valid();
      assert older.tab != null ==> older.mask != 0;
      hide TableOk, HTab.Valid, Pow2, HMap.Valid, Load;
      ghost var a, b := Flatten(newer.shape.chains), Flatten(older.shape.chains);
      visited, completed := newer.Foreach(cb);
      if completed {
        var more;
        more, completed := older.Foreach(cb);
        VisitsConcat(visited, more, completed, a, b, cb);
        visited := visited + more;
      } else {
        VisitsStop(visited, a, b, cb);
      }
    }

    ghost function Order(): seq<HNode<T>>
      reads newer, older
    {
      Flatten(newer.shape.chains) + Flatten(older.shape.chains)
    }

    /** A complete iteration meets every live node exactly once, at any point of a rehash. */
    lemma OrderIsComplete()
      requires Separate()
      ensures forall n | n in Order() :: n in Nodes()
      ensures forall n | n in Nodes() :: n in Order()
      ensures Distinct(Order()) && |Order()| == |Nodes()|
    {
      newer.OrderOfTable();
      older.OrderOfTable();
      DistinctConcat(Flatten(newer.shape.chains), Flatten(older.shape.chains));
      DistinctCount(Order(), Nodes());
    }
  }

  /** The newer table is not overfull; a rehash under way doubles the capacity and keeps ahead of insertions. */
  ghost predicate Load(newerSize: nat, newerCap: nat, olderSize: nat, olderCap: nat) {
    && newerSize < MAX_LOAD_FACTOR * newerCap
    && (olderCap > 0 ==>
         && newerCap == 2 * olderCap
         && REHASHING_WORK * (newerSize + olderSize + 1 - MAX_LOAD_FACTOR * olderCap)
            <= MAX_LOAD_FACTOR * olderCap - olderSize)
  }

  /** Migration conserves the nodes and so keeps the load within bounds. */
  lemma LoadAfterHelp(ns: nat, ncap: nat, os: nat, ocap: nat)
    requires Load(ns, ncap, os, ocap) && (ocap == 0 ==> os == 0)
    ensures var os' := if os < REHASHING_WORK then 0 else os - REHASHING_WORK;
            Load(ns + os - os', ncap, os', if os' == 0 then 0 else ocap)
  {
  }

  /** Unlinking a node found in one table leaves the other table alone. */
  method DetachFrom<T>(t: HTab<T>, other: HTab<T>, pos: nat, prev: HNode?<T>, ghost target: HNode<T>,
                       ghost j: nat) returns (node: HNode<T>)
    requires t != other && t.Valid() && other.Valid() && t.nodes !! other.nodes && t.tab != null && t.tab != other.tab
    requires t.IsAt(target, prev, pos, j)
    modifies t, t.tab, t.nodes
    ensures t.Valid() && other.Valid() && t.tab == old(t.tab) && t.mask == old(t.mask) && t.size == old(t.size) - 1
    ensures node == target && node in old(t.nodes) && t.nodes == old(t.nodes) - {node}
    ensures |t.shape.chains| == old(|t.shape.chains|)
    ensures forall i | 0 <= i < |t.shape.chains| && old(t.shape.chains)[i] == [] :: t.shape.chains[i] == []
  {
    hide TableOk, HTab.Valid, Pow2, HTab.IsAt;
    t.IncomingIsOwn(target, prev, pos, j);
    node := t.Detach(pos, prev, target, j);
    assert other.Valid();
  }

  /** Each insertion brings one node and moves up to 128, so the older table drains before the newer one is full. */
  lemma LoadAfterInsert(ns: nat, ncap: nat, os: nat, ocap: nat)
    requires Load(ns, ncap, os, ocap) && (ocap == 0 ==> os == 0)
    ensures ocap > 0 ==>
              var os' := if os < REHASHING_WORK then 0 else os - REHASHING_WORK;
              Load(ns + 1 + os - os', ncap, os', if os' == 0 then 0 else ocap)
    ensures ocap == 0 && ns + 1 >= MAX_LOAD_FACTOR * ncap ==>
              var os' := if ns + 1 < REHASHING_WORK then 0 else ns + 1 - REHASHING_WORK;
              Load(ns + 1 - os', 2 * ncap, os', if os' == 0 then 0 else ncap)
  {
  }
}
