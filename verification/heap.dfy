/** heap.cc: a binary min-heap of timers; every item refers back to the entry that stores its position. */
module TimerHeap {
  import opened Entries

  /** HeapItem; `ref` points to the heap_idx field of an entry. */
  datatype Item = Item(val: nat, ref: Entry)

  function Parent(i: nat): nat
    requires i > 0
  {
    (i - 1) / 2
  }

  function Left(i: nat): nat {
    2 * i + 1
  }

  function Right(i: nat): nat {
    2 * i + 2
  }

  ghost predicate InOrder(s: seq<Item>) {
    forall i | 0 < i < |s| :: s[Parent(i)].val <= s[i].val
  }

  /** A heap broken only at pos: everything but pos is in order, even with pos left out in between. */
  ghost predicate Broken(s: seq<Item>, pos: nat) {
    && pos < |s|
    && (forall i | 0 < i < |s| && i != pos && Parent(i) != pos :: s[Parent(i)].val <= s[i].val)
    && forall i | 0 < i < |s| && Parent(i) == pos && pos > 0 :: s[Parent(pos)].val <= s[i].val
  }

  /** The item at pos may be smaller than its parent, but not larger than its children. */
  ghost predicate TooSmall(s: seq<Item>, pos: nat) {
    Broken(s, pos) && forall i | 0 < i < |s| && Parent(i) == pos :: s[pos].val <= s[i].val
  }

  /** The item at pos may be larger than its children, but not smaller than its parent. */
  ghost predicate TooLarge(s: seq<Item>, pos: nat) {
    Broken(s, pos) && (pos > 0 ==> s[Parent(pos)].val <= s[pos].val)
  }

  ghost function Swap(s: seq<Item>, i: nat, j: nat): seq<Item>
    requires i < |s| && j < |s|
  {
    s[i := s[j]][j := s[i]]
  }

  ghost predicate DistinctRefs(s: seq<Item>) {
    forall i, j | 0 <= i < j < |s| :: s[i].ref != s[j].ref
  }

  ghost function Refs(s: seq<Item>): set<Entry> {
    set i | 0 <= i < |s| :: s[i].ref
  }

  lemma SwapElements(s: seq<Item>, i: nat, j: nat)
    requires i < |s| && j < |s| && i != j
    ensures multiset(Swap(s, i, j)) == multiset(s)
  {
  }

  lemma SwapRefs(s: seq<Item>, i: nat, j: nat)
    requires i < |s| && j < |s| && i != j
    ensures Refs(Swap(s, i, j)) == Refs(s)
  {
    var t := Swap(s, i, j);
    forall k | 0 <= k < |s| ensures s[k].ref in Refs(t) {
      assert s[k] == t[if k == i then j else if k == j then i else k];
    }
    forall k | 0 <= k < |s| ensures t[k].ref in Refs(s) {
      assert t[k] == s[if k == i then j else if k == j then i else k];
    }
  }

  lemma SwapDistinct(s: seq<Item>, i: nat, j: nat)
    requires i < |s| && j < |s| && i != j && DistinctRefs(s)
    ensures DistinctRefs(Swap(s, i, j))
  {
    var t := Swap(s, i, j);
    assert forall k | 0 <= k < |s| :: t[k] == s[if k == i then j else if k == j then i else k];
  }

  lemma SwapFacts(s: seq<Item>, i: nat, j: nat)
    requires i < |s| && j < |s| && i != j
    ensures multiset(Swap(s, i, j)) == multiset(s) && Refs(Swap(s, i, j)) == Refs(s)
    ensures DistinctRefs(s) ==> DistinctRefs(Swap(s, i, j))
  {
    hide Swap, Refs, DistinctRefs;
    SwapElements(s, i, j);
    SwapRefs(s, i, j);
    if DistinctRefs(s) {
      SwapDistinct(s, i, j);
    }
  }

  lemma UpStep(s: seq<Item>, pos: nat)
    requires TooSmall(s, pos) && pos > 0 && s[pos].val < s[Parent(pos)].val
    ensures TooSmall(Swap(s, pos, Parent(pos)), Parent(pos))
  {
    var p := Parent(pos);
    assert p > 0 ==> s[Parent(p)].val <= s[p].val;
  }

  lemma UpEnds(s: seq<Item>, pos: nat)
    requires TooSmall(s, pos) && (pos > 0 ==> s[Parent(pos)].val <= s[pos].val)
    ensures InOrder(s)
  {
  }

  ghost predicate IsSmallestChild(s: seq<Item>, pos: nat, m: nat) {
    && 0 < m < |s| && Parent(m) == pos
    && forall i | 0 < i < |s| && Parent(i) == pos :: s[m].val <= s[i].val
  }

  lemma DownStep(s: seq<Item>, pos: nat, m: nat)
    requires TooLarge(s, pos) && IsSmallestChild(s, pos, m) && s[m].val < s[pos].val
    ensures TooLarge(Swap(s, pos, m), m)
  {
  }

  lemma DownEnds(s: seq<Item>, pos: nat)
    requires TooLarge(s, pos) && forall i | 0 < i < |s| && Parent(i) == pos :: s[pos].val <= s[i].val
    ensures InOrder(s)
  {
  }

  class Heap {
    var items: seq<Item>

    constructor ()
      ensures items == []
    {
      items := [];
    }

    /** The invariant of the heap: min-heap order, and every item is found where its entry says. */
    ghost predicate Valid()
      reads this, (set i | 0 <= i < |items| :: items[i].ref)`heapIdx
    {
      InOrder(items) && LinkedBut(items, -1)
    }

    /** The item at `from` moves into the hole at pos: *items[pos].ref = pos. */
    method Shift(pos: nat, from: nat, ghost s: seq<Item>)
      requires Agrees(items, s, pos) && pos < |s| && from < |s| && pos != from
      requires DistinctRefs(s) && LinkedBut(s, pos)
      modifies `items, Refs(s)`heapIdx
      ensures Agrees(items, Swap(s, pos, from), from) && LinkedBut(Swap(s, pos, from), from)
      ensures DistinctRefs(Swap(s, pos, from)) && Refs(Swap(s, pos, from)) == Refs(s)
      ensures multiset(Swap(s, pos, from)) == multiset(s)
    {
      SwapFacts(s, pos, from);
      assert s[from].ref in Refs(s);
      items := items[pos := items[from]];
      items[pos].ref.heapIdx := pos;
    }

    /** The moving item comes to rest in the hole at pos. */
    method Place(pos: nat, t: Item, ghost s: seq<Item>)
      requires Agrees(items, s, pos) && pos < |s| && s[pos] == t
      requires DistinctRefs(s) && LinkedBut(s, pos)
      modifies `items, Refs(s)`heapIdx
      ensures items == s && LinkedBut(s, -1)
    {
      assert s[pos].ref in Refs(s);
      items := items[pos := t];
      assert items == s;
      items[pos].ref.heapIdx := pos;
    }

    /** heap_up() */
    method Up(start: nat)
      requires start < |items| && TooSmall(items, start) && DistinctRefs(items) && LinkedBut(items, start)
      modifies `items, Refs(items)`heapIdx
      ensures Valid() && multiset(items) == multiset(old(items)) && Refs(items) == old(Refs(items))
    {
      hide TooSmall, DistinctRefs, LinkedBut, InOrder, Swap, Refs;
      var pos: nat := start;
      var t := items[pos];
      ghost var s := items;
      while pos > 0 && t.val < items[Parent(pos)].val
        invariant pos < |s| && s[pos] == t && Agrees(items, s, pos)
        invariant TooSmall(s, pos) && DistinctRefs(s) && LinkedBut(s, pos)
        invariant multiset(s) == multiset(old(items)) && Refs(s) == old(Refs(items))
      {
        var from := Parent(pos);
        UpStep(s, pos);
        Shift(pos, from, s);
        Swapped(s, pos, from);
        s := Swap(s, pos, from);
        pos := from;
      }
      UpEnds(s, pos);
      Place(pos, t, s);
    }

    /** The choice heap_down() makes among the item t at pos and the items of its children. */
    method Smallest(pos: nat, t: Item) returns (minPos: nat)
      requires pos < |items|
      ensures minPos == pos ==> forall i | 0 < i < |items| && Parent(i) == pos :: t.val <= items[i].val
      ensures minPos != pos ==> IsSmallestChild(items, pos, minPos) && items[minPos].val < t.val
    {
      minPos := pos;
      var minVal := t.val;
      if Left(pos) < |items| && items[Left(pos)].val < minVal {
        minPos, minVal := Left(pos), items[Left(pos)].val;
      }
      if Right(pos) < |items| && items[Right(pos)].val < minVal {
        minPos := Right(pos);
      }
    }

    /** heap_down() */
    method Down(start: nat)
      requires start < |items| && TooLarge(items, start) && DistinctRefs(items) && LinkedBut(items, start)
      modifies `items, Refs(items)`heapIdx
      ensures Valid() && multiset(items) == multiset(old(items)) && Refs(items) == old(Refs(items))
    {
      hide TooLarge, DistinctRefs, LinkedBut, InOrder, Swap, Refs;
      var pos: nat := start;
      var t := items[pos];
      ghost var s := items;
      while true
        invariant pos < |s| && s[pos] == t && Agrees(items, s, pos)
        invariant TooLarge(s, pos) && DistinctRefs(s) && LinkedBut(s, pos)
        invariant multiset(s) == multiset(old(items)) && Refs(s) == old(Refs(items))
        decreases |s| - pos
      {
        var minPos := Smallest(pos, t);
        if minPos == pos {
          break;
        }
        DownStep(s, pos, minPos);
        Shift(pos, minPos, s);
        Swapped(s, pos, minPos);
        s := Swap(s, pos, minPos);
        pos := minPos;
      }
      DownEnds(s, pos);
      Place(pos, t, s);
    }

    /** heap_update(): repairs a heap that is broken only at pos. */
    method Update(pos: nat)
      requires Broken(items, pos) && DistinctRefs(items) && LinkedBut(items, pos)
      modifies `items, Refs(items)`heapIdx
      ensures Valid() && multiset(items) == multiset(old(items)) && Refs(items) == old(Refs(items))
    {
      hide DistinctRefs, LinkedBut, InOrder, Swap, Refs;
      if pos > 0 && items[pos].val < items[Parent(pos)].val {
        Up(pos);
      } else {
        Down(pos);
      }
    }

    /** heap_delete(): the last item takes the place of the deleted one. */
    method Delete(pos: nat)
      requires Valid()
      modifies `items, Refs(items)`heapIdx
      ensures Valid()
      ensures pos >= |old(items)| ==> items == old(items)
      ensures pos < |old(items)| ==> multiset(items) == multiset(old(items)) - multiset{old(items)[pos]}
    {
      hide DistinctRefs, LinkedBut, InOrder, Refs, Broken;
      if pos >= |items| {
        return;
      }
      DroppedItems(items, pos);
      DroppedLinks(items, pos);
      DroppedOrder(items, pos);
      var last := items[|items| - 1];
      items := items[pos := last];
      items := items[..|items| - 1];
      if pos < |items| {
        Update(pos);
      }
    }

    /** heap_insert() */
    method Insert(t: Item)
      requires Valid() && t.ref !in Refs(items)
      modifies `items, Refs(items)`heapIdx, t.ref`heapIdx
      ensures Valid() && multiset(items) == multiset(old(items)) + multiset{t}
    {
      hide DistinctRefs, InOrder, Broken;
      Appended(items, t);
      items := items + [t];
      Update(|items| - 1);
    }

    /** heap_upsert(): replaces the item at pos, or adds one when pos is no position, such as (size_t)-1. */
    method Upsert(start: int, t: Item)
      requires Valid() && (if 0 <= start < |items| then t.ref == items[start].ref else t.ref !in Refs(items))
      modifies `items, Refs(items)`heapIdx, t.ref`heapIdx
      ensures Valid()
      ensures 0 <= start < |old(items)| ==>
                multiset(items) == multiset(old(items)) - multiset{old(items)[start]} + multiset{t}
      ensures !(0 <= start < |old(items)|) ==> multiset(items) == multiset(old(items)) + multiset{t}
    {
      hide DistinctRefs, InOrder, Broken;
      var pos := start;
      if 0 <= pos < |items| {
        Replaced(items, pos, t);
        items := items[pos := t];
      } else {
        Appended(items, t);
        pos := |items|;
        items := items + [t];
      }
      Update(pos);
    }
  }

  ghost predicate Agrees(a: seq<Item>, s: seq<Item>, hole: nat) {
    |a| == |s| && forall i | 0 <= i < |s| && i != hole :: a[i] == s[i]
  }

  lemma Swapped(s: seq<Item>, i: nat, j: nat)
    requires i < |s| && j < |s|
    ensures |Swap(s, i, j)| == |s| && Swap(s, i, j)[j] == s[i]
  {
  }

  /** The position stored in an entry makes its item the only one with that entry. */
  lemma LinkedIsDistinct(s: seq<Item>)
    requires LinkedBut(s, -1)
    ensures DistinctRefs(s)
  {
  }

  /** s without the item at pos, whose place the last one takes. */
  ghost function Filled(s: seq<Item>, pos: nat): seq<Item>
    requires pos < |s|
  {
    s[pos := s[|s| - 1]][..|s| - 1]
  }

  lemma DroppedItems(s: seq<Item>, pos: nat)
    requires pos < |s|
    ensures var u := Filled(s, pos);
            && |u| == |s| - 1 && multiset(u) == multiset(s) - multiset{s[pos]}
            && forall i | 0 <= i < |u| :: u[i] == s[if i == pos then |s| - 1 else i]
  {
    var n := |s| - 1;
    assert s == s[..n] + [s[n]];
    if pos < n {
      assert s[pos := s[n]][..n] == s[..n][pos := s[n]];
    } else {
      assert s[pos := s[n]][..n] == s[..n];
    }
  }

  lemma DroppedLinks(s: seq<Item>, pos: nat)
    requires LinkedBut(s, -1) && pos < |s|
    ensures var u := Filled(s, pos);
            Refs(u) <= Refs(s) && LinkedBut(u, pos) && DistinctRefs(u) && (pos == |u| ==> LinkedBut(u, -1))
  {
    hide Filled;
    DroppedItems(s, pos);
    LinkedIsDistinct(s);
  }

  lemma DroppedOrder(s: seq<Item>, pos: nat)
    requires InOrder(s) && pos < |s|
    ensures var u := Filled(s, pos); if pos < |u| then Broken(u, pos) else InOrder(u)
  {
    hide Filled;
    DroppedItems(s, pos);
    assert forall i | 0 < i < |Filled(s, pos)| && Parent(i) == pos && pos > 0 ::
        s[Parent(pos)].val <= s[pos].val <= s[i].val;
  }

  lemma Appended(s: seq<Item>, t: Item)
    requires InOrder(s) && LinkedBut(s, -1) && t.ref !in Refs(s)
    ensures var u := s + [t];
            && multiset(u) == multiset(s) + multiset{t} && Refs(u) == Refs(s) + {t.ref}
            && LinkedBut(u, |s|) && DistinctRefs(u) && Broken(u, |s|)
  {
    LinkedIsDistinct(s);
    var u := s + [t];
    assert forall i | 0 <= i < |s| :: u[i] == s[i] && s[i].ref in Refs(s);
    assert u[|s|] == t;
  }

  lemma ReplacedOrder(s: seq<Item>, pos: nat, t: Item)
    requires InOrder(s) && pos < |s|
    ensures Broken(s[pos := t], pos)
  {
    forall i | 0 < i < |s| && Parent(i) == pos && pos > 0 ensures s[Parent(pos)].val <= s[i].val {
      assert s[Parent(pos)].val <= s[pos].val <= s[i].val;
    }
  }

  lemma Replaced(s: seq<Item>, pos: nat, t: Item)
    requires InOrder(s) && LinkedBut(s, -1) && pos < |s| && t.ref == s[pos].ref
    ensures var u := s[pos := t];
            && multiset(u) == multiset(s) - multiset{s[pos]} + multiset{t} && Refs(u) == Refs(s)
            && LinkedBut(u, pos) && DistinctRefs(u) && Broken(u, pos)
  {
    hide InOrder, Broken;
    LinkedIsDistinct(s);
    ReplacedOrder(s, pos, t);
    assert forall i | 0 <= i < |s| :: s[pos := t][i].ref == s[i].ref;
  }

  /** Every item except the one at `hole` is found where its entry says. */
  ghost predicate LinkedBut(s: seq<Item>, hole: int)
    reads (set i | 0 <= i < |s| :: s[i].ref)`heapIdx
  {
    forall i | 0 <= i < |s| && i != hole :: s[i].ref.heapIdx == i
  }

  /** The root of a heap is its minimum. */
  lemma {:induction false} RootIsLeast(s: seq<Item>, i: nat)
    requires InOrder(s) && i < |s|
    ensures s[0].val <= s[i].val
  {
    if i > 0 {
      RootIsLeast(s, Parent(i));
    }
  }
}
