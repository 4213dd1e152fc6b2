/** The TTL timers of time.cc: which keys a timer pass removes, and where a deadline comes from. */
module Expiry {
  import opened Pairs
  import opened Buffers
  import opened HashChains
  import opened HashTable
  import opened Semantics
  import opened Entries
  import TimerHeap
  import opened Databases
  import opened Commands

  /** k_max_works */
  const MAX_WORKS := 2000

  /** The keys of `removed`, in this order, were the earliest deadlines, and all of them had passed. */
  ghost predicate Earliest(s: State, removed: seq<Name>, now: nat) {
    && Distinct(removed)
    && (forall i | 0 <= i < |removed| ::
          removed[i] in s.contents && removed[i] in s.deadlines && s.deadlines[removed[i]] < now)
    && (forall i, j | 0 <= i < j < |removed| :: s.deadlines[removed[i]] <= s.deadlines[removed[j]])
    && forall i, key | 0 <= i < |removed| && key in s.deadlines && key !in removed ::
         s.deadlines[removed[i]] <= s.deadlines[key]
  }

  ghost function Elements(keys: seq<Name>): set<Name> {
    set key | key in keys
  }

  /** The keys are deleted, in this order. */
  ghost function Without(s: State, removed: seq<Name>): State {
    if removed == [] then s else After(Without(s, removed[..|removed| - 1]), Del(removed[|removed| - 1]), 0)
  }

  /** What one timer pass may do: the earliest deadlines go, up to 2001 of them, until none has passed. */
  ghost predicate TimerPass(s: State, s': State, removed: seq<Name>, now: nat) {
    && Earliest(s, removed, now) && s' == Without(s, removed)
    && |removed| <= MAX_WORKS + 1
    && (|removed| == MAX_WORKS + 1 || forall key | key in s'.deadlines :: s'.deadlines[key] >= now)
  }

  ghost function Expired(deadlines: map<Name, nat>, now: nat): set<Name> {
    set key | key in deadlines && deadlines[key] < now
  }

  lemma DistinctCountOf(keys: seq<Name>)
    requires Distinct(keys)
    ensures |Elements(keys)| == |keys|
  {
    DistinctCount(keys, Elements(keys));
  }

  /** A pass removes min(number of expired keys, 2001) keys. */
  lemma PassRemovesExpired(s: State, s': State, removed: seq<Name>, now: nat)
    requires TimerPass(s, s', removed, now)
    ensures |removed| == Min(|Expired(s.deadlines, now)|, MAX_WORKS + 1)
    ensures |s'.freed| == |s.freed| + |removed| && s.freed <= s'.freed
  {
    hide Without;
    var R := Elements(removed);
    DistinctCount(removed, R);
    WithoutFacts(s, removed, now);
    assert R <= Expired(s.deadlines, now);
    Subset(R, Expired(s.deadlines, now));
    if |removed| <= MAX_WORKS {
      forall key | key in Expired(s.deadlines, now) ensures key in R {
        assert key in s'.deadlines || key in R;
      }
      assert R == Expired(s.deadlines, now);
    }
  }

  lemma Subset<T>(a: set<T>, b: set<T>)
    requires a <= b
    ensures |a| <= |b|
  {
    assert b == a + (b - a);
  }

  /** One more key goes. */
  lemma OneMoreGone(s: State, t: State, gone: set<Name>, key: Name)
    requires t.contents == s.contents - gone && t.deadlines == s.deadlines - gone && key in s.contents && key !in gone
    ensures After(t, Del(key), 0) ==
            State(s.contents - (gone + {key}), s.deadlines - (gone + {key}), t.freed + [Ended(key, s.contents[key])])
  {
    assert t.contents - {key} == s.contents - (gone + {key});
    assert t.deadlines - {key} == s.deadlines - (gone + {key});
  }

  /** Exactly the removed keys go, with their deadlines, and each of their values is freed once. */
  lemma {:induction false} WithoutFacts(s: State, removed: seq<Name>, now: nat)
    requires Earliest(s, removed, now)
    ensures var s' := Without(s, removed);
            && s'.contents == s.contents - Elements(removed) && s'.deadlines == s.deadlines - Elements(removed)
            && s.freed <= s'.freed && |s'.freed| == |s.freed| + |removed|
            && forall i | 0 <= i < |removed| :: s'.freed[|s.freed| + i] == Ended(removed[i], s.contents[removed[i]])
  {
    hide Earliest, After;
    if removed != [] {
      var front, key := removed[..|removed| - 1], removed[|removed| - 1];
      EarliestFront(s, removed, now);
      WithoutFacts(s, front, now);
      OneMoreGone(s, Without(s, front), Elements(front), key);
      assert Elements(removed) == Elements(front) + {key};
    }
  }

  lemma EarliestFront(s: State, removed: seq<Name>, now: nat)
    requires Earliest(s, removed, now) && removed != []
    ensures Earliest(s, removed[..|removed| - 1], now)
    ensures removed[|removed| - 1] in s.contents && removed[|removed| - 1] !in removed[..|removed| - 1]
  {
    var front, key := removed[..|removed| - 1], removed[|removed| - 1];
    assert forall k | k in removed :: k in front || k == key;
  }

  /** The first item of the heap has the earliest deadline. */
  lemma FirstIsEarliest(d: Database)
    requires d.TimersValid() && |d.heap.items| > 0
    ensures var x := d.heap.items[0];
            && x.ref in d.entries && x.ref.key in d.deadlines && d.deadlines[x.ref.key] == x.val
            && forall key | key in d.deadlines :: x.val <= d.deadlines[key]
  {
    var s := d.heap.items;
    assert s[0] in s;
    forall key | key in d.deadlines ensures s[0].val <= d.deadlines[key] {
      var i :| 0 <= i < |s| && s[i] == TimerHeap.Item(d.deadlines[key], d.members[key].owner);
      TimerHeap.RootIsLeast(s, i);
    }
  }

  lemma NoTimers(d: Database)
    requires d.TimersValid() && d.heap.items == []
    ensures d.deadlines == map[]
  {
  }

  /** hm_delete() with hnode_same() does find the node of the entry, as asserted. */
  method UnhashEntry(d: Database, e: Entry) returns (node: HNode<Entry>)
    requires d.Valid() && e in d.entries
    modifies d.db, d.db.newer, d.db.older, d.db.Tables(), d.db.Nodes()
    ensures d.db.Valid() && d.Others() && d.db.Tables() <= old(d.db.Tables()) + {null}
    ensures e.key in d.members && node == d.members[e.key] && node.owner == e
    ensures d.db.Nodes() == old(d.db.Nodes()) - {node}
  {
    hide HMap.Valid, SameKeys, Database.Valid, Database.Others;
    d.Divide();
    d.Parts();
    var eq := (h: HNode<Entry>) => h.owner == e;
    MatchesByIdentity(d.db.Nodes(), d.entries, d.members, e, eq);
    var found := d.Unhash(e.key, eq);
    assert found != null;
    node := found;
  }

  /** hm_delete() and entry_del() of an entry. */
  method DeleteEntry(d: Database, e: Entry)
    requires d.Valid() && e in d.entries
    modifies d, d.db, d.db.newer, d.db.older, d.db.Tables(), d.db.Nodes(), d.heap`items, d.entries`heapIdx
    ensures d.Valid() && e.key in old(d.contents) && d.freed == old(d.freed) + [Freed(e, old(d.contents)[e.key])]
    ensures d.contents == old(d.contents) - {e.key} && d.deadlines == old(d.deadlines) - {e.key}
    ensures d.entries <= old(d.entries) && d.db.Nodes() <= old(d.db.Nodes())
    ensures d.db.Tables() <= old(d.db.Tables()) + {null} && d.footprint == old(d.footprint)
    ensures d.created == old(d.created)
  {
    hide HMap.Valid, SameKeys, Database.Valid, Database.Others, IsLarge;
    d.Divide();
    ghost var H := d.db.Nodes();
    var node := UnhashEntry(d, e);
    d.Release(node, e.key, H);
  }

  lemma AfterDel(s: State, key: Name)
    requires key in s.contents
    ensures After(s, Del(key), 0)
         == State(s.contents - {key}, s.deadlines - {key}, s.freed + [Ended(key, s.contents[key])])
  {
  }

  /** One round of the loop: the entry of the earliest deadline is deleted. */
  method ExpireFirst(d: Database) returns (ghost key: Name)
    requires d.Valid() && |d.heap.items| > 0
    modifies d, d.db, d.db.newer, d.db.older, d.db.Tables(), d.db.Nodes(), d.heap`items, d.entries`heapIdx
    ensures d.Valid() && d.Continues()
    ensures key == old(d.heap.items[0].ref.key) && StateOf(d) == After(old(StateOf(d)), Del(key), 0)
    ensures key in old(d.contents) && d.freed == old(d.freed) + [Freed(old(d.heap.items[0].ref), old(d.contents)[key])]
    ensures d.entries <= old(d.entries) && d.db.Nodes() <= old(d.db.Nodes())
    ensures d.db.Tables() <= old(d.db.Tables()) + {null} && d.footprint == old(d.footprint)
    ensures d.created == old(d.created)
  {
    hide Database.Valid, Database.Continues, After, Log;
    Foremost(d);
    var e := d.heap.items[0].ref;
    key := e.key;
    AfterDel(StateOf(d), key);
    LogMore(d.freed, Freed(e, d.contents[key]));
    DeleteEntry(d, e);
    d.Shrunk();
  }

  /** The second loop of process_timers(). */
  method ProcessTtl(d: Database, now: nat) returns (ghost removed: seq<Name>)
    requires d.Valid()
    modifies d, d.db, d.db.newer, d.db.older, d.db.Tables(), d.db.Nodes(), d.heap`items, d.entries`heapIdx
    ensures d.Valid() && d.Continues() && TimerPass(old(StateOf(d)), StateOf(d), removed, now)
  {
    hide Database.Valid, Earliest, Without, After, Database.Continues;
    ghost var s := StateOf(d);
    NothingEarlier(s, now);
    d.Shrunk();
    removed := [];
    var nworks := 0;
    while |d.heap.items| > 0 && d.heap.items[0].val < now
      invariant d.Valid() && StateOf(d) == Without(s, removed) && Earliest(s, removed, now)
      invariant nworks == |removed| <= MAX_WORKS && old(d.freed) <= d.freed && d.created == old(d.created)
      invariant d.entries <= old(d.entries) && d.db.Nodes() <= old(d.db.Nodes()) && d.footprint == old(d.footprint)
      invariant d.db.Tables() <= old(d.db.Tables()) + {null}
      decreases MAX_WORKS - nworks
    {
      Foremost(d);
      ghost var key := ExpireFirst(d);
      EarliestMore(s, removed, key, now);
      WithoutMore(s, removed, key);
      removed := removed + [key];
      if nworks >= MAX_WORKS {
        d.Shrunk();
        return;
      }
      nworks := nworks + 1;
    }
    d.Shrunk();
    Finished(d, now);
  }

  lemma Foremost(d: Database)
    requires d.Valid() && |d.heap.items| > 0
    ensures var x := d.heap.items[0];
            && x.ref in d.entries && x.ref.key in d.contents && x.ref.key in d.deadlines
               && d.deadlines[x.ref.key] == x.val
            && forall k | k in d.deadlines :: x.val <= d.deadlines[k]
  {
    hide Database.Valid, Database.KeysValid, Database.TimersValid, Database.SetsValid, Database.Apart, Accounted;
    d.Parts();
    FirstIsEarliest(d);
  }

  lemma WithoutMore(s: State, removed: seq<Name>, key: Name)
    ensures Without(s, removed + [key]) == After(Without(s, removed), Del(key), 0)
  {
    hide After;
    var more := removed + [key];
    assert more[..|removed|] == removed && more[|removed|] == key;
  }

  /** What is left has no earlier deadline than those that have gone. */
  lemma RestIsLater(s: State, removed: seq<Name>, now: nat)
    requires Earliest(s, removed, now)
    ensures var rest := Without(s, removed);
            && (forall k | k in s.deadlines && k !in removed ::
                  k in rest.deadlines && rest.deadlines[k] == s.deadlines[k])
            && (forall k | k in rest.deadlines ::
                  k in s.deadlines && k !in removed && rest.deadlines[k] == s.deadlines[k])
            && forall k | k in rest.contents :: k in s.contents
  {
    hide Earliest, Without, After;
    WithoutFacts(s, removed, now);
  }

  lemma EarliestMore(s: State, removed: seq<Name>, key: Name, now: nat)
    requires Earliest(s, removed, now)
    requires var rest := Without(s, removed);
             && key in rest.contents && key in rest.deadlines && rest.deadlines[key] < now
             && forall k | k in rest.deadlines :: rest.deadlines[key] <= rest.deadlines[k]
    ensures Earliest(s, removed + [key], now)
  {
    hide Without, After;
    RestIsLater(s, removed, now);
    assert forall k | k in removed + [key] :: k in removed || k == key;
  }

  lemma NothingEarlier(s: State, now: nat)
    ensures Earliest(s, [], now) && Without(s, []) == s
  {
  }

  lemma Finished(d: Database, now: nat)
    requires d.Valid() && (|d.heap.items| > 0 ==> d.heap.items[0].val >= now)
    ensures forall key | key in d.deadlines :: d.deadlines[key] >= now
  {
    hide Database.Valid, Database.KeysValid, Database.TimersValid, Database.SetsValid, Database.Apart, Accounted;
    d.Parts();
    if d.heap.items == [] {
      NoTimers(d);
    } else {
      FirstIsEarliest(d);
    }
  }

  /** The timers of the database as a whole. */
  method ProcessTimers(d: Database, now: nat) returns (ghost removed: seq<Name>)
    requires d.Owned()
    modifies d.repr
    ensures d.Owned() && fresh(d.repr - old(d.repr)) && old(d.freed) <= d.freed && old(d.created) <= d.created
    ensures TimerPass(old(StateOf(d)), StateOf(d), removed, now)
  {
    hide Database.Valid, TimerPass;
    removed := ProcessTtl(d, now);
    d.OnlyNewObjects();
    d.Adopt();
  }
}
