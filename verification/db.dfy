/** db.cc and the commands on keys: the database, its timers, and the heap that orders them. */
module Databases {
  import opened Pairs
  import opened StringHash
  import opened HashChains
  import opened HashTable
  import opened Semantics
  import opened Entries
  import opened TimerHeap
  import ZSets

  type Index = map<Name, HNode<Entry>>

  /** The hash nodes H belong to the entries E, one for each key. */
  ghost predicate SameKeys(H: set<HNode<Entry>>, E: set<Entry>, members: Index) {
    && (forall key | key in members ::
          members[key] in H && members[key].owner in E && members[key].owner.key == key
            && members[key].hcode == Hash(key))
    && (forall h | h in H :: h.owner.key in members && members[h.owner.key] == h)
    && forall e | e in E :: e.key in members && members[e.key].owner == e
  }

  /** The heap items are the deadlines of the map, each with the entry of its key. */
  ghost predicate Timed(items: seq<Item>, members: Index, deadlines: map<Name, nat>) {
    && (forall x | x in items ::
          && x.ref.key in members && members[x.ref.key].owner == x.ref
          && x.ref.key in deadlines && deadlines[x.ref.key] == x.val)
    && forall key | key in deadlines ::
         key in members && members[key].owner.key == key && Item(deadlines[key], members[key].owner) in items
  }

  lemma DistinctTail(s: seq<Item>)
    requires DistinctRefs(s) && s != []
    ensures DistinctRefs(s[1..]) && s[0] !in s[1..]
  {
    var rest := s[1..];
    assert forall i | 0 <= i < |rest| :: rest[i] == s[i + 1];
  }

  lemma {:induction false} OnceInHeap(s: seq<Item>, x: Item)
    requires DistinctRefs(s)
    ensures multiset(s)[x] <= 1
  {
    hide DistinctRefs;
    if s != [] {
      assert s == [s[0]] + s[1..];
      DistinctTail(s);
      OnceInHeap(s[1..], x);
    }
  }

  lemma AllInRefs(items: seq<Item>)
    ensures forall i | 0 <= i < |items| :: items[i].ref in Refs(items)
  {
  }

  lemma TimerRemoved(items: seq<Item>, items': seq<Item>, members: Index, deadlines: map<Name, nat>, x: Item)
    requires Timed(items, members, deadlines) && DistinctRefs(items) && x in items
    requires multiset(items') == multiset(items) - multiset{x}
    ensures Timed(items', members, deadlines - {x.ref.key}) && x.ref !in Refs(items') && Refs(items') <= Refs(items)
  {
    OnceInHeap(items, x);
    forall y ensures y in items' <==> y in items && y != x {
      OnceInHeap(items, y);
      assert y in items' <==> multiset(items')[y] > 0;
      assert y in items <==> multiset(items)[y] > 0;
    }
  }

  lemma TimerAdded(items: seq<Item>, items': seq<Item>, members: Index, deadlines: map<Name, nat>, x: Item)
    requires Timed(items, members, deadlines) && x.ref.key in members && members[x.ref.key].owner == x.ref
    requires x.ref.key !in deadlines
    requires multiset(items') == multiset(items) + multiset{x}
    ensures Timed(items', members, deadlines[x.ref.key := x.val]) && Refs(items') <= Refs(items) + {x.ref}
  {
    forall y ensures y in items' <==> y in items || y == x {
      assert y in items' <==> multiset(items')[y] > 0;
      assert y in items <==> multiset(items)[y] > 0;
    }
  }

  lemma TimerReplaced(items: seq<Item>, items': seq<Item>, members: Index, deadlines: map<Name, nat>, x: Item, x': Item)
    requires Timed(items, members, deadlines) && DistinctRefs(items) && x in items && x'.ref == x.ref
    requires multiset(items') == multiset(items) - multiset{x} + multiset{x'}
    ensures Timed(items', members, deadlines[x'.ref.key := x'.val]) && Refs(items') <= Refs(items)
  {
    OnceInHeap(items, x);
    forall y ensures y in items' <==> (y in items && y != x) || y == x' {
      OnceInHeap(items, y);
      assert y in items' <==> multiset(items')[y] > 0;
      assert y in items <==> multiset(items)[y] > 0;
    }
  }

  /** An entry handed to entry_del(), and the value it had then. */
  datatype Freed = Freed(entry: Entry, value: Value)

  ghost function FreedEntries(freed: seq<Freed>): set<Entry> {
    set i | 0 <= i < |freed| :: freed[i].entry
  }

  /** k_large_container_size */
  const LARGE_CONTAINER := 10

  predicate IsLarge(v: Value) {
    v.Scored? && |v.scores| > LARGE_CONTAINER
  }

  /** The entries that are left to the workers. */
  function Queued(freed: seq<Freed>): seq<Entry> {
    if freed == [] then []
    else Queued(freed[..|freed| - 1]) + if IsLarge(freed[|freed| - 1].value) then [freed[|freed| - 1].entry] else []
  }

  /** Every entry ever created is live or has been freed, once; the tasks are the large ones among the freed. */
  ghost predicate Accounted(created: set<Entry>, entries: set<Entry>, freed: seq<Freed>, tasks: seq<Entry>) {
    && created == entries + FreedEntries(freed) && entries !! FreedEntries(freed)
    && (forall i, j | 0 <= i < j < |freed| :: freed[i].entry != freed[j].entry)
    && tasks == Queued(freed)
  }

  ghost predicate HaveValues(E: set<Entry>, contents: map<Name, Value>)
    reads E`text, (set e | e in E :: e.zset)`scores
  {
    forall e | e in E :: e.key in contents && e.Value() == contents[e.key]
  }

  /** The sorted sets of the entries are valid, lie within the footprint, and share no object. */
  ghost predicate HaveSets(E: set<Entry>, footprint: set<object>)
    reads footprint
  {
    && (forall e | e in E :: e.zset in footprint && e.zset.repr <= footprint && e.zset.Owned())
    && forall e, f | e in E && f in E && e != f :: e.zset.repr !! f.zset.repr
  }

  lemma OneValueLess(E: set<Entry>, contents: map<Name, Value>, e: Entry)
    requires HaveValues(E, contents) && e in E && forall f | f in E && f != e :: f.key != e.key
    ensures e.key in contents && HaveValues(E - {e}, contents - {e.key})
  {
  }

  lemma OneSetLess(E: set<Entry>, footprint: set<object>, e: Entry)
    requires HaveSets(E, footprint)
    ensures HaveSets(E - {e}, footprint)
  {
  }

  lemma OneValueMore(E: set<Entry>, contents: map<Name, Value>, e: Entry)
    requires HaveValues(E, contents) && e.key !in contents
    ensures HaveValues(E + {e}, contents[e.key := e.Value()])
  {
  }

  lemma OtherValues(E: set<Entry>, contents: map<Name, Value>, e: Entry)
    requires HaveValues(E, contents)
    ensures HaveValues(E - {e}, contents)
  {
  }

  lemma OneValueSet(E: set<Entry>, contents: map<Name, Value>, e: Entry)
    requires HaveValues(E - {e}, contents) && e in E && forall f | f in E && f != e :: f.key != e.key
    ensures HaveValues(E, contents[e.key := e.Value()])
  {
  }

  lemma OneSetMore(E: set<Entry>, footprint: set<object>, e: Entry)
    requires HaveSets(E, footprint) && e.zset.Owned() && footprint !! e.zset.repr
    ensures HaveSets(E + {e}, footprint + e.zset.repr)
  {
    hide ZSets.ZSet.Valid;
  }

  class Database {
    const db: HMap<Entry>
    const heap: Heap
    var tasks: seq<Entry>
    ghost var entries: set<Entry>
    ghost var members: Index
    ghost var contents: map<Name, Value>
    ghost var deadlines: map<Name, nat>
    ghost var created: set<Entry>
    ghost var freed: seq<Freed>
    /** The objects of all sorted sets, and all objects of the database. */
    ghost var footprint: set<object>
    ghost var repr: set<object>

    ghost predicate KeysValid()
      reads `entries, `members, db, db.newer, db.older, db.newer.tab, db.older.tab, db.newer.nodes, db.older.nodes
    {
      db.Valid() && SameKeys(db.Nodes(), entries, members)
    }

    ghost predicate ValuesValid()
      reads `entries, `members, `contents, entries`text, (set e | e in entries :: e.zset)`scores
    {
      contents.Keys == members.Keys && HaveValues(entries, contents)
    }

    /** heap_idx of every entry leads to its heap item, or is -1 when the entry has no deadline. */
    ghost predicate TimersValid()
      reads `entries, `members, `deadlines, heap, entries`heapIdx
    {
      && (forall i | 0 <= i < |heap.items| :: heap.items[i].ref in entries) && heap.Valid()
      && Timed(heap.items, members, deadlines)
      && forall e | e in entries && e.key !in deadlines :: e.heapIdx == NO_TIMER
    }

    ghost predicate SetsValid()
      reads `entries, `footprint, footprint
    {
      HaveSets(entries, footprint)
    }

    /** No sorted set uses an object of the database itself. */
    ghost predicate Apart()
      reads `entries, `footprint, db.newer, db.older
    {
      NotOurs(footprint)
    }

    ghost predicate Valid()
      reads this, db, db.newer, db.older, db.newer.tab, db.older.tab, db.newer.nodes, db.older.nodes
      reads heap, entries, (set e | e in entries :: e.zset)`scores, footprint
    {
      KeysValid() && ValuesValid() && TimersValid() && SetsValid() && Apart()
        && Accounted(created, entries, freed, tasks)
    }

    lemma Facts()
      requires KeysValid()
      ensures forall e | e in entries :: e.key in members && members[e.key].owner == e
      ensures forall key | key in members ::
                members[key] in db.Nodes() && members[key].owner in entries && members[key].owner.key == key
    {
    }

    lemma OrderOfKeys()
      requires KeysValid()
      ensures forall n | n in db.Order() :: n in db.Nodes()
      ensures forall n | n in db.Nodes() :: n in db.Order()
      ensures Distinct(db.Order()) && |db.Order()| == |db.Nodes()|
    {
      db.OrderIsComplete();
    }

    /** What has been freed is reachable neither from the hash table nor from the heap. */
    lemma FreedIsUnreachable(i: nat)
      requires Valid() && i < |freed|
      ensures forall h | h in db.Nodes() :: h.owner != freed[i].entry
      ensures forall k | 0 <= k < |heap.items| :: heap.items[k].ref != freed[i].entry
    {
      Facts();
      assert freed[i].entry in FreedEntries(freed);
    }

    lemma OnlyKeysHaveDeadlines()
      requires TimersValid()
      ensures forall key | key in deadlines :: key in members
    {
    }

    constructor ()
      ensures Owned() && fresh(repr) && contents == map[] && deadlines == map[] && freed == []
    {
      hide HMap.Valid, Database.Valid, Database.Owned, Database.Objects;
      db := new HMap();
      heap := new Heap();
      entries, members, contents, deadlines := {}, map[], map[], map[];
      created, freed, tasks, footprint := {}, [], [], {};
      repr := {};
      new;
      Empty();
      Adopt();
    }

    lemma Empty()
      requires db.Valid() && db.Nodes() == {} && db.Tables() == {null} && heap.items == []
      requires entries == {} && members == map[] && contents == map[] && deadlines == map[]
      requires created == {} && freed == [] && tasks == [] && footprint == {}
      ensures Valid() && Objects() == {this, db, db.newer, db.older, heap}
    {
      hide HMap.Valid;
    }

    /** What heap_idx tells about an entry. */
    lemma TimerOf(e: Entry)
      requires TimersValid() && e in entries
      requires forall e | e in entries :: e.key in members && members[e.key].owner == e
      ensures e.heapIdx == NO_TIMER <==> e.key !in deadlines
      ensures e.heapIdx == NO_TIMER ==> e !in Refs(heap.items)
      ensures e.heapIdx != NO_TIMER ==>
                0 <= e.heapIdx < |heap.items| && heap.items[e.heapIdx] == Item(deadlines[e.key], e)
      ensures DistinctRefs(heap.items) && Refs(heap.items) <= entries
      ensures forall e' | e' in Refs(heap.items) :: e'.key in deadlines
    {
      var s := heap.items;
      LinkedIsDistinct(s);
      if e.key in deadlines {
        var i :| 0 <= i < |s| && s[i] == Item(deadlines[e.key], e);
      }
    }

    /** heap_delete() of the entry's item. */
    method Drop(e: Entry)
      requires TimersValid() && e in entries && e.heapIdx != NO_TIMER
      requires forall e | e in entries :: e.key in members && members[e.key].owner == e
      modifies heap`items, entries`heapIdx
      ensures heap.Valid() && Timed(heap.items, members, deadlines - {e.key})
      ensures forall i | 0 <= i < |heap.items| :: heap.items[i].ref in entries && heap.items[i].ref != e
      ensures forall e | e in entries && e.key !in deadlines :: e.heapIdx == NO_TIMER
    {
      hide Timed, DistinctRefs, Refs, Heap.Valid;
      TimerOf(e);
      ghost var s := heap.items;
      heap.Delete(e.heapIdx);
      TimerRemoved(s, heap.items, members, deadlines, Item(deadlines[e.key], e));
      AllInRefs(heap.items);
    }

    /** entry_set_ttl() with a negative TTL, when a timer is set. */
    method Disarm(e: Entry)
      requires TimersValid() && e in entries && e.heapIdx != NO_TIMER
      requires forall e | e in entries :: e.key in members && members[e.key].owner == e
      modifies `deadlines, heap`items, entries`heapIdx
      ensures TimersValid() && deadlines == old(deadlines) - {e.key}
    {
      hide Timed, InOrder;
      Drop(e);
      deadlines := deadlines - {e.key};
      e.heapIdx := NO_TIMER;
    }

    /** entry_set_ttl() with a TTL that is not negative: adds or updates the timer. */
    method Arm(e: Entry, deadline: nat)
      requires TimersValid() && e in entries
      requires forall e | e in entries :: e.key in members && members[e.key].owner == e
      modifies `deadlines, heap`items, entries`heapIdx
      ensures TimersValid() && deadlines == old(deadlines)[e.key := deadline]
    {
      hide Timed, InOrder, DistinctRefs;
      TimerOf(e);
      ghost var s, x := heap.items, Item(deadline, e);
      heap.Upsert(e.heapIdx, Item(deadline, e));
      if e.key in deadlines {
        TimerReplaced(s, heap.items, members, deadlines, Item(deadlines[e.key], e), x);
      } else {
        TimerAdded(s, heap.items, members, deadlines, x);
      }
      assert forall i | 0 <= i < |heap.items| :: heap.items[i].ref in Refs(heap.items);
      deadlines := deadlines[e.key := deadline];
    }

    /** entry_set_ttl() */
    method SetTtl(e: Entry, ttl: int, now: nat)
      requires TimersValid() && e in entries
      requires forall e | e in entries :: e.key in members && members[e.key].owner == e
      modifies `deadlines, heap`items, entries`heapIdx
      ensures TimersValid()
      ensures deadlines == if ttl < 0 then old(deadlines) - {e.key} else old(deadlines)[e.key := Deadline(now, ttl)]
      ensures ttl >= 0 ==>
                && e.key in deadlines && deadlines[e.key] < UINT64_RANGE
                && (now + ttl < UINT64_RANGE ==> deadlines[e.key] == now + ttl)
                && (now + ttl - deadlines[e.key]) % UINT64_RANGE == 0
    {
      hide Timed, InOrder, DistinctRefs;
      TimerOf(e);
      if ttl < 0 && e.heapIdx != NO_TIMER {
        Disarm(e);
      } else if ttl >= 0 {
        DeadlineIsSum(now, ttl);
        Arm(e, (now + ttl) % UINT64_RANGE);
      }
    }

    /** An entry without a timer is no longer counted among the live ones. */
    ghost method Forget(e: Entry)
      requires TimersValid() && ValuesValid() && SetsValid() && Apart() && Accounted(created, entries, freed, tasks)
      requires e in entries && e !in Refs(heap.items) && e.key !in deadlines
      requires forall e | e in entries :: e.key in members && members[e.key].owner == e
      modifies `entries, `members, `contents, `freed
      ensures TimersValid() && ValuesValid() && SetsValid() && Apart()
      ensures entries == old(entries) - {e} && members == old(members) - {e.key}
      ensures contents == old(contents) - {e.key} && freed == old(freed) + [Freed(e, old(contents)[e.key])]
      ensures Accounted(created, entries, freed, tasks + if IsLarge(old(contents)[e.key]) then [e] else [])
    {
      hide Timed, InOrder, LinkedBut, Accounted, HaveValues, HaveSets, Refs, IsLarge;
      OneValueLess(entries, contents, e);
      OneSetLess(entries, footprint, e);
      MemberDropped(heap.items, members, deadlines, e.key);
      AnotherFreed(created, entries, freed, tasks, e, contents[e.key]);
      freed := freed + [Freed(e, contents[e.key])];
      entries, members, contents := entries - {e}, members - {e.key}, contents - {e.key};
    }

    /** Whether entry_del() leaves the entry to a worker. */
    method IsLargeEntry(e: Entry) returns (large: bool)
      requires ValuesValid() && SetsValid() && e in entries
      ensures e.key in contents && large == IsLarge(contents[e.key])
    {
      hide ZSets.ZSet.Valid;
      var size := 0;
      if e.isZSet {
        size := e.zset.Count();
      }
      large := size > LARGE_CONTAINER;
    }

    lemma SetsAreAside()
      requires Apart()
      ensures this !in footprint && heap !in footprint && forall e | e in entries :: e !in footprint
    {
    }

    /** entry_del() of an entry that has left the hash table: it leaves the heap, and is freed here or by a worker. */
    method EntryDel(e: Entry)
      requires TimersValid() && ValuesValid() && SetsValid() && Apart() && Accounted(created, entries, freed, tasks)
      requires e in entries && forall e | e in entries :: e.key in members && members[e.key].owner == e
      modifies `entries, `members, `contents, `deadlines, `freed, `tasks, heap`items, entries`heapIdx
      ensures TimersValid() && ValuesValid() && SetsValid() && Apart() && Accounted(created, entries, freed, tasks)
      ensures entries == old(entries) - {e} && members == old(members) - {e.key} && e !in Refs(heap.items)
      ensures contents == old(contents) - {e.key} && deadlines == old(deadlines) - {e.key}
      ensures freed == old(freed) + [Freed(e, old(contents)[e.key])]
      ensures tasks == old(tasks) + if IsLarge(old(contents)[e.key]) then [e] else []
    {
      hide DistinctRefs, Accounted, Database.ValuesValid, Database.SetsValid, Database.TimersValid;
      hide Refs, IsLarge, NotOurs;
      SetsAreAside();
      SetTtl(e, -1, 0);
      TimerOf(e);
      var large := IsLargeEntry(e);
      Forget(e);
      assert tasks + [] == tasks;
      if large {
        tasks := tasks + [e];
      }
    }

    /** Everything but the hash table. */
    ghost predicate Others()
      reads this, db.newer, db.older, heap, entries, (set e | e in entries :: e.zset)`scores, footprint
    {
      ValuesValid() && TimersValid() && SetsValid() && Apart() && Accounted(created, entries, freed, tasks)
    }

    lemma Divide()
      requires Valid()
      ensures db.Valid() && SameKeys(db.Nodes(), entries, members) && Others()
      ensures contents.Keys == members.Keys && forall key | key in deadlines :: key in members
      ensures forall key | key in members ::
                members[key] in db.Nodes() && members[key].owner in entries && members[key].owner.key == key
    {
      hide HMap.Valid, SameKeys, Database.TimersValid, HaveValues, Database.SetsValid, Database.Apart, Accounted;
      Facts();
      OnlyKeysHaveDeadlines();
    }

    lemma Unite()
      requires db.Valid() && SameKeys(db.Nodes(), entries, members) && Others()
      ensures Valid()
    {
      hide HMap.Valid, SameKeys, Database.TimersValid, Database.ValuesValid, Database.SetsValid, Database.Apart;
      hide Accounted;
    }

    /** hm_delete() of the node that belongs to the key, chosen by either comparison. */
    method Unhash(key: Name, eq: HNode<Entry> -> bool) returns (node: HNode?<Entry>)
      requires Valid()
      requires forall h | h in db.Nodes() :: Matches(h, Hash(key), eq) <==> key in members && h == members[key]
      modifies db, db.newer, db.older, db.Tables(), db.Nodes()
      ensures db.Valid() && Others() && db.Tables() <= old(db.Tables()) + {null}
      ensures node == if key in members then members[key] else null
      ensures key in members ==> db.Nodes() == old(db.Nodes()) - {members[key]}
      ensures key !in members ==> db.Nodes() == old(db.Nodes())
    {
      hide HMap.Valid, SameKeys, Hash, Matches, Database.TimersValid, Database.ValuesValid, Database.SetsValid;
      hide Accounted;
      Facts();
      var hcode := StrHash(key);
      node := db.Delete(hcode, eq);
    }

    /** hm_delete() with entry_eq() */
    method UnhashKey(key: Name) returns (node: HNode?<Entry>)
      requires Valid()
      modifies db, db.newer, db.older, db.Tables(), db.Nodes()
      ensures db.Valid() && Others() && db.Tables() <= old(db.Tables()) + {null}
      ensures node == if key in members then members[key] else null
      ensures key in members ==> db.Nodes() == old(db.Nodes()) - {members[key]}
      ensures key !in members ==> db.Nodes() == old(db.Nodes())
    {
      hide HMap.Valid, SameKeys, Database.Valid, Database.Others, Hash, Matches;
      Divide();
      var eq := (h: HNode<Entry>) => h.owner.key == key;
      MatchesByKey(db.Nodes(), entries, members, key, eq);
      node := Unhash(key, eq);
    }

    /** hm_lookup() with entry_eq() */
    method LookupKey(key: Name) returns (node: HNode?<Entry>)
      requires db.Valid() && SameKeys(db.Nodes(), entries, members) && Others()
      modifies db, db.newer, db.older, db.Tables(), db.Nodes()
      ensures db.Valid() && Others() && db.Nodes() == old(db.Nodes()) && db.Tables() <= old(db.Tables()) + {null}
      ensures node == if key in members then members[key] else null
    {
      hide HMap.Valid, SameKeys, Hash, Matches, Database.TimersValid, Database.ValuesValid, Database.SetsValid;
      hide Accounted;
      var hcode := StrHash(key);
      var eq := (h: HNode<Entry>) => h.owner.key == key;
      MatchesByKey(db.Nodes(), entries, members, key, eq);
      MembersAreNodes(db.Nodes(), entries, members);
      node := db.Lookup(hcode, eq);
    }

    /** hm_lookup() with entry_eq(): the entry of a key. */
    method Find(key: Name) returns (found: Entry?)
      requires Valid()
      modifies db, db.newer, db.older, db.Tables(), db.Nodes()
      ensures Valid() && Continues() && db.Nodes() == old(db.Nodes())
      ensures found == if key in members then members[key].owner else null
    {
      hide HMap.Valid, SameKeys, Database.Valid, Database.Others, Hash, Database.Continues;
      Divide();
      var node := LookupKey(key);
      found := if node == null then null else node.owner;
      Unite();
      Shrunk();
    }

    /** The entry that has just left the hash table leaves the database. */
    method Release(node: HNode<Entry>, ghost key: Name, ghost H: set<HNode<Entry>>)
      requires db.Valid() && Others()
      requires SameKeys(H, entries, members) && key in members && node == members[key] && db.Nodes() == H - {node}
      modifies `entries, `members, `contents, `deadlines, `freed, `tasks, heap`items, entries`heapIdx
      ensures Valid() && db.Nodes() == old(db.Nodes()) && db.Tables() == old(db.Tables()) && key in old(contents)
      ensures entries == old(entries) - {node.owner}
      ensures contents == old(contents) - {key} && deadlines == old(deadlines) - {key}
      ensures freed == old(freed) + [Freed(node.owner, old(contents)[key])] && node.owner.key == key
      ensures tasks == old(tasks) + if IsLarge(old(contents)[key]) then [node.owner] else []
    {
      hide HMap.Valid, Hash, Database.TimersValid, Database.ValuesValid, Database.SetsValid, Database.Apart, Accounted;
      hide Database.Valid;
      KeyRemoved(H, entries, members, key);
      ValuesHaveKeys();
      EntryDel(node.owner);
      Unite();
    }

    lemma ValuesHaveKeys()
      requires ValuesValid()
      ensures contents.Keys == members.Keys
    {
    }

    /** do_del(): the entry is freed, once, and left to a worker when it is large. */
    method Del(key: Name) returns (deleted: bool)
      requires Valid()
      modifies `entries, `members, `contents, `deadlines, `freed, `tasks
      modifies db, db.newer, db.older, db.Tables(), db.Nodes(), heap`items, entries`heapIdx
      ensures Valid() && Continues() && deleted == (key in old(contents))
      ensures contents == old(contents) - {key} && deadlines == old(deadlines) - {key}
      ensures !deleted ==> freed == old(freed) && tasks == old(tasks) && entries == old(entries)
      ensures deleted ==> key in old(members) && var e := old(members[key].owner);
                && e in old(entries) && e.key == key && entries == old(entries) - {e}
                && freed == old(freed) + [Freed(e, old(contents)[key])]
                && tasks == old(tasks) + if IsLarge(old(contents)[key]) then [e] else []
    {
      hide HMap.Valid, SameKeys, Database.Valid, Database.Others, Database.Continues, HMap.Nodes;
      Divide();
      ghost var H := db.Nodes();
      var node := UnhashKey(key);
      deleted := node != null;
      if deleted {
        Release(node, key, H);
      } else {
        Unite();
      }
      Shrunk();
    }

    /** hm_insert() */
    method Insert(node: HNode<Entry>)
      requires db.Valid() && Others() && node !in db.Nodes() && node !in footprint && IsNew(node.owner)
      requires node.owner.zset.Owned() && node !in node.owner.zset.repr
      modifies db, db.newer, db.older, db.Tables(), db.Nodes(), node
      ensures db.Valid() && Others() && db.Nodes() == old(db.Nodes()) + {node} && IsNew(node.owner)
      ensures node.owner.zset.Owned() && node.owner.Value() == old(node.owner.Value())
      ensures forall t | t in db.Tables() && t != null :: t in old(db.Tables()) || fresh(t)
    {
      hide HMap.Valid, Database.TimersValid, Database.ValuesValid, Database.SetsValid, ZSets.ZSet.Owned, Accounted;
      db.Insert(node);
    }

    /** hm_insert() of a new entry. */
    method AddEntry(e: Entry)
      requires Valid() && e.key !in members && e !in created && e.heapIdx == NO_TIMER
      requires e.zset.Owned() && IsNew(e)
      modifies `entries, `members, `contents, `created, `footprint, db, db.newer, db.older, db.Tables(), db.Nodes()
      ensures Valid() && contents == old(contents)[e.key := e.Value()]
      ensures entries == old(entries) + {e} && created == old(created) + {e} && members[e.key].owner == e
      ensures footprint == old(footprint) + e.zset.repr && HashOnlyNew()
    {
      hide HMap.Valid, HMap.Nodes, SameKeys, Database.Valid, Database.Others, Database.IsNew, Hash, ZSets.ZSet.Owned;
      Divide();
      var hcode := StrHash(e.key);
      var node := new HNode(hcode, e);
      KeyAdded(db.Nodes(), entries, members, node);
      Insert(node);
      Remember(node);
      Unite();
    }

    /** An entry in the hash table is counted among the live ones. */
    ghost method Remember(node: HNode<Entry>)
      requires Others() && node.owner !in created && node.owner.key !in members && node.owner.heapIdx == NO_TIMER
      requires node.owner.zset.Owned() && IsNew(node.owner)
      modifies `entries, `members, `contents, `created, `footprint
      ensures Others() && entries == old(entries) + {node.owner} && created == old(created) + {node.owner}
      ensures members == old(members)[node.owner.key := node]
      ensures contents == old(contents)[node.owner.key := node.owner.Value()]
      ensures footprint == old(footprint) + node.owner.zset.repr
    {
      hide Timed, InOrder, LinkedBut, Accounted, HaveValues, HaveSets, ZSets.ZSet.Owned;
      var e := node.owner;
      OneValueMore(entries, contents, e);
      OneSetMore(entries, footprint, e);
      AnotherCreated(created, entries, freed, tasks, e);
      MemberAdded(heap.items, members, deadlines, node);
      entries, members, contents := entries + {e}, members[e.key := node], contents[e.key := e.Value()];
      created, footprint := created + {e}, footprint + e.zset.repr;
    }

    // ---- operations on the sorted set of an entry ----

    ghost predicate NotOurs(objects: set<object>)
      reads `entries, db.newer, db.older
    {
      && this !in objects && db !in objects && db.newer !in objects && db.older !in objects && heap !in objects
      && (forall t | t in db.Tables() && t != null :: t !in objects)
      && (forall h | h in db.Nodes() :: h !in objects) && forall e | e in entries :: e !in objects
    }

    /** The sorted set of an entry is settled again after an operation; `rest` belongs to the other sets. */
    ghost method Settle(e: Entry, rest: set<object>)
      requires KeysValid() && TimersValid() && Accounted(created, entries, freed, tasks)
      requires contents.Keys == members.Keys
      requires HaveValues(entries - {e}, contents) && HaveSets(entries - {e}, rest) && NotOurs(rest) && e in entries
      requires e.isZSet && e.zset.Owned() && rest !! e.zset.repr && NotOurs(e.zset.repr)
      requires forall f | f in entries :: f.key in members && members[f.key].owner == f
      modifies `contents, `footprint
      ensures Valid() && contents == old(contents)[e.key := Scored(e.zset.scores)] && footprint == rest + e.zset.repr
    {
      hide HMap.Valid, SameKeys, HaveSets, Timed, InOrder, Accounted, ZSets.ZSet.Owned, Hash;
      OneSetMore(entries - {e}, rest, e);
      assert entries - {e} + {e} == entries;
      contents := contents[e.key := Scored(e.zset.scores)];
      footprint := rest + e.zset.repr;
    }

    lemma Parts()
      requires Valid()
      ensures KeysValid() && ValuesValid() && TimersValid() && SetsValid() && Apart()
      ensures Accounted(created, entries, freed, tasks) && contents.Keys == members.Keys
      ensures this !in footprint && heap !in footprint
      ensures forall e | e in entries :: e.key in members && members[e.key].owner == e && e !in footprint
    {
      hide HMap.Valid, SameKeys, Database.TimersValid, Accounted, HaveValues, HaveSets;
      Facts();
    }

    lemma Whole()
      requires KeysValid() && HaveValues(entries, contents) && contents.Keys == members.Keys && TimersValid()
      requires SetsValid() && Apart() && Accounted(created, entries, freed, tasks)
      ensures Valid()
    {
    }

    /** What an operation on the sorted set of an entry leaves alone. */
    lemma Around(e: Entry)
      requires Valid() && e in entries
      ensures e.zset in e.zset.repr && e.zset.repr <= footprint && e.zset.Owned() && NotOurs(e.zset.repr)
      ensures HaveValues(entries - {e}, contents) && HaveSets(entries - {e}, footprint - e.zset.repr)
      ensures NotOurs(footprint - e.zset.repr) && KeysValid() && TimersValid()
      ensures Accounted(created, entries, freed, tasks)
      ensures contents.Keys == members.Keys && contents[e.key] == e.Value()
      ensures forall f | f in entries :: f.key in members && members[f.key].owner == f
      ensures forall f | f in entries && f != e :: f.zset !in e.zset.repr
    {
      hide HMap.Valid, SameKeys, Timed, InOrder, Accounted, ZSets.ZSet.Valid, Hash;
      Facts();
    }

    /** Nothing of the entry belongs to the database yet. */
    ghost predicate IsNew(e: Entry)
      reads this, db.newer, db.older, e.zset
    {
      e !in footprint && footprint !! e.zset.repr && e !in e.zset.repr && e.zset in e.zset.repr && NotOurs(e.zset.repr)
    }

    /** What has just been allocated is no part of the database. */
    twostate lemma NewIsApart(new e: Entry)
      requires fresh(e) && fresh(e.zset.repr) && e.zset in e.zset.repr && e !in e.zset.repr
      requires unchanged(this) && unchanged(db.newer) && unchanged(db.older)
      ensures IsNew(e) && e !in created
    {
      assert forall o | o in old(footprint) :: !fresh(o);
      assert forall f | f in old(entries) :: !fresh(f);
      assert forall f | f in old(created) :: !fresh(f);
      assert forall h | h in old(db.Nodes()) :: !fresh(h);
      assert forall t | t in old(db.Tables()) && t != null :: !fresh(t);
    }

    /** Whatever belongs to the database now belonged to it before or is new; what was created or freed stays so. */
    twostate predicate Continues()
      reads `entries, `footprint, `created, `freed, db.newer, db.older
    {
      && HashOnlyNew() && (forall e | e in entries :: e in old(entries) || fresh(e))
      && (forall o | o in footprint :: o in old(footprint) || fresh(o))
      && old(freed) <= freed && old(created) <= created
    }

    /** What was outside the sorted sets stays outside. */
    twostate lemma StaysOutside(o: object)
      requires Continues() && o !in old(footprint)
      ensures o !in footprint
    {
    }

    twostate lemma Grown(new e: Entry)
      requires HashOnlyNew() && entries == old(entries) + {e} && footprint == old(footprint) + e.zset.repr
      requires fresh(e) && fresh(e.zset.repr) && freed == old(freed) && created == old(created) + {e}
      ensures Continues()
    {
    }

    twostate lemma Shrunk()
      requires db.Nodes() <= old(db.Nodes()) && db.Tables() <= old(db.Tables()) + {null}
      requires entries <= old(entries) && footprint == old(footprint)
      requires old(freed) <= freed && created == old(created)
      ensures Continues()
    {
    }

    // ---- ownership ----

    ghost function Objects(): set<object>
      reads `entries, `footprint, db.newer, db.older
    {
      {this, db, db.newer, db.older, heap} + db.Nodes() + entries + footprint
      + (if db.newer.tab == null then {} else {db.newer.tab}) + (if db.older.tab == null then {} else {db.older.tab})
    }

    /** The database is valid and made of objects it owns. */
    ghost predicate Owned()
      reads this, repr
    {
      && this in repr && db.newer in repr && db.older in repr && Objects() <= repr
      && (forall e | e in entries :: e.zset in repr) && Valid()
    }

    lemma OwnedIsAccounted()
      requires Owned()
      ensures Accounted(created, entries, freed, tasks)
    {
      Parts();
    }

    /** The objects of the database belong to it from now on. */
    ghost method Adopt()
      requires Valid()
      modifies `repr
      ensures Owned() && repr == Objects()
    {
      hide Database.KeysValid, Database.ValuesValid, Database.TimersValid, Database.Apart, Accounted, ZSets.ZSet.Owned;
      Parts();
      repr := Objects();
    }

    /** No operation reaches for objects that are neither owned nor new. */
    twostate lemma OnlyNewObjects()
      requires old(Owned()) && Continues()
      ensures fresh(Objects() - old(repr))
    {
      hide Database.Valid;
      assert forall h | h in old(db.Nodes()) :: h in old(repr);
      assert forall t | t in old(db.Tables()) && t != null :: t in old(repr);
      assert db.newer.tab in db.Tables() && db.older.tab in db.Tables();
    }

    twostate predicate HashOnlyNew()
      reads db.newer, db.older
    {
      && (forall h | h in db.Nodes() :: h in old(db.Nodes()) || fresh(h))
      && forall t | t in db.Tables() && t != null :: t in old(db.Tables()) || fresh(t)
    }
  }

  lemma AnotherFreed(created: set<Entry>, entries: set<Entry>, freed: seq<Freed>, tasks: seq<Entry>, e: Entry, v: Value)
    requires Accounted(created, entries, freed, tasks) && e in entries
    ensures Accounted(created, entries - {e}, freed + [Freed(e, v)], tasks + if IsLarge(v) then [e] else [])
  {
    var more := freed + [Freed(e, v)];
    assert more[..|freed|] == freed;
    assert FreedEntries(more) == FreedEntries(freed) + {e} by {
      assert more[|freed|].entry == e;
      assert forall i | 0 <= i < |freed| :: more[i] == freed[i] && freed[i].entry in FreedEntries(freed);
    }
  }

  lemma AnotherCreated(created: set<Entry>, entries: set<Entry>, freed: seq<Freed>, tasks: seq<Entry>, e: Entry)
    requires Accounted(created, entries, freed, tasks) && e !in created
    ensures Accounted(created + {e}, entries + {e}, freed, tasks)
  {
  }

  lemma MemberDropped(items: seq<Item>, members: Index, deadlines: map<Name, nat>, key: Name)
    requires Timed(items, members, deadlines) && key !in deadlines
    ensures Timed(items, members - {key}, deadlines)
  {
  }

  lemma MembersAreNodes(H: set<HNode<Entry>>, E: set<Entry>, members: Index)
    requires SameKeys(H, E, members)
    ensures forall key | key in members :: members[key] in H
  {
  }

  lemma KeyAdded(H: set<HNode<Entry>>, E: set<Entry>, members: Index, node: HNode<Entry>)
    requires SameKeys(H, E, members) && node.owner.key !in members && node.hcode == Hash(node.owner.key)
    ensures SameKeys(H + {node}, E + {node.owner}, members[node.owner.key := node])
    ensures node !in H && node.owner !in E
  {
  }

  lemma MemberAdded(items: seq<Item>, members: Index, deadlines: map<Name, nat>, node: HNode<Entry>)
    requires Timed(items, members, deadlines) && node.owner.key !in members
    ensures Timed(items, members[node.owner.key := node], deadlines)
  {
  }

  lemma KeyRemoved(H: set<HNode<Entry>>, E: set<Entry>, members: Index, key: Name)
    requires SameKeys(H, E, members) && key in members
    ensures SameKeys(H - {members[key]}, E - {members[key].owner}, members - {key})
  {
  }

  /** The comparison by key picks the node of that key. */
  lemma MatchesByKey(H: set<HNode<Entry>>, E: set<Entry>, members: Index, key: Name, eq: HNode<Entry> -> bool)
    requires SameKeys(H, E, members)
    requires forall h: HNode<Entry> | h in H :: eq(h) == (h.owner.key == key)
    ensures forall h | h in H :: Matches(h, Hash(key), eq) <==> key in members && h == members[key]
  {
  }

  /** The comparison by identity picks the node of that entry. */
  lemma MatchesByIdentity(H: set<HNode<Entry>>, E: set<Entry>, members: Index, e: Entry, eq: HNode<Entry> -> bool)
    requires SameKeys(H, E, members) && e in E
    requires forall h: HNode<Entry> | h in H :: eq(h) == (h.owner == e)
    ensures forall h | h in H :: Matches(h, Hash(e.key), eq) <==> e.key in members && h == members[e.key]
  {
  }
}
