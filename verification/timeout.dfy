/** next_timer_ms() of time.cc: how long epoll_wait() may sleep. */
module Timeouts {
  import opened Pairs
  import ZSets
  import opened Entries
  import opened TimerHeap
  import opened IdleList

  /** (uint64_t)-1, the absence of timers */
  const NO_DEADLINE: nat := UINT64_RANGE - 1

  const INT32_RANGE: nat := UINT32_RANGE / 2

  /** (int32_t) of an unsigned number */
  function Narrow(n: nat): int {
    var low := n % UINT32_RANGE;
    if low < INT32_RANGE then low else low - UINT32_RANGE
  }

  /** The earliest of all deadlines: of the idle connections and of the entries; NO_DEADLINE when there are none. */
  ghost predicate IsEarliest(conns: seq<DList>, items: seq<Item>, deadline: nat)
    reads conns
  {
    && deadline <= NO_DEADLINE
    && (forall i | 0 <= i < |conns| :: deadline <= conns[i].lastActive + IDLE_TIMEOUT)
    && (forall i | 0 <= i < |items| :: deadline <= items[i].val)
    && (deadline == NO_DEADLINE
        || (exists i | 0 <= i < |conns| :: deadline == conns[i].lastActive + IDLE_TIMEOUT)
        || exists i | 0 <= i < |items| :: deadline == items[i].val)
  }

  lemma EarliestIsUnique(conns: seq<DList>, items: seq<Item>, d: nat, e: nat)
    requires IsEarliest(conns, items, d) && IsEarliest(conns, items, e)
    ensures d == e
  {
  }

  /** The first connection and the first item of the heap decide. */
  lemma FirstOnesDecide(conns: seq<DList>, items: seq<Item>, d: nat)
    requires Sorted(conns) && InOrder(items)
    requires forall i | 0 <= i < |conns| :: conns[i].lastActive + IDLE_TIMEOUT <= NO_DEADLINE
    requires forall i | 0 <= i < |items| :: items[i].val <= NO_DEADLINE
    requires var first := if conns == [] then NO_DEADLINE else conns[0].lastActive + IDLE_TIMEOUT;
             d == if items != [] && items[0].val < first then items[0].val else first
    ensures IsEarliest(conns, items, d)
  {
    forall i | 0 <= i < |items| ensures items[0].val <= items[i].val {
      RootIsLeast(items, i);
    }
  }

  /** The timeout that belongs to a deadline. */
  function Timeout(deadline: nat, now: nat): int {
    if deadline == NO_DEADLINE then -1 else if deadline <= now then 0 else Narrow(deadline - now)
  }

  /** The deadlines of the idle connections and of the entries. */
  ghost function Deadlines(conns: seq<DList>, items: seq<Item>): set<nat>
    reads conns
  {
    (set i | 0 <= i < |conns| :: conns[i].lastActive + IDLE_TIMEOUT) + set i | 0 <= i < |items| :: items[i].val
  }

  /** It is the earliest of the deadlines, and none of them is NO_DEADLINE. */
  ghost predicate IsLeast(deadlines: set<nat>, d: int) {
    0 <= d && d in deadlines && d < NO_DEADLINE && forall e | e in deadlines :: d <= e
  }

  /** What a timeout means to epoll_wait(), given the deadlines. */
  lemma TimeoutMeans(conns: seq<DList>, items: seq<Item>, d: nat, now: nat)
    requires IsEarliest(conns, items, d)
    ensures var all, ms := Deadlines(conns, items), Timeout(d, now);
            && ((forall e | e in all :: e >= NO_DEADLINE) ==> ms == -1)
            && ((exists e :: e in all && e <= now && e < NO_DEADLINE) ==> ms == 0)
            && forall e: int | IsLeast(all, e) && e > now ::
                 && 0 <= ms + INT32_RANGE < UINT32_RANGE && (e - now - ms) % UINT32_RANGE == 0
                 && (e - now < INT32_RANGE ==> ms == e - now) && (ms == 0 ==> (e - now) % UINT32_RANGE == 0)
  {
    hide Narrow;
    var all := Deadlines(conns, items);
    EarliestIsLeast(conns, items, d);
    forall e: int | IsLeast(all, e) ensures e == d {
    }
    if d > now {
      NarrowKeepsLowBits(d - now);
    }
  }

  lemma EarliestIsLeast(conns: seq<DList>, items: seq<Item>, d: nat)
    requires IsEarliest(conns, items, d)
    ensures (forall e | e in Deadlines(conns, items) :: d <= e) && (d == NO_DEADLINE || d in Deadlines(conns, items))
  {
  }

  lemma NarrowKeepsLowBits(n: nat)
    ensures 0 <= Narrow(n) + INT32_RANGE < UINT32_RANGE && (n - Narrow(n)) % UINT32_RANGE == 0
    ensures n < INT32_RANGE ==> Narrow(n) == n
  {
    assert n == n / UINT32_RANGE * UINT32_RANGE + n % UINT32_RANGE;
    if n % UINT32_RANGE >= INT32_RANGE {
      assert n - Narrow(n) == (n / UINT32_RANGE + 1) * UINT32_RANGE;
    }
  }

  /** next_timer_ms(): -1 without timers, 0 when one is due, otherwise the distance to the earliest, narrowed. */
  method NextTimerMs(q: IdleQueue, heap: Heap, now: nat) returns (ms: int)
    requires q.Valid() && heap.Valid()
    requires forall i | 0 <= i < |q.conns| :: q.conns[i].lastActive + IDLE_TIMEOUT <= NO_DEADLINE
    requires forall i | 0 <= i < |heap.items| :: heap.items[i].val <= NO_DEADLINE
    ensures exists d: nat :: IsEarliest(q.conns, heap.items, d)
    ensures forall d: nat | IsEarliest(q.conns, heap.items, d) :: ms == Timeout(d, now)
    ensures var all := Deadlines(q.conns, heap.items);
            && ((forall d | d in all :: d >= NO_DEADLINE) ==> ms == -1)
            && ((exists d :: d in all && d <= now && d < NO_DEADLINE) ==> ms == 0)
            && forall d: int | IsLeast(all, d) && d > now ::
                 && 0 <= ms + INT32_RANGE < UINT32_RANGE && (d - now - ms) % UINT32_RANGE == 0
                 && (d - now < INT32_RANGE ==> ms == d - now) && (ms == 0 ==> (d - now) % UINT32_RANGE == 0)
  {
    hide IdleQueue.Valid, InOrder, IsEarliest, Narrow, Sorted, Deadlines, IsLeast;
    q.Order();
    var nextMs := NO_DEADLINE;
    var empty := q.Empty();
    if !empty {
      var conn := q.First();
      nextMs := conn.lastActive + IDLE_TIMEOUT;
    }
    if |heap.items| > 0 && heap.items[0].val < nextMs {
      nextMs := heap.items[0].val;
    }
    FirstOnesDecide(q.conns, heap.items, nextMs);
    forall d: nat | IsEarliest(q.conns, heap.items, d) ensures d == nextMs {
      EarliestIsUnique(q.conns, heap.items, d, nextMs);
    }
    TimeoutMeans(q.conns, heap.items, nextMs, now);
    if nextMs == NO_DEADLINE {
      return -1;
    }
    if nextMs <= now {
      return 0;
    }
    ms := Narrow(nextMs - now);
  }

  /**
   A deadline ahead is met exactly when it is less than 2^31 ms ahead. It is lost, since a negative timeout means to
   wait without end, exactly when the low 32 bits of its distance are 2^31 or more; otherwise the wake-up is early.
   */
  lemma TimeoutCases(deadline: nat, now: nat)
    requires now < deadline < NO_DEADLINE
    ensures Timeout(deadline, now) == deadline - now <==> deadline - now < INT32_RANGE
    ensures Timeout(deadline, now) < 0 <==> (deadline - now) % UINT32_RANGE >= INT32_RANGE
    ensures Timeout(deadline, now) <= deadline - now
  {
  }

  method HeapOfOne(deadline: nat) returns (heap: Heap, e: Entry)
    ensures heap.Valid() && fresh(heap) && fresh(e) && heap.items == [Item(deadline, e)]
  {
    hide InOrder, ZSets.ZSet.Owned;
    NoItems();
    e := new Entry([], false, []);
    heap := new Heap();
    heap.Insert(Item(deadline, e));
    OneItem(heap.items, deadline, e);
  }

  /** A timer and no connection: what next_timer_ms() makes of the distance. */
  method OneTimer(now: nat, distance: nat) returns (ms: int)
    requires 0 < distance && now + distance < NO_DEADLINE
    ensures ms < 0 <==> distance % UINT32_RANGE >= INT32_RANGE
    ensures ms == distance <==> distance < INT32_RANGE
  {
    hide IdleQueue.Valid, IsEarliest, Timeout, InOrder;
    var q := new IdleQueue();
    var heap, e := HeapOfOne(now + distance);
    ms := NextTimerMs(q, heap, now);
    OnlyDeadline(heap.items, now + distance, e);
    TimeoutCases(now + distance, now);
  }

  lemma NoItems()
    ensures InOrder([])
  {
  }

  lemma OneItem(items: seq<Item>, deadline: nat, e: Entry)
    requires multiset(items) == multiset([]) + multiset{Item(deadline, e)}
    ensures items == [Item(deadline, e)]
  {
    assert |multiset(items)| == 1;
    assert items[0] in multiset(items);
  }

  lemma OnlyDeadline(items: seq<Item>, deadline: nat, e: Entry)
    requires items == [Item(deadline, e)] && deadline < NO_DEADLINE
    ensures IsEarliest([], items, deadline)
  {
    assert items[0].val == deadline;
  }

  /** A single timer 2^31 ms ahead, about 25 days, makes the server wait without end. */
  method FarDeadlineIsLost(now: nat) returns (ms: int)
    requires now + INT32_RANGE < NO_DEADLINE
    ensures ms < 0
  {
    ms := OneTimer(now, INT32_RANGE);
  }

  /** As long as some connection is idle, the timeout is at most 5000 ms and so is exact. */
  lemma IdleConnectionBoundsTimeout(conns: seq<DList>, items: seq<Item>, deadline: nat, now: nat)
    requires conns != [] && Latest(conns, now) && IsEarliest(conns, items, deadline) && deadline > now
    ensures Narrow(deadline - now) == deadline - now <= IDLE_TIMEOUT
  {
    assert deadline <= conns[0].lastActive + IDLE_TIMEOUT;
  }
}
