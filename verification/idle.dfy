/** list.hh and the idle timers of time.cc and main.cc: a circular list of connections, least recently active first. */
module IdleList {

  /** k_idle_timeout_ms */
  const IDLE_TIMEOUT: nat := 5000

  /** DList; `fd` and `lastActive` belong to the enclosing connection, reached by container_of. */
  class DList {
    var prev: DList?
    var next: DList?
    const fd: nat
    var lastActive: nat

    constructor (fd: nat)
      ensures this.fd == fd
    {
      prev, next, this.fd, lastActive := null, null, fd, 0;
    }
  }

  function Succ(i: nat, n: nat): nat {
    if i + 1 == n then 0 else i + 1
  }

  /** The nodes of s are linked in a circle in this order, in both directions. */
  ghost predicate Ring(s: seq<DList>)
    reads s
  {
    && s != [] && (forall i, j | 0 <= i < j < |s| :: s[i] != s[j])
    && forall i | 0 <= i < |s| :: s[i].next == s[Succ(i, |s|)] && s[Succ(i, |s|)].prev == s[i]
  }

  /** dlist_init() */
  method Init(node: DList)
    modifies node`prev, node`next
    ensures Ring([node])
  {
    node.next, node.prev := node, node;
  }

  /** dlist_detach() */
  method Detach(node: DList, ghost s: seq<DList>, ghost i: nat)
    requires Ring(s) && 0 < i < |s| && s[i] == node
    modifies (set n | n in s)`prev, (set n | n in s)`next
    ensures Ring(s[..i] + s[i + 1..])
  {
    ghost var t := s[..i] + s[i + 1..];
    var prev := node.prev;
    var next := node.next;
    assert s[Succ(i - 1, |s|)] == node && prev == s[i - 1] && next == s[Succ(i, |s|)];
    prev.next := next;
    next.prev := prev;
    forall k | 0 <= k < |t|
      ensures t[k].next == t[Succ(k, |t|)] && t[Succ(k, |t|)].prev == t[k]
    {
      DetachedPlace(s, i, k);
      DetachedPlace(s, i, Succ(k, |t|));
    }
  }

  lemma DetachedPlace(s: seq<DList>, i: nat, k: nat)
    requires 0 < i < |s| && k < |s| - 1
    ensures (s[..i] + s[i + 1..])[k] == s[if k < i then k else k + 1]
  {
  }

  /** dlist_insert_before() the head of the ring, which is behind its last node. */
  method InsertBefore(target: DList, rookie: DList, ghost s: seq<DList>)
    requires Ring(s) && s[0] == target && rookie !in s
    modifies (set n | n in s)`prev, (set n | n in s)`next, rookie`prev, rookie`next
    ensures Ring(s + [rookie])
  {
    ghost var t := s + [rookie];
    var prev := target.prev;
    assert s[Succ(|s| - 1, |s|)] == target && prev == s[|s| - 1];
    prev.next := rookie;
    rookie.prev := prev;
    rookie.next := target;
    target.prev := rookie;
    assert forall k | 0 <= k < |s| :: t[k] == s[k];
  }

  /** The idle list of the server: its connections, in the order of their last activity. */
  class IdleQueue {
    const head: DList
    ghost var conns: seq<DList>

    ghost predicate Valid()
      reads this, head, conns
    {
      Ring([head] + conns) && Sorted(conns)
    }

    constructor ()
      ensures Valid() && conns == [] && fresh(head)
    {
      head := new DList(0);
      conns := [];
      new;
      Init(head);
      assert [head] + conns == [head];
    }

    /** dlist_empty() */
    method Empty() returns (empty: bool)
      requires Valid()
      ensures empty <==> conns == []
    {
      ghost var s := [head] + conns;
      assert s[0].next == s[Succ(0, |s|)];
      empty := head.next == head;
    }

    /** The connection whose turn to expire comes first. */
    method First() returns (first: DList)
      requires Valid() && conns != []
      ensures first == conns[0]
    {
      ghost var s := [head] + conns;
      assert s[0].next == s[Succ(0, |s|)];
      first := head.next;
    }

    /** handle_accept(): a new connection joins the list at its end. */
    method Accept(conn: DList, now: nat)
      requires Valid() && conn != head && conn !in conns && Latest(conns, now)
      modifies this, head, conns, conn
      ensures Valid() && conns == old(conns) + [conn] && conn.lastActive == now && Latest(conns, now)
      ensures forall n | n in old(conns) :: n.lastActive == old(n.lastActive)
    {
      hide Ring, Sorted, Latest;
      DistinctConns();
      conn.lastActive := now;
      InsertBefore(head, conn, [head] + conns);
      assert [head] + (conns + [conn]) == [head] + conns + [conn];
      LatestIsLast(conns, conn, now);
      conns := conns + [conn];
    }

    /** conn_destroy(): the connection leaves the list, wherever it is. */
    method Remove(conn: DList, ghost i: nat)
      requires Valid() && i < |conns| && conns[i] == conn
      modifies `conns, head`prev, head`next, (set n | n in conns)`prev, (set n | n in conns)`next
      ensures Valid() && conns == old(conns)[..i] + old(conns)[i + 1..]
    {
      ghost var s := [head] + conns;
      assert s[i + 1] == conn;
      Detach(conn, s, i + 1);
      assert s[..i + 1] + s[i + 2..] == [head] + (conns[..i] + conns[i + 1..]);
      conns := conns[..i] + conns[i + 1..];
    }

    /** The event loop, before it handles an event: the connection moves to the end of the list. */
    method Touch(conn: DList, now: nat, ghost i: nat)
      requires Valid() && i < |conns| && conns[i] == conn && Latest(conns, now)
      modifies this, head, conns
      ensures Valid() && conns == old(conns)[..i] + old(conns)[i + 1..] + [conn] && conn.lastActive == now
      ensures Latest(conns, now)
      ensures forall n | n in old(conns) && n != conn :: n.lastActive == old(n.lastActive)
    {
      DistinctConns();
      Remove(conn, i);
      Accept(conn, now);
    }

    /** One round of the loop, which ends at the first connection that has not expired. */
    method ExpireFirst(now: nat) returns (removed: DList?)
      requires Valid()
      modifies `conns, head`prev, head`next, (set n | n in conns)`prev, (set n | n in conns)`next
      ensures Valid()
      ensures removed == if old(conns) != [] && old(conns)[0].lastActive
              + IDLE_TIMEOUT < now then old(conns)[0] else null
      ensures conns == if removed != null then old(conns)[1..] else old(conns)
    {
      hide IdleQueue.Valid;
      removed := null;
      var empty := Empty();
      if !empty {
        var conn := First();
        var nextMs := conn.lastActive + IDLE_TIMEOUT;
        if nextMs < now {
          Remove(conn, 0);
          removed := conn;
        }
      }
    }

    /** The first loop of process_timers(): exactly the connections idle for more than 5000 ms are destroyed. */
    method ExpireIdle(now: nat) returns (gone: seq<DList>)
      requires Valid()
      modifies `conns, head`prev, head`next, (set n | n in conns)`prev, (set n | n in conns)`next
      ensures Valid() && Survivors(old(conns), conns, now) && old(conns) == gone + conns
    {
      hide IdleQueue.Valid, Sorted, Survivors;
      ghost var s := conns;
      gone := [];
      Order();
      var more := true;
      while more
        invariant Valid() && s == gone + conns
        invariant forall i | 0 <= i < |gone| :: gone[i].lastActive + IDLE_TIMEOUT < now
        invariant !more && conns != [] ==> conns[0].lastActive + IDLE_TIMEOUT >= now
        decreases more, |conns|
      {
        ghost var rest := conns;
        var removed := ExpireFirst(now);
        more := removed != null;
        if more {
          OneAlong(gone, rest);
          gone := gone + [removed];
        }
      }
      Remaining(gone, conns, now);
    }

    lemma Order()
      requires Valid()
      ensures Sorted(conns) && head !in conns && forall i, j | 0 <= i < j < |conns| :: conns[i] != conns[j]
    {
      DistinctConns();
    }

    lemma DistinctConns()
      requires Valid()
      ensures head !in conns && forall i, j | 0 <= i < j < |conns| :: conns[i] != conns[j]
    {
      var s := [head] + conns;
      assert s[0] == head;
      assert forall i | 0 <= i < |conns| :: conns[i] == s[i + 1] != s[0];
      forall i, j | 0 <= i < j < |conns| ensures conns[i] != conns[j] {
        assert conns[i] == s[i + 1] && conns[j] == s[j + 1];
      }
    }
  }

  /** Exactly those of s remain that have been idle for no more than 5000 ms. */
  ghost predicate Survivors(s: seq<DList>, rest: seq<DList>, now: nat)
    reads (set n | n in s)`lastActive
  {
    forall n | n in s :: n in rest <==> n.lastActive + IDLE_TIMEOUT >= now
  }

  ghost predicate Sorted(s: seq<DList>)
    reads (set n | n in s)`lastActive
  {
    forall i, j | 0 <= i < j < |s| :: s[i].lastActive <= s[j].lastActive
  }

  /** The clock is monotone: no connection has been active later than now. */
  ghost predicate Latest(s: seq<DList>, now: nat)
    reads (set n | n in s)`lastActive
  {
    forall i | 0 <= i < |s| :: s[i].lastActive <= now
  }

  lemma OneAlong(gone: seq<DList>, rest: seq<DList>)
    requires rest != []
    ensures gone + rest == gone + [rest[0]] + rest[1..]
  {
  }

  lemma Remaining(gone: seq<DList>, rest: seq<DList>, now: nat)
    requires Sorted(gone + rest) && forall i, j | 0 <= i < j < |gone + rest| :: (gone + rest)[i] != (gone + rest)[j]
    requires forall i | 0 <= i < |gone| :: gone[i].lastActive + IDLE_TIMEOUT < now
    requires rest != [] ==> rest[0].lastActive + IDLE_TIMEOUT >= now
    ensures Survivors(gone + rest, rest, now)
  {
    var s := gone + rest;
    assert forall i | 0 <= i < |gone| :: s[i] == gone[i];
    assert forall j | 0 <= j < |rest| :: s[|gone| + j] == rest[j];
    forall n | n in s ensures n in rest <==> n.lastActive + IDLE_TIMEOUT >= now {
      var i :| 0 <= i < |s| && s[i] == n;
      if i >= |gone| {
        assert n == rest[i - |gone|] && rest[0] == s[|gone|];
      }
    }
  }

  lemma LatestIsLast(s: seq<DList>, conn: DList, now: nat)
    requires Sorted(s) && Latest(s, now) && conn.lastActive == now
    ensures Sorted(s + [conn]) && Latest(s + [conn], now)
  {
  }

  // ---- the meaning of a run ----

  /** A connection is accepted, has an event, or is closed by its event; or the timers are processed. */
  datatype Happening = Accepted | Active(fd: nat) | Closed(fd: nat) | Timers

  /** An open connection and the time of its last activity. */
  datatype Idle = Idle(fd: nat, lastActive: nat)

  /** The open connections, the number of those ever accepted, and the time. */
  datatype Clients = Clients(open: seq<Idle>, accepted: nat, now: nat)

  predicate IsOpen(open: seq<Idle>, fd: nat) {
    exists i :: 0 <= i < |open| && open[i].fd == fd
  }

  function Without(open: seq<Idle>, fd: nat): seq<Idle> {
    if open == [] then []
    else (if open[0].fd == fd then [] else [open[0]]) + Without(open[1..], fd)
  }

  /** Those that have been idle for no more than 5000 ms. */
  function Unexpired(open: seq<Idle>, now: nat): seq<Idle> {
    if open == [] then []
    else (if open[0].lastActive + IDLE_TIMEOUT < now then [] else [open[0]]) + Unexpired(open[1..], now)
  }

  function After(c: Clients, h: Happening, delay: nat): Clients {
    var now := c.now + delay;
    match h
    case Accepted => Clients(c.open + [Idle(c.accepted, now)], c.accepted + 1, now)
    case Active(fd) =>
      c.(open := if IsOpen(c.open, fd) then Without(c.open, fd) + [Idle(fd, now)] else c.open, now := now)
    case Closed(fd) => c.(open := Without(c.open, fd), now := now)
    case Timers => c.(open := Unexpired(c.open, now), now := now)
  }

  function Meaning(happenings: seq<Happening>, delays: seq<nat>): Clients
    requires |delays| == |happenings|
  {
    if happenings == [] then Clients([], 0, 0)
    else
      var n := |happenings| - 1;
      After(Meaning(happenings[..n], delays[..n]), happenings[n], delays[n])
  }

  lemma MeaningOfMore(happenings: seq<Happening>, delays: seq<nat>, n: nat)
    requires |delays| == |happenings| && n < |happenings|
    ensures Meaning(happenings[..n + 1], delays[..n + 1])
         == After(Meaning(happenings[..n], delays[..n]), happenings[n], delays[n])
  {
    assert happenings[..n + 1][..n] == happenings[..n] && delays[..n + 1][..n] == delays[..n];
  }

  /** What the nodes say. */
  ghost function View(conns: seq<DList>): seq<Idle>
    reads conns
  {
    seq(|conns|, i requires 0 <= i < |conns| reads conns => Idle(conns[i].fd, conns[i].lastActive))
  }

  ghost predicate UniqueFds(conns: seq<DList>) {
    forall i, j | 0 <= i < j < |conns| :: conns[i].fd != conns[j].fd
  }

  lemma {:induction false} WithoutIndex(open: seq<Idle>, i: nat)
    requires i < |open| && forall j, k | 0 <= j < k < |open| :: open[j].fd != open[k].fd
    ensures Without(open, open[i].fd) == open[..i] + open[i + 1..]
  {
    if i == 0 {
      WithoutNone(open[1..], open[0].fd);
    } else {
      WithoutIndex(open[1..], i - 1);
      assert open[..i] + open[i + 1..] == [open[0]] + (open[1..][..i - 1] + open[1..][i..]);
    }
  }

  lemma {:induction false} WithoutNone(open: seq<Idle>, fd: nat)
    requires !IsOpen(open, fd)
    ensures Without(open, fd) == open
  {
    if open != [] {
      assert open[0].fd != fd;
      assert forall i | 0 <= i < |open| - 1 :: open[1..][i] == open[i + 1];
      WithoutNone(open[1..], fd);
    }
  }

  /** When the first k have expired and the others have not, the others remain. */
  lemma {:induction false} UnexpiredIsRest(open: seq<Idle>, k: nat, now: nat)
    requires k <= |open|
    requires forall i | 0 <= i < |open| :: open[i].lastActive + IDLE_TIMEOUT < now <==> i < k
    ensures Unexpired(open, now) == open[k..]
  {
    if open != [] {
      UnexpiredIsRest(open[1..], if k == 0 then 0 else k - 1, now);
    }
  }

  // ---- runs ----

  /** fd2conn: the connections by number, null once they have been destroyed. */
  ghost predicate Indexes(table: seq<DList?>, conns: seq<DList>) {
    && (forall fd | 0 <= fd < |table| && table[fd] != null :: table[fd].fd == fd && table[fd] in conns)
    && forall n | n in conns :: n.fd < |table| && table[n.fd] == n
  }

  lemma TableIsExact(q: IdleQueue, table: seq<DList?>)
    requires q.Valid() && Indexes(table, q.conns)
    ensures UniqueFds(q.conns) && q.head !in q.conns
    ensures forall fd | 0 <= fd < |table| :: table[fd] != null <==> IsOpen(View(q.conns), fd)
    ensures forall fd | fd >= |table| :: !IsOpen(View(q.conns), fd)
    ensures forall i | 0 <= i < |q.conns| :: q.conns[i] in q.conns && table[q.conns[i].fd] == q.conns[i]
  {
    hide IdleQueue.Valid;
    q.DistinctConns();
    assert forall i | 0 <= i < |q.conns| :: q.conns[i] in q.conns && View(q.conns)[i].fd == q.conns[i].fd;
  }

  lemma Place(q: IdleQueue, table: seq<DList?>, fd: nat) returns (i: nat)
    requires q.Valid() && Indexes(table, q.conns)
    ensures if fd < |table| && table[fd] != null
            then i < |q.conns| && q.conns[i] == table[fd] && IsOpen(View(q.conns), fd)
                 && Without(View(q.conns), fd) == View(q.conns)[..i] + View(q.conns)[i + 1..]
            else !IsOpen(View(q.conns), fd) && Without(View(q.conns), fd) == View(q.conns)
  {
    hide IdleQueue.Valid, Without;
    TableIsExact(q, table);
    i := 0;
    if fd < |table| && table[fd] != null {
      i :| 0 <= i < |q.conns| && q.conns[i] == table[fd];
      WithoutIndex(View(q.conns), i);
    } else {
      WithoutNone(View(q.conns), fd);
    }
  }

  twostate lemma ViewMoved(s: seq<DList>, new i: nat, new now: nat)
    requires i < |s| && s[i].lastActive == now
    requires forall n | n in s && n != s[i] :: n.lastActive == old(n.lastActive)
    requires forall j, k | 0 <= j < k < |s| :: s[j] != s[k]
    ensures View(s[..i] + s[i + 1..] + [s[i]]) == old(View(s))[..i] + old(View(s))[i + 1..] + [Idle(s[i].fd, now)]
  {
    var t := s[..i] + s[i + 1..] + [s[i]];
    assert forall k | 0 <= k < |t| - 1 :: t[k] == s[if k < i then k else k + 1] && t[k] in s && t[k] != s[i];
  }

  twostate lemma ViewCut(s: seq<DList>, new i: nat, new j: nat)
    requires i <= j <= |s| && forall n | n in s :: n.lastActive == old(n.lastActive)
    ensures View(s[..i] + s[j..]) == old(View(s))[..i] + old(View(s))[j..]
  {
    var t := s[..i] + s[j..];
    assert forall k | 0 <= k < |t| :: t[k] == s[if k < i then k else k + j - i] && t[k] in s;
  }

  /** A new connection gets the next number. */
  method AcceptOne(q: IdleQueue, table: seq<DList?>, now: nat) returns (table': seq<DList?>)
    requires q.Valid() && Indexes(table, q.conns) && Latest(q.conns, now)
    modifies q, q.head, q.conns
    ensures q.Valid() && Indexes(table', q.conns) && Latest(q.conns, now) && |table'| == |table| + 1
    ensures View(q.conns) == old(View(q.conns)) + [Idle(|table|, now)]
    ensures forall n | n in q.conns :: n in old(q.conns) || fresh(n)
  {
    hide IdleQueue.Valid;
    q.DistinctConns();
    var conn := new DList(|table|);
    q.Accept(conn, now);
    table' := table + [conn];
  }

  /** An event moves its connection to the end of the list. */
  method TouchOne(q: IdleQueue, table: seq<DList?>, fd: nat, now: nat)
    requires q.Valid() && Indexes(table, q.conns) && Latest(q.conns, now)
    modifies q, q.head, q.conns
    ensures q.Valid() && Indexes(table, q.conns) && Latest(q.conns, now)
    ensures IsOpen(old(View(q.conns)), fd) ==> View(q.conns) == Without(old(View(q.conns)), fd) + [Idle(fd, now)]
    ensures !IsOpen(old(View(q.conns)), fd) ==> View(q.conns) == old(View(q.conns))
    ensures forall n | n in q.conns :: n in old(q.conns)
  {
    hide IdleQueue.Valid, Sorted, View, Without;
    q.DistinctConns();
    ghost var s := q.conns;
    ghost var i := Place(q, table, fd);
    if fd < |table| && table[fd] != null {
      q.Touch(table[fd], now, i);
      ViewMoved(s, i, now);
    }
  }

  /** conn_destroy() takes a connection off the list and out of the table. */
  method CloseOne(q: IdleQueue, table: seq<DList?>, fd: nat) returns (table': seq<DList?>)
    requires q.Valid() && Indexes(table, q.conns)
    modifies q, q.head, q.conns
    ensures q.Valid() && Indexes(table', q.conns) && |table'| == |table|
    ensures View(q.conns) == Without(old(View(q.conns)), fd)
    ensures forall n | n in q.conns :: n in old(q.conns) && n.lastActive == old(n.lastActive)
  {
    hide IdleQueue.Valid, Sorted, View, Without, IsOpen;
    q.DistinctConns();
    ghost var s := q.conns;
    ghost var i := Place(q, table, fd);
    table' := table;
    if fd < |table| && table[fd] != null {
      q.Remove(table[fd], i);
      table' := table[fd := null];
      ViewCut(s, i, i + 1);
    }
  }

  twostate lemma SurvivorsAreUnexpired(s: seq<DList>, new k: nat, new now: nat)
    requires k <= |s| && old(Survivors(s, s[k..], now))
    requires forall i, j | 0 <= i < j < |s| :: s[i] != s[j]
    ensures |old(View(s))| == |s| && Unexpired(old(View(s)), now) == old(View(s))[..0] + old(View(s))[k..]
  {
    forall i | 0 <= i < |s| ensures old(s[i].lastActive) + IDLE_TIMEOUT < now <==> i < k {
      assert s[i] in s;
      if i >= k {
        assert s[k..][i - k] == s[i];
      } else {
        assert forall j | 0 <= j < |s[k..]| :: s[k..][j] == s[k + j] != s[i];
      }
    }
    UnexpiredIsRest(old(View(s)), k, now);
    assert [] + old(View(s))[k..] == old(View(s))[k..];
  }

  /** The timers destroy the connections that have been idle for too long. */
  method ExpireSome(q: IdleQueue, table: seq<DList?>, now: nat) returns (table': seq<DList?>)
    requires q.Valid() && Indexes(table, q.conns)
    modifies q, q.head, q.conns
    ensures q.Valid() && Indexes(table', q.conns) && |table'| == |table|
    ensures View(q.conns) == Unexpired(old(View(q.conns)), now)
    ensures forall n | n in q.conns :: n in old(q.conns) && n.lastActive == old(n.lastActive)
  {
    hide IdleQueue.Valid, Sorted, View, Survivors, Indexes;
    q.DistinctConns();
    ghost var s := q.conns;
    var gone := q.ExpireIdle(now);
    assert q.conns == s[|gone|..] == s[..0] + s[|gone|..];
    ViewCut(s, 0, |gone|);
    SurvivorsAreUnexpired(s, |gone|, now);
    table' := seq(|table|, fd requires 0 <= fd < |table| => if table[fd] in gone then null else table[fd]);
    OthersIndexed(table, table', s, gone, q.conns);
  }

  lemma OthersIndexed(table: seq<DList?>, table': seq<DList?>, s: seq<DList>, gone: seq<DList?>, rest: seq<DList>)
    requires Indexes(table, s) && |table'| == |table| && |s| == |gone| + |rest|
    requires forall i | 0 <= i < |s| :: s[i] == if i < |gone| then gone[i] else rest[i - |gone|]
    requires forall i, j | 0 <= i < j < |s| :: s[i] != s[j]
    requires forall fd | 0 <= fd < |table| :: table'[fd] == if table[fd] in gone then null else table[fd]
    ensures Indexes(table', rest)
  {
    forall j | 0 <= j < |rest| ensures rest[j] in s && rest[j] !in gone {
      assert s[|gone| + j] == rest[j];
      assert forall i | 0 <= i < |gone| :: s[i] == gone[i];
    }
    forall fd | 0 <= fd < |table'| && table'[fd] != null ensures table'[fd] in rest {
      var i :| 0 <= i < |s| && s[i] == table[fd];
      assert i >= |gone|;
      assert rest[i - |gone|] == table[fd];
    }
  }

  /** One happening at the server. */
  method Handle(q: IdleQueue, table: seq<DList?>, h: Happening, delay: nat, before: nat) returns (table': seq<DList?>)
    requires q.Valid() && Indexes(table, q.conns) && Latest(q.conns, before)
    modifies q, q.head, q.conns
    ensures q.Valid() && Indexes(table', q.conns) && Latest(q.conns, before + delay)
    ensures Clients(View(q.conns), |table'|, before + delay)
         == After(Clients(old(View(q.conns)), |table|, before), h, delay)
    ensures forall n | n in q.conns :: n in old(q.conns) || fresh(n)
  {
    hide IdleQueue.Valid, View, Without, Unexpired, IsOpen;
    table' := table;
    match h
    case Accepted => table' := AcceptOne(q, table, before + delay);
    case Active(fd) => TouchOne(q, table, fd, before + delay);
    case Closed(fd) => table' := CloseOne(q, table, fd);
    case Timers => table' := ExpireSome(q, table, before + delay);
  }

  /**
   Over every run under a monotone clock: the list is a circle of exactly the open connections, in the order of their
   last activity, and the table leads to each of them.
   */
  method Run(happenings: seq<Happening>, delays: seq<nat>) returns (q: IdleQueue, table: seq<DList?>, now: nat)
    requires |delays| == |happenings|
    ensures q.Valid() && Indexes(table, q.conns) && Latest(q.conns, now)
    ensures Clients(View(q.conns), |table|, now) == Meaning(happenings, delays)
  {
    hide IdleQueue.Valid, View, After;
    q := new IdleQueue();
    table, now := [], 0;
    NoView();
    for i := 0 to |happenings|
      invariant q.Valid() && Indexes(table, q.conns) && Latest(q.conns, now)
      invariant Clients(View(q.conns), |table|, now) == Meaning(happenings[..i], delays[..i])
      invariant fresh(q) && fresh(q.head) && forall k | 0 <= k < |q.conns| :: fresh(q.conns[k])
    {
      assert forall n | n in q.conns :: fresh(n);
      table := Handle(q, table, happenings[i], delays[i], now);
      assert forall k | 0 <= k < |q.conns| :: q.conns[k] in q.conns;
      now := now + delays[i];
      MeaningOfMore(happenings, delays, i);
    }
    assert happenings[..|happenings|] == happenings && delays[..|delays|] == delays;
  }

  lemma NoView()
    ensures View([]) == []
  {
  }
}
