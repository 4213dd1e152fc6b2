/** main.cc: the event loop, with any number of connections to one application. */
module Servers {
  import opened Buffers
  import opened Semantics
  import opened Databases
  import opened Dispatching
  import opened Histories
  import opened Applications
  import opened Serving
  import opened Conns

  /** A connection is accepted, has a turn, or is dropped for being idle; or the timers of the keys are processed. */
  datatype Happening = Accept | Turn(c: nat, turnout: Turnout) | Drop(c: nat) | Timers

  /** All connections ever accepted, and what the application has done so far. */
  datatype Moment = Moment(conns: seq<Snapshot>, events: seq<Event>)

  /** The connection is there and open. */
  predicate IsOpen(conns: seq<Snapshot>, c: nat) {
    c < |conns| && conns[c].open
  }

  /** One happening; a turn adds the same events to the application and to its own connection alone. */
  ghost predicate Happens(m: Moment, h: Happening, m': Moment, world: nat -> World) {
    match h
    case Accept => m' == m.(conns := m.conns + [NEWCOMER])
    case Turn(c, t) =>
      if IsOpen(m.conns, c) then
        && |m'.conns| == |m.conns| && m'.conns == m.conns[c := m'.conns[c]] && Turns(m.conns[c], t, m'.conns[c])
        && m'.events == m.events + m'.conns[c].served[|m.conns[c].served|..]
      else m' == m
    case Drop(c) =>
      if IsOpen(m.conns, c) then m' == m.(conns := m.conns[c := m.conns[c].(open := false)]) else m' == m
    case Timers => m' == m.(events := m.events + [Pass(world(|m.events|).now)])
  }

  /**
   The end of a run in the midst of a turn: some of the requests have been executed when a length is too large, and
   die() ends the process, or when a set has 2^32 members.
   */
  ghost predicate Ends(s: Snapshot, t: Turnout, more: seq<Event>, last: State, num: Numbers) {
    && t.readable && s.interestRead && t.r.Data?
    && var p := RequestsOf(s.received + t.r.data);
       var k := |s.served| + |more|;
       && k <= |p.cmds| && Executed(p.cmds[..k], s.served + more, num)
       && (!AllCountable(last) || (k == |p.cmds| && p.status == Dead))
  }

  ghost predicate EndsIn(m: Moment, h: Happening, events: seq<Event>, last: State, num: Numbers) {
    && m.events <= events && h.Turn? && IsOpen(m.conns, h.c)
    && Ends(m.conns[h.c], h.turnout, events[|m.events|..], last, num)
  }

  // ---- the connections of the server ----

  ghost predicate Separate(a: Conn, b: Conn) {
    a != b && {a.incoming, a.outgoing} !! {b.incoming, b.outgoing}
  }

  /** A connection between two turns. */
  ghost predicate Settled(conn: Conn, app: App)
    reads conn, conn.incoming, conn.outgoing, app, app.d
  {
    && conn.Valid() && conn.Apart(app) && !conn.dead && conn.UpToDate() && Healthy(conn.Now(), app.num)
    && (!conn.closed ==> !conn.wantClose)
  }

  ghost predicate AllSettled(conns: seq<Conn>, app: App)
    reads conns, (set c | c in conns :: c.incoming), (set c | c in conns :: c.outgoing), app, app.d
  {
    && (forall i | 0 <= i < |conns| :: Settled(conns[i], app))
    && forall i, j | 0 <= i < j < |conns| :: Separate(conns[i], conns[j])
  }

  ghost function Views(conns: seq<Conn>): seq<Snapshot>
    requires forall i | 0 <= i < |conns| :: conns[i].Valid()
    reads conns, (set c | c in conns :: c.incoming), (set c | c in conns :: c.outgoing)
  {
    seq(|conns|, i requires 0 <= i < |conns| && conns[i].Valid()
        reads conns, (set c | c in conns :: c.incoming), (set c | c in conns :: c.outgoing) => conns[i].Now())
  }

  /** The turn of one connection leaves the others alone. */
  method OneTurn(conns: seq<Conn>, c: nat, t: Turnout, app: App) returns (ended: bool)
    requires app.Valid() && AllSettled(conns, app) && c < |conns| && !conns[c].closed
    requires t.r.Data? ==> 0 < |t.r.data| <= READ_SIZE
    modifies conns[c], conns[c].incoming, conns[c].outgoing, app`count, app`events, app`states, app.d.repr
    ensures app.Valid() && fresh(app.d.repr - old(app.d.repr)) && old(app.events) <= app.events
    ensures ended ==> Ends(old(conns[c].Now()), t, app.events[|old(app.events)|..], app.states[app.count], app.num)
    ensures !ended ==> AllSettled(conns, app) && Turns(old(conns[c].Now()), t, conns[c].Now())
    ensures !ended ==> Views(conns) == old(Views(conns))[c := conns[c].Now()]
    ensures conns[c].served == old(conns[c].served) + app.events[|old(app.events)|..]
  {
    hide Database.Owned, Steps, AllCountable, RequestsOf, Healthy, Turns, Executed, Ends;
    ghost var s := conns[c].Now();
    conns[c].HandleEvent(app, t);
    ended := conns[c].dead;
    if ended {
      StoppedEnds(conns[c], s, t, app.events[|old(app.events)|..], app);
    }
  }

  lemma StoppedEnds(conn: Conn, s: Snapshot, t: Turnout, more: seq<Event>, app: App)
    requires app.Valid() && t.readable && s.interestRead && t.r.Data? && conn.received == s.received + t.r.data
    requires conn.Stopped(RequestsOf(conn.received), app.states[app.count])
    requires Executed(conn.executed, conn.served, app.num) && conn.served == s.served + more
    ensures Ends(s, t, more, app.states[app.count], app.num)
  {
    hide Database.Owned, Steps, AllCountable, RequestsOf, Dispatch;
    var p := RequestsOf(conn.received);
    assert p.cmds[..|conn.executed|] == conn.executed;
  }

  /** A new connection joins the others. */
  method OneMore(conns: seq<Conn>, app: App) returns (all: seq<Conn>)
    requires app.Valid() && AllSettled(conns, app)
    ensures app.Valid() && AllSettled(all, app) && |all| == |conns| + 1 && all == conns + [all[|conns|]]
    ensures fresh(all[|conns|]) && fresh(all[|conns|].incoming) && fresh(all[|conns|].outgoing)
    ensures Views(all) == old(Views(conns)) + [NEWCOMER]
  {
    hide Database.Owned, Steps, AllCountable, Healthy, Settled;
    var conn := new Conn();
    NewIsSettled(conn, app);
    all := conns + [conn];
  }

  lemma NewIsSettled(conn: Conn, app: App)
    requires conn.Valid() && conn.Apart(app) && conn.Now() == NEWCOMER && conn.incoming.Unread() == []
    requires !conn.wantClose && !conn.dead && conn.executed == []
    ensures Settled(conn, app)
  {
  }

  /** conn_destroy() of an idle connection */
  method OneLess(conn: Conn, ghost conns: seq<Conn>, ghost c: nat, app: App)
    requires app.Valid() && AllSettled(conns, app) && c < |conns| && conns[c] == conn
    modifies conn`closed
    ensures app.Valid() && AllSettled(conns, app)
    ensures Views(conns) == old(Views(conns))[c := old(conn.Now()).(open := false)]
  {
    hide Database.Owned, Steps, AllCountable, RequestsOf, Answered;
    StillHealthy(conn.Now(), app.num);
    conn.closed := true;
    assert conn.Now() == old(conn.Now()).(open := false);
  }

  lemma StillHealthy(s: Snapshot, num: Numbers)
    requires Healthy(s, num)
    ensures Healthy(s.(open := false), num)
  {
    hide Executed;
  }

  /** The timers of the keys do not touch the connections. */
  method Tick(ghost conns: seq<Conn>, app: App)
    requires app.Valid() && AllSettled(conns, app)
    modifies app`count, app`events, app`states, app.d.repr
    ensures app.Valid() && fresh(app.d.repr - old(app.d.repr)) && AllSettled(conns, app)
    ensures app.events == old(app.events) + [Pass(app.world(old(app.count)).now)] && Views(conns) == old(Views(conns))
  {
    hide Database.Owned, Steps, AllCountable, Healthy;
    app.ExpireKeys();
  }

  lemma ViewsOf(conns: seq<Conn>, app: App)
    requires AllSettled(conns, app)
    ensures forall i | 0 <= i < |conns| :: conns[i].Valid() && conns[i].dead == false
    ensures |Views(conns)| == |conns| && forall i | 0 <= i < |conns| :: Views(conns)[i] == conns[i].Now()
  {
    hide Healthy;
  }

  /** Everything that belongs to the connections. */
  ghost function Objects(conns: seq<Conn>): set<object> {
    (set c: Conn | c in conns :: c as object)
    + (set c: Conn | c in conns :: c.incoming as object) + (set c: Conn | c in conns :: c.outgoing as object)
  }

  lemma JoinedObjects(conns: seq<Conn>, conn: Conn)
    ensures Objects(conns + [conn]) <= Objects(conns) + {conn, conn.incoming, conn.outgoing}
  {
    forall o | o in Objects(conns + [conn]) ensures o in Objects(conns) + {conn, conn.incoming, conn.outgoing} {
      var c: Conn :| c in conns + [conn] && (o == c || o == c.incoming || o == c.outgoing);
      assert c in conns || c == conn;
    }
  }

  lemma InObjects(conns: seq<Conn>)
    ensures forall i | 0 <= i < |conns| ::
              conns[i] in Objects(conns) && conns[i].incoming in Objects(conns) && conns[i].outgoing in Objects(conns)
  {
    assert forall i | 0 <= i < |conns| :: conns[i] in conns;
  }

  /** One happening at the server. */
  method Handle(conns: seq<Conn>, h: Happening, app: App) returns (all: seq<Conn>, ended: bool)
    requires app.Valid() && AllSettled(conns, app)
    requires h.Turn? && h.turnout.r.Data? ==> 0 < |h.turnout.r.data| <= READ_SIZE
    modifies Objects(conns), app`count, app`events, app`states, app.d.repr
    ensures app.Valid() && fresh(app.d.repr - old(app.d.repr)) && old(app.events) <= app.events
    ensures fresh(Objects(all) - Objects(conns))
    ensures ended ==>
              EndsIn(Moment(old(Views(conns)), old(app.events)), h, app.events, app.states[app.count], app.num)
    ensures !ended ==> AllSettled(all, app)
    ensures !ended ==> Happens(Moment(old(Views(conns)), old(app.events)), h, Moment(Views(all), app.events), app.world)
  {
    hide Database.Owned, Steps, AllCountable, RequestsOf, Healthy, Turns, Views, AllSettled, Objects, Ends;
    ViewsOf(conns, app);
    InObjects(conns);
    all, ended := conns, false;
    match h
    case Accept =>
      all := OneMore(conns, app);
      JoinedObjects(conns, all[|conns|]);
    case Turn(c, t) =>
      if c < |conns| && !conns[c].closed {
        ended := OneTurn(conns, c, t, app);
      }
    case Drop(c) =>
      if c < |conns| && !conns[c].closed {
        OneLess(conns[c], conns, c, app);
      }
    case Timers =>
      Tick(conns, app);
  }

  /** The moments of a run, from nothing on. */
  ghost predicate IsRun(trace: seq<Moment>, happenings: seq<Happening>, num: Numbers, world: nat -> World) {
    && 0 < |trace| <= |happenings| + 1 && trace[0] == Moment([], [])
    && (forall i | 0 <= i < |trace| - 1 :: Happens(trace[i], happenings[i], trace[i + 1], world))
    && forall i | 0 <= i < |trace| :: AllHealthy(trace[i].conns, num)
  }

  ghost predicate AllHealthy(conns: seq<Snapshot>, num: Numbers) {
    forall c | 0 <= c < |conns| :: Healthy(conns[c], num)
  }

  lemma RunGrows(trace: seq<Moment>, happenings: seq<Happening>, num: Numbers, world: nat -> World, m: Moment)
    requires IsRun(trace, happenings, num, world) && |trace| <= |happenings|
    requires Happens(trace[|trace| - 1], happenings[|trace| - 1], m, world) && AllHealthy(m.conns, num)
    ensures IsRun(trace + [m], happenings, num, world)
  {
    hide Happens, AllHealthy;
  }

  lemma SettledIsHealthy(conns: seq<Conn>, app: App)
    requires AllSettled(conns, app)
    ensures (forall i | 0 <= i < |conns| :: conns[i].Valid()) && AllHealthy(Views(conns), app.num)
  {
    hide Healthy;
  }

  /**
   Over every run of the server, whatever epoll, the sockets and the clock do, until the process dies or some set has
   2^32 members: in every moment every connection has been answered, and wants and waits for the right thing while it is
   open; the application has handled the requests of all connections and the timers, in the order of the run.
   */
  method Run(happenings: seq<Happening>, num: Numbers, world: nat -> World)
    returns (app: App, conns: seq<Conn>, ghost trace: seq<Moment>)
    requires forall h | h in happenings && h.Turn? && h.turnout.r.Data? :: 0 < |h.turnout.r.data| <= READ_SIZE
    ensures app.Valid() && app.num == num && app.world == world && IsRun(trace, happenings, num, world)
    ensures trace[|trace| - 1].events <= app.events && IsTrace(app.states, app.events)
    ensures |trace| <= |happenings| ==>
              EndsIn(trace[|trace| - 1], happenings[|trace| - 1], app.events, app.states[app.count], num)
    ensures |trace| == |happenings| + 1 ==> forall i | 0 <= i < |conns| :: conns[i].Valid()
    ensures |trace| == |happenings| + 1 ==> trace[|happenings|] == Moment(Views(conns), app.events)
  {
    hide Database.Owned, Steps, AllCountable, RequestsOf, Healthy, Happens, Views, AllSettled, Objects, AllHealthy;
    hide EndsIn;
    app := new App(num, world);
    conns := [];
    NoConns(app);
    trace := [Moment([], [])];
    var n := 0;
    var ended := false;
    while n < |happenings| && !ended
      invariant app.Valid() && app.num == num && app.world == world && fresh(app) && fresh(app.d.repr)
      invariant fresh(Objects(conns)) && n <= |happenings| && |trace| == n + 1 && IsRun(trace, happenings, num, world)
      invariant trace[n].events <= app.events
      invariant ended ==>
                  n < |happenings| && EndsIn(trace[n], happenings[n], app.events, app.states[app.count], num)
      invariant !ended ==> AllSettled(conns, app)
      invariant !ended ==> forall i | 0 <= i < |conns| :: conns[i].Valid()
      invariant !ended ==> trace[n] == Moment(Views(conns), app.events)
      decreases |happenings| - n, !ended
    {
      assert happenings[n] in happenings;
      label before:
      var all;
      all, ended := Handle(conns, happenings[n], app);
      forall o | o in Objects(all) ensures fresh(o) {
        if o !in Objects(conns) {
          assert o in Objects(all) - Objects(conns) && fresh@before(o);
        }
      }
      conns := all;
      if !ended {
        SettledIsHealthy(conns, app);
        ghost var m := Moment(Views(conns), app.events);
        RunGrows(trace, happenings, num, world, m);
        trace := trace + [m];
        n := n + 1;
      }
    }
  }

  lemma NoConns(app: App)
    ensures AllSettled([], app) && Views([]) == [] && Objects([]) == {} && AllHealthy([], app.num)
  {
  }
}
