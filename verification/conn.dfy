/** conn.cc and the event loop of main.cc: one connection under any outcome of its reads and writes. */
module Conns {
  import opened Pairs
  import opened Buffers
  import opened Wire
  import opened Tlv
  import opened Requests
  import opened Semantics
  import opened Databases
  import opened Dispatching
  import opened Histories
  import opened Applications
  import opened Serving

  /** What read() and write() may come back with. */
  datatype ReadResult = ReadAgain | ReadError | Eof | Data(data: Bytes)
  datatype WriteResult = WriteAgain | WriteError | Wrote(n: nat)

  /** What epoll and the socket may do in one turn of the event loop. */
  datatype Turnout = Turnout(readable: bool, writable: bool, hangup: bool, r: ReadResult, w: WriteResult)

  /** The buffer handed to read() */
  const READ_SIZE: nat := 64 * 1024

  // ---- what a turn means ----

  /** A connection at one moment; `served` are the events of the application that it has caused. */
  datatype Snapshot = Snapshot(received: Bytes, sent: Bytes, pending: Bytes, wantRead: bool, wantWrite: bool,
                               interestRead: bool, interestWrite: bool, served: seq<Event>, open: bool)

  const NEWCOMER := Snapshot([], [], [], true, false, true, false, [], true)

  /** An open connection wants to write exactly when something is pending, and to read otherwise; epoll knows. */
  ghost predicate Consistent(s: Snapshot) {
    && (s.wantWrite <==> s.pending != []) && s.wantRead == !s.wantWrite
    && s.interestRead == s.wantRead && s.interestWrite == s.wantWrite
  }

  /** The frames that answer the events. */
  ghost function Frames(served: seq<Event>): Bytes {
    if served == [] then []
    else
      var last := served[|served| - 1];
      Frames(served[..|served| - 1]) + if last.Do? then Frame(Limited(Encode(last.reply))) else []
  }

  lemma {:induction false} FramesOfMore(a: seq<Event>, b: seq<Event>)
    ensures Frames(a + b) == Frames(a) + Frames(b)
    decreases |b|
  {
    hide Encode, Frame, Limited;
    if b == [] {
      assert a + b == a;
    } else {
      FramesOfMore(a, b[..|b| - 1]);
      assert (a + b)[..|a + b| - 1] == a + b[..|b| - 1];
    }
  }

  /** The events are the execution of the commands. */
  ghost predicate Executed(cmds: seq<Args>, served: seq<Event>, num: Numbers) {
    |cmds| == |served| && forall i | 0 <= i < |cmds| :: served[i].Do? && served[i].cmd == Dispatch(cmds[i], num)
  }

  lemma ExecutedMore(cmds: seq<Args>, served: seq<Event>, num: Numbers, cmd: Args, event: Event)
    requires Executed(cmds, served, num) && event.Do? && event.cmd == Dispatch(cmd, num)
    ensures Executed(cmds + [cmd], served + [event], num)
  {
    hide Dispatch;
  }

  lemma FramesOfOne(served: seq<Event>, event: Event)
    requires event.Do?
    ensures Frames(served + [event]) == Frames(served) + Frame(Limited(Encode(event.reply)))
  {
    hide Encode, Frame, Limited;
    assert (served + [event])[..|served|] == served;
  }

  /** All requests received have been executed, and what was sent or is pending are the frames that answer them. */
  ghost predicate Answered(s: Snapshot, num: Numbers) {
    Executed(RequestsOf(s.received).cmds, s.served, num) && s.sent + s.pending == Frames(s.served)
  }

  /** What always holds of a connection. */
  ghost predicate Healthy(s: Snapshot, num: Numbers) {
    && Answered(s, num) && RequestsOf(s.received).status != Dead
    && (s.open ==> Consistent(s) && RequestsOf(s.received).status == Waiting)
  }

  /** write() is offered all of the pending bytes, or is not called. */
  ghost predicate Sends(all: Bytes, offered: bool, w: WriteResult, sent: Bytes, sent': Bytes, pending': Bytes) {
    var n := if offered && w.Wrote? then Min(w.n, |all|) else 0;
    sent' == sent + all[..n] && pending' == all[n..]
  }

  lemma NothingLost(all: Bytes, offered: bool, w: WriteResult, sent: Bytes, sent': Bytes, pending': Bytes)
    requires Sends(all, offered, w, sent, sent', pending')
    ensures sent' + pending' == sent + all
  {
  }

  lemma NothingSent(pending: Bytes, served: seq<Event>, w: WriteResult, sent: Bytes)
    ensures served[|served|..] == [] && Sends(pending + Frames([]), false, w, sent, sent, pending)
  {
  }

  /** All that write() can be offered during a turn. */
  ghost function Outgoing(s: Snapshot, s': Snapshot): Bytes
    requires s.served <= s'.served
  {
    s.pending + Frames(s'.served[|s.served|..])
  }

  /** write() is called when epoll reports so, or right after a read that leaves something to send. */
  ghost predicate Offers(s: Snapshot, t: Turnout, s': Snapshot)
    requires s.served <= s'.served
  {
    || (t.writable && s.interestWrite)
    || (t.readable && s.interestRead && t.r.Data? && Outgoing(s, s') != [])
  }

  /** What a turn of the event loop receives and sends. */
  ghost predicate Exchanges(s: Snapshot, t: Turnout, s': Snapshot) {
    && s.served <= s'.served
    && s'.received == s.received + (if t.readable && s.interestRead && t.r.Data? then t.r.data else [])
    && Sends(Outgoing(s, s'), Offers(s, t, s'), t.w, s.sent, s'.sent, s'.pending)
  }

  /** What makes the server close a connection: an error, the end of the stream, or a bad request. */
  ghost predicate Closes(s: Snapshot, t: Turnout, s': Snapshot)
    requires s.served <= s'.served
  {
    || (Offers(s, t, s') && t.w.WriteError?)
    || (t.readable && s.interestRead && (t.r.ReadError? || t.r.Eof?))
    || RequestsOf(s'.received).status != Waiting
  }

  /** What a turn of the event loop makes of an open connection. */
  ghost predicate Turns(s: Snapshot, t: Turnout, s': Snapshot) {
    Exchanges(s, t, s') && (s'.open <==> !t.hangup && !Closes(s, t, s'))
  }

  class Conn {
    const incoming: Buffer
    const outgoing: Buffer
    var wantRead: bool
    var wantWrite: bool
    var wantClose: bool
    /** What epoll has been told: EPOLLIN and EPOLLOUT. */
    var interestRead: bool
    var interestWrite: bool
    /** conn_destroy() has been called. */
    var closed: bool
    /** die() has ended the whole process, or a set has outgrown what the server can be followed with. */
    var dead: bool
    /** All bytes received and sent, the requests executed, and the events they were for the application. */
    ghost var received: Bytes
    ghost var sent: Bytes
    ghost var executed: seq<Args>
    ghost var served: seq<Event>

    ghost predicate Valid()
      reads incoming, outgoing
    {
      incoming != outgoing && incoming.Valid() && Ready(outgoing) && outgoing.Offsets() == []
    }

    ghost predicate Apart(app: App)
      reads app, app.d
    {
      this !in app.d.repr && incoming !in app.d.repr && outgoing !in app.d.repr
    }

    ghost function Now(): Snapshot
      requires Valid()
      reads this, incoming, outgoing
    {
      Snapshot(received, sent, outgoing.Unread(), wantRead, wantWrite, interestRead, interestWrite, served, !closed)
    }

    /** The requests executed so far have been answered. */
    ghost predicate InStep(num: Numbers)
      requires Valid()
      reads this, incoming, outgoing
    {
      Executed(executed, served, num) && sent + outgoing.Unread() == Frames(served)
    }

    /** All requests received have been executed, and the rest waits in `incoming`. */
    ghost predicate UpToDate()
      requires Valid()
      reads this, incoming, outgoing
    {
      var p := RequestsOf(received);
      executed == p.cmds && incoming.Unread() == p.rest && p.status != Dead
    }

    /** The server has stopped behind some of the requests: at a length that is too large, or at a set that is. */
    ghost predicate Stopped(p: Requested, s: State)
      reads `executed
    {
      executed <= p.cmds && (!AllCountable(s) || (executed == p.cmds && p.status == Dead))
    }

    /** handle_accept() */
    constructor ()
      ensures Valid() && fresh(incoming) && fresh(outgoing) && Now() == NEWCOMER && incoming.Unread() == []
      ensures !wantClose && !dead && executed == []
    {
      incoming := new Buffer(4096);
      outgoing := new Buffer(4096);
      wantRead, wantWrite, wantClose := true, false, false;
      interestRead, interestWrite := true, false;
      closed, dead := false, false;
      received, sent, executed, served := [], [], [], [];
    }

    /** epoll_update_interest(), when epoll_ctl() succeeds. */
    method UpdateInterest()
      modifies `interestRead, `interestWrite
      ensures interestRead == wantRead && interestWrite == wantWrite
    {
      interestRead, interestWrite := wantRead, wantWrite;
    }

    /** do_request_and_make_response() between response_begin() and response_end() */
    method Respond(app: App, args: Args)
      requires Valid() && app.Valid() && Apart(app) && AllCountable(app.states[app.count])
      modifies `executed, `served, outgoing, app`count, app`events, app`states, app.d.repr
      ensures Valid() && app.Valid() && Apart(app) && fresh(app.d.repr - old(app.d.repr))
      ensures |app.events| == |old(app.events)| + 1 && old(app.events) <= app.events
      ensures var event := app.events[|old(app.events)|];
              && event.Do? && event.cmd == Dispatch(args, app.num)
              && executed == old(executed) + [args] && served == old(served) + [event]
              && outgoing.Unread() == old(outgoing.Unread()) + Frame(Limited(Encode(event.reply)))
    {
      hide Encode, U32, Frame, Limited, Database.Owned, Steps, Dispatch, AllCountable;
      WordOfBytes(0);
      ghost var before := outgoing.Unread();
      ghost var at := ResponseBegin(outgoing);
      ghost var reply := app.Respond(args, outgoing);
      assert outgoing.Unread()[..at] == before && outgoing.Unread()[at + 4..] == Encode(reply);
      ResponseEnd(outgoing, at);
      executed, served := executed + [args], served + [app.events[|app.events| - 1]];
    }

    /** try_process_one_request(): false stands for "want read" and "want close" alike; die() does not return. */
    method TryProcessOneRequest(app: App) returns (more: bool)
      requires Valid() && app.Valid() && Apart(app)
      modifies `wantClose, `dead, `executed, `served, incoming, outgoing
      modifies app`count, app`events, app`states, app.d.repr
      ensures Valid() && app.Valid() && Apart(app) && fresh(app.d.repr - old(app.d.repr))
      ensures var t := TakeTurn(old(incoming.Unread()));
              if t.Next? && old(AllCountable(app.states[app.count])) then
                && more && |app.events| == |old(app.events)| + 1 && old(app.events) <= app.events
                && var event := app.events[|old(app.events)|];
                && event.Do? && event.cmd == Dispatch(t.cmd, app.num)
                && executed == old(executed) + [t.cmd] && served == old(served) + [event]
                && outgoing.Unread() == old(outgoing.Unread()) + Frame(Limited(Encode(event.reply)))
                && incoming.Unread() == old(incoming.Unread())[t.size..]
                && wantClose == old(wantClose) && dead == old(dead)
              else
                && !more && app.events == old(app.events) && app.states == old(app.states)
                && executed == old(executed) && served == old(served)
                && outgoing.Unread() == old(outgoing.Unread()) && incoming.Unread() == old(incoming.Unread())
                && wantClose == (old(wantClose) || t == Stop(Closing))
                && dead == (old(dead) || t == Stop(Dead) || t.Next?)
    {
      hide Encode, U32, Frame, Limited, Parse, WordAt, Database.Owned, Steps, Dispatch, AllCountable, Requests.Sendable;
      more := false;
      if incoming.ReadableSize() < 4 {
        return;
      }
      var unread := incoming.buf[incoming.readableBegin..incoming.writableBegin];
      var len := WordAt(unread, 0);
      if len > MAX_MSG {
        dead := true;
        return;
      }
      if 4 + len > incoming.ReadableSize() {
        return;
      }
      var p := ParseReq(unread[4..4 + len]);
      if p.Refused? {
        wantClose := true;
        return;
      }
      var ok := app.IsCountable();
      if !ok {
        dead := true;
        return;
      }
      Respond(app, p.cmd);
      incoming.Consume(4 + len);
      more := true;
    }

    /** What is left to do is the rest of p. */
    ghost predicate Amounts(p: Requested)
      requires Valid()
      reads this, incoming, outgoing
    {
      var q := RequestsOf(incoming.Unread());
      executed + q.cmds == p.cmds && q.rest == p.rest && q.status == p.status
    }

    /** while (try_process_one_request(conn)) {} */
    method ProcessAll(app: App, ghost p: Requested)
      requires Valid() && app.Valid() && Apart(app) && Amounts(p) && InStep(app.num) && !wantClose && !dead
      modifies `wantClose, `dead, `executed, `served, incoming, outgoing
      modifies app`count, app`events, app`states, app.d.repr
      ensures Valid() && app.Valid() && Apart(app) && fresh(app.d.repr - old(app.d.repr)) && InStep(app.num)
      ensures old(app.events) <= app.events && served == old(served) + app.events[|old(app.events)|..]
      ensures dead ==> Stopped(p, app.states[app.count])
      ensures !dead ==> executed == p.cmds && incoming.Unread() == p.rest && wantClose == (p.status == Closing)
      ensures !dead ==> p.status != Dead
    {
      hide TakeTurn, RequestsOf, Executed, Frames, Database.Owned, Steps, Dispatch, AllCountable, Encode, Frame;
      hide Limited;
      var more := true;
      while more
        invariant Valid() && app.Valid() && Apart(app) && fresh(app.d.repr - old(app.d.repr)) && InStep(app.num)
        invariant old(app.events) <= app.events && served == old(served) + app.events[|old(app.events)|..]
        invariant more ==> Amounts(p) && !wantClose && !dead
        invariant dead ==> Stopped(p, app.states[app.count])
        invariant !more && !dead ==>
                    && executed == p.cmds && incoming.Unread() == p.rest && wantClose == (p.status == Closing)
                    && p.status != Dead
        decreases more, |incoming.Unread()|
      {
        more := ProcessOne(app, p);
      }
    }

    /** One round of the loop. */
    method ProcessOne(app: App, ghost p: Requested) returns (more: bool)
      requires Valid() && app.Valid() && Apart(app) && Amounts(p) && InStep(app.num) && !wantClose && !dead
      modifies `wantClose, `dead, `executed, `served, incoming, outgoing
      modifies app`count, app`events, app`states, app.d.repr
      ensures Valid() && app.Valid() && Apart(app) && fresh(app.d.repr - old(app.d.repr)) && InStep(app.num)
      ensures old(app.events) <= app.events && served == old(served) + app.events[|old(app.events)|..]
      ensures more ==> Amounts(p) && !wantClose && !dead && |incoming.Unread()| < old(|incoming.Unread()|)
      ensures dead ==> !more && Stopped(p, app.states[app.count])
      ensures !more && !dead ==>
                && executed == p.cmds && incoming.Unread() == p.rest && wantClose == (p.status == Closing)
                && p.status != Dead
    {
      hide TakeTurn, RequestsOf, Executed, Frames, Database.Owned, Steps, Dispatch, AllCountable, Encode, Frame;
      hide Limited;
      ghost var before, unread := outgoing.Unread(), incoming.Unread();
      ghost var t := TakeTurn(unread);
      RequestsTurn(unread);
      more := TryProcessOneRequest(app);
      if more {
        ghost var event := app.events[|old(app.events)|];
        ExecutedMore(old(executed), old(served), app.num, t.cmd, event);
        FramesOfOne(old(served), event);
        ghost var frame := Frame(Limited(Encode(event.reply)));
        assert sent + (before + frame) == sent + before + frame;
        assert app.events[|old(app.events)|..] == [event];
        assert old(executed) + ([t.cmd] + RequestsOf(unread[t.size..]).cmds) == executed
               + RequestsOf(unread[t.size..]).cmds;
      } else {
        assert app.events[|old(app.events)|..] == [];
        assert executed + [] == executed;
      }
    }

    /** The end of handle_read(): memory that is no longer needed is given back. */
    method ShrinkIncoming()
      requires Valid()
      modifies incoming
      ensures Valid() && incoming.Unread() == old(incoming.Unread())
    {
      var unread := incoming.ReadableSize();
      if unread == 0 {
        incoming.ShrinkIfWasteful(4096);
      } else if |incoming.buf| > 0x10_0000 && unread < |incoming.buf| / 8 && unread < 4096 {
        incoming.ShrinkIfWasteful(4096);
      }
    }

    /** The part of handle_read() that takes new bytes in and executes what is complete. */
    method TakeIn(app: App, data: Bytes)
      requires Valid() && app.Valid() && Apart(app) && InStep(app.num) && UpToDate() && !wantClose && !dead
      requires RequestsOf(received).status == Waiting
      modifies `wantClose, `dead, `received, `executed, `served, incoming, outgoing
      modifies app`count, app`events, app`states, app.d.repr
      ensures Valid() && app.Valid() && Apart(app) && fresh(app.d.repr - old(app.d.repr)) && InStep(app.num)
      ensures old(app.events) <= app.events && served == old(served) + app.events[|old(app.events)|..]
      ensures received == old(received) + data
      ensures outgoing.Unread() == old(outgoing.Unread()) + Frames(served[|old(served)|..])
      ensures dead ==> Stopped(RequestsOf(received), app.states[app.count])
      ensures !dead ==> UpToDate() && wantClose == (RequestsOf(received).status != Waiting)
    {
      hide TakeTurn, RequestsOf, Executed, Frames, Database.Owned, Steps, AllCountable;
      RequestsInPortions(received, data);
      ghost var p := RequestsOf(received + data);
      ghost var s := served;
      incoming.Append(data);
      received := received + data;
      ProcessAll(app, p);
      ShrinkIncoming();
      FramesOfMore(s, served[|s|..]);
      assert s + served[|s|..] == served;
      Cancel(sent, outgoing.Unread(), old(outgoing.Unread()) + Frames(served[|s|..]));
    }

    /** handle_write(): there is something to write, as asserted. */
    method HandleWrite(w: WriteResult)
      requires Valid() && outgoing.Unread() != [] && wantWrite && !wantRead
      modifies `wantRead, `wantWrite, `wantClose, `interestRead, `interestWrite, `sent, outgoing
      ensures Valid()
      ensures Sends(old(outgoing.Unread()), true, w, old(sent), sent, outgoing.Unread())
      ensures wantClose == (old(wantClose) || w.WriteError?) && (!w.WriteError? ==> Consistent(Now()))
    {
      match w
      case WriteAgain => UpdateInterest();
      case WriteError => wantClose := true;
      case Wrote(size) =>
        var n := Min(size, outgoing.ReadableSize());
        sent := sent + outgoing.Unread()[..n];
        outgoing.Consume(n);
        if outgoing.ReadableSize() == 0 {
          wantWrite, wantRead := false, true;
          outgoing.ShrinkIfWasteful(0x10_0000);
        }
        UpdateInterest();
    }

    /** The end of handle_read(): what is pending is written at once, without another turn of the event loop. */
    method SendSoon(w: WriteResult)
      requires Valid() && wantRead && !wantWrite
      modifies `wantRead, `wantWrite, `wantClose, `interestRead, `interestWrite, `sent, outgoing
      ensures Valid() && sent + outgoing.Unread() == old(sent + outgoing.Unread())
      ensures var all := old(outgoing.Unread());
              && Sends(all, all != [], w, old(sent), sent, outgoing.Unread())
              && wantClose == (old(wantClose) || (all != [] && w.WriteError?))
      ensures wantClose || Consistent(Now())
    {
      hide Sends;
      ghost var out, all := sent, outgoing.Unread();
      if outgoing.ReadableSize() > 0 {
        wantRead, wantWrite := false, true;
        HandleWrite(w);
        NothingLost(all, true, w, out, sent, outgoing.Unread());
      } else {
        UpdateInterest();
        NothingOffered(w, out);
      }
    }

    /** handle_read() on new bytes, which may go on with handle_write() at once. */
    method HandleData(app: App, data: Bytes, w: WriteResult)
      requires Valid() && app.Valid() && Apart(app) && InStep(app.num) && UpToDate() && !wantClose && !dead
      requires RequestsOf(received).status == Waiting && Consistent(Now()) && wantRead
      modifies this, incoming, outgoing, app`count, app`events, app`states, app.d.repr
      ensures Valid() && app.Valid() && Apart(app) && fresh(app.d.repr - old(app.d.repr)) && closed == old(closed)
      ensures old(app.events) <= app.events && served == old(served) + app.events[|old(app.events)|..]
      ensures received == old(received) + data
      ensures dead ==> Stopped(RequestsOf(received), app.states[app.count])
      ensures InStep(app.num) && (!dead ==> UpToDate() && (!wantClose ==> Consistent(Now())))
      ensures !dead ==>
                var all := old(outgoing.Unread()) + Frames(served[|old(served)|..]);
                && Sends(all, all != [], w, old(sent), sent, outgoing.Unread())
                && wantClose == (RequestsOf(received).status != Waiting || (all != [] && w.WriteError?))
    {
      hide TakeTurn, RequestsOf, Executed, Frames, Sends, Database.Owned, Steps, AllCountable, Dispatch, Conn.Stopped;
      TakeIn(app, data);
      if dead {
        return;
      }
      SendSoon(w);
    }

    /** handle_read() */
    method HandleRead(app: App, r: ReadResult, w: WriteResult)
      requires Valid() && app.Valid() && Apart(app) && InStep(app.num) && UpToDate() && !wantClose && !dead
      requires Consistent(Now()) && wantRead && RequestsOf(received).status == Waiting
      requires r.Data? ==> 0 < |r.data| <= READ_SIZE
      modifies this, incoming, outgoing, app`count, app`events, app`states, app.d.repr
      ensures Valid() && app.Valid() && Apart(app) && fresh(app.d.repr - old(app.d.repr)) && closed == old(closed)
      ensures old(app.events) <= app.events && served == old(served) + app.events[|old(app.events)|..]
      ensures dead ==> r.Data? && Stopped(RequestsOf(received), app.states[app.count])
      ensures InStep(app.num) && (!dead ==> UpToDate() && (!wantClose ==> Consistent(Now())))
      ensures received == old(received) + if r.Data? then r.data else []
      ensures !dead ==>
                var all := old(outgoing.Unread()) + Frames(served[|old(served)|..]);
                && Sends(all, r.Data? && all != [], w, old(sent), sent, outgoing.Unread())
                && wantClose == (r.ReadError? || r.Eof? || RequestsOf(received).status != Waiting
                                 || (r.Data? && all != [] && w.WriteError?))
    {
      hide TakeTurn, RequestsOf, Executed, Sends, Frames, Database.Owned, Steps, AllCountable;
      if r.Data? {
        HandleData(app, r.data, w);
      } else {
        NothingSent(outgoing.Unread(), served, w, sent);
        assert app.events[|old(app.events)|..] == [];
        wantClose := !r.ReadAgain?;
      }
    }

    /** The reads and writes of one turn of the event loop. The assertions on the wishes hold. */
    method HandleReady(app: App, t: Turnout)
      requires Valid() && app.Valid() && Apart(app) && InStep(app.num) && UpToDate() && !wantClose && !dead
      requires Consistent(Now()) && RequestsOf(received).status == Waiting
      requires t.r.Data? ==> 0 < |t.r.data| <= READ_SIZE
      modifies this, incoming, outgoing, app`count, app`events, app`states, app.d.repr
      ensures Valid() && app.Valid() && Apart(app) && fresh(app.d.repr - old(app.d.repr)) && closed == old(closed)
      ensures old(app.events) <= app.events && served == old(served) + app.events[|old(app.events)|..]
      ensures dead ==> t.readable && old(interestRead) && t.r.Data? && received == old(received) + t.r.data
      ensures dead ==> Stopped(RequestsOf(received), app.states[app.count])
      ensures InStep(app.num) && (!dead ==> UpToDate() && (!wantClose ==> Consistent(Now())))
      ensures !dead ==> Exchanges(old(Now()), t, Now()) && wantClose == Closes(old(Now()), t, Now())
    {
      hide TakeTurn, RequestsOf, Executed, Sends, Frames, Database.Owned, Steps, AllCountable;
      hide Exchanges, Closes, Offers, Outgoing;
      var reading, writing := t.readable && interestRead, t.writable && interestWrite;
      ghost var s := Now();
      if reading {
        assert wantRead;
        HandleRead(app, t.r, t.w);
        if dead {
          return;
        }
        ReadTurn(s, t, Now());
      }
      if writing {
        assert wantWrite && outgoing.Unread() != [];
        HandleWrite(t.w);
        NothingLost(s.pending, true, t.w, s.sent, sent, outgoing.Unread());
      }
      if !reading {
        assert app.events[|old(app.events)|..] == [];
        OtherTurn(s, t, Now());
      }
    }

    /** One turn of the event loop for this connection, up to conn_destroy(). */
    method HandleEvent(app: App, t: Turnout)
      requires Valid() && app.Valid() && Apart(app) && UpToDate() && !closed && !wantClose && !dead
      requires Healthy(Now(), app.num) && (t.r.Data? ==> 0 < |t.r.data| <= READ_SIZE)
      modifies this, incoming, outgoing, app`count, app`events, app`states, app.d.repr
      ensures Valid() && app.Valid() && Apart(app) && fresh(app.d.repr - old(app.d.repr))
      ensures old(app.events) <= app.events && served == old(served) + app.events[|old(app.events)|..]
      ensures dead ==> t.readable && old(interestRead) && t.r.Data? && received == old(received) + t.r.data
      ensures dead ==> Stopped(RequestsOf(received), app.states[app.count]) && Executed(executed, served, app.num)
      ensures !dead ==> Turns(old(Now()), t, Now()) && Healthy(Now(), app.num) && UpToDate() && (!closed ==> !wantClose)
    {
      hide TakeTurn, RequestsOf, Executed, Exchanges, Closes, Frames, Database.Owned, Steps, AllCountable;
      HandleReady(app, t);
      if dead {
        return;
      }
      ghost var s := Now();
      if t.hangup || wantClose {
        closed := true;
      }
      Finish(old(Now()), t, s, Now());
    }

    /** Nothing is pending, so write() is not called. */
    lemma NothingOffered(w: WriteResult, out: Bytes)
      ensures Sends([], false, w, out, out, [])
    {
    }
  }

  lemma ReadTurn(s: Snapshot, t: Turnout, s': Snapshot)
    requires t.readable && s.interestRead && !s.interestWrite && s.served <= s'.served
    requires s'.received == s.received + if t.r.Data? then t.r.data else []
    requires var all := s.pending + Frames(s'.served[|s.served|..]);
             Sends(all, t.r.Data? && all != [], t.w, s.sent, s'.sent, s'.pending)
    ensures var all := s.pending + Frames(s'.served[|s.served|..]);
            && Exchanges(s, t, s')
            && Closes(s, t, s') == (t.r.ReadError? || t.r.Eof? || RequestsOf(s'.received).status != Waiting
                                    || (t.r.Data? && all != [] && t.w.WriteError?))
  {
    hide Frames, RequestsOf, Sends;
  }

  lemma OtherTurn(s: Snapshot, t: Turnout, s': Snapshot)
    requires !(t.readable && s.interestRead) && s'.received == s.received && s'.served == s.served
    requires RequestsOf(s.received).status == Waiting
    requires if t.writable && s.interestWrite then Sends(s.pending, true, t.w, s.sent, s'.sent, s'.pending)
             else s'.sent == s.sent && s'.pending == s.pending
    ensures Exchanges(s, t, s') && Closes(s, t, s') == (t.writable && s.interestWrite && t.w.WriteError?)
  {
    hide RequestsOf, Frames, Sends;
    NothingAdded(s);
    if !(t.writable && s.interestWrite) {
      NothingSent(s.pending, s.served, t.w, s.sent);
    }
  }

  lemma NothingAdded(s: Snapshot)
    ensures s.served[|s.served|..] == [] && s.pending + Frames([]) == s.pending
  {
  }

  /** conn_destroy() changes nothing else. */
  lemma Finish(s: Snapshot, t: Turnout, s': Snapshot, s'': Snapshot)
    requires Exchanges(s, t, s') && s'' == s'.(open := !(t.hangup || Closes(s, t, s')))
    ensures Turns(s, t, s'') && (s''.open ==> RequestsOf(s''.received).status == Waiting)
  {
    hide RequestsOf, Frames, Sends;
  }

  lemma Cancel(a: Bytes, b: Bytes, c: Bytes)
    requires a + b == a + c
    ensures b == c
  {
    assert b == (a + b)[|a|..] && c == (a + c)[|a|..];
  }

  // ---- the end of a connection ----

  /** What ends a connection on the part of the socket: a hangup, or an error of a call that is made, or the end. */
  predicate Breaks(s: Snapshot, t: Turnout, writes: bool) {
    t.hangup || (t.readable && s.interestRead && (t.r.ReadError? || t.r.Eof?)) || (writes && t.w.WriteError?)
  }

  /**
   A turn closes a connection exactly when the socket breaks or the bytes received hold something malformed behind the
   requests. write() is called when epoll says so, or at once when a read has left something to send; as much counts as
   sent as write() says.
   */
  lemma ClosedExactlyWhen(s: Snapshot, t: Turnout, s': Snapshot, num: Numbers)
    requires Healthy(s, num) && s.open && Turns(s, t, s') && Healthy(s', num)
    ensures s.served <= s'.served
    ensures var unsent := s.pending + Frames(s'.served[|s.served|..]) != [];
            var writes := (t.writable && s.pending != []) || (t.readable && s.pending == [] && t.r.Data? && unsent);
            && s'.open == (!Breaks(s, t, writes) && RequestsOf(s'.received).status == Waiting)
            && (!writes ==> s'.sent == s.sent)
            && |s'.sent| == |s.sent| + if !writes || !t.w.Wrote? then 0
                                       else Min(t.w.n, |s.pending + Frames(s'.served[|s.served|..])|)
  {
    hide RequestsOf, Frames, Answered;
  }

  /** Nothing is read while something is pending, and nothing is served without being read. */
  lemma NothingReadWhilePending(s: Snapshot, t: Turnout, s': Snapshot, num: Numbers)
    requires Healthy(s, num) && s.open && Turns(s, t, s') && Healthy(s', num)
    ensures s'.received == s.received + if t.readable && s.pending == [] && t.r.Data? then t.r.data else []
    ensures s'.received == s.received ==> s'.served == s.served
    ensures s'.sent + s'.pending == s.sent + s.pending + Frames(s'.served[|s.served|..])
  {
    hide RequestsOf, Frames;
    NothingLost(Outgoing(s, s'), Offers(s, t, s'), t.w, s.sent, s'.sent, s'.pending);
    if s'.received == s.received {
      assert s'.served[..|s.served|] == s.served;
    }
  }

  /** A malformed frame behind the requests closes the connection, with no event but those of the requests. */
  lemma MalformedFrameCloses(s: Snapshot, t: Turnout, s': Snapshot, num: Numbers, cmds: seq<Args>, p: Bytes,
                             rest: Bytes)
    requires Turns(s, t, s') && Healthy(s', num)
    requires (forall i | 0 <= i < |cmds| :: WithinLimits(cmds[i])) && |p| <= MAX_MSG && forall cmd :: !IsRequest(p, cmd)
    requires s'.received == SentBytes(cmds) + (U32(|p|) + p + rest)
    ensures !s'.open && |s'.served| == |cmds|
    ensures forall i | 0 <= i < |cmds| :: s'.served[i].Do? && s'.served[i].cmd == Dispatch(cmds[i], num)
  {
    hide RequestsOf, Frames, U32, SentBytes, Dispatch, IsRequest, WithinLimits, Exchanges;
    SentRequestsComeFirst(cmds, U32(|p|) + p + rest);
    MalformedCloses(p, rest);
    assert cmds + [] == cmds;
  }

  /** No connection is found to have received a length above the limit: the process ends in the turn that reads it. */
  lemma OversizedIsNeverSeen(s: Snapshot, num: Numbers, cmds: seq<Args>, n: u32, rest: Bytes)
    requires Healthy(s, num) && (forall i | 0 <= i < |cmds| :: WithinLimits(cmds[i]))
    ensures s.received == SentBytes(cmds) + (U32(n) + rest) ==> n <= MAX_MSG
  {
    hide RequestsOf, Frames, U32, SentBytes, WithinLimits, Answered;
    if n > MAX_MSG {
      SentRequestsComeFirst(cmds, U32(n) + rest);
      OversizedIsTheEnd(n, rest);
    }
  }
}
