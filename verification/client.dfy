/** read_res() of the client: what it makes of the bytes that a connection sends. */
module Clients {
  import opened Pairs
  import opened Buffers
  import opened Wire
  import opened Tlv
  import opened Ranking
  import opened Semantics
  import opened Databases
  import opened Dispatching
  import opened Histories
  import opened Applications
  import opened Serving
  import opened Conns
  import opened Servers

  /** More bytes are needed, or the client gives up, or there is a response of some bytes. */
  datatype Reading = Incomplete | Failed | Response(r: Res, size: nat)

  /** read_res() */
  function ReadRes(stream: Bytes): (got: Reading)
    ensures got.Response? ==> 0 < got.size <= |stream|
  {
    if |stream| < 4 then Incomplete
    else
      var len := WordAt(stream, 0);
      if len > MAX_MSG then Failed
      else if 4 + len > |stream| then Incomplete
      else
        var d := Decode(stream[4..4 + len]);
        if d.Bad? || d.size != len then Failed else Response(d.r, 4 + len)
  }

  /** All responses at the front of a stream, and whether the client has failed behind them. */
  datatype Got = Got(replies: seq<Res>, failed: bool)

  function ReadAll(stream: Bytes): Got
    decreases |stream|
  {
    var got := ReadRes(stream);
    if !got.Response? then Got([], got.Failed?)
    else
      var rest := ReadAll(stream[got.size..]);
      rest.(replies := [got.r] + rest.replies)
  }

  /** What a reply comes to at the client: itself, when it is not too long, and otherwise an error. */
  ghost predicate Arrives(reply: Res, r: Res) {
    if |Encode(reply)| <= MAX_MSG then r == reply else r.Err? && r.code == ERR_TOO_BIG
  }

  /** Every double in the tree has eight bytes. */
  predicate EightBytes(r: Res)
    decreases r
  {
    match r
    case Dbl(bits) => |bits| == 8
    case Arr(items) => forall i | 0 <= i < |items| :: EightBytes(items[i])
    case _ => true
  }

  /** So it is in every answer, when it is so in the world. */
  lemma AnswersHaveEightBytes(s: State, cmd: Command, w: World, reply: Res)
    requires Answers(s, cmd, w, reply) && forall score :: |w.bits(score)| == 8
    ensures EightBytes(reply)
  {
    hide Answer, IsOrder;
    var order :| (cmd.Keys? ==> IsOrder(order, s.contents)) && reply == Answer(s, cmd, w, order);
    AnswerHasEightBytes(s, cmd, w, order);
  }

  lemma AnswerHasEightBytes(s: State, cmd: Command, w: World, order: seq<Name>)
    requires forall score :: |w.bits(score)| == 8
    ensures EightBytes(Answer(s, cmd, w, order))
  {
    hide Slice, SortedList, Rank, CountAnswer, Members, Texts;
    if cmd.ZQuery? {
      MembersHaveEightBytes(Slice(SortedList(ScoresOf(s, cmd.key)), cmd.from, cmd.offset, cmd.limit), w.bits);
    }
    TextsHaveEightBytes(order);
    if cmd.ZScore? && cmd.name in ScoresOf(s, cmd.key) {
      var score: int := ScoresOf(s, cmd.key)[cmd.name];
      assert |w.bits(score)| == 8;
    }
  }

  lemma TextsHaveEightBytes(keys: seq<Name>)
    ensures EightBytes(Arr(Texts(keys)))
  {
    forall i | 0 <= i < |keys| ensures EightBytes(Texts(keys)[i]) {
      assert Texts(keys)[i] == Str(keys[i]);
    }
  }

  lemma {:induction false} MembersHaveEightBytes(ps: seq<Pair>, bits: int -> Bytes)
    requires forall score :: |bits(score)| == 8
    ensures EightBytes(Arr(Members(ps, bits)))
  {
    if ps != [] {
      MembersHaveEightBytes(ps[..|ps| - 1], bits);
    }
  }

  lemma {:induction false} LengthOfAll(items: seq<Res>)
    ensures |items| <= |EncodeAll(items)|
    ensures forall i | 0 <= i < |items| :: |Encode(items[i])| <= |EncodeAll(items)|
  {
    hide Encode;
    if items != [] {
      LengthOfAll(items[1..]);
      assert |Encode(items[0])| > 0 by {
        NotEmpty(items[0]);
      }
      forall i | 0 < i < |items| ensures items[i] == items[1..][i - 1] {
      }
    }
  }

  lemma NotEmpty(r: Res)
    ensures |Encode(r)| > 0
  {
    hide U32;
  }

  /** A reply within the limit has 32-bit lengths throughout. */
  lemma {:induction false} ShortFits(r: Res)
    requires EightBytes(r) && |Encode(r)| < UINT32_RANGE
    ensures Fits(r)
    decreases r
  {
    hide U32, EncodeAll;
    match r
    case Arr(items) =>
      LengthOfAll(items);
      forall i | 0 <= i < |items| ensures Fits(items[i]) {
        ShortFits(items[i]);
      }
    case _ =>
  }

  ghost predicate Readable(events: seq<Event>) {
    forall i | 0 <= i < |events| :: events[i].Do? && EightBytes(events[i].reply)
  }

  lemma FrameArrives(reply: Res, rest: Bytes) returns (r: Res)
    requires EightBytes(reply)
    ensures Arrives(reply, r)
    ensures var frame := Frame(Limited(Encode(reply))); ReadRes(frame + rest) == Response(r, |frame|)
  {
    hide Encode, Decode, U32, Fits, EightBytes;
    var error := Err(ERR_TOO_BIG, TOO_BIG_TEXT);
    r := if |Encode(reply)| <= MAX_MSG then reply else error;
    ErrorIsShort();
    ErrorHasEightBytes();
    ShortFits(r);
    FrameDecodes(r, rest);
    FrameOfLimited(Encode(reply));
    WordOfBytes(|Encode(r)|);
  }

  lemma ErrorHasEightBytes()
    ensures EightBytes(Err(ERR_TOO_BIG, TOO_BIG_TEXT))
  {
  }

  lemma ReadFirst(frame: Bytes, rest: Bytes, r: Res)
    requires ReadRes(frame + rest) == Response(r, |frame|)
    ensures var got := ReadAll(rest); ReadAll(frame + rest) == got.(replies := [r] + got.replies)
  {
    hide ReadRes;
    assert (frame + rest)[|frame|..] == rest;
  }

  /** Every reply of a connection arrives, in order. */
  lemma {:induction false} FramesArrive(events: seq<Event>, rest: Bytes)
    requires Readable(events)
    ensures var got, more := ReadAll(Frames(events) + rest), ReadAll(rest);
            && |got.replies| == |events| + |more.replies| && got.failed == more.failed
            && (forall i | 0 <= i < |events| :: Arrives(events[i].reply, got.replies[i]))
            && got.replies[|events|..] == more.replies
    decreases |events|
  {
    hide Encode, Frame, Limited, ReadRes, ReadAll, EightBytes, Arrives;
    if events == [] {
      assert [] + rest == rest;
    } else {
      var front, last := events[..|events| - 1], events[|events| - 1];
      var frame := Frame(Limited(Encode(last.reply)));
      var r := FrameArrives(last.reply, rest);
      ReadFirst(frame, rest, r);
      FramesArrive(front, frame + rest);
      assert Frames(events) + rest == Frames(front) + (frame + rest);
    }
  }

  /** A stream that has been cut off has no responses but those of the whole stream. */
  lemma {:induction false} CutStream(a: Bytes, b: Bytes)
    ensures ReadAll(a).replies <= ReadAll(a + b).replies
    ensures ReadAll(a).failed ==> ReadAll(a + b) == ReadAll(a)
    decreases |a|
  {
    hide ReadRes;
    MoreBytes(a, b);
    var got := ReadRes(a);
    if got.Response? {
      CutStream(a[got.size..], b);
      assert (a + b)[got.size..] == a[got.size..] + b;
    }
  }

  lemma MoreBytes(a: Bytes, b: Bytes)
    ensures !ReadRes(a).Incomplete? ==> ReadRes(a + b) == ReadRes(a)
  {
    hide Decode;
    if |a| >= 4 {
      assert WordAt(a + b, 0) == WordAt(a, 0);
      var len := WordAt(a, 0);
      if 4 + len <= |a| {
        assert (a + b)[4..4 + len] == a[4..4 + len];
      }
    }
  }

  /**
   At every moment of a connection the client has read the first of the replies, in order, each as it was given or, when
   it is too long, as an error, and has not failed; once everything is sent it has read all of them.
   */
  lemma RepliesArrive(s: Snapshot)
    requires s.sent + s.pending == Frames(s.served) && Readable(s.served)
    ensures var got := ReadAll(s.sent);
            && !got.failed && |got.replies| <= |s.served| && (s.pending == [] ==> |got.replies| == |s.served|)
            && forall i | 0 <= i < |got.replies| :: Arrives(s.served[i].reply, got.replies[i])
  {
    hide Frames, ReadAll, Readable, Arrives;
    FramesArrive(s.served, []);
    NothingRead();
    assert Frames(s.served) + [] == Frames(s.served);
    CutStream(s.sent, s.pending);
    assert s.sent + [] == s.sent;
  }

  lemma NothingRead()
    ensures ReadAll([]) == Got([], false)
  {
  }

  // ---- all clients of a server ----

  /** The connections have been served with events of the application. */
  ghost predicate FromApp(m: Moment) {
    forall c, i | 0 <= c < |m.conns| && 0 <= i < |m.conns[c].served| :: m.conns[c].served[i] in m.events
  }

  lemma StepFromApp(m: Moment, h: Happening, m': Moment, world: nat -> World)
    requires Happens(m, h, m', world) && FromApp(m)
    ensures FromApp(m') && m.events <= m'.events
  {
    hide Turns;
    if h.Turn? && Servers.IsOpen(m.conns, h.c) {
      var s, s' := m.conns[h.c], m'.conns[h.c];
      TurnServesMore(s, h.turnout, s');
      assert m'.events == m.events + s'.served[|s.served|..];
      forall i | 0 <= i < |s'.served| ensures s'.served[i] in m'.events {
        if i < |s.served| {
          assert s.served[i] in m.events;
        } else {
          assert s'.served[i] == s'.served[|s.served|..][i - |s.served|];
        }
      }
    }
  }

  lemma TurnServesMore(s: Snapshot, t: Turnout, s': Snapshot)
    requires Turns(s, t, s')
    ensures s.served <= s'.served
  {
    hide Closes, Sends;
  }

  lemma {:induction false} RunFromApp(trace: seq<Moment>, happenings: seq<Happening>, num: Numbers, world: nat -> World,
                                      j: nat)
    requires Servers.IsRun(trace, happenings, num, world) && j < |trace|
    ensures FromApp(trace[j]) && forall i | 0 <= i <= j :: trace[i].events <= trace[j].events
  {
    hide Happens, Servers.AllHealthy;
    if j > 0 {
      RunFromApp(trace, happenings, num, world, j - 1);
      assert Happens(trace[j - 1], happenings[j - 1], trace[j], world);
      StepFromApp(trace[j - 1], happenings[j - 1], trace[j], world);
    }
  }

  /**
   Over every run of the server, at every moment and on every connection, the client has read the first of the replies
   to its requests, in order, each as it was given or, when it is too long, as an error.
   */
  lemma ClientsAreAnswered(app: App, trace: seq<Moment>, happenings: seq<Happening>, j: nat, c: nat)
    requires app.Valid() && Servers.IsRun(trace, happenings, app.num, app.world)
    requires trace[|trace| - 1].events <= app.events && j < |trace| && c < |trace[j].conns|
    requires forall i: nat, score: int :: |app.world(i).bits(score)| == 8
    ensures var s := trace[j].conns[c];
            var got, cmds := ReadAll(s.sent), RequestsOf(s.received).cmds;
            && !got.failed && |got.replies| <= |s.served| == |cmds| && (s.pending == [] ==> |got.replies| == |cmds|)
            && (forall i | 0 <= i < |cmds| ::
                  s.served[i] in app.events && s.served[i].Do? && s.served[i].cmd == Dispatch(cmds[i], app.num))
            && forall i | 0 <= i < |got.replies| :: Arrives(s.served[i].reply, got.replies[i])
  {
    hide Happens, Healthy, Dispatch, ReadAll, RequestsOf, Frames, Database.Owned, Steps, Consistent, Arrives;
    hide EightBytes;
    RunFromApp(trace, happenings, app.num, app.world, |trace| - 1);
    RunFromApp(trace, happenings, app.num, app.world, j);
    var s := trace[j].conns[c];
    HealthyOne(trace, happenings, app.num, app.world, j, c);
    forall i | 0 <= i < |s.served| ensures s.served[i] in app.events && EightBytes(s.served[i].reply) {
      var k :| 0 <= k < |trace[j].events| && trace[j].events[k] == s.served[i];
      assert app.events[k] == s.served[i];
      ServedHasEightBytes(app, k);
    }
    RepliesArrive(s);
  }

  lemma HealthyOne(trace: seq<Moment>, happenings: seq<Happening>, num: Numbers, world: nat -> World, j: nat, c: nat)
    requires Servers.IsRun(trace, happenings, num, world) && j < |trace| && c < |trace[j].conns|
    ensures Answered(trace[j].conns[c], num)
  {
    hide Happens, Answered, Consistent, RequestsOf;
    assert Healthy(trace[j].conns[c], num);
  }

  lemma ServedHasEightBytes(app: App, k: nat)
    requires app.Valid() && k < |app.events| && app.events[k].Do?
    requires forall i: nat, score: int :: |app.world(i).bits(score)| == 8
    ensures EightBytes(app.events[k].reply)
  {
    hide Database.Owned, Answers, EightBytes, After;
    assert Steps(app.states[k], app.events[k], app.states[k + 1]);
    var event := app.events[k];
    assert event.w == app.world(k);
    forall score: int ensures |event.w.bits(score)| == 8 {
      assert |app.world(k).bits(score)| == 8;
    }
    AnswersHaveEightBytes(app.states[k], event.cmd, event.w, event.reply);
  }
}
