/** What the server makes of a byte stream, whatever the reads in which it arrives. */
module Serving {
  import opened Buffers
  import opened Wire
  import opened Tlv
  import opened Requests

  /** More input is needed, the connection is to be closed, or the whole server has given up. */
  datatype Status = Waiting | Closing | Dead

  /** What is at the front of the unread bytes: no request yet, or none ever, or a request of some bytes. */
  datatype Turn = Stop(status: Status) | Next(cmd: Args, size: nat)

  ghost function TakeTurn(stream: Bytes): (t: Turn)
    ensures t.Next? ==> 4 <= t.size <= |stream|
  {
    if |stream| < 4 then Stop(Waiting)
    else
      var len := WordAt(stream, 0);
      if len > MAX_MSG then Stop(Dead)
      else if 4 + len > |stream| then Stop(Waiting)
      else
        var p := Parse(stream[4..4 + len]);
        if p.Refused? then Stop(Closing) else Next(p.cmd, 4 + len)
  }

  // ---- the requests of a stream ----

  datatype Requested = Requested(cmds: seq<Args>, rest: Bytes, status: Status)

  /** All requests at the front of the stream. */
  ghost function RequestsOf(stream: Bytes): Requested
    decreases |stream|
  {
    var t := TakeTurn(stream);
    if t.Stop? then Requested([], stream, t.status)
    else
      var p := RequestsOf(stream[t.size..]);
      p.(cmds := [t.cmd] + p.cmds)
  }

  /** More bytes arrive. */
  ghost function WithMore(p: Requested, chunk: Bytes): Requested {
    if p.status != Waiting then p.(rest := p.rest + chunk)
    else
      var q := RequestsOf(p.rest + chunk);
      q.(cmds := p.cmds + q.cmds)
  }

  lemma TurnWithMore(a: Bytes, b: Bytes)
    ensures var t := TakeTurn(a); t != Stop(Waiting) ==> TakeTurn(a + b) == t
  {
    hide Parse;
    if |a| >= 4 {
      assert WordAt(a + b, 0) == WordAt(a, 0);
      var len := WordAt(a, 0);
      if 4 + len <= |a| {
        assert (a + b)[4..4 + len] == a[4..4 + len];
      }
    }
  }

  lemma RequestsTurn(stream: Bytes)
    ensures var t, p := TakeTurn(stream), RequestsOf(stream);
            if t.Stop? then p == Requested([], stream, t.status)
            else var q := RequestsOf(stream[t.size..]); p == q.(cmds := [t.cmd] + q.cmds)
  {
  }

  /** Two portions hold the same requests as their concatenation. */
  lemma {:induction false} RequestsInPortions(a: Bytes, b: Bytes)
    ensures RequestsOf(a + b) == WithMore(RequestsOf(a), b)
    decreases |a|
  {
    hide TakeTurn, RequestsOf;
    TurnWithMore(a, b);
    RequestsTurn(a);
    RequestsTurn(a + b);
    var t := TakeTurn(a);
    if t.Next? {
      RequestsInPortions(a[t.size..], b);
      assert (a + b)[t.size..] == a[t.size..] + b;
      OneMoreBefore(t.cmd, RequestsOf(a[t.size..]), b);
    } else {
      assert [] + RequestsOf(a + b).cmds == RequestsOf(a + b).cmds;
    }
  }

  lemma OneMoreBefore(cmd: Args, p: Requested, b: Bytes)
    ensures var q := WithMore(p, b); WithMore(p.(cmds := [cmd] + p.cmds), b) == q.(cmds := [cmd] + q.cmds)
  {
    hide RequestsOf;
    var more := RequestsOf(p.rest + b).cmds;
    assert [cmd] + p.cmds + more == [cmd] + (p.cmds + more);
  }

  // ---- the responses ----

  /** do_request_and_make_response(): the new state of the application, and the response. */
  type Handler<!S> = (S, Args) -> (S, Res)

  datatype Served<S> = Served(state: S, out: Bytes, rest: Bytes, status: Status)

  /** The commands are executed in turn, and each is answered by a frame. */
  ghost function Outcome<S>(h: Handler<S>, s: S, cmds: seq<Args>): (S, Bytes) {
    if cmds == [] then (s, [])
    else
      var (t, out) := Outcome(h, s, cmds[..|cmds| - 1]);
      var (t', r) := h(t, cmds[|cmds| - 1]);
      (t', out + Frame(Limited(Encode(r))))
  }

  lemma {:induction false} OutcomeInPortions<S>(h: Handler<S>, s: S, a: seq<Args>, b: seq<Args>)
    ensures var (t, out) := Outcome(h, s, a);
            var (u, more) := Outcome(h, t, b);
            Outcome(h, s, a + b) == (u, out + more)
    decreases |b|
  {
    hide Encode, Frame, Limited;
    var (t, out) := Outcome(h, s, a);
    if b == [] {
      assert a + b == a && out + [] == out;
    } else {
      var front := b[..|b| - 1];
      OutcomeInPortions(h, s, a, front);
      assert (a + b)[..|a + b| - 1] == a + front;
      var (u, more) := Outcome(h, t, front);
      var (u', r) := h(u, b[|b| - 1]);
      assert out + more + Frame(Limited(Encode(r))) == out + (more + Frame(Limited(Encode(r))));
    }
  }

  /** All requests at the front of the stream are executed in turn. */
  ghost function Serve<S>(h: Handler<S>, s: S, stream: Bytes): Served<S> {
    var p := RequestsOf(stream);
    var (t, out) := Outcome(h, s, p.cmds);
    Served(t, out, p.rest, p.status)
  }

  /** The bytes of a chunk arrive and everything that is complete is executed. */
  ghost function Arrive<S>(h: Handler<S>, d: Served<S>, chunk: Bytes): Served<S> {
    if d.status != Waiting then d.(rest := d.rest + chunk)
    else
      var e := Serve(h, d.state, d.rest + chunk);
      e.(out := d.out + e.out)
  }

  /** Handling the bytes in two portions comes to the same as handling them at once. */
  lemma {:induction false} ServeInPortions<S>(h: Handler<S>, s: S, a: Bytes, b: Bytes)
    ensures Serve(h, s, a + b) == Arrive(h, Serve(h, s, a), b)
  {
    hide RequestsOf, Outcome;
    RequestsInPortions(a, b);
    var p := RequestsOf(a);
    OutcomeInPortions(h, s, p.cmds, RequestsOf(p.rest + b).cmds);
  }

  ghost function Joined(chunks: seq<Bytes>): Bytes {
    if chunks == [] then [] else Joined(chunks[..|chunks| - 1]) + chunks[|chunks| - 1]
  }

  ghost function ArriveAll<S>(h: Handler<S>, s: S, chunks: seq<Bytes>): Served<S> {
    if chunks == [] then Served(s, [], [], Waiting)
    else Arrive(h, ArriveAll(h, s, chunks[..|chunks| - 1]), chunks[|chunks| - 1])
  }

  /** However a stream is cut into reads: same commands, same responses, same end. */
  lemma {:induction false} ChunkingDoesNotMatter<S>(h: Handler<S>, s: S, chunks: seq<Bytes>)
    ensures ArriveAll(h, s, chunks) == Serve(h, s, Joined(chunks))
  {
    if chunks != [] {
      hide Serve, Arrive;
      var front := chunks[..|chunks| - 1];
      ChunkingDoesNotMatter(h, s, front);
      ServeInPortions(h, s, Joined(front), chunks[|chunks| - 1]);
    }
  }

  /** A request as the client sends it is the first request of the stream, and the next one is up. */
  lemma SentRequestIsFirst(cmd: Args, rest: Bytes)
    requires Sendable(cmd) && |cmd| <= MAX_ARGS && |Payload(cmd)| <= MAX_MSG
    ensures var q := RequestsOf(rest);
            RequestsOf(U32(|Payload(cmd)|) + Payload(cmd) + rest) == q.(cmds := [cmd] + q.cmds)
  {
    hide U32, Payload, Parse;
    var p := Payload(cmd);
    var stream := U32(|p|) + p + rest;
    WordInside([], |p|, p + rest);
    assert stream == [] + U32(|p|) + (p + rest);
    assert stream[4..4 + |p|] == p && stream[4 + |p|..] == rest;
    ParseIs(p, cmd);
  }

  /** It is answered by exactly one frame. */
  lemma SentRequestIsServed<S>(h: Handler<S>, s: S, cmd: Args, rest: Bytes)
    requires Sendable(cmd) && |cmd| <= MAX_ARGS && |Payload(cmd)| <= MAX_MSG
    ensures var d := Serve(h, h(s, cmd).0, rest);
            Serve(h, s, U32(|Payload(cmd)|) + Payload(cmd) + rest)
              == d.(out := Frame(Limited(Encode(h(s, cmd).1))) + d.out)
  {
    hide U32, Payload, Encode, Frame, Limited, RequestsOf;
    SentRequestIsFirst(cmd, rest);
    OutcomeInPortions(h, s, [cmd], RequestsOf(rest).cmds);
    assert [cmd][..0] == [];
    assert [] + Frame(Limited(Encode(h(s, cmd).1))) == Frame(Limited(Encode(h(s, cmd).1)));
  }

  // ---- what the bytes at the front lead to, whatever follows ----

  /** Less than four bytes, or less than the length announces, are not a request yet. */
  lemma IncompleteWaits(stream: Bytes)
    requires |stream| < 4 || (WordAt(stream, 0) <= MAX_MSG && |stream| < 4 + WordAt(stream, 0))
    ensures RequestsOf(stream) == Requested([], stream, Waiting)
  {
  }

  /** A length above the limit is the end. */
  lemma OversizedIsTheEnd(n: u32, rest: Bytes)
    requires n > MAX_MSG
    ensures RequestsOf(U32(n) + rest) == Requested([], U32(n) + rest, Dead)
  {
    hide U32;
    WordInside([], n, rest);
    assert [] + U32(n) + rest == U32(n) + rest;
  }

  /** A complete frame whose payload is that of no command within the limits closes the connection. */
  lemma MalformedCloses(p: Bytes, rest: Bytes)
    requires |p| <= MAX_MSG && forall cmd :: !IsRequest(p, cmd)
    ensures RequestsOf(U32(|p|) + p + rest) == Requested([], U32(|p|) + p + rest, Closing)
  {
    hide U32, Parse, IsRequest;
    var stream := U32(|p|) + p + rest;
    WordInside([], |p|, p + rest);
    assert stream == [] + U32(|p|) + (p + rest);
    assert stream[4..4 + |p|] == p;
    AcceptedIsRequest(p);
  }

  lemma AcceptedIsRequest(p: Bytes)
    ensures Parse(p).Accepted? ==> IsRequest(p, Parse(p).cmd)
  {
  }

  /** The command is within the limits of both sides. */
  predicate WithinLimits(cmd: Args) {
    Sendable(cmd) && |cmd| <= MAX_ARGS && |Payload(cmd)| <= MAX_MSG
  }

  /** Header and payload of a request. */
  function RequestBytes(cmd: Args): Bytes
    requires WithinLimits(cmd)
  {
    U32(|Payload(cmd)|) + Payload(cmd)
  }

  /** The requests as the client sends them. */
  function SentBytes(cmds: seq<Args>): Bytes
    requires forall i | 0 <= i < |cmds| :: WithinLimits(cmds[i])
  {
    if cmds == [] then [] else RequestBytes(cmds[0]) + SentBytes(cmds[1..])
  }

  /** Any number of requests are executed in order before what follows them is looked at. */
  lemma {:induction false} SentRequestsComeFirst(cmds: seq<Args>, rest: Bytes)
    requires forall i | 0 <= i < |cmds| :: WithinLimits(cmds[i])
    ensures var q := RequestsOf(rest); RequestsOf(SentBytes(cmds) + rest) == q.(cmds := cmds + q.cmds)
  {
    hide RequestsOf, Payload, U32, Sendable;
    if cmds == [] {
      assert [] + rest == rest && [] + RequestsOf(rest).cmds == RequestsOf(rest).cmds;
    } else {
      var first, others := cmds[0], SentBytes(cmds[1..]);
      SentRequestsComeFirst(cmds[1..], rest);
      SentRequestIsFirst(first, others + rest);
      assert RequestBytes(first) + others + rest == RequestBytes(first) + (others + rest);
      assert cmds + RequestsOf(rest).cmds == [first] + (cmds[1..] + RequestsOf(rest).cmds);
    }
  }
}
