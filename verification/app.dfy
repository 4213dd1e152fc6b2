/** The application behind the connections: the database and its history. */
module Applications {
  import opened Pairs
  import opened Buffers
  import opened Wire
  import opened Tlv
  import opened Requests
  import opened Semantics
  import opened Databases
  import opened Commands
  import opened Dispatching
  import opened Expiry
  import opened Histories

  /** The i-th event has seen the i-th state of the world. */
  ghost predicate Timely(events: seq<Event>, world: nat -> World) {
    forall i | 0 <= i < |events| ::
      match events[i]
      case Do(_, w, _) => w == world(i)
      case Pass(now) => now == world(i).now
  }

  class App {
    const d: Database
    const num: Numbers
    /** What the i-th event sees of the world. */
    const world: nat -> World
    var count: nat
    ghost var events: seq<Event>
    ghost var states: seq<State>

    /** The database is in the last of the states its history has led to. */
    ghost predicate Valid()
      reads this, d, d.repr
    {
      && d.Owned() && this !in d.repr && IsTrace(states, events) && Timely(events, world) && count == |events|
      && StateOf(d) == states[|events|]
    }

    constructor (num: Numbers, world: nat -> World)
      ensures Valid() && fresh(d) && fresh(d.repr) && events == [] && this.num == num && this.world == world
    {
      hide Database.Owned;
      this.num, this.world := num, world;
      d := new Database();
      count, events, states := 0, [], [EMPTY];
      new;
      assert Log([]) == [] && StateOf(d) == EMPTY;
    }

    /** Whether every set can still be counted by its tree; beyond that the server is not followed. */
    method IsCountable() returns (ok: bool)
      requires Valid()
      ensures ok <==> AllCountable(states[count])
    {
      hide Database.Valid, AllCountable, Steps;
      ok := SetsAreCountable(d);
    }

    /** do_request_and_make_response(): dispatches, executes and appends the encoding of the reply. */
    method Respond(args: Args, b: Buffer) returns (ghost reply: Res)
      requires Valid() && AllCountable(states[count]) && Ready(b) && b !in d.repr
      modifies `count, `events, `states, d.repr, b
      ensures Valid() && fresh(d.repr - old(d.repr))
      ensures events == old(events) + [Do(Dispatch(args, num), world(old(count)), reply)]
      ensures old(states) <= states && Appended(b, Encode(reply))
    {
      hide Database.Owned, Steps, Encode, Dispatch, AllCountable;
      ghost var s := states[count];
      CountableIsEnough(s, Dispatch(args, num));
      var cmd, w := Dispatch(args, num), world(count);
      ghost var order := Perform(d, cmd, w, b);
      reply := Answer(s, cmd, w, order);
      StepDone(s, cmd, w, order);
      TraceGrows(states, events, Do(cmd, w, reply), StateOf(d));
      events, states, count := events + [Do(cmd, w, reply)], states + [StateOf(d)], count + 1;
    }

    /** The timers of the entries in process_timers() */
    method ExpireKeys()
      requires Valid()
      modifies `count, `events, `states, d.repr
      ensures Valid() && fresh(d.repr - old(d.repr))
      ensures events == old(events) + [Pass(world(old(count)).now)] && old(states) <= states
    {
      hide Database.Owned, TimerPass;
      var now := world(count).now;
      ghost var removed := ProcessTimers(d, now);
      TraceGrows(states, events, Pass(now), StateOf(d));
      events, states, count := events + [Pass(now)], states + [StateOf(d)], count + 1;
    }
  }

  /** What reaches the application: a request, or the end of a turn of the event loop. */
  datatype Input = Request(args: Args) | Timers

  /** The event is the handling of the input. */
  ghost predicate Handles(event: Event, input: Input, num: Numbers, w: World) {
    match input
    case Request(args) => event.Do? && event.cmd == Dispatch(args, num) && event.w == w
    case Timers => event == Pass(w.now)
  }

  /** The replies among the events, in order. */
  ghost function Replies(events: seq<Event>): seq<Res> {
    if events == [] then []
    else
      var last := events[|events| - 1];
      Replies(events[..|events| - 1]) + if last.Do? then [last.reply] else []
  }

  lemma RepliesGrow(events: seq<Event>, event: Event)
    ensures Replies(events + [event]) == Replies(events) + if event.Do? then [event.reply] else []
  {
    assert (events + [event])[..|events|] == events;
  }

  /**
   Over every run of requests and timer passes, for as long as every set has fewer than 2^32 members: the database is
   in the state that the meaning of the commands gives, the bytes written are the encodings of their answers, and every
   entry ever created is live or has been freed, once, the large ones among the freed by a task of their own.
   */
  method Run(inputs: seq<Input>, num: Numbers, world: nat -> World) returns (app: App, b: Buffer, n: nat)
    ensures n <= |inputs| && app.Valid() && |app.events| == n && app.num == num
    ensures n < |inputs| ==> !AllCountable(app.states[n])
    ensures forall i | 0 <= i < n :: Handles(app.events[i], inputs[i], num, world(i))
    ensures b.Valid() && b.Unread() == EncodeAll(Replies(app.events))
    ensures Accounted(app.d.created, app.d.entries, app.d.freed, app.d.tasks)
  {
    hide Database.Owned, Encode, EncodeAll, Steps, Dispatch, AllCountable, Accounted, Replies;
    NoReplies();
    app := new App(num, world);
    b := new Buffer(4096);
    n := 0;
    var ok := app.IsCountable();
    while n < |inputs| && ok
      invariant n <= |inputs| && app.Valid() && |app.events| == n && app.num == num && app.world == world
      invariant fresh(app) && fresh(app.d.repr) && fresh(b) && b !in app.d.repr
      invariant forall i | 0 <= i < n :: Handles(app.events[i], inputs[i], num, world(i))
      invariant Ready(b) && b.Unread() == EncodeAll(Replies(app.events))
      invariant ok <==> AllCountable(app.states[n])
    {
      Serve(app, inputs[n], b);
      n := n + 1;
      ok := app.IsCountable();
    }
    app.d.OwnedIsAccounted();
  }

  /** One input. */
  method Serve(app: App, input: Input, b: Buffer)
    requires app.Valid() && AllCountable(app.states[app.count]) && Ready(b) && b !in app.d.repr
    requires b.Unread() == EncodeAll(Replies(app.events))
    modifies app`count, app`events, app`states, app.d.repr, b
    ensures app.Valid() && fresh(app.d.repr - old(app.d.repr))
    ensures |app.events| == |old(app.events)| + 1 && old(app.events) <= app.events
    ensures Handles(app.events[old(app.count)], input, app.num, app.world(old(app.count)))
    ensures Ready(b) && b.Unread() == EncodeAll(Replies(app.events))
  {
    hide Database.Owned, Encode, EncodeAll, Steps, Dispatch, AllCountable, Replies;
    ghost var events := app.events;
    match input
    case Request(args) =>
      ghost var reply := app.Respond(args, b);
      RepliesGrow(events, app.events[|events|]);
      EncodeAllAppend(Replies(events), [reply]);
      EncodeOne(reply);
    case Timers =>
      app.ExpireKeys();
      RepliesGrow(events, app.events[|events|]);
      assert Replies(events) + [] == Replies(events);
  }

  lemma NoReplies()
    ensures EncodeAll(Replies([])) == []
  {
  }

  lemma StepDone(s: State, cmd: Command, w: World, order: seq<Name>)
    requires cmd.Keys? ==> IsOrder(order, s.contents)
    ensures Steps(s, Do(cmd, w, Answer(s, cmd, w, order)), After(s, cmd, w.now))
  {
    hide Answer, After, IsOrder;
  }

  lemma CountableIsEnough(s: State, cmd: Command)
    requires AllCountable(s)
    ensures Countable(s, cmd)
  {
  }
}
