/** Runs of commands and timer passes as sequences of states: where deadlines come from, and what becomes of values. */
module Histories {
  import opened Pairs
  import opened Wire
  import HashChains
  import opened Semantics
  import opened Expiry

  /** A request that has been answered, or a timer pass. */
  datatype Event = Do(cmd: Command, w: World, reply: Res) | Pass(now: nat)

  ghost predicate Steps(s: State, event: Event, s': State) {
    match event
    case Do(cmd, w, reply) => s' == After(s, cmd, w.now) && Answers(s, cmd, w, reply)
    case Pass(now) => exists removed :: TimerPass(s, s', removed, now)
  }

  /** The reply is what the command answers, with the keys in some order. */
  ghost predicate Answers(s: State, cmd: Command, w: World, reply: Res) {
    exists order :: (cmd.Keys? ==> IsOrder(order, s.contents)) && reply == Answer(s, cmd, w, order)
  }

  ghost predicate IsTrace(states: seq<State>, events: seq<Event>) {
    && |states| == |events| + 1 && states[0] == EMPTY
    && forall i | 0 <= i < |events| :: Steps(states[i], events[i], states[i + 1])
  }

  lemma TraceGrows(states: seq<State>, events: seq<Event>, event: Event, s: State)
    requires IsTrace(states, events) && Steps(states[|events|], event, s)
    ensures IsTrace(states + [s], events + [event])
  {
    hide Steps;
  }

  lemma StepOfTrace(states: seq<State>, events: seq<Event>, n: nat)
    requires IsTrace(states, events) && n <= |events|
    ensures |states| == |events| + 1 && states[0] == EMPTY
    ensures n > 0 ==> Steps(states[n - 1], events[n - 1], states[n])
  {
    hide Steps;
  }

  // ---- deadlines ----

  ghost predicate SetsTimer(event: Event, key: Name) {
    event.Do? && event.cmd.Expire? && event.cmd.key == key
  }

  /** PEXPIRE number i gave the key the deadline that is still in force after n events. */
  ghost predicate InForce(states: seq<State>, events: seq<Event>, key: Name, i: nat, n: nat)
    requires |states| == |events| + 1 && n <= |events|
  {
    && i < n && SetsTimer(events[i], key) && events[i].cmd.ttl >= 0
    && (forall j | i <= j <= n :: key in states[j].contents)
    && forall j | i < j < n :: !SetsTimer(events[j], key)
  }

  /** The deadline that PEXPIRE number i computed. */
  ghost function DeadlineOf(event: Event): (deadline: nat)
    requires event.Do? && event.cmd.Expire? && event.cmd.ttl >= 0
    ensures deadline < UINT64_RANGE
  {
    Deadline(event.w.now, event.cmd.ttl)
  }

  /** The deadline of a key, if any, is the one its latest PEXPIRE computed. */
  lemma {:induction false} DeadlineIsFromExpire(states: seq<State>, events: seq<Event>, key: Name, n: nat)
    returns (i: nat)
    requires IsTrace(states, events) && n <= |events|
    ensures key in states[n].deadlines ==>
              && key in states[n].contents && InForce(states, events, key, i, n)
              && states[n].deadlines[key] == DeadlineOf(events[i])
  {
    hide Steps;
    i := 0;
    if n > 0 {
      var s, s', event := states[n - 1], states[n], events[n - 1];
      assert Steps(s, event, s');
      i := DeadlineIsFromExpire(states, events, key, n - 1);
      if SetsTimer(event, key) {
        i := n - 1;
        StepSetsTimer(s, event, s', key);
      } else {
        StepKeepsTimer(s, event, s', key);
      }
    }
  }

  /** A PEXPIRE that is still in force determines the deadline. */
  lemma {:induction false} ExpireInForceIsDeadline(states: seq<State>, events: seq<Event>, key: Name, i: nat, n: nat)
    requires IsTrace(states, events) && n <= |events| && InForce(states, events, key, i, n)
    ensures key in states[n].deadlines && states[n].deadlines[key] == DeadlineOf(events[i])
  {
    hide Steps;
    var s, s', event := states[n - 1], states[n], events[n - 1];
    assert Steps(s, event, s');
    if i < n - 1 {
      ExpireInForceIsDeadline(states, events, key, i, n - 1);
      StepKeepsTimer(s, event, s', key);
    } else {
      StepSetsTimer(s, event, s', key);
    }
  }

  /**
   PTTL answers for the latest PEXPIRE: with the rest of its time, as int64_t, while it is in force, and with -1
   otherwise. The one other -1 is the rest 2^64 - 1, at the time 0.
   */
  lemma TtlAnswersForLatestExpire(states: seq<State>, events: seq<Event>, key: Name, n: nat, w: World)
    requires IsTrace(states, events) && n <= |events| && key in states[n].contents
    ensures forall i: nat | InForce(states, events, key, i, n) ::
              var deadline := DeadlineOf(events[i]);
              Answer(states[n], Ttl(key), w, []) == Int(if deadline > w.now then ToI64(deadline - w.now) else 0)
    ensures Answer(states[n], Ttl(key), w, []) == Int(-1)
       <==> forall i: nat | InForce(states, events, key, i, n) ::
         w.now == 0 && DeadlineOf(events[i]) == UINT64_RANGE - 1
  {
    hide Steps;
    var i := DeadlineIsFromExpire(states, events, key, n);
    forall i: nat | InForce(states, events, key, i, n)
      ensures key in states[n].deadlines && states[n].deadlines[key] == DeadlineOf(events[i])
    {
      ExpireInForceIsDeadline(states, events, key, i, n);
    }
  }

  lemma StepSetsTimer(s: State, event: Event, s': State, key: Name)
    requires Steps(s, event, s') && SetsTimer(event, key)
    ensures s'.contents == s.contents
    ensures key in s.contents ==>
              if event.cmd.ttl < 0 then key !in s'.deadlines
              else key in s'.deadlines && s'.deadlines[key] == DeadlineOf(event)
    ensures key !in s.contents ==> s'.deadlines == s.deadlines
  {
    hide Answers;
  }

  /** Any other event leaves the timer of a key alone for as long as the key stays, and takes it away with the key. */
  lemma StepKeepsTimer(s: State, event: Event, s': State, key: Name)
    requires Steps(s, event, s') && !SetsTimer(event, key)
    requires key in s.deadlines ==> key in s.contents
    ensures key in s'.deadlines ==> key in s.deadlines && s'.deadlines[key] == s.deadlines[key] && key in s'.contents
    ensures key in s.deadlines && key in s'.contents ==> key in s'.deadlines
  {
    hide Answers, Earliest, Without;
    if event.Pass? {
      var removed :| TimerPass(s, s', removed, event.now);
      WithoutFacts(s, removed, event.now);
    }
  }

  // ---- conservation ----

  /** How many of the first n events gave a key a value that had none. */
  ghost function Creations(states: seq<State>, events: seq<Event>, n: nat): nat
    requires |states| == |events| + 1 && n <= |events|
  {
    if n == 0 then 0 else Creations(states, events, n - 1) + |states[n].contents.Keys - states[n - 1].contents.Keys|
  }

  /** Every value ever created is live or has been freed, once. */
  lemma {:induction false} LiveOrFreed(states: seq<State>, events: seq<Event>, n: nat)
    requires IsTrace(states, events) && n <= |events|
    ensures |states[n].contents| + |states[n].freed| == Creations(states, events, n)
  {
    hide IsTrace, Steps;
    StepOfTrace(states, events, n);
    if n > 0 {
      LiveOrFreed(states, events, n - 1);
      StepConserves(states[n - 1], events[n - 1], states[n]);
    }
  }

  lemma StepConserves(s: State, event: Event, s': State)
    requires Steps(s, event, s')
    ensures |s'.contents| + |s'.freed| == |s.contents| + |s.freed| + |s'.contents.Keys - s.contents.Keys|
    ensures s.freed <= s'.freed
  {
    hide Answers, Without, After;
    if event.Pass? {
      var removed :| TimerPass(s, s', removed, event.now);
      WithoutFacts(s, removed, event.now);
      RemovedFromMap(s.contents, removed);
    } else {
      CommandConserves(s, event.cmd, event.w.now);
    }
  }

  lemma RemovedFromMap(contents: map<Name, Value>, removed: seq<Name>)
    requires HashChains.Distinct(removed) && forall i | 0 <= i < |removed| :: removed[i] in contents
    ensures |contents - Elements(removed)| + |removed| == |contents|
    ensures (contents - Elements(removed)).Keys - contents.Keys == {}
  {
    var gone := Elements(removed);
    HashChains.DistinctCount(removed, gone);
    assert contents.Keys == (contents - gone).Keys + gone;
  }

  lemma CommandConserves(s: State, cmd: Command, now: nat)
    ensures var s' := After(s, cmd, now);
            && |s'.contents| + |s'.freed| == |s.contents| + |s.freed| + |s'.contents.Keys - s.contents.Keys|
            && s.freed <= s'.freed
  {
  }
}
