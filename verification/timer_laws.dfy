/** The deadlines of keys over a run: what PEXPIRE sets, what PTTL answers, and when a key expires. */
module TimerLaws {
  import opened Pairs
  import opened Wire
  import HashChains
  import opened Semantics
  import Expiry
  import opened Histories
  import opened Laws

  /** PEXPIRE number i set a deadline, and nothing has replaced it or taken it or the key away before event n. */
  ghost predicate TimerInForce(states: seq<State>, events: seq<Event>, key: Name, i: nat, n: nat)
    requires |states| == |events| + 1 && n <= |events|
  {
    && i < n && SetsTimer(events[i], key) && events[i].cmd.ttl >= 0 && events[i].reply == Int(1)
    && forall j | i < j < n :: !SetsTimer(events[j], key) && !Ends(states, events, key, j)
  }

  lemma KeyStep(states: seq<State>, events: seq<Event>, key: Name, n: nat)
    requires IsRun(states, events, n) && n > 0 && key in states[n - 1].contents
    ensures key in states[n].contents <==> !Ends(states, events, key, n - 1)
  {
    hide Steps;
    TextStep(states, events, key, n);
    SetExistsStep(states, events, key, n);
    if events[n - 1].Do? && !Ends(states, events, key, n - 1) {
      StepAt(states, events, n - 1);
      KeyStays(states[n - 1], events[n - 1], states[n], key);
    }
  }

  lemma KeyStays(s: State, event: Event, s': State, key: Name)
    requires Steps(s, event, s') && event.Do? && event.cmd != Del(key) && key in s.contents
    ensures key in s'.contents
  {
    hide Answers;
  }

  lemma {:induction false} KeyStaysAlong(states: seq<State>, events: seq<Event>, key: Name, i: nat, n: nat)
    requires IsRun(states, events, n) && i <= n && key in states[i].contents
    requires forall j | i <= j < n :: !Ends(states, events, key, j)
    ensures forall j | i <= j <= n :: key in states[j].contents
  {
    hide Steps, Ends;
    if i < n {
      KeyStaysAlong(states, events, key, i, n - 1);
      KeyStep(states, events, key, n);
    }
  }

  /** PEXPIRE answers 1 exactly when the key holds something. */
  lemma ExpireLaw(states: seq<State>, events: seq<Event>, key: Name, ttl: i64, n: nat)
    requires IsRun(states, events, n) && Asks(events, n, Expire(key, ttl))
    ensures events[n].reply == Int(if Holds(states, events, key, n) then 1 else 0)
  {
    hide Steps, HoldsText, HoldsSet;
    StepAt(states, events, n);
    ReplyIs(states[n], events[n], states[n + 1]);
    KindOfKey(states, events, key, n);
  }

  lemma TimersAgree(states: seq<State>, events: seq<Event>, key: Name, i: nat, n: nat)
    requires IsRun(states, events, n)
    ensures TimerInForce(states, events, key, i, n) <==> InForce(states, events, key, i, n)
  {
    hide Steps, Ends;
    if i < n && SetsTimer(events[i], key) {
      ExpireLaw(states, events, key, events[i].cmd.ttl, i);
      KindOfKey(states, events, key, i);
      NotEnded(states, events, key, i);
      if TimerInForce(states, events, key, i, n) {
        KeyStaysAlong(states, events, key, i, n);
      }
      if InForce(states, events, key, i, n) {
        forall j | i < j < n ensures !Ends(states, events, key, j) {
          KeyStep(states, events, key, j + 1);
        }
      }
    }
  }

  lemma NotEnded(states: seq<State>, events: seq<Event>, key: Name, i: nat)
    requires |states| == |events| + 1 && i < |events| && SetsTimer(events[i], key)
    ensures !Ends(states, events, key, i)
  {
  }

  /** The deadline that a PEXPIRE in force has set: its time plus its ttl, in 64 bits. */
  lemma DeadlineLaw(states: seq<State>, events: seq<Event>, key: Name, i: nat, n: nat)
    requires IsRun(states, events, n) && TimerInForce(states, events, key, i, n)
    ensures key in states[n].deadlines && states[n].deadlines[key] < UINT64_RANGE
    ensures var sum := events[i].w.now + events[i].cmd.ttl;
            && (sum < UINT64_RANGE ==> states[n].deadlines[key] == sum)
            && (sum - states[n].deadlines[key]) % UINT64_RANGE == 0
  {
    hide Steps, Deadline;
    TimersAgree(states, events, key, i, n);
    ExpireInForceIsDeadline(states, events, key, i, n);
    DeadlineIsSum(events[i].w.now, events[i].cmd.ttl);
  }

  /** A deadline comes from a PEXPIRE in force. */
  lemma TimerIsFromExpire(states: seq<State>, events: seq<Event>, key: Name, n: nat) returns (i: nat)
    requires IsRun(states, events, n)
    ensures key in states[n].deadlines ==>
              key in states[n].contents && TimerInForce(states, events, key, i, n)
  {
    hide Steps;
    i := DeadlineIsFromExpire(states, events, key, n);
    TimersAgree(states, events, key, i, n);
  }

  /**
   PTTL answers -2 for a key that holds nothing, -1 when no PEXPIRE is in force, and otherwise what is left at time t of
   the ttl given at time u, that is u + ttl - t, or 0; provided that the sum and the rest have 64 bits, with a sign.
   */
  lemma TtlLaw(states: seq<State>, events: seq<Event>, key: Name, n: nat)
    requires IsRun(states, events, n) && Asks(events, n, Ttl(key))
    ensures !Holds(states, events, key, n) ==> events[n].reply == Int(-2)
    ensures Holds(states, events, key, n) && (forall i: nat :: !TimerInForce(states, events, key, i, n)) ==>
              events[n].reply == Int(-1)
    ensures forall i: nat | TimerInForce(states, events, key, i, n) ::
              var left := events[i].w.now + events[i].cmd.ttl - events[n].w.now;
              events[i].w.now + events[i].cmd.ttl < UINT64_RANGE && left < UINT64_RANGE / 2 ==>
                events[n].reply.Int? && events[n].reply.n == if left > 0 then left else 0
  {
    hide Steps, HoldsText, HoldsSet, Ends;
    StepAt(states, events, n);
    ReplyIs(states[n], events[n], states[n + 1]);
    KindOfKey(states, events, key, n);
    var latest := TimerIsFromExpire(states, events, key, n);
    forall i: nat | TimerInForce(states, events, key, i, n)
      ensures key in states[n].contents && key in states[n].deadlines
      ensures var sum := events[i].w.now + events[i].cmd.ttl;
              sum < UINT64_RANGE ==> states[n].deadlines[key] == sum
    {
      TimersAgree(states, events, key, i, n);
      DeadlineLaw(states, events, key, i, n);
    }
  }

  // ---- expiry ----

  /** The deadline of the PEXPIRE, when the sum has 64 bits, is before the time t. */
  predicate IsDue(event: Event, t: nat)
    requires event.Do? && event.cmd.Expire?
  {
    event.w.now + event.cmd.ttl < t
  }

  predicate InRange(event: Event)
    requires event.Do? && event.cmd.Expire?
  {
    event.w.now + event.cmd.ttl < UINT64_RANGE
  }

  /** How many keys a timer pass has taken away. */
  ghost function Gone(states: seq<State>, n: nat): set<Name>
    requires n + 1 < |states|
  {
    states[n].contents.Keys - states[n + 1].contents.Keys
  }

  lemma PassFacts(s: State, event: Event, s': State)
    requires Steps(s, event, s') && event.Pass?
    ensures var gone := s.contents.Keys - s'.contents.Keys;
            && (forall key | key in gone :: key in s.deadlines && s.deadlines[key] < event.now)
            && |gone| <= 2001
            && forall key | key in s.contents && key in s.deadlines && s.deadlines[key] < event.now && key !in gone ::
                 |gone| == 2001 && forall k | k in gone :: s.deadlines[k] <= s.deadlines[key]
  {
    hide Expiry.TimerPass, Expiry.Elements;
    var removed :| Expiry.TimerPass(s, s', removed, event.now);
    RemovedAreGone(s, s', removed, event.now);
    RemovedWereDue(s, s', removed, event.now);
  }

  lemma RemovedAreGone(s: State, s': State, removed: seq<Name>, now: nat)
    requires Expiry.TimerPass(s, s', removed, now)
    ensures s.contents.Keys - s'.contents.Keys == Expiry.Elements(removed)
  {
    hide Expiry.Without;
    Expiry.WithoutFacts(s, removed, now);
    assert Expiry.Elements(removed) <= s.contents.Keys;
  }

  lemma RemovedWereDue(s: State, s': State, removed: seq<Name>, now: nat)
    requires Expiry.TimerPass(s, s', removed, now)
    ensures var gone := Expiry.Elements(removed);
            && |gone| == |removed| <= 2001
            && (forall key | key in gone :: key in s.deadlines && s.deadlines[key] < now)
            && forall key | key in s.deadlines && s.deadlines[key] < now && key !in gone ::
                 |gone| == 2001 && forall k | k in gone :: s.deadlines[k] <= s.deadlines[key]
  {
    hide Expiry.Without, HashChains.Distinct;
    Expiry.RestIsLater(s, removed, now);
    Expiry.DistinctCountOf(removed);
  }

  /**
   A timer pass takes a key away only when its deadline has passed. When it leaves one behind whose deadline has passed,
   it has taken 2001 others, all of them with earlier deadlines.
   */
  lemma ExpiryLaw(states: seq<State>, events: seq<Event>, key: Name, i: nat, n: nat)
    requires IsRun(states, events, n) && n < |events| && events[n].Pass?
    requires TimerInForce(states, events, key, i, n) && InRange(events[i])
    ensures Ends(states, events, key, n) ==> IsDue(events[i], events[n].now)
    ensures IsDue(events[i], events[n].now) && !Ends(states, events, key, n) ==>
              && |Gone(states, n)| == 2001
              && forall k, j: nat |
                   k in Gone(states, n) && TimerInForce(states, events, k, j, n) && InRange(events[j]) ::
                   events[j].w.now + events[j].cmd.ttl <= events[i].w.now + events[i].cmd.ttl
  {
    hide Steps;
    StepAt(states, events, n);
    PassFacts(states[n], events[n], states[n + 1]);
    TimersAgree(states, events, key, i, n);
    DeadlineLaw(states, events, key, i, n);
    forall k, j: nat | TimerInForce(states, events, k, j, n) && InRange(events[j])
      ensures key in states[n].deadlines && k in states[n].deadlines
      ensures states[n].deadlines[k] == events[j].w.now + events[j].cmd.ttl
    {
      DeadlineLaw(states, events, k, j, n);
    }
  }

  /** A key without a deadline never expires. */
  lemma NothingElseExpires(states: seq<State>, events: seq<Event>, key: Name, n: nat) returns (i: nat)
    requires IsRun(states, events, n) && n < |events| && events[n].Pass? && Ends(states, events, key, n)
    ensures TimerInForce(states, events, key, i, n)
  {
    hide Steps;
    StepAt(states, events, n);
    PassFacts(states[n], events[n], states[n + 1]);
    i := TimerIsFromExpire(states, events, key, n);
  }
}
