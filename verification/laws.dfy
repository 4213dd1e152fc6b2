/** What clients may rely on: every reply over a run, in terms of the requests before it. */
module Laws {
  import opened Pairs
  import opened Wire
  import opened Ranking
  import opened Semantics
  import Expiry
  import opened Histories

  ghost predicate IsRun(states: seq<State>, events: seq<Event>, n: nat) {
    IsTrace(states, events) && n <= |events|
  }

  /** Event number j is a request for this command. */
  ghost predicate Asks(events: seq<Event>, j: nat, cmd: Command) {
    j < |events| && events[j].Do? && events[j].cmd == cmd
  }

  ghost predicate Sets(event: Event, key: Name) {
    event.Do? && event.cmd.Set? && event.cmd.key == key
  }

  ghost predicate Adds(event: Event, key: Name) {
    event.Do? && event.cmd.ZAdd? && event.cmd.key == key
  }

  ghost predicate Rescores(event: Event, key: Name, name: Name) {
    Adds(event, key) && event.cmd.name == name
  }

  ghost predicate Removes(event: Event, key: Name, name: Name) {
    event.Do? && event.cmd == ZRem(key, name)
  }

  /** Event number j takes the key away: a DEL, or a timer pass that removes it. */
  ghost predicate Ends(states: seq<State>, events: seq<Event>, key: Name, j: nat)
    requires |states| == |events| + 1 && j < |events|
  {
    match events[j]
    case Do(cmd, _, _) => cmd == Del(key)
    case Pass(_) => key in states[j].contents && key !in states[j + 1].contents
  }

  /** SET number i was accepted, and nothing has replaced the text or taken the key away before event n. */
  ghost predicate TextInForce(states: seq<State>, events: seq<Event>, key: Name, i: nat, n: nat)
    requires |states| == |events| + 1 && n <= |events|
  {
    && i < n && Sets(events[i], key) && !events[i].reply.Err?
    && forall j | i < j < n :: !Sets(events[j], key) && !Ends(states, events, key, j)
  }

  /** ZADD number i was accepted, and nothing has taken the key away before event n. */
  ghost predicate SetInForce(states: seq<State>, events: seq<Event>, key: Name, i: nat, n: nat)
    requires |states| == |events| + 1 && n <= |events|
  {
    && i < n && Adds(events[i], key) && !events[i].reply.Err?
    && forall j | i < j < n :: !Ends(states, events, key, j)
  }

  /** ZADD number i was accepted, and nothing has rescored or removed the member, or taken the key away, before n. */
  ghost predicate MemberInForce(states: seq<State>, events: seq<Event>, key: Name, name: Name, i: nat, n: nat)
    requires |states| == |events| + 1 && n <= |events|
  {
    && i < n && Rescores(events[i], key, name) && !events[i].reply.Err?
    && forall j | i < j < n ::
         !Rescores(events[j], key, name) && !Removes(events[j], key, name) && !Ends(states, events, key, j)
  }

  ghost predicate HoldsText(states: seq<State>, events: seq<Event>, key: Name, n: nat)
    requires |states| == |events| + 1 && n <= |events|
  {
    exists i: nat :: TextInForce(states, events, key, i, n)
  }

  ghost predicate HoldsSet(states: seq<State>, events: seq<Event>, key: Name, n: nat)
    requires |states| == |events| + 1 && n <= |events|
  {
    exists i: nat :: SetInForce(states, events, key, i, n)
  }

  ghost predicate HoldsMember(states: seq<State>, events: seq<Event>, key: Name, name: Name, n: nat)
    requires |states| == |events| + 1 && n <= |events|
  {
    exists i: nat :: MemberInForce(states, events, key, name, i, n)
  }

  ghost predicate Holds(states: seq<State>, events: seq<Event>, key: Name, n: nat)
    requires |states| == |events| + 1 && n <= |events|
  {
    HoldsText(states, events, key, n) || HoldsSet(states, events, key, n)
  }

  // ---- one event ----

  predicate IsScored(s: State, key: Name) {
    key in s.contents && s.contents[key].Scored?
  }

  /** The value of the key, or its absence, is the same. */
  ghost predicate Same(s: State, s': State, key: Name) {
    (key in s'.contents <==> key in s.contents) && (key in s.contents ==> s'.contents[key] == s.contents[key])
  }

  /** The command may change the value of this key. */
  ghost predicate Writes(event: Event, key: Name) {
    event.Do? && (event.cmd.Set? || event.cmd.Del? || event.cmd.ZAdd? || event.cmd.ZRem?) && event.cmd.key == key
  }

  /** A command changes no other key, neither its value nor its deadline. */
  lemma OtherKeysStay(s: State, event: Event, s': State, key: Name)
    requires Steps(s, event, s') && event.Do?
    ensures !Writes(event, key) ==> Same(s, s', key)
    ensures !Writes(event, key) && !SetsTimer(event, key) ==>
              && (key in s'.deadlines <==> key in s.deadlines)
              && (key in s.deadlines ==> s'.deadlines[key] == s.deadlines[key])
  {
    hide Answers;
  }

  /** A timer pass changes no value, it only takes keys away. */
  lemma PassOnlyRemoves(s: State, event: Event, s': State, key: Name)
    requires Steps(s, event, s') && event.Pass?
    ensures key in s'.contents ==> Same(s, s', key)
  {
    hide Expiry.Earliest, Expiry.Without;
    var removed :| Expiry.TimerPass(s, s', removed, event.now);
    Expiry.WithoutFacts(s, removed, event.now);
  }

  lemma ReplyIs(s: State, event: Event, s': State)
    requires Steps(s, event, s') && event.Do? && !event.cmd.Keys?
    ensures event.reply == Answer(s, event.cmd, event.w, [])
  {
    hide After, IsOrder;
  }

  lemma SetStep(s: State, event: Event, s': State, key: Name)
    requires Steps(s, event, s') && Sets(event, key)
    ensures event.reply.Err? <==> IsScored(s, key)
    ensures if IsScored(s, key) then Same(s, s', key)
            else key in s'.contents && s'.contents[key] == Text(event.cmd.text)
  {
    ReplyIs(s, event, s');
    hide Answers;
  }

  lemma AddStep(s: State, event: Event, s': State, key: Name)
    requires Steps(s, event, s') && Adds(event, key)
    ensures event.reply.Err? <==> IsText(s, key)
    ensures if IsText(s, key) then Same(s, s', key)
            else IsScored(s', key) && ScoresOf(s', key) == ScoresOf(s, key)[event.cmd.name := event.cmd.score]
  {
    ReplyIs(s, event, s');
    hide Answers;
  }

  lemma RemStep(s: State, event: Event, s': State, key: Name, name: Name)
    requires Steps(s, event, s') && Removes(event, key, name)
    ensures if IsScored(s, key) then IsScored(s', key) && ScoresOf(s', key) == ScoresOf(s, key) - {name}
            else Same(s, s', key)
  {
    hide Answers;
  }

  lemma DelStep(s: State, event: Event, s': State, key: Name)
    requires Steps(s, event, s') && event.Do? && event.cmd == Del(key)
    ensures key !in s'.contents
  {
    hide Answers;
  }

  /** What any event makes of a text. */
  lemma TextStep(states: seq<State>, events: seq<Event>, key: Name, n: nat)
    requires IsRun(states, events, n) && n > 0
    ensures var s, s', event := states[n - 1], states[n], events[n - 1];
            && (IsText(s', key) <==> if Sets(event, key) then !event.reply.Err?
                                     else IsText(s, key) && !Ends(states, events, key, n - 1))
            && (IsText(s', key) ==>
                  s'.contents[key] == if Sets(event, key) then Text(event.cmd.text) else s.contents[key])
  {
    hide Steps;
    var s, s', event := states[n - 1], states[n], events[n - 1];
    assert Steps(s, event, s');
    if event.Pass? {
      PassOnlyRemoves(s, event, s', key);
    } else if Sets(event, key) {
      SetStep(s, event, s', key);
    } else if Adds(event, key) {
      AddStep(s, event, s', key);
    } else if event.cmd.ZRem? && event.cmd.key == key {
      RemStep(s, event, s', key, event.cmd.name);
    } else if event.cmd == Del(key) {
      DelStep(s, event, s', key);
    } else {
      OtherKeysStay(s, event, s', key);
    }
  }

  /** What any event makes of a sorted set as such. */
  lemma SetExistsStep(states: seq<State>, events: seq<Event>, key: Name, n: nat)
    requires IsRun(states, events, n) && n > 0
    ensures var s, s', event := states[n - 1], states[n], events[n - 1];
            IsScored(s', key) <==>
              (Adds(event, key) && !event.reply.Err?) || (IsScored(s, key) && !Ends(states, events, key, n - 1))
  {
    hide Steps;
    var s, s', event := states[n - 1], states[n], events[n - 1];
    assert Steps(s, event, s');
    if event.Pass? {
      PassOnlyRemoves(s, event, s', key);
    } else if Sets(event, key) {
      SetStep(s, event, s', key);
    } else if Adds(event, key) {
      AddStep(s, event, s', key);
    } else if event.cmd.ZRem? && event.cmd.key == key {
      RemStep(s, event, s', key, event.cmd.name);
    } else if event.cmd == Del(key) {
      DelStep(s, event, s', key);
    } else {
      OtherKeysStay(s, event, s', key);
    }
  }

  /** What any event makes of a member. */
  lemma MemberStep(states: seq<State>, events: seq<Event>, key: Name, name: Name, n: nat)
    requires IsRun(states, events, n) && n > 0
    ensures var before, after, event := ScoresOf(states[n - 1], key), ScoresOf(states[n], key), events[n - 1];
            && (name in after <==>
                  if Rescores(event, key, name) then !event.reply.Err?
                  else name in before && !Removes(event, key, name) && !Ends(states, events, key, n - 1))
            && (name in after ==> after[name] == if Rescores(event, key, name) then event.cmd.score else before[name])
  {
    hide Steps;
    var s, s', event := states[n - 1], states[n], events[n - 1];
    assert Steps(s, event, s');
    if event.Pass? {
      PassOnlyRemoves(s, event, s', key);
    } else if Sets(event, key) {
      SetStep(s, event, s', key);
    } else if Adds(event, key) {
      AddStep(s, event, s', key);
    } else if event.cmd.ZRem? && event.cmd.key == key {
      RemStep(s, event, s', key, event.cmd.name);
    } else if event.cmd == Del(key) {
      DelStep(s, event, s', key);
    } else {
      OtherKeysStay(s, event, s', key);
    }
  }

  // ---- the state in terms of the requests ----

  lemma {:induction false} TextIsFromSet(states: seq<State>, events: seq<Event>, key: Name, n: nat) returns (i: nat)
    requires IsRun(states, events, n)
    ensures IsText(states[n], key) ==>
              TextInForce(states, events, key, i, n) && states[n].contents[key] == Text(events[i].cmd.text)
  {
    hide Steps;
    i := 0;
    if n > 0 {
      i := TextIsFromSet(states, events, key, n - 1);
      hide Ends;
      TextStep(states, events, key, n);
      if Sets(events[n - 1], key) {
        i := n - 1;
      }
    }
  }

  lemma {:induction false} SetInForceIsText(states: seq<State>, events: seq<Event>, key: Name, i: nat, n: nat)
    requires IsRun(states, events, n) && TextInForce(states, events, key, i, n)
    ensures IsText(states[n], key) && states[n].contents[key] == Text(events[i].cmd.text)
  {
    hide Steps, Ends;
    if i < n - 1 {
      SetInForceIsText(states, events, key, i, n - 1);
    }
    TextStep(states, events, key, n);
  }

  lemma {:induction false} SetIsFromAdd(states: seq<State>, events: seq<Event>, key: Name, n: nat) returns (i: nat)
    requires IsRun(states, events, n)
    ensures IsScored(states[n], key) ==> SetInForce(states, events, key, i, n)
  {
    hide Steps;
    i := 0;
    if n > 0 {
      i := SetIsFromAdd(states, events, key, n - 1);
      hide Ends;
      SetExistsStep(states, events, key, n);
      if Adds(events[n - 1], key) && !events[n - 1].reply.Err? {
        i := n - 1;
      }
    }
  }

  lemma {:induction false} AddInForceIsSet(states: seq<State>, events: seq<Event>, key: Name, i: nat, n: nat)
    requires IsRun(states, events, n) && SetInForce(states, events, key, i, n)
    ensures IsScored(states[n], key)
  {
    hide Steps, Ends;
    if i < n - 1 {
      AddInForceIsSet(states, events, key, i, n - 1);
    }
    SetExistsStep(states, events, key, n);
  }

  lemma {:induction false} MemberIsFromAdd(states: seq<State>, events: seq<Event>, key: Name, name: Name, n: nat)
    returns (i: nat)
    requires IsRun(states, events, n)
    ensures name in ScoresOf(states[n], key) ==>
              && MemberInForce(states, events, key, name, i, n)
              && ScoresOf(states[n], key)[name] == events[i].cmd.score
  {
    hide Steps;
    i := 0;
    if n > 0 {
      i := MemberIsFromAdd(states, events, key, name, n - 1);
      hide Ends, ScoresOf;
      MemberStep(states, events, key, name, n);
      if Rescores(events[n - 1], key, name) {
        i := n - 1;
      }
    }
  }

  lemma {:induction false} AddInForceIsMember(states: seq<State>, events: seq<Event>, key: Name, name: Name, i: nat,
                                              n: nat)
    requires IsRun(states, events, n) && MemberInForce(states, events, key, name, i, n)
    ensures name in ScoresOf(states[n], key) && ScoresOf(states[n], key)[name] == events[i].cmd.score
  {
    hide Steps, Ends, ScoresOf;
    if i < n - 1 {
      AddInForceIsMember(states, events, key, name, i, n - 1);
    }
    MemberStep(states, events, key, name, n);
  }

  /** Whether a key is there, and of which kind, is decided by the requests. */
  lemma KindOfKey(states: seq<State>, events: seq<Event>, key: Name, n: nat)
    requires IsRun(states, events, n)
    ensures HoldsText(states, events, key, n) <==> IsText(states[n], key)
    ensures HoldsSet(states, events, key, n) <==> IsScored(states[n], key)
    ensures Holds(states, events, key, n) <==> key in states[n].contents
  {
    hide Steps, TextInForce, SetInForce;
    var t := TextIsFromSet(states, events, key, n);
    var a := SetIsFromAdd(states, events, key, n);
    forall i: nat | TextInForce(states, events, key, i, n) ensures IsText(states[n], key) {
      SetInForceIsText(states, events, key, i, n);
    }
    forall i: nat | SetInForce(states, events, key, i, n) ensures IsScored(states[n], key) {
      AddInForceIsSet(states, events, key, i, n);
    }
  }

  lemma MembersOfKey(states: seq<State>, events: seq<Event>, key: Name, name: Name, n: nat)
    requires IsRun(states, events, n)
    ensures HoldsMember(states, events, key, name, n) <==> name in ScoresOf(states[n], key)
    ensures forall i: nat | MemberInForce(states, events, key, name, i, n) ::
              name in ScoresOf(states[n], key) && events[i].Do? && events[i].cmd.ZAdd?
              && ScoresOf(states[n], key)[name] == events[i].cmd.score
  {
    hide Steps, Ends, ScoresOf;
    var a := MemberIsFromAdd(states, events, key, name, n);
    forall i: nat | MemberInForce(states, events, key, name, i, n)
      ensures name in ScoresOf(states[n], key) && ScoresOf(states[n], key)[name] == events[i].cmd.score
    {
      AddInForceIsMember(states, events, key, name, i, n);
    }
  }

  lemma StepAt(states: seq<State>, events: seq<Event>, n: nat)
    requires IsRun(states, events, n) && n < |events|
    ensures Steps(states[n], events[n], states[n + 1])
  {
  }

  // ---- the replies ----

  const NOT_A_SET := Err(ERR_BAD_TYP, Ascii("expect zset"))

  /** GET answers with the text of the latest SET in force. */
  lemma GetLaw(states: seq<State>, events: seq<Event>, key: Name, n: nat)
    requires IsRun(states, events, n) && Asks(events, n, Get(key))
    ensures forall i: nat | TextInForce(states, events, key, i, n) :: events[n].reply == Str(events[i].cmd.text)
    ensures HoldsSet(states, events, key, n) ==> events[n].reply == Err(ERR_BAD_TYP, Ascii("not a string value"))
    ensures !Holds(states, events, key, n) ==> events[n].reply == Nil
  {
    hide Steps, Ends, Ascii, HoldsText, HoldsSet;
    StepAt(states, events, n);
    ReplyIs(states[n], events[n], states[n + 1]);
    KindOfKey(states, events, key, n);
    forall i: nat | TextInForce(states, events, key, i, n)
      ensures IsText(states[n], key) && states[n].contents[key] == Text(events[i].cmd.text)
    {
      SetInForceIsText(states, events, key, i, n);
    }
  }

  /** SET is refused exactly when the key holds a set. */
  lemma SetLaw(states: seq<State>, events: seq<Event>, key: Name, text: Name, n: nat)
    requires IsRun(states, events, n) && Asks(events, n, Set(key, text))
    ensures events[n].reply == if HoldsSet(states, events, key, n)
                               then Err(ERR_BAD_TYP, Ascii("a non-string value exists")) else Nil
  {
    hide Steps, Ascii, HoldsText, HoldsSet;
    StepAt(states, events, n);
    ReplyIs(states[n], events[n], states[n + 1]);
    KindOfKey(states, events, key, n);
  }

  /** DEL answers 1 exactly when the key holds something. */
  lemma DelLaw(states: seq<State>, events: seq<Event>, key: Name, n: nat)
    requires IsRun(states, events, n) && Asks(events, n, Del(key))
    ensures events[n].reply == Int(if Holds(states, events, key, n) then 1 else 0)
  {
    hide Steps, HoldsText, HoldsSet;
    StepAt(states, events, n);
    ReplyIs(states[n], events[n], states[n + 1]);
    KindOfKey(states, events, key, n);
  }

  /** ZADD is refused when the key holds a text, and answers 1 exactly when the member is new. */
  lemma ZAddLaw(states: seq<State>, events: seq<Event>, key: Name, score: int, name: Name, n: nat)
    requires IsRun(states, events, n) && Asks(events, n, ZAdd(key, score, name))
    ensures events[n].reply == if HoldsText(states, events, key, n) then NOT_A_SET
                               else Int(if HoldsMember(states, events, key, name, n) then 0 else 1)
  {
    hide Steps, Ascii, HoldsText, HoldsSet, HoldsMember, ScoresOf, MemberInForce;
    StepAt(states, events, n);
    ReplyIs(states[n], events[n], states[n + 1]);
    KindOfKey(states, events, key, n);
    MembersOfKey(states, events, key, name, n);
  }

  /** ZREM answers 1 exactly when the member is there. */
  lemma ZRemLaw(states: seq<State>, events: seq<Event>, key: Name, name: Name, n: nat)
    requires IsRun(states, events, n) && Asks(events, n, ZRem(key, name))
    ensures events[n].reply == if HoldsText(states, events, key, n) then NOT_A_SET
                               else Int(if HoldsMember(states, events, key, name, n) then 1 else 0)
  {
    hide Steps, Ascii, HoldsText, HoldsSet, HoldsMember, ScoresOf, MemberInForce;
    StepAt(states, events, n);
    ReplyIs(states[n], events[n], states[n + 1]);
    KindOfKey(states, events, key, n);
    MembersOfKey(states, events, key, name, n);
  }

  /** ZSCORE answers with the score of the latest ZADD of the member in force. */
  lemma ZScoreLaw(states: seq<State>, events: seq<Event>, key: Name, name: Name, n: nat)
    requires IsRun(states, events, n) && Asks(events, n, ZScore(key, name))
    ensures forall i: nat | MemberInForce(states, events, key, name, i, n) ::
              events[n].reply == Dbl(events[n].w.bits(events[i].cmd.score))
    ensures !HoldsMember(states, events, key, name, n) ==>
              events[n].reply == if HoldsText(states, events, key, n) then NOT_A_SET else Nil
  {
    hide Steps, Ascii, HoldsText, HoldsSet, ScoresOf, MemberInForce;
    StepAt(states, events, n);
    ReplyIs(states[n], events[n], states[n + 1]);
    KindOfKey(states, events, key, n);
    MembersOfKey(states, events, key, name, n);
    TextHasNoMembers(states[n], key, name);
  }

  lemma TextHasNoMembers(s: State, key: Name, name: Name)
    ensures name in ScoresOf(s, key) ==> !IsText(s, key)
  {
  }

  /** KEYS lists exactly the keys that hold something, each once. */
  lemma KeysLaw(states: seq<State>, events: seq<Event>, n: nat)
    requires IsRun(states, events, n) && Asks(events, n, Keys)
    ensures events[n].reply.Arr? && forall i | 0 <= i < |events[n].reply.items| :: events[n].reply.items[i].Str?
    ensures var items := events[n].reply.items; forall i, j | 0 <= i < j < |items| :: items[i] != items[j]
    ensures forall key :: Str(key) in events[n].reply.items <==> Holds(states, events, key, n)
  {
    hide Steps, Holds;
    StepAt(states, events, n);
    var order := OrderOf(states[n], events[n], states[n + 1]);
    var items := events[n].reply.items;
    assert forall i | 0 <= i < |items| :: items[i] == Str(order[i]);
    forall key ensures Str(key) in items <==> Holds(states, events, key, n) {
      KindOfKey(states, events, key, n);
      assert key in order ==> exists i :: 0 <= i < |items| && items[i] == Str(key);
    }
  }

  lemma OrderOf(s: State, event: Event, s': State) returns (order: seq<Name>)
    requires Steps(s, event, s') && event.Do? && event.cmd.Keys?
    ensures event.reply == Arr(Texts(order)) && IsOrder(order, s.contents)
  {
    hide After, IsOrder, Texts;
    order :| IsOrder(order, s.contents) && event.reply == Answer(s, event.cmd, event.w, order);
  }

  /** The commands that need a set refuse a text. */
  lemma TextIsNotASet(states: seq<State>, events: seq<Event>, n: nat)
    requires IsRun(states, events, n) && n < |events| && events[n].Do?
    requires var cmd := events[n].cmd;
             && (cmd.ZAdd? || cmd.ZRem? || cmd.ZScore? || cmd.ZQuery? || cmd.ZRank? || cmd.ZCount?)
             && HoldsText(states, events, cmd.key, n)
    ensures events[n].reply == NOT_A_SET
  {
    hide Steps, Ascii, HoldsText, HoldsSet;
    StepAt(states, events, n);
    ReplyIs(states[n], events[n], states[n + 1]);
    KindOfKey(states, events, events[n].cmd.key, n);
  }

  // ---- ordered answers ----

  /** The members of a key in force and their scores, in order. */
  ghost predicate ListsMembers(states: seq<State>, events: seq<Event>, key: Name, n: nat, ps: seq<Pair>)
    requires |states| == |events| + 1 && n <= |events|
  {
    && Ascending(ps)
    && (forall p | p in ps ::
          exists i: nat :: MemberInForce(states, events, key, p.name, i, n) && events[i].cmd.score == p.score)
    && forall name :: HoldsMember(states, events, key, name, n) ==> exists p :: p in ps && p.name == name
  }

  lemma ListIsSortedList(states: seq<State>, events: seq<Event>, key: Name, n: nat, ps: seq<Pair>)
    requires IsRun(states, events, n) && ListsMembers(states, events, key, n, ps)
    ensures Lists(ScoresOf(states[n], key), ps) && SortedList(ScoresOf(states[n], key)) == ps
  {
    hide Steps, Ascending, MemberInForce, HoldsMember, ScoresOf;
    var scores := ScoresOf(states[n], key);
    forall p | p in ps ensures p.name in scores && scores[p.name] == p.score {
      MembersOfKey(states, events, key, p.name, n);
    }
    forall name | name in scores ensures Pair(scores[name], name) in ps {
      MembersOfKey(states, events, key, name, n);
      var p :| p in ps && p.name == name;
    }
    SortedListIs(scores, ps);
  }

  /** There is such a list. */
  lemma MembersHaveList(states: seq<State>, events: seq<Event>, key: Name, n: nat) returns (ps: seq<Pair>)
    requires IsRun(states, events, n)
    ensures ListsMembers(states, events, key, n, ps)
  {
    hide Steps, Ascending, Ends, HoldsMember, ScoresOf;
    var scores := ScoresOf(states[n], key);
    ps := EveryMapIsListed(scores);
    forall p | p in ps
      ensures exists i: nat :: MemberInForce(states, events, key, p.name, i, n) && events[i].cmd.score == p.score
    {
      var i := MemberIsFromAdd(states, events, key, p.name, n);
    }
    forall name | HoldsMember(states, events, key, name, n) ensures exists p :: p in ps && p.name == name {
      MembersOfKey(states, events, key, name, n);
    }
  }

  /** ZRANK answers with the place of the member in the list. */
  lemma ZRankLaw(states: seq<State>, events: seq<Event>, key: Name, name: Name, n: nat, ps: seq<Pair>)
    requires IsRun(states, events, n) && Asks(events, n, ZRank(key, name))
    requires ListsMembers(states, events, key, n, ps) && |ps| < UINT32_RANGE
    ensures forall k: nat | k < |ps| && ps[k].name == name :: events[n].reply == Int(k)
    ensures (forall k: nat | k < |ps| :: ps[k].name != name) ==>
              events[n].reply == if HoldsText(states, events, key, n) then NOT_A_SET else Nil
  {
    hide Steps, Ascii, HoldsText, HoldsSet, ScoresOf, Lists, ListsMembers;
    StepAt(states, events, n);
    ReplyIs(states[n], events[n], states[n + 1]);
    KindOfKey(states, events, key, n);
    ListIsSortedList(states, events, key, n, ps);
    TextHasNoMembers(states[n], key, name);
    NameInList(ScoresOf(states[n], key), ps, name);
  }

  lemma NameInList(scores: Scores, ps: seq<Pair>, name: Name)
    requires Lists(scores, ps) && |ps| < UINT32_RANGE
    ensures name in scores <==> exists k: nat :: k < |ps| && ps[k].name == name
    ensures forall k: nat | k < |ps| && ps[k].name == name :: ToI64(Rank(ps, Pair(scores[name], name))) == k
  {
    hide ZLess, Rank, Ascending;
    ListIsAscending(scores, ps);
    forall k: nat | k < |ps| && ps[k].name == name
      ensures name in scores && ToI64(Rank(ps, Pair(scores[name], name))) == k
    {
      assert ps[k] in ps;
      RankOfPlace(ps, k);
    }
    if name in scores {
      assert Pair(scores[name], name) in ps;
    }
  }

  lemma RankOfPlace(ps: seq<Pair>, k: nat)
    requires Ascending(ps) && k < |ps|
    ensures Rank(ps, ps[k]) == k
  {
    hide ZLess;
    ZLessIsStrictTotalOrder(ps[k], ps[k], ps[k]);
    RankIsSplit(ps, ps[k], k);
  }

  /** ZCOUNT counts the members in the range, except that it answers 0 when none is at or behind its end. */
  lemma ZCountLaw(states: seq<State>, events: seq<Event>, key: Name, from: Pair, to: Pair, n: nat, ps: seq<Pair>)
    requires IsRun(states, events, n) && Asks(events, n, ZCount(key, from, to)) && !HoldsText(states, events, key, n)
    requires ListsMembers(states, events, key, n, ps) && |ps| < UINT32_RANGE
    ensures events[n].reply.Int?
    ensures events[n].reply.n ==
            if forall p | p in ps :: ZLess(p, to) then 0 else |set p | p in ps && !ZLess(p, from) && ZLess(p, to)|
  {
    hide Steps, Ascii, HoldsText, HoldsSet, ScoresOf, Lists, ListsMembers, ZLess, CountAnswer;
    StepAt(states, events, n);
    ReplyIs(states[n], events[n], states[n + 1]);
    KindOfKey(states, events, key, n);
    ListIsSortedList(states, events, key, n, ps);
    ListIsAscending(ScoresOf(states[n], key), ps);
    CountAnswerIs(ps, from, to);
    AnswerIsSmall(ps, from, to);
  }

  lemma AnswerIsSmall(ps: seq<Pair>, from: Pair, to: Pair)
    requires Ascending(ps) && |ps| < UINT32_RANGE
    ensures ToI64(CountAnswer(ps, from, to)) == CountAnswer(ps, from, to)
  {
    hide ZLess, Rank;
    CountInPrefix(ps, from, to, |ps|);
    assert ps[..|ps|] == ps;
  }

  lemma ListIsAscending(scores: Scores, ps: seq<Pair>)
    requires Lists(scores, ps)
    ensures Ascending(ps)
  {
    hide ZLess;
  }

  /** How many members ZQUERY lists: those from `start` on, at most `limit`; none when the key sorts behind all. */
  function Listed(size: nat, rank: nat, start: int, limit: int): nat {
    if limit <= 0 || rank >= size || start < 0 || start >= size then 0 else Min(limit, size - start)
  }

  /** ZQUERY lists names and scores from `offset` places behind the first member that is not before the key. */
  lemma ZQueryLaw(states: seq<State>, events: seq<Event>, key: Name, from: Pair, offset: i64, limit: i64, n: nat,
                  ps: seq<Pair>, rank: nat)
    requires IsRun(states, events, n) && Asks(events, n, ZQuery(key, from, offset, limit))
    requires ListsMembers(states, events, key, n, ps) && !HoldsText(states, events, key, n)
    requires rank <= |ps| && forall k | 0 <= k < |ps| :: ZLess(ps[k], from) <==> k < rank
    ensures var start, reply := rank + offset, events[n].reply;
            var count := Listed(|ps|, rank, start, limit);
            && reply.Arr? && |reply.items| == 2 * count
            && forall k | 0 <= k < count ::
                 && reply.items[2 * k] == Str(ps[start + k].name)
                 && reply.items[2 * k + 1] == Dbl(events[n].w.bits(ps[start + k].score))
  {
    hide Steps, Ascii, HoldsText, HoldsSet, ScoresOf, Lists, ListsMembers, ZLess, Slice, Members;
    StepAt(states, events, n);
    ReplyIs(states[n], events[n], states[n + 1]);
    KindOfKey(states, events, key, n);
    ListIsSortedList(states, events, key, n, ps);
    SliceIs(ps, from, offset, limit, rank);
    MembersAre(Slice(ps, from, offset, limit), events[n].w.bits);
  }

  lemma {:induction false} MembersAre(ps: seq<Pair>, bits: int -> seq<byte>)
    ensures var items := Members(ps, bits);
            && |items| == 2 * |ps|
            && forall k | 0 <= k < |ps| :: items[2 * k] == Str(ps[k].name) && items[2 * k + 1] == Dbl(bits(ps[k].score))
  {
    if ps != [] {
      MembersAre(ps[..|ps| - 1], bits);
    }
  }
}
