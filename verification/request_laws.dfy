/** From the strings of a request to its reply, over whole runs. */
module RequestLaws {
  import opened Pairs
  import opened Wire
  import opened Requests
  import opened Ranking
  import opened Semantics
  import opened Dispatching
  import opened Histories
  import opened Laws
  import opened TimerLaws

  /** Event number j is the request with these strings, of which the first is the name. */
  ghost predicate Requested(events: seq<Event>, j: nat, args: Args, num: Numbers, name: string, count: nat) {
    && j < |events| && events[j].Do? && events[j].cmd == Dispatch(args, num)
    && |args| == count && Is(args, name, count) && (name, count) in COMMANDS
  }

  /** A request whose numbers cannot be parsed is refused, and changes nothing. */
  lemma BadNumbersAreRefused(states: seq<State>, events: seq<Event>, n: nat, msg: seq<byte>)
    requires Laws.IsRun(states, events, n) && Asks(events, n, BadArgument(msg))
    ensures events[n].reply == Err(ERR_BAD_ARG, msg) && states[n + 1] == states[n]
  {
    hide Steps;
    StepAt(states, events, n);
    ReplyIs(states[n], events[n], states[n + 1]);
    NothingChanges(states[n], events[n], states[n + 1]);
  }

  /** So is a request that is no command. */
  lemma UnknownIsRefused(states: seq<State>, events: seq<Event>, n: nat)
    requires Laws.IsRun(states, events, n) && Asks(events, n, Unknown)
    ensures events[n].reply == Err(ERR_UNKNOWN, Ascii("unknown command")) && states[n + 1] == states[n]
  {
    hide Steps, Ascii;
    StepAt(states, events, n);
    ReplyIs(states[n], events[n], states[n + 1]);
    NothingChanges(states[n], events[n], states[n + 1]);
  }

  lemma NothingChanges(s: State, event: Event, s': State)
    requires Steps(s, event, s') && event.Do? && (event.cmd.BadArgument? || event.cmd.Unknown?)
    ensures s' == s
  {
    hide Answers;
  }

  /**
   ZQUERY: cmd[1] is the key, (cmd[2], cmd[3]) the place to start from, cmd[4] the offset and cmd[5] the limit. Of the
   sorted list of the members in force, of which the first `rank` sort before that place, names and scores are listed
   from rank + offset on, at most limit of them.
   */
  lemma ZQueryRequest(states: seq<State>, events: seq<Event>, args: Args, num: Numbers, n: nat, ps: seq<Pair>,
                      rank: nat)
    requires Laws.IsRun(states, events, n) && Requested(events, n, args, num, "zquery", 6)
    requires num.dbl(args[2]).Just? && num.int64(args[4]).Just? && num.int64(args[5]).Just?
    requires ListsMembers(states, events, args[1], n, ps) && !HoldsText(states, events, args[1], n)
    requires rank <= |ps|
    requires forall k | 0 <= k < |ps| :: ZLess(ps[k], Pair(num.dbl(args[2]).value, args[3])) <==> k < rank
    ensures var start, limit, reply := rank + num.int64(args[4]).value, num.int64(args[5]).value, events[n].reply;
            var count := Listed(|ps|, rank, start, limit);
            && reply.Arr? && |reply.items| == 2 * count
            && forall k | 0 <= k < count ::
                 && reply.items[2 * k] == Str(ps[start + k].name)
                 && reply.items[2 * k + 1] == Dbl(events[n].w.bits(ps[start + k].score))
  {
    hide Laws.IsRun, Is, Dispatch, ListsMembers, HoldsText, ZLess;
    ArgumentsOfZQuery(args, num);
    var from := Pair(num.dbl(args[2]).value, args[3]);
    ZQueryLaw(states, events, args[1], from, num.int64(args[4]).value, num.int64(args[5]).value, n, ps, rank);
  }

  /** ZCOUNT: from (cmd[2], cmd[3]) on, before (cmd[4], cmd[5]). */
  lemma ZCountRequest(states: seq<State>, events: seq<Event>, args: Args, num: Numbers, n: nat, ps: seq<Pair>)
    requires Laws.IsRun(states, events, n) && Requested(events, n, args, num, "zcount", 6)
    requires num.dbl(args[2]).Just? && num.dbl(args[4]).Just?
    requires ListsMembers(states, events, args[1], n, ps) && !HoldsText(states, events, args[1], n)
    requires |ps| < UINT32_RANGE
    ensures events[n].reply.Int?
    ensures var from, to := Pair(num.dbl(args[2]).value, args[3]), Pair(num.dbl(args[4]).value, args[5]);
            events[n].reply.n ==
              if forall p | p in ps :: ZLess(p, to) then 0 else |set p | p in ps && !ZLess(p, from) && ZLess(p, to)|
  {
    hide Laws.IsRun, Is, Dispatch, ListsMembers, HoldsText, ZLess;
    ArgumentsOfZCount(args, num);
    var from, to := Pair(num.dbl(args[2]).value, args[3]), Pair(num.dbl(args[4]).value, args[5]);
    ZCountLaw(states, events, args[1], from, to, n, ps);
  }

  /** ZADD cmd[1] cmd[2] cmd[3] answers whether the member cmd[3] is new. */
  lemma ZAddRequest(states: seq<State>, events: seq<Event>, args: Args, num: Numbers, n: nat)
    requires Laws.IsRun(states, events, n) && Requested(events, n, args, num, "zadd", 4) && num.dbl(args[2]).Just?
    ensures events[n].reply == if HoldsText(states, events, args[1], n) then NOT_A_SET
                               else Int(if HoldsMember(states, events, args[1], args[3], n) then 0 else 1)
  {
    hide Laws.IsRun, Is, Dispatch, HoldsText, HoldsMember, Ascii;
    ArgumentsOfZAdd(args, num);
    ZAddLaw(states, events, args[1], num.dbl(args[2]).value, args[3], n);
  }

  /** ZSCORE finds the score that the strings of the ZADD in force gave. */
  lemma ZScoreRequest(states: seq<State>, events: seq<Event>, added: Args, asked: Args, num: Numbers, i: nat, n: nat)
    requires Laws.IsRun(states, events, n) && Requested(events, i, added, num, "zadd", 4)
    requires Requested(events, n, asked, num, "zscore", 3) && asked[1] == added[1] && asked[2] == added[3]
    requires MemberInForce(states, events, added[1], added[3], i, n)
    ensures num.dbl(added[2]).Just? && events[n].reply == Dbl(events[n].w.bits(num.dbl(added[2]).value))
  {
    hide Laws.IsRun, Is, Dispatch, HoldsText, Ascii, Ends;
    ArgumentsOfZAdd(added, num);
    NamesAreReached(asked, num, "zscore");
    ZScoreLaw(states, events, asked[1], asked[2], n);
  }

  /** GET finds the text that the strings of the SET in force gave. */
  lemma GetRequest(states: seq<State>, events: seq<Event>, set': Args, asked: Args, num: Numbers, i: nat, n: nat)
    requires Laws.IsRun(states, events, n) && Requested(events, i, set', num, "set", 3)
    requires Requested(events, n, asked, num, "get", 2) && asked[1] == set'[1]
    requires TextInForce(states, events, asked[1], i, n)
    ensures events[n].reply == Str(set'[2])
  {
    hide Laws.IsRun, Is, Dispatch, Ends, Ascii;
    NamesAreReached(set', num, "set");
    NamesAreReached(asked, num, "get");
    GetLaw(states, events, asked[1], n);
  }

  /** PTTL answers with what is left of the ttl that the strings of the PEXPIRE in force gave, u + ttl - t, or 0. */
  lemma TtlRequest(states: seq<State>, events: seq<Event>, given: Args, asked: Args, num: Numbers, i: nat, n: nat)
    requires Laws.IsRun(states, events, n) && Requested(events, i, given, num, "pexpire", 3)
    requires Requested(events, n, asked, num, "pttl", 2) && asked[1] == given[1]
    requires TimerInForce(states, events, asked[1], i, n)
    ensures num.int64(given[2]).Just?
    ensures var sum := events[i].w.now + num.int64(given[2]).value;
            sum < UINT64_RANGE && events[i].w.now <= events[n].w.now ==>
              && events[n].reply.Int?
              && events[n].reply.n == if sum > events[n].w.now then sum - events[n].w.now else 0
  {
    hide Laws.IsRun, Is, Dispatch, Ends, Ascii;
    ArgumentsOfExpire(given, num);
    NamesAreReached(asked, num, "pttl");
    TtlLaw(states, events, asked[1], n);
  }
}
