/** do_request_and_make_response(): from the strings of a request to the command. */
module Dispatching {
  import opened Pairs
  import opened Wire
  import opened Requests
  import opened Semantics

  datatype Maybe<T> = Nothing | Just(value: T)

  /** str2dbl() and str2int(), which rest on strtod() and strtoll(). */
  datatype Numbers = Numbers(dbl: Name -> Maybe<int>, int64: Name -> Maybe<i64>)

  function ZAddOf(cmd: Args, num: Numbers): Command
    requires |cmd| == 4
  {
    var score := num.dbl(cmd[2]);
    if score.Nothing? then BadArgument(Ascii("expect float")) else ZAdd(cmd[1], score.value, cmd[3])
  }

  function ZQueryOf(cmd: Args, num: Numbers): Command
    requires |cmd| == 6
  {
    var score, offset, limit := num.dbl(cmd[2]), num.int64(cmd[4]), num.int64(cmd[5]);
    if score.Nothing? then BadArgument(Ascii("expect fp number"))
    else if offset.Nothing? || limit.Nothing? then BadArgument(Ascii("expect int"))
    else ZQuery(cmd[1], Pair(score.value, cmd[3]), offset.value, limit.value)
  }

  function ZCountOf(cmd: Args, num: Numbers): Command
    requires |cmd| == 6
  {
    var from, to := num.dbl(cmd[2]), num.dbl(cmd[4]);
    if from.Nothing? || to.Nothing? then BadArgument(Ascii("expect fp number"))
    else ZCount(cmd[1], Pair(from.value, cmd[3]), Pair(to.value, cmd[5]))
  }

  function ExpireOf(cmd: Args, num: Numbers): Command
    requires |cmd| == 3
  {
    var ttl := num.int64(cmd[2]);
    if ttl.Nothing? then BadArgument(Ascii("expect int64")) else Expire(cmd[1], ttl.value)
  }

  predicate Is(cmd: Args, name: string, count: nat) {
    |cmd| == count > 0 && cmd[0] == Ascii(name)
  }

  /** The tests on number and name of the strings, in their order. */
  function Dispatch(cmd: Args, num: Numbers): Command {
    if Is(cmd, "get", 2) then Get(cmd[1])
    else if Is(cmd, "set", 3) then Set(cmd[1], cmd[2])
    else if Is(cmd, "del", 2) then Del(cmd[1])
    else if Is(cmd, "keys", 1) then Keys
    else if Is(cmd, "zadd", 4) then ZAddOf(cmd, num)
    else if Is(cmd, "zrem", 3) then ZRem(cmd[1], cmd[2])
    else if Is(cmd, "zscore", 3) then ZScore(cmd[1], cmd[2])
    else if Is(cmd, "zquery", 6) then ZQueryOf(cmd, num)
    else if Is(cmd, "zrank", 3) then ZRank(cmd[1], cmd[2])
    else if Is(cmd, "zcount", 6) then ZCountOf(cmd, num)
    else if Is(cmd, "pexpire", 3) then ExpireOf(cmd, num)
    else if Is(cmd, "pttl", 2) then Ttl(cmd[1])
    else Unknown
  }

  /** The commands of the server, with the number of their strings. */
  const COMMANDS: set<(string, nat)> := {
    ("get", 2), ("set", 3), ("del", 2), ("keys", 1), ("zadd", 4), ("zrem", 3), ("zscore", 3), ("zquery", 6),
    ("zrank", 3), ("zcount", 6), ("pexpire", 3), ("pttl", 2)
  }

  ghost predicate Names(cmd: Args, name: string, count: nat) {
    (name, count) in COMMANDS && Is(cmd, name, count)
  }

  /** Anything else is an unknown command. */
  lemma UnknownOtherwise(cmd: Args, num: Numbers)
    ensures Dispatch(cmd, num) == Unknown <==> forall name, count :: !Names(cmd, name, count)
  {
    hide Is;
    if Dispatch(cmd, num) != Unknown {
      assert Names(cmd, "get", 2) || Names(cmd, "set", 3) || Names(cmd, "del", 2) || Names(cmd, "keys", 1)
        || Names(cmd, "zadd", 4) || Names(cmd, "zrem", 3) || Names(cmd, "zscore", 3) || Names(cmd, "zquery", 6)
        || Names(cmd, "zrank", 3) || Names(cmd, "zcount", 6) || Names(cmd, "pexpire", 3) || Names(cmd, "pttl", 2);
    }
  }

  /** Different names are different bytes. */
  lemma AsciiIsInjective(s: string, t: string)
    requires (forall i | 0 <= i < |s| :: s[i] < 128 as char) && forall i | 0 <= i < |t| :: t[i] < 128 as char
    ensures Ascii(s) == Ascii(t) ==> s == t
  {
    if Ascii(s) == Ascii(t) {
      forall i | 0 <= i < |s| ensures s[i] == t[i] {
        assert Ascii(s)[i] == Ascii(t)[i];
      }
    }
  }

  /** No test shadows another: each name with its number of strings leads to its own command. */
  lemma NamesAreReached(cmd: Args, num: Numbers, name: string)
    requires Names(cmd, name, |cmd|)
    ensures name == "get" ==> Dispatch(cmd, num) == Get(cmd[1])
    ensures name == "set" ==> Dispatch(cmd, num) == Set(cmd[1], cmd[2])
    ensures name == "del" ==> Dispatch(cmd, num) == Del(cmd[1])
    ensures name == "keys" ==> Dispatch(cmd, num) == Keys
    ensures name == "zadd" ==> Dispatch(cmd, num) == ZAddOf(cmd, num)
    ensures name == "zrem" ==> Dispatch(cmd, num) == ZRem(cmd[1], cmd[2])
    ensures name == "zscore" ==> Dispatch(cmd, num) == ZScore(cmd[1], cmd[2])
    ensures name == "zquery" ==> Dispatch(cmd, num) == ZQueryOf(cmd, num)
    ensures name == "zrank" ==> Dispatch(cmd, num) == ZRank(cmd[1], cmd[2])
    ensures name == "zcount" ==> Dispatch(cmd, num) == ZCountOf(cmd, num)
    ensures name == "pexpire" ==> Dispatch(cmd, num) == ExpireOf(cmd, num)
    ensures name == "pttl" ==> Dispatch(cmd, num) == Ttl(cmd[1])
  {
    hide Is;
    forall other, count | (other, count) in COMMANDS ensures Is(cmd, other, count) <==> other == name {
      OneName(cmd, name, other, count);
    }
  }

  lemma OneName(cmd: Args, name: string, other: string, count: nat)
    requires Names(cmd, name, |cmd|) && (other, count) in COMMANDS
    ensures Is(cmd, other, count) <==> other == name
  {
    hide Ascii;
    AsciiIsInjective(name, other);
  }

  /** Which string becomes which argument, and what happens when one of them is no number. */
  lemma ArgumentsOfZAdd(cmd: Args, num: Numbers)
    requires Is(cmd, "zadd", 4)
    ensures var score := num.dbl(cmd[2]);
            Dispatch(cmd, num) == if score.Just? then ZAdd(cmd[1], score.value, cmd[3])
                                  else BadArgument(Ascii("expect float"))
  {
    hide Ascii;
    NamesAreReached(cmd, num, "zadd");
  }

  lemma ArgumentsOfZQuery(cmd: Args, num: Numbers)
    requires Is(cmd, "zquery", 6)
    ensures var score, offset, limit := num.dbl(cmd[2]), num.int64(cmd[4]), num.int64(cmd[5]);
            Dispatch(cmd, num) == if score.Just? && offset.Just? && limit.Just?
                                  then ZQuery(cmd[1], Pair(score.value, cmd[3]), offset.value, limit.value)
                                  else BadArgument(Ascii(if score.Just? then "expect int" else "expect fp number"))
  {
    hide Ascii;
    NamesAreReached(cmd, num, "zquery");
  }

  lemma ArgumentsOfZCount(cmd: Args, num: Numbers)
    requires Is(cmd, "zcount", 6)
    ensures var from, to := num.dbl(cmd[2]), num.dbl(cmd[4]);
            Dispatch(cmd, num) == if from.Just? && to.Just?
                                  then ZCount(cmd[1], Pair(from.value, cmd[3]), Pair(to.value, cmd[5]))
                                  else BadArgument(Ascii("expect fp number"))
  {
    hide Ascii;
    NamesAreReached(cmd, num, "zcount");
  }

  lemma ArgumentsOfExpire(cmd: Args, num: Numbers)
    requires Is(cmd, "pexpire", 3)
    ensures var ttl := num.int64(cmd[2]);
            Dispatch(cmd, num) == if ttl.Just? then Expire(cmd[1], ttl.value) else BadArgument(Ascii("expect int64"))
  {
    hide Ascii;
    NamesAreReached(cmd, num, "pexpire");
  }

  /** The bytes of a name are its characters. */
  lemma AsciiIsCodes(s: string, i: nat)
    requires i < |s| && s[i] < 128 as char
    ensures |Ascii(s)| == |s| && Ascii(s)[i] as int == s[i] as int
  {
  }
}
