/** What the commands mean: a state of values, deadlines and freed values, and the answers of the server. */
module Semantics {
  import opened Pairs
  import opened Buffers
  import opened Wire
  import opened Ranking

  /** What an entry stands for: a text, or the map that its sorted set refines. */
  datatype Value = Text(text: Name) | Scored(scores: Scores)

  /** A value that was handed to entry_del(), and its key. */
  datatype Ended = Ended(key: Name, value: Value)

  /** The values of the keys, the deadlines of those that have one, and what has been freed so far. */
  datatype State = State(contents: map<Name, Value>, deadlines: map<Name, nat>, freed: seq<Ended>)

  const EMPTY := State(map[], map[], [])

  /** What a command takes from outside: the time, and the eight bytes of a double. */
  datatype World = World(now: nat, bits: int -> Bytes)

  /** A command whose numbers have been parsed, or what became of the attempt. */
  datatype Command =
    | Get(key: Name)
    | Set(key: Name, text: Name)
    | Del(key: Name)
    | Keys
    | ZAdd(key: Name, score: int, name: Name)
    | ZRem(key: Name, name: Name)
    | ZScore(key: Name, name: Name)
    | ZQuery(key: Name, from: Pair, offset: i64, limit: i64)
    | ZRank(key: Name, name: Name)
    | ZCount(key: Name, from: Pair, to: Pair)
    | Expire(key: Name, ttl: i64)
    | Ttl(key: Name)
    | BadArgument(msg: Bytes)
    | Unknown

  // ---- texts ----

  function Ascii(s: string): Bytes {
    seq(|s|, i requires 0 <= i < |s| => (s[i] as int % 0x100) as byte)
  }

  const ERR_UNKNOWN: u32 := 1
  const ERR_BAD_ARG: u32 := 3
  const ERR_BAD_TYP: u32 := 4

  function WrongType(msg: string): Res {
    Err(ERR_BAD_TYP, Ascii(msg))
  }

  // ---- states ----

  /** expire_at, in uint64_t */
  function Deadline(now: nat, ttl: nat): nat {
    (now + ttl) % UINT64_RANGE
  }

  /** The sum, as long as it has 64 bits, and otherwise what is left of it. */
  lemma DeadlineIsSum(now: nat, ttl: nat)
    ensures Deadline(now, ttl) < UINT64_RANGE
    ensures now + ttl < UINT64_RANGE ==> Deadline(now, ttl) == now + ttl
    ensures (now + ttl - Deadline(now, ttl)) % UINT64_RANGE == 0
  {
    var sum := now + ttl;
    assert sum == sum / UINT64_RANGE * UINT64_RANGE + sum % UINT64_RANGE;
  }

  /** The scores of a key; a missing key counts as an empty set. */
  function ScoresOf(s: State, key: Name): Scores {
    if key in s.contents && s.contents[key].Scored? then s.contents[key].scores else map[]
  }

  predicate IsText(s: State, key: Name) {
    key in s.contents && s.contents[key].Text?
  }

  /** What a command makes of the state, at the time `now`. */
  function After(s: State, cmd: Command, now: nat): State {
    match cmd
    case Set(key, text) =>
      if key in s.contents && s.contents[key].Scored? then s else s.(contents := s.contents[key := Text(text)])
    case Del(key) =>
      if key in s.contents
      then State(s.contents - {key}, s.deadlines - {key}, s.freed + [Ended(key, s.contents[key])])
      else s
    case ZAdd(key, score, name) =>
      if IsText(s, key) then s else s.(contents := s.contents[key := Scored(ScoresOf(s, key)[name := score])])
    case ZRem(key, name) =>
      if key !in s.contents || IsText(s, key) then s
      else s.(contents := s.contents[key := Scored(ScoresOf(s, key) - {name})])
    case Expire(key, ttl) =>
      if key !in s.contents then s
      else s.(deadlines := if ttl < 0 then s.deadlines - {key} else s.deadlines[key := Deadline(now, ttl)])
    case _ => s
  }

  /** The tree sizes of a sorted set, which have 32 bits, are relied upon only by the queries below. */
  predicate Countable(s: State, cmd: Command) {
    cmd.ZQuery? || cmd.ZRank? || cmd.ZCount? ==> |ScoresOf(s, cmd.key)| < UINT32_RANGE
  }

  /** No set has more members than its tree can count. */
  ghost predicate AllCountable(s: State) {
    forall key | key in s.contents && s.contents[key].Scored? :: |s.contents[key].scores| < UINT32_RANGE
  }

  // ---- answers ----

  function Bit(b: bool): Res {
    Int(if b then 1 else 0)
  }

  /** Name and score of each pair. */
  ghost function Members(ps: seq<Pair>, bits: int -> Bytes): seq<Res> {
    if ps == [] then []
    else Members(ps[..|ps| - 1], bits) + [Str(ps[|ps| - 1].name), Dbl(bits(ps[|ps| - 1].score))]
  }

  ghost function Texts(keys: seq<Name>): seq<Res> {
    seq(|keys|, i requires 0 <= i < |keys| => Str(keys[i]))
  }

  /** The keys, in whatever order the hash table has them. */
  ghost predicate IsOrder(order: seq<Name>, contents: map<Name, Value>) {
    (forall i, j | 0 <= i < j < |order| :: order[i] != order[j]) && forall key :: key in order <==> key in contents
  }

  /** What a command answers. */
  ghost function Answer(s: State, cmd: Command, w: World, order: seq<Name>): Res {
    match cmd
    case Get(key) =>
      if key !in s.contents then Nil
      else if IsText(s, key) then Str(s.contents[key].text) else WrongType("not a string value")
    case Set(key, _) =>
      if key in s.contents && s.contents[key].Scored? then WrongType("a non-string value exists") else Nil
    case Del(key) => Bit(key in s.contents)
    case Keys => Arr(Texts(order))
    case ZAdd(key, _, name) => if IsText(s, key) then WrongType("expect zset") else Bit(name !in ScoresOf(s, key))
    case ZRem(key, name) => if IsText(s, key) then WrongType("expect zset") else Bit(name in ScoresOf(s, key))
    case ZScore(key, name) =>
      if IsText(s, key) then WrongType("expect zset")
      else if name in ScoresOf(s, key) then Dbl(w.bits(ScoresOf(s, key)[name])) else Nil
    case ZQuery(key, from, offset, limit) =>
      if IsText(s, key) then WrongType("expect zset")
      else Arr(Members(Slice(SortedList(ScoresOf(s, key)), from, offset, limit), w.bits))
    case ZRank(key, name) =>
      if IsText(s, key) then WrongType("expect zset")
      else if name in ScoresOf(s, key)
      then Int(ToI64(Rank(SortedList(ScoresOf(s, key)), Pair(ScoresOf(s, key)[name], name)))) else Nil
    case ZCount(key, from, to) =>
      if IsText(s, key) then WrongType("expect zset")
      else Int(ToI64(CountAnswer(SortedList(ScoresOf(s, key)), from, to)))
    case Expire(key, _) => Bit(key in s.contents)
    case Ttl(key) =>
      if key !in s.contents then Int(-2)
      else if key !in s.deadlines then Int(-1)
      else Int(if s.deadlines[key] > w.now then ToI64(s.deadlines[key] - w.now) else 0)
    case BadArgument(msg) => Err(ERR_BAD_ARG, msg)
    case Unknown => Err(ERR_UNKNOWN, Ascii("unknown command"))
  }
}
