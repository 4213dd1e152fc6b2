/** commands.cc: the commands as steps on the database. */
module Commands {
  import opened Pairs
  import opened Buffers
  import opened Wire
  import opened Tlv
  import opened Ranking
  import opened HashChains
  import opened HashTable
  import ZSets
  import ZQueries
  import opened Semantics
  import Replies
  import opened Entries
  import opened Databases

  ghost function Log(freed: seq<Freed>): seq<Ended> {
    seq(|freed|, i requires 0 <= i < |freed| => Ended(freed[i].entry.key, freed[i].value))
  }

  /** What a database stands for. */
  ghost function StateOf(d: Database): State
    reads d
  {
    State(d.contents, d.deadlines, Log(d.freed))
  }

  // ---- steps on one entry ----

  /** The value of an existing entry is a text; it gets another one, and its timer stays as it is. */
  method SetText(d: Database, e: Entry, text: Name)
    requires d.Valid() && e in d.entries && !e.isZSet
    modifies d`contents, e`text
    ensures d.Valid() && d.contents == old(d.contents)[e.key := Text(text)]
  {
    hide Database.Valid, Database.KeysValid, Database.TimersValid, Database.SetsValid, Database.Apart, HaveValues;
    hide Accounted;
    hide HaveSets, ZSets.ZSet.Owned;
    d.Parts();
    OtherValues(d.entries, d.contents, e);
    e.text := text;
    OneValueSet(d.entries, d.contents, e);
    d.contents := d.contents[e.key := Text(text)];
    d.Whole();
  }

  /** zset_insert() on the set of an entry */
  method PutScore(d: Database, e: Entry, name: Name, score: int) returns (added: bool)
    requires d.Valid() && e in d.entries && e.isZSet
    modifies d`contents, d`footprint, e.zset.repr
    ensures d.Valid() && d.Continues() && added == (name !in old(e.zset.scores))
    ensures StateOf(d)
         == old(StateOf(d)).(contents := old(d.contents)[e.key := Scored(old(e.zset.scores)[name := score])])
  {
    hide Database.Valid, Database.KeysValid, Database.TimersValid, HaveSets, HaveValues, Accounted, ZSets.ZSet.Owned;
    d.Around(e);
    ghost var rest := d.footprint - e.zset.repr;
    added := e.zset.Put(name, score);
    d.Settle(e, rest);
  }

  /** zset_lookup() and zset_delete() on the set of an entry */
  method DropScore(d: Database, e: Entry, name: Name) returns (removed: bool)
    requires d.Valid() && e in d.entries && e.isZSet
    modifies d`contents, d`footprint, e.zset.repr
    ensures d.Valid() && d.Continues() && removed == (name in old(e.zset.scores))
    ensures StateOf(d) == old(StateOf(d)).(contents := old(d.contents)[e.key := Scored(old(e.zset.scores) - {name})])
  {
    hide Database.Valid, Database.KeysValid, Database.TimersValid, HaveSets, HaveValues, Accounted, ZSets.ZSet.Owned;
    d.Around(e);
    ghost var rest := d.footprint - e.zset.repr;
    removed := e.zset.Drop(name);
    d.Settle(e, rest);
  }

  /** zset_lookup() in the set of an entry */
  method ReadScore(d: Database, e: Entry, name: Name) returns (found: bool, score: int)
    requires d.Valid() && e in d.entries && e.isZSet
    modifies d`contents, d`footprint, e.zset.repr
    ensures d.Valid() && d.Continues() && StateOf(d) == old(StateOf(d))
    ensures found == (name in old(e.zset.scores)) && (found ==> score == old(e.zset.scores)[name])
  {
    hide Database.Valid, Database.KeysValid, Database.TimersValid, HaveSets, HaveValues, Accounted, ZSets.ZSet.Owned;
    d.Around(e);
    ghost var rest := d.footprint - e.zset.repr;
    found, score := e.zset.ScoreOf(name);
    d.Settle(e, rest);
  }

  /** zset_lookup() and avl_rank() in the set of an entry */
  method ReadRank(d: Database, e: Entry, name: Name) returns (found: bool, rank: nat)
    requires d.Valid() && e in d.entries && e.isZSet && |e.zset.scores| < UINT32_RANGE
    modifies d`contents, d`footprint, e.zset.repr
    ensures d.Valid() && d.Continues() && StateOf(d) == old(StateOf(d))
    ensures found == (name in old(e.zset.scores)) && rank < UINT32_RANGE
    ensures found ==> Rank(SortedList(old(e.zset.scores)), Pair(old(e.zset.scores)[name], name)) == rank
  {
    hide Database.Valid, Database.KeysValid, Database.TimersValid, HaveSets, HaveValues, Accounted, ZSets.ZSet.Owned;
    hide SortedList, Rank;
    d.Around(e);
    ghost var rest := d.footprint - e.zset.repr;
    found, rank := ZQueries.FindRank(e.zset, name);
    d.Settle(e, rest);
  }

  // ---- the commands ----

  /** What an entry tells about its key. */
  lemma FoundValue(d: Database, key: Name, e: Entry?)
    requires d.Valid() && e == if key in d.members then d.members[key].owner else null
    ensures e == null <==> key !in d.contents
    ensures e != null ==> e in d.entries && e.key == key && d.contents[key] == e.Value() && e.zset.repr <= d.footprint
  {
    hide HMap.Valid, SameKeys, Database.TimersValid, Accounted, ZSets.ZSet.Owned;
    d.Facts();
  }

  /** do_get() */
  method DoGet(d: Database, key: Name, w: World) returns (r: Res)
    requires d.Valid()
    modifies d.db, d.db.newer, d.db.older, d.db.Tables(), d.db.Nodes()
    ensures d.Valid() && d.Continues() && r == Answer(StateOf(d), Get(key), w, [])
  {
    hide Database.Valid, Database.Continues, Ascii;
    var e := d.Find(key);
    FoundValue(d, key, e);
    if e == null {
      return Nil;
    }
    r := if e.isZSet then WrongType("not a string value") else Str(e.text);
  }

  /** entry_new() and hm_insert() */
  method AddNew(d: Database, key: Name, isZSet: bool, text: Name) returns (e: Entry)
    requires d.Valid() && key !in d.contents
    modifies d`entries, d`members, d`contents, d`created, d`footprint
    modifies d.db, d.db.newer, d.db.older, d.db.Tables(), d.db.Nodes()
    ensures d.Valid() && d.Continues() && fresh(e) && e in d.entries && e.key == key && e.isZSet == isZSet
    ensures d.contents == old(d.contents)[key := if isZSet then Scored(map[]) else Text(text)]
    ensures e.zset.repr <= d.footprint && fresh(e.zset.repr) && e.Value() == d.contents[key]
  {
    hide Database.Valid, Database.KeysValid, Database.TimersValid, Database.SetsValid, Database.Apart, HaveValues;
    hide Accounted, ZSets.ZSet.Owned, Database.IsNew, Database.Continues;
    d.Parts();
    e := new Entry(key, isZSet, text);
    d.NewIsApart(e);
    d.AddEntry(e);
    d.Grown(e);
  }

  /** do_set() */
  method DoSet(d: Database, key: Name, text: Name, w: World) returns (r: Res)
    requires d.Valid()
    modifies d, d.db, d.db.newer, d.db.older, d.db.Tables(), d.db.Nodes(), d.entries`text
    ensures d.Valid() && d.Continues() && StateOf(d) == After(old(StateOf(d)), Set(key, text), w.now)
    ensures r == Answer(old(StateOf(d)), Set(key, text), w, [])
  {
    hide Database.Valid, Ascii;
    var e := d.Find(key);
    FoundValue(d, key, e);
    if e == null {
      e := AddNew(d, key, false, text);
      return Nil;
    }
    if e.isZSet {
      return WrongType("a non-string value exists");
    }
    SetText(d, e, text);
    r := Nil;
  }

  /** do_del() */
  method DoDel(d: Database, key: Name, w: World) returns (r: Res)
    requires d.Valid()
    modifies d, d.db, d.db.newer, d.db.older, d.db.Tables(), d.db.Nodes(), d.heap`items, d.entries`heapIdx
    ensures d.Valid() && d.Continues() && StateOf(d) == After(old(StateOf(d)), Semantics.Del(key), w.now)
    ensures r == Answer(old(StateOf(d)), Semantics.Del(key), w, [])
  {
    hide Database.Valid, Database.Continues;
    ghost var before := d.freed;
    NothingToDelete(d, key);
    var deleted := d.Del(key);
    if deleted {
      LogMore(before, d.freed[|before|]);
    }
    r := Int(if deleted then 1 else 0);
  }

  lemma NothingToDelete(d: Database, key: Name)
    requires d.Valid()
    ensures key !in d.contents ==> d.contents - {key} == d.contents && d.deadlines - {key} == d.deadlines
  {
    hide Database.Valid, Database.KeysValid, Database.TimersValid, Database.SetsValid, Database.Apart, Accounted;
    d.Parts();
    d.OnlyKeysHaveDeadlines();
  }

  lemma LogMore(freed: seq<Freed>, f: Freed)
    ensures Log(freed + [f]) == Log(freed) + [Ended(f.entry.key, f.value)]
  {
  }

  /** The entry that do_zadd() changes: the existing one, or a new one with an empty set. */
  method FindOrAdd(d: Database, key: Name) returns (e: Entry)
    requires d.Valid()
    modifies d`entries, d`members, d`contents, d`created, d`footprint
    modifies d.db, d.db.newer, d.db.older, d.db.Tables(), d.db.Nodes()
    ensures d.Valid() && d.Continues() && e in d.entries && e.key == key && key in d.contents
    ensures e.Value() == d.contents[key]
    ensures d.contents == if key in old(d.contents) then old(d.contents) else old(d.contents)[key := Scored(map[])]
    ensures forall o | o in e.zset.repr :: o in old(d.footprint) || fresh(o)
  {
    hide Database.Valid;
    var found := d.Find(key);
    FoundValue(d, key, found);
    if found == null {
      e := AddNew(d, key, true, []);
    } else {
      e := found;
    }
  }

  /** do_zadd(): a missing key becomes a set of its own. */
  method DoZAdd(d: Database, key: Name, score: int, name: Name, w: World) returns (r: Res)
    requires d.Valid()
    modifies d, d.db, d.db.newer, d.db.older, d.db.Tables(), d.db.Nodes(), d.footprint
    ensures d.Valid() && d.Continues() && StateOf(d) == After(old(StateOf(d)), ZAdd(key, score, name), w.now)
    ensures r == Answer(old(StateOf(d)), ZAdd(key, score, name), w, [])
  {
    hide Database.Valid, Ascii;
    var e := FindOrAdd(d, key);
    if !e.isZSet {
      return WrongType("expect zset");
    }
    var added := PutScore(d, e, name, score);
    r := Int(if added then 1 else 0);
  }

  /** expect_zset(): a missing key counts as an empty set, another type as none. */
  method ExpectZSet(d: Database, key: Name) returns (ok: bool, e: Entry?)
    requires d.Valid()
    modifies d.db, d.db.newer, d.db.older, d.db.Tables(), d.db.Nodes()
    ensures d.Valid() && d.Continues() && ok == !IsText(StateOf(d), key)
    ensures e != null ==> e in d.entries && e.key == key && key in d.contents && d.contents[key] == e.Value()
    ensures e != null ==> e.zset.repr <= d.footprint && (ok ==> e.isZSet && e.zset.scores == ScoresOf(StateOf(d), key))
    ensures e == null ==> key !in d.contents
  {
    hide Database.Valid, Database.Continues;
    e := d.Find(key);
    FoundValue(d, key, e);
    ok := e == null || e.isZSet;
  }

  /** do_zrem(): the key stays, even when its set becomes empty. */
  method DoZRem(d: Database, key: Name, name: Name, w: World) returns (r: Res)
    requires d.Valid()
    modifies d, d.db, d.db.newer, d.db.older, d.db.Tables(), d.db.Nodes(), d.footprint
    ensures d.Valid() && d.Continues() && StateOf(d) == After(old(StateOf(d)), ZRem(key, name), w.now)
    ensures r == Answer(old(StateOf(d)), ZRem(key, name), w, [])
  {
    hide Database.Valid, Ascii;
    var ok, e := ExpectZSet(d, key);
    if !ok {
      return WrongType("expect zset");
    }
    var removed := false;
    if e != null {
      removed := DropScore(d, e, name);
    }
    r := Int(if removed then 1 else 0);
  }

  /** do_zscore() */
  method DoZScore(d: Database, key: Name, name: Name, w: World) returns (r: Res)
    requires d.Valid()
    modifies d`contents, d`footprint, d.db, d.db.newer, d.db.older, d.db.Tables(), d.db.Nodes(), d.footprint
    ensures d.Valid() && d.Continues() && StateOf(d) == old(StateOf(d))
    ensures r == Answer(old(StateOf(d)), ZScore(key, name), w, [])
  {
    hide Database.Valid, Ascii;
    var ok, e := ExpectZSet(d, key);
    if !ok {
      return WrongType("expect zset");
    }
    var found, score := false, 0;
    if e != null {
      found, score := ReadScore(d, e, name);
    }
    r := if found then Dbl(w.bits(score)) else Nil;
  }

  /** do_zrank() */
  method DoZRank(d: Database, key: Name, name: Name, w: World) returns (r: Res)
    requires d.Valid() && Countable(StateOf(d), ZRank(key, name))
    modifies d`contents, d`footprint, d.db, d.db.newer, d.db.older, d.db.Tables(), d.db.Nodes(), d.footprint
    ensures d.Valid() && d.Continues() && StateOf(d) == old(StateOf(d))
    ensures r == Answer(old(StateOf(d)), ZRank(key, name), w, [])
  {
    hide Database.Valid, Ascii, Rank, SortedList;
    var ok, e := ExpectZSet(d, key);
    if !ok {
      return WrongType("expect zset");
    }
    var found, rank: nat := false, 0;
    if e != null {
      found, rank := ReadRank(d, e, name);
    }
    r := if found then Int(rank) else Nil;
  }

  /** The set that a query reads: a new, empty one for a missing key. */
  method SetToRead(d: Database, e: Entry?) returns (z: ZSets.ZSet)
    requires d.Valid() && (e != null ==> e in d.entries && e.isZSet)
    ensures z.Valid() && z.scores == if e == null then map[] else e.zset.scores
  {
    hide Database.Valid, ZSets.ZSet.Valid;
    if e == null {
      z := new ZSets.ZSet();
    } else {
      d.Around(e);
      z := e.zset;
    }
  }

  /** do_zcount() */
  method DoZCount(d: Database, key: Name, from: Pair, to: Pair, w: World) returns (r: Res)
    requires d.Valid() && Countable(StateOf(d), ZCount(key, from, to))
    modifies d.db, d.db.newer, d.db.older, d.db.Tables(), d.db.Nodes()
    ensures d.Valid() && d.Continues() && r == Answer(StateOf(d), ZCount(key, from, to), w, [])
  {
    hide Database.Valid, Database.Continues, Ascii, ZSets.ZSet.Valid, SortedList, CountAnswer;
    var ok, e := ExpectZSet(d, key);
    if !ok {
      return WrongType("expect zset");
    }
    var z := SetToRead(d, e);
    var count := ZQueries.CountMembers(z, from, to);
    r := Int(ToI64(count));
  }

  /** do_zquery(), which writes its response while it walks through the tree. */
  method DoZQuery(d: Database, key: Name, from: Pair, offset: i64, limit: i64, w: World, b: Buffer)
    requires d.Valid() && Ready(b) && b !in d.footprint && Countable(StateOf(d), ZQuery(key, from, offset, limit))
    modifies d.db, d.db.newer, d.db.older, d.db.Tables(), d.db.Nodes(), b
    ensures d.Valid() && d.Continues()
    ensures Appended(b, Encode(Answer(old(StateOf(d)), ZQuery(key, from, offset, limit), w, [])))
  {
    hide Database.Valid, Database.Continues, Ascii, ZSets.ZSet.Valid, SortedList, Slice, Encode;
    var ok, e := ExpectZSet(d, key);
    if !ok {
      OutErr(b, ERR_BAD_TYP, Ascii("expect zset"));
      return;
    }
    var z := SetToRead(d, e);
    Replies.DoZQuery(z, from, offset, limit, w.bits, b);
  }

  /** do_expire() */
  method DoExpire(d: Database, key: Name, ttl: i64, w: World) returns (r: Res)
    requires d.Valid()
    modifies d, d.db, d.db.newer, d.db.older, d.db.Tables(), d.db.Nodes(), d.heap`items, d.entries`heapIdx
    ensures d.Valid() && d.Continues() && StateOf(d) == After(old(StateOf(d)), Expire(key, ttl), w.now)
    ensures r == Answer(old(StateOf(d)), Expire(key, ttl), w, [])
  {
    hide Database.Valid, Database.Continues, Deadline;
    var e := d.Find(key);
    FoundValue(d, key, e);
    if e != null {
      SetTimer(d, e, ttl, w.now);
    }
    r := Int(if e != null then 1 else 0);
  }

  /** entry_set_ttl() on an entry of the database */
  method SetTimer(d: Database, e: Entry, ttl: int, now: nat)
    requires d.Valid() && e in d.entries
    modifies d`deadlines, d.heap`items, d.entries`heapIdx
    ensures d.Valid()
    ensures d.deadlines == if ttl < 0 then old(d.deadlines) - {e.key} else old(d.deadlines)[e.key := Deadline(now, ttl)]
  {
    hide Database.Valid, Database.KeysValid, Database.TimersValid, Database.SetsValid, Database.Apart, HaveValues;
    hide Accounted;
    hide Deadline, HaveSets, ZSets.ZSet.Owned;
    d.Parts();
    d.SetTtl(e, ttl, now);
    d.Whole();
  }

  /** do_ttl(): the rest of the time, read off the heap. */
  method DoTtl(d: Database, key: Name, w: World) returns (r: Res)
    requires d.Valid()
    modifies d.db, d.db.newer, d.db.older, d.db.Tables(), d.db.Nodes()
    ensures d.Valid() && d.Continues() && r == Answer(StateOf(d), Ttl(key), w, [])
  {
    hide Database.Valid, Database.KeysValid, Database.TimersValid, Database.SetsValid, Database.Apart, Accounted;
    hide Database.Continues, ToI64;
    var e := d.Find(key);
    FoundValue(d, key, e);
    if e == null {
      return Int(-2);
    }
    d.Parts();
    d.TimerOf(e);
    if e.heapIdx == NO_TIMER {
      return Int(-1);
    }
    var expireAt := d.heap.items[e.heapIdx].val;
    r := Int(if expireAt > w.now then ToI64(expireAt - w.now) else 0);
  }

  /** hm_size() and the walk of hm_foreach() over all keys, each once. */
  method OrderOfKeys(d: Database) returns (size: nat, keys: seq<Name>)
    requires d.Valid()
    ensures size == |keys| && IsOrder(keys, d.contents)
  {
    hide Database.Valid, Database.TimersValid, Database.SetsValid, Database.Apart, Accounted, HaveValues;
    hide HMap.Valid, HMap.Order, SameKeys;
    d.Parts();
    d.OrderOfKeys();
    size := d.db.Size();
    var visited, completed := d.db.Foreach(_ => true);
    keys := seq(|visited|, i requires 0 <= i < |visited| => visited[i].owner.key);
    KeysOfNodes(visited, d.db.Nodes(), d.entries, d.members, keys);
  }

  /** do_keys(): the number of keys, and the keys in the order of the hash table. */
  method DoKeys(d: Database, w: World, b: Buffer) returns (keys: seq<Name>)
    requires d.Valid() && Ready(b) && b !in d.footprint
    modifies b
    ensures d.Valid() && IsOrder(keys, d.contents) && Appended(b, Encode(Answer(StateOf(d), Keys, w, keys)))
  {
    hide Database.Valid, Encode, Texts, IsOrder;
    var size;
    size, keys := OrderOfKeys(d);
    Replies.AnswerKeys(size, keys, b);
  }

  lemma KeysOfNodes(visited: seq<HNode<Entry>>, H: set<HNode<Entry>>, E: set<Entry>, members: Index, keys: seq<Name>)
    requires SameKeys(H, E, members) && HashChains.Distinct(visited)
    requires (forall n | n in visited :: n in H) && forall n | n in H :: n in visited
    requires |keys| == |visited| && forall i | 0 <= i < |visited| :: keys[i] == visited[i].owner.key
    ensures (forall i, j | 0 <= i < j < |keys| :: keys[i] != keys[j]) && forall key :: key in keys <==> key in members
  {
    assert forall i | 0 <= i < |visited| :: visited[i] in visited;
    forall key | key in members ensures key in keys {
      var i :| 0 <= i < |visited| && visited[i] == members[key];
      assert keys[i] == key;
    }
  }

  /** The commands that answer with a single value. */
  method Scalar(d: Database, cmd: Command, w: World) returns (r: Res)
    requires d.Valid() && Countable(StateOf(d), cmd) && !cmd.Keys? && !cmd.ZQuery?
    modifies d, d.db, d.db.newer, d.db.older, d.db.Tables(), d.db.Nodes(), d.heap`items, d.entries, d.footprint
    ensures d.Valid() && d.Continues() && StateOf(d) == After(old(StateOf(d)), cmd, w.now)
    ensures r == Answer(old(StateOf(d)), cmd, w, [])
  {
    hide Database.Valid, Database.Continues, SortedList, Rank, CountAnswer, Ascii, Deadline;
    match cmd
    case Get(key) => r := DoGet(d, key, w);
    case Set(key, text) => r := DoSet(d, key, text, w);
    case Del(key) => r := DoDel(d, key, w);
    case ZAdd(key, score, name) => r := DoZAdd(d, key, score, name, w);
    case ZRem(key, name) => r := DoZRem(d, key, name, w);
    case ZScore(key, name) => r := DoZScore(d, key, name, w);
    case ZRank(key, name) => r := DoZRank(d, key, name, w);
    case ZCount(key, from, to) => r := DoZCount(d, key, from, to, w);
    case Expire(key, ttl) => r := DoExpire(d, key, ttl, w);
    case Ttl(key) => r := DoTtl(d, key, w);
    case BadArgument(msg) =>
      d.Shrunk();
      r := Err(ERR_BAD_ARG, msg);
    case Unknown =>
      d.Shrunk();
      r := Err(ERR_UNKNOWN, Ascii("unknown command"));
  }

  /** Every command changes the state as it should and appends the encoding of its answer to the buffer. */
  method Execute(d: Database, cmd: Command, w: World, b: Buffer) returns (ghost order: seq<Name>)
    requires d.Valid() && Countable(StateOf(d), cmd) && Ready(b) && b !in d.footprint
    modifies d, d.db, d.db.newer, d.db.older, d.db.Tables(), d.db.Nodes(), d.heap`items, d.entries, d.footprint, b
    ensures d.Valid() && d.Continues() && StateOf(d) == After(old(StateOf(d)), cmd, w.now)
    ensures cmd.Keys? ==> IsOrder(order, old(d.contents))
    ensures Appended(b, Encode(Answer(old(StateOf(d)), cmd, w, order)))
  {
    hide Database.Valid, Database.Continues, After, Answer, Encode, IsOrder;
    order := [];
    if cmd.Keys? {
      OnlyReads(old(StateOf(d)), cmd, w.now);
      order := DoKeys(d, w, b);
      d.Shrunk();
    } else if cmd.ZQuery? {
      OnlyReads(old(StateOf(d)), cmd, w.now);
      DoZQuery(d, cmd.key, cmd.from, cmd.offset, cmd.limit, w, b);
    } else {
      var r := Scalar(d, cmd, w);
      d.StaysOutside(b);
      Write(b, r);
    }
  }

  lemma OnlyReads(s: State, cmd: Command, now: nat)
    requires cmd.Keys? || cmd.ZQuery?
    ensures After(s, cmd, now) == s
  {
  }

  /** do_request_and_make_response() on the database as a whole. */
  method Perform(d: Database, cmd: Command, w: World, b: Buffer) returns (ghost order: seq<Name>)
    requires d.Owned() && Countable(StateOf(d), cmd) && Ready(b) && b !in d.repr
    modifies d.repr, b
    ensures d.Owned() && fresh(d.repr - old(d.repr)) && old(d.freed) <= d.freed && old(d.created) <= d.created
    ensures StateOf(d) == After(old(StateOf(d)), cmd, w.now) && (cmd.Keys? ==> IsOrder(order, old(d.contents)))
    ensures Appended(b, Encode(Answer(old(StateOf(d)), cmd, w, order)))
  {
    hide Database.Valid, After, Answer, Encode, IsOrder, Countable;
    order := Execute(d, cmd, w, b);
    d.OnlyNewObjects();
    d.Adopt();
  }

  /** Whether every set can still be counted by its tree; the server does not ask. */
  method SetsAreCountable(d: Database) returns (ok: bool)
    requires d.Valid()
    ensures ok <==> AllCountable(StateOf(d))
  {
    hide Database.Valid;
    var visited := NodesInOrder(d);
    ok := true;
    for i := 0 to |visited|
      invariant ok <==> forall k | 0 <= k < i && visited[k].owner.isZSet ::
                |visited[k].owner.zset.scores| < UINT32_RANGE
    {
      assert visited[i] in visited;
      var small := IsSmall(d, visited[i]);
      ok := ok && small;
    }
    AllVisited(d, visited, ok);
  }

  method NodesInOrder(d: Database) returns (visited: seq<HNode<Entry>>)
    requires d.Valid()
    ensures (forall h | h in visited :: h in d.db.Nodes()) && forall h | h in d.db.Nodes() :: h in visited
  {
    hide Database.Valid, Database.TimersValid, Database.SetsValid, Database.Apart, Accounted, HaveValues;
    hide HMap.Valid, HMap.Order, SameKeys;
    d.Parts();
    d.OrderOfKeys();
    var completed;
    visited, completed := d.db.Foreach(_ => true);
  }

  method IsSmall(d: Database, h: HNode<Entry>) returns (small: bool)
    requires d.Valid() && h in d.db.Nodes()
    ensures small <==> (h.owner.isZSet ==> |h.owner.zset.scores| < UINT32_RANGE)
  {
    hide Database.Valid, ZSets.ZSet.Valid;
    small := true;
    EntryOf(d, h);
    if h.owner.isZSet {
      var size := h.owner.zset.Count();
      small := size < UINT32_RANGE;
    }
  }

  lemma EntryOf(d: Database, h: HNode<Entry>)
    requires d.Valid() && h in d.db.Nodes()
    ensures h.owner in d.entries && h.owner.zset.Valid() && h.owner.key in d.contents
    ensures d.contents[h.owner.key] == h.owner.Value()
  {
    hide HMap.Valid, Database.TimersValid, Accounted, ZSets.ZSet.Valid;
  }

  lemma AllVisited(d: Database, visited: seq<HNode<Entry>>, ok: bool)
    requires d.Valid() && (forall h | h in visited :: h in d.db.Nodes()) && forall h | h in d.db.Nodes() :: h in visited
    requires ok <==> forall k | 0 <= k < |visited| && visited[k].owner.isZSet ::
                       |visited[k].owner.zset.scores| < UINT32_RANGE
    ensures ok <==> AllCountable(StateOf(d))
  {
    hide Database.Valid, Database.KeysValid, Database.Others, HMap.Valid, SameKeys;
    d.Divide();
    forall k | 0 <= k < |visited|
      ensures visited[k].owner.key in d.contents && d.contents[visited[k].owner.key] == visited[k].owner.Value()
    {
      assert visited[k] in visited;
      EntryOf(d, visited[k]);
    }
    forall key | key in d.contents ensures exists k :: 0 <= k < |visited| && visited[k].owner.key == key {
      assert d.members[key] in visited;
    }
  }
}
