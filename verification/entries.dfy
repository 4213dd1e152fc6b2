/** The key-value pairs of the database. */
module Entries {
  import opened Pairs
  import opened Semantics
  import opened ZSets

  /** `(size_t)-1`: the entry has no timer. */
  const NO_TIMER := -1

  /** Entry of db.hh; `isZSet` tells T_ZSET from T_STR. */
  class Entry {
    const key: Name
    const isZSet: bool
    var heapIdx: int
    var text: Name
    const zset: ZSet

    /** entry_new() and the key given to the new entry. */
    constructor (key: Name, isZSet: bool, text: Name)
      ensures this.key == key && this.isZSet == isZSet && this.text == text && heapIdx == NO_TIMER
      ensures fresh(zset) && zset.Owned() && fresh(zset.repr) && zset.scores == map[]
      ensures this !in zset.repr && zset in zset.repr
    {
      this.key, this.isZSet, this.text, heapIdx := key, isZSet, text, NO_TIMER;
      zset := new ZSet();
    }

    ghost function Value(): Value
      reads `text, zset`scores
    {
      if isZSet then Scored(zset.scores) else Text(text)
    }
  }
}
