/** The responses of commands.cc that are arrays, down to their bytes. */
module Replies {
  import opened Pairs
  import opened Buffers
  import opened Wire
  import opened Tlv
  import AvlTree
  import opened Ranking
  import ZSetTree
  import opened Semantics
  import ZSets
  import opened ZQueries

  /** The bytes of the pairs. */
  ghost function Body(ps: seq<Pair>, bits: int -> Bytes): Bytes {
    EncodeAll(Members(ps, bits))
  }

  lemma {:induction false} BodyGrows(ps: seq<Pair>, p: Pair, bits: int -> Bytes)
    ensures Body(ps + [p], bits) == Body(ps, bits) + Encode(Str(p.name)) + Encode(Dbl(bits(p.score)))
  {
    hide Encode;
    var x, y := Str(p.name), Dbl(bits(p.score));
    assert (ps + [p])[..|ps|] == ps;
    EncodeAllAppend(Members(ps, bits), [x, y]);
    EncodeAllAppend([x], [y]);
    EncodeOne(x);
    EncodeOne(y);
    assert [x] + [y] == [x, y];
  }

  lemma {:induction false} TwoPerPair(ps: seq<Pair>, bits: int -> Bytes)
    ensures |Members(ps, bits)| == 2 * |ps|
  {
    if ps != [] {
      TwoPerPair(ps[..|ps| - 1], bits);
    }
  }

  /** One round of the output loop of do_zquery(). */
  method EmitPair(b: Buffer, p: Pair, bits: int -> Bytes, ghost front: Bytes, ghost ps: seq<Pair>)
    requires Ready(b) && b.Unread() == front + Body(ps, bits)
    modifies b
    ensures Ready(b) && b.Unread() == front + Body(ps + [p], bits) && b.Offsets() == old(b.Offsets())
  {
    hide Encode, Body;
    BodyGrows(ps, p, bits);
    OutStr(b, p.name);
    OutDbl(b, bits(p.score));
    ghost var x, y := Encode(Str(p.name)), Encode(Dbl(bits(p.score)));
    assert front + Body(ps, bits) + x + y == front + (Body(ps, bits) + x + y);
  }

  /** The state of the output loop of do_zquery(): n pairs from `start` on have been written. */
  ghost predicate Written(out: seq<Pair>, ps: seq<Pair>, found: bool, start: int) {
    |out| > 0 ==> found && 0 <= start && start + |out| <= |ps| && out == ps[start..start + |out|]
  }

  lemma {:induction false} WrittenGrows(out: seq<Pair>, ps: seq<Pair>, found: bool, start: int)
    requires Written(out, ps, found, start) && found && 0 <= start + |out| < |ps|
    ensures Written(out + [ps[start + |out|]], ps, found, start)
  {
  }

  lemma {:induction false} WrittenIsSlice(out: seq<Pair>, ps: seq<Pair>, key: Pair, offset: int, limit: int)
    requires var start, found := Rank(ps, key) + offset, Rank(ps, key) < |ps|;
             && Written(out, ps, found, start) && 0 < limit && |out| <= limit
             && (|out| < limit ==> !found || start + |out| < 0 || start + |out| >= |ps|)
    ensures out == Slice(ps, key, offset, limit)
  {
    hide Rank;
    var start := Rank(ps, key) + offset;
    assert |out| > 0 && start + |out| == |ps| ==> ps[start..start + |out|] == ps[start..];
  }

  /** The body of the output loop: writes the pair at index k and moves on to the next node. */
  method EmitNext(z: ZSets.ZSet, node: AvlTree.AVLNode, ghost k: nat, bits: int -> Bytes, b: Buffer,
                  ghost front: Bytes, ghost out: seq<Pair>)
    returns (next: AvlTree.AVLNode?)
    requires z.Valid() && AvlTree.Size(z.tree) < UINT32_RANGE && node == At(AvlTree.Inorder(z.tree), k)
    requires Known(z.scores, AvlTree.Inorder(z.tree)) && k < |Listing(z)|
    requires Ready(b) && b.Unread() == front + Body(out, bits)
    modifies b
    ensures z.Valid() && Known(z.scores, AvlTree.Inorder(z.tree)) && next == At(AvlTree.Inorder(z.tree), k + 1)
    ensures k < |Listing(z)| && Ready(b) && b.Unread() == front + Body(out + [Listing(z)[k]], bits)
    ensures b.Offsets() == old(b.Offsets())
  {
    hide ZSets.ZSet.Valid, AvlTree.Inorder, Known, Body;
    NodeAt(z, k);
    EmitPair(b, ZSetTree.KeyOf(node), bits, front, out);
    next := Offset(z, node, 1, k);
  }

  /** The output loop of do_zquery(). */
  method EmitSlice(z: ZSets.ZSet, first: AvlTree.AVLNode?, limit: int, bits: int -> Bytes, b: Buffer,
                   ghost found: bool, ghost start: int)
    returns (n: nat, ghost out: seq<Pair>)
    requires z.Valid() && AvlTree.Size(z.tree) < UINT32_RANGE && 0 < limit
    requires first == if found then At(AvlTree.Inorder(z.tree), start) else null
    requires Known(z.scores, AvlTree.Inorder(z.tree)) && Ready(b)
    modifies b
    ensures z.Valid() && Known(z.scores, AvlTree.Inorder(z.tree))
    ensures Written(out, Listing(z), found, start) && n == |out| <= limit
    ensures n < limit ==> !found || start + n < 0 || start + n >= |Listing(z)|
    ensures Appended(b, Body(out, bits))
  {
    hide ZSets.ZSet.Valid, AvlTree.Inorder, Known, Written, Body;
    ghost var s, ps, front := AvlTree.Inorder(z.tree), Listing(z), b.Unread();
    var node := first;
    n, out := 0, [];
    NothingWritten(ps, found, start, bits);
    while node != null && n < limit
      invariant n == |out| <= limit && node == (if found then At(s, start + n) else null) && z.Valid()
      invariant Written(out, ps, found, start)
      invariant Ready(b) && b.Unread() == front + Body(out, bits) && b.Offsets() == old(b.Offsets())
      decreases limit - n
    {
      WrittenGrows(out, ps, found, start);
      node := EmitNext(z, node, start + n, bits, b, front, out);
      out := out + [ps[start + n]];
      n := n + 1;
    }
  }

  lemma {:induction false} NothingWritten(ps: seq<Pair>, found: bool, start: int, bits: int -> Bytes)
    ensures Written([], ps, found, start) && Body([], bits) == []
  {
  }

  /** The response to ZQUERY: an array of names and scores. */
  ghost function MemberList(ps: seq<Pair>, bits: int -> Bytes): Res {
    Arr(Members(ps, bits))
  }

  lemma {:induction false} MembersAreEncoded(ps: seq<Pair>, bits: int -> Bytes)
    ensures Encode(MemberList(ps, bits)) == [TAG_ARR] + U32(Low32(2 * |ps|)) + Body(ps, bits)
  {
    hide U32, Low32, EncodeAll;
    TwoPerPair(ps, bits);
  }

  lemma {:induction false} NothingQueried(ps: seq<Pair>, key: Pair, offset: int, limit: int, bits: int -> Bytes)
    requires limit <= 0
    ensures Encode(MemberList(Slice(ps, key, offset, limit), bits)) == [TAG_ARR] + U32(0)
  {
    hide U32, Rank;
    assert Slice(ps, key, offset, limit) == [];
    MembersAreEncoded([], bits);
    assert Low32(0) == 0 && Body([], bits) == [];
  }

  /** do_zquery() on parsed arguments: the response holds exactly the slice, its length filled in at the end. */
  method DoZQuery(z: ZSets.ZSet, key: Pair, offset: int, limit: int, bits: int -> Bytes, b: Buffer)
    requires z.Valid() && |z.scores| < UINT32_RANGE && Ready(b)
    modifies b
    ensures z.Valid() && Appended(b, Encode(MemberList(Slice(SortedList(z.scores), key, offset, limit), bits)))
  {
    hide ZSets.ZSet.Valid, AvlTree.Inorder, Known, Rank, Slice, Written, Body, U32, Encode, Lists, MemberList;
    hide SortedList;
    ListingListsMap(z);
    SizeIsCount(z);
    ghost var ps := Listing(z);
    SortedListIs(z.scores, ps);
    if limit <= 0 {
      OutArr(b, 0);
      NothingQueried(ps, key, offset, limit, bits);
      return;
    }
    ghost var at := |b.Unread()| + 1;
    var node := Seek(z, key);
    node := Offset(z, node, offset, Rank(ps, key));
    OutBeginArr(b);
    var n;
    ghost var out;
    n, out := EmitSlice(z, node, limit, bits, b, Rank(ps, key) < |ps|, Rank(ps, key) + offset);
    WrittenIsSlice(out, ps, key, offset, limit);
    MembersAreEncoded(out, bits);
    Finish(b, n, old(b.Unread()), Body(out, bits), at);
    SameFront(old(b.Offsets()), b.Offsets(), at);
  }

  /** out_end_arr(buffer, (uint32_t)(n * 2)) */
  method Finish(b: Buffer, n: nat, ghost before: Bytes, ghost body: Bytes, ghost at: nat)
    requires Ready(b) && b.Offsets() != [] && b.Offsets()[|b.Offsets()| - 1] == at == |before| + 1
    requires b.Unread() == before + ([TAG_ARR] + U32(0)) + body
    modifies b
    ensures Ready(b) && old(b.Offsets()) == b.Offsets() + [at]
    ensures b.Unread() == before + ([TAG_ARR] + U32(Low32(2 * n)) + body)
  {
    hide U32, Low32;
    FilledIn(before, Low32(2 * n), body);
    OutEndArr(b, Low32(2 * n), at);
  }

  // ---- KEYS ----

  lemma {:induction false} TextsGrow(keys: seq<Name>, key: Name)
    ensures EncodeAll(Texts(keys + [key])) == EncodeAll(Texts(keys)) + Encode(Str(key))
  {
    hide Encode;
    assert Texts(keys + [key]) == Texts(keys) + [Str(key)];
    EncodeAllAppend(Texts(keys), [Str(key)]);
    EncodeOne(Str(key));
  }

  /** cb_keys() on each key in turn. */
  method EmitKeys(keys: seq<Name>, b: Buffer)
    requires Ready(b)
    modifies b
    ensures Appended(b, EncodeAll(Texts(keys)))
  {
    hide Encode, EncodeAll, Texts;
    ghost var front := b.Unread();
    NoTexts();
    for i := 0 to |keys|
      invariant Ready(b) && b.Offsets() == old(b.Offsets())
      invariant b.Unread() == front + EncodeAll(Texts(keys[..i]))
    {
      TextsGrow(keys[..i], keys[i]);
      assert keys[..i + 1] == keys[..i] + [keys[i]];
      OutStr(b, keys[i]);
    }
    assert keys[..|keys|] == keys;
  }

  lemma {:induction false} NoTexts()
    ensures EncodeAll(Texts([])) == []
  {
  }

  /** The response to KEYS, whose length is announced in 32 bits. */
  method AnswerKeys(size: nat, keys: seq<Name>, b: Buffer)
    requires Ready(b) && size == |keys|
    modifies b
    ensures Appended(b, Encode(Arr(Texts(keys))))
  {
    hide U32, Low32, EncodeAll;
    ghost var front, count, body := b.Unread(), [TAG_ARR] + U32(Low32(|keys|)), EncodeAll(Texts(keys));
    OutArr(b, Low32(size));
    EmitKeys(keys, b);
    assert front + count + body == front + (count + body);
  }
}
