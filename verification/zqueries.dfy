/** The sorted-set commands of commands.cc, stated on the sorted list of the members. */
module ZQueries {
  import opened Pairs
  import opened AvlTree
  import opened Avl
  import opened HashTable
  import opened Ranking
  import opened ZSetTree
  import opened ZSets

  /** The members in (score, name) order. */
  ghost function Listing(z: ZSet): seq<Pair>
    requires Known(z.scores, Inorder(z.tree))
    reads z
  {
    PairsOf(z.scores, Inorder(z.tree))
  }

  lemma PairsListMap(s: seq<AVLNode>, members: Members, scores: Scores)
    requires Sorted(scores, s) && members.Keys == scores.Keys
    requires forall name | name in members :: members[name].owner in s && members[name].owner.data.name == name
    ensures Lists(scores, PairsOf(scores, s))
  {
    hide ZLess;
    var ps := PairsOf(scores, s);
    forall name | name in scores ensures Pair(scores[name], name) in ps {
      var n := members[name].owner;
      var i :| 0 <= i < |s| && s[i] == n;
      assert ps[i] == PairOf(scores, n);
    }
  }

  /** The tree lists the map, so every answer read off the list is an answer about the map. */
  lemma ListingListsMap(z: ZSet)
    requires z.Valid()
    ensures Known(z.scores, Inorder(z.tree)) && Lists(z.scores, Listing(z))
    ensures |Listing(z)| == |Inorder(z.tree)|
  {
    hide HMap.Valid, ZSet.TreeValid, SameMembers, Inorder, Sorted, Lists, IsTree, Nodes;
    z.Facts();
    z.TreeFacts();
    InorderNodes(z.tree);
    PairsListMap(Inorder(z.tree), z.members, z.scores);
  }

  /** A sorted set has as many tree nodes as members. */
  lemma SizeIsCount(z: ZSet)
    requires z.Valid()
    ensures Size(z.tree) == |z.scores|
  {
    hide ZSet.Valid, ZSet.TreeValid, Lists, Known;
    ListingListsMap(z);
    ListLength(z.scores, Listing(z));
  }

  lemma RankFound(s: seq<AVLNode>, scores: Scores, key: Pair, k: nat)
    requires k <= |s| && AllBefore(scores, s[..k], key) && NoneBefore(scores, s[k..], key) && Known(scores, s)
    ensures Rank(PairsOf(scores, s), key) == k
  {
    hide ZLess;
    var ps := PairsOf(scores, s);
    assert forall i | 0 <= i < k :: s[..k][i] == s[i];
    assert k < |ps| ==> s[k..][0] == s[k];
    RankIsSplit(ps, key, k);
  }

  /** zset_seekge() then picks the pair at the rank of the key. */
  method Seek(z: ZSet, key: Pair) returns (found: AVLNode?)
    requires z.Valid()
    ensures Known(z.scores, Inorder(z.tree))
    ensures found == At(Inorder(z.tree), Rank(Listing(z), key))
  {
    hide HMap.Valid, ZSet.TreeValid, SameMembers, Sorted, AllBefore, NoneBefore, Known, HasScores, IsTree, Inorder;
    hide Nodes;
    z.TreeFacts();
    ghost var k;
    found, k := SeekGe(z.root, key, z.nodes, z.tree, z.scores);
    RankFound(Inorder(z.tree), z.scores, key, k);
  }

  /** The element at the index, or null when the index is out of range. */
  ghost function At(s: seq<AVLNode>, k: int): AVLNode? {
    if 0 <= k < |s| then s[k] else null
  }

  lemma {:induction false} IndexOfNode(t: Tree, k: nat)
    requires Distinct(t) && k < |Inorder(t)|
    ensures Inorder(t)[k] in Nodes(t) && |NodesBefore(t, Inorder(t)[k])| == k
  {
    hide Distinct, NodesBefore, NodesAfter;
    var s, n := Inorder(t), Inorder(t)[k];
    InorderNodes(t);
    assert n in s;
    SplitAtNode(t, n);
    var a, b := NodesBefore(t, n), NodesAfter(t, n);
    assert forall i | 0 <= i < |a| :: s[i] == a[i] && a[i] in a;
    assert forall i | |a| < i < |s| :: s[i] == b[i - |a| - 1] && b[i - |a| - 1] in b;
  }

  /** znode_offset() from the node at index k. */
  method Offset(z: ZSet, node: AVLNode?, offset: int, ghost k: int) returns (target: AVLNode?)
    requires z.Valid() && Size(z.tree) < UINT32_RANGE && node == At(Inorder(z.tree), k)
    ensures target == if node == null then null else At(Inorder(z.tree), k + offset)
  {
    hide HMap.Valid, ZSet.TreeValid, SameMembers, Sorted, IsTree, Inorder, Nodes, AvlTree.Distinct, NodesBefore;
    hide HasScores;
    z.TreeFacts();
    target := null;
    if node != null {
      IndexOfNode(z.tree, k);
      ghost var steps;
      target, steps := AvlOffset(node, offset, z.nodes, z.tree);
    }
  }

  lemma NodeAt(z: ZSet, k: nat)
    requires z.Valid() && k < |Inorder(z.tree)|
    ensures Inorder(z.tree)[k] in z.nodes && Known(z.scores, Inorder(z.tree)) && |Listing(z)| == |Inorder(z.tree)|
    ensures KeyOf(Inorder(z.tree)[k]) == Listing(z)[k]
  {
    z.TreeFacts();
    IndexOfNode(z.tree, k);
  }

  /** do_zrank(): the index of the name in the list; -1 stands for nil. */
  method RankOfName(z: ZSet, name: Name) returns (rank: int)
    requires z.Valid() && Size(z.tree) < UINT32_RANGE
    modifies z.hmap, z.hmap.newer, z.hmap.older, z.hmap.Tables(), z.hmap.Nodes()
    ensures z.Valid() && Known(z.scores, Inorder(z.tree)) && |Listing(z)| == |Inorder(z.tree)|
    ensures if name in z.scores then 0 <= rank < |Listing(z)|
            && Listing(z)[rank] == Pair(z.scores[name], name) else rank == -1
    ensures z.hmap.Nodes() == old(z.hmap.Nodes()) && z.hmap.Tables() <= old(z.hmap.Tables()) + {null}
  {
    hide ZSet.Valid, HMap.Valid, ZSet.TreeValid, SameMembers, Sorted, Inorder, IsTree, Nodes, AvlTree.Distinct;
    hide NodesBefore, HasScores, Balanced, Known;
    rank := -1;
    var hnode := z.Lookup(name);
    z.Facts();
    z.TreeFacts();
    if hnode != null {
      rank := AvlRank(hnode.owner, z.nodes, z.tree);
    }
  }

  lemma OwnRank(scores: Scores, ps: seq<Pair>, k: nat)
    requires Lists(scores, ps) && k < |ps|
    ensures Rank(ps, ps[k]) == k
  {
    hide ZLess;
    ZLessIsStrictTotalOrder(ps[k], ps[k], ps[k]);
    RankIsSplit(ps, ps[k], k);
  }

  /** do_zrank() with everything it needs: the number of members that sort before the one of this name. */
  method FindRank(z: ZSet, name: Name) returns (found: bool, rank: nat)
    requires z.Owned() && |z.scores| < UINT32_RANGE
    modifies z.repr
    ensures z.Owned() && fresh(z.repr - old(z.repr)) && z.scores == old(z.scores)
    ensures found == (name in z.scores) && rank < UINT32_RANGE
    ensures found ==> Rank(SortedList(z.scores), Pair(z.scores[name], name)) == rank
  {
    hide ZSet.Valid, HMap.Valid, Lists, Known, Rank, SortedList;
    SizeIsCount(z);
    var index := RankOfName(z, name);
    ListingListsMap(z);
    z.OnlyNewObjects();
    z.Adopt();
    found, rank := index >= 0, if index >= 0 then index else 0;
    if found {
      ghost var listed := Listing(z);
      ListLength(z.scores, listed);
      OwnRank(z.scores, listed, rank);
      SortedListIs(z.scores, listed);
    }
  }

  /** do_zcount(): zero when either key lies past the end. */
  method Count(z: ZSet, key1: Pair, key2: Pair) returns (count: int)
    requires z.Valid() && Size(z.tree) < UINT32_RANGE
    ensures Known(z.scores, Inorder(z.tree))
    ensures count == CountAnswer(Listing(z), key1, key2)
  {
    hide HMap.Valid, ZSet.TreeValid, SameMembers, Sorted, Inorder, IsTree, Nodes, AvlTree.Distinct, NodesBefore;
    hide HasScores, Lists, Rank, CountIn;
    z.TreeFacts();
    ListingListsMap(z);
    ghost var ps := Listing(z);
    var node1 := Seek(z, key1);
    var node2 := Seek(z, key2);
    if node1 == null || node2 == null {
      return 0;
    }
    IndexOfNode(z.tree, Rank(ps, key1));
    IndexOfNode(z.tree, Rank(ps, key2));
    var rank1 := AvlRank(node1, z.nodes, z.tree);
    var rank2 := AvlRank(node2, z.nodes, z.tree);
    count := rank2 - rank1;
    if count < 0 {
      count := 0;
    }
    CountBetween(z.scores, ps, key1, key2);
  }

  lemma CountBetween(scores: Scores, ps: seq<Pair>, key1: Pair, key2: Pair)
    requires Lists(scores, ps)
    ensures CountIn(ps, key1, key2) == Positive(Rank(ps, key2) - Rank(ps, key1))
  {
    CountInPrefix(ps, key1, key2, |ps|);
    assert ps[..|ps|] == ps;
  }

  /**
   ZCOUNT answers with the number of pairs p with key1 <= p < key2, unless every pair is below key2
   and some pair is not below key1: then it answers 0 although there are such pairs.
   */
  lemma CountIsRightUnlessPastEnd(ps: seq<Pair>, key1: Pair, key2: Pair)
    requires Ascending(ps)
    ensures CountAnswer(ps, key1, key2) == CountIn(ps, key1, key2)
       <==> !((forall p | p in ps :: ZLess(p, key2)) && exists p | p in ps :: !ZLess(p, key1))
  {
    hide ZLess, CountIn;
    CountInPrefix(ps, key1, key2, |ps|);
    assert ps[..|ps|] == ps;
    RankSplits(ps, key1);
    RankSplits(ps, key2);
    assert forall i | 0 <= i < |ps| :: ps[i] in ps;
    if Rank(ps, key1) < |ps| {
      assert !ZLess(ps[Rank(ps, key1)], key1);
    }
    if Rank(ps, key2) < |ps| {
      assert !ZLess(ps[Rank(ps, key2)], key2);
    }
  }

  /** The answer to ZCOUNT depends on the map alone. */
  method CountMembers(z: ZSet, key1: Pair, key2: Pair) returns (count: nat)
    requires z.Valid() && |z.scores| < UINT32_RANGE
    ensures count == CountAnswer(SortedList(z.scores), key1, key2)
  {
    hide ZSet.Valid, Lists, SortedList, CountAnswer, Known, Inorder;
    SizeIsCount(z);
    ListingListsMap(z);
    SortedListIs(z.scores, Listing(z));
    count := Count(z, key1, key2);
  }

  /** For instance, one member counted up to a larger key: the answer is 0, not 1. */
  method CountPastEndIsWrong() returns (count: int, ghost ps: seq<Pair>)
    ensures ps == [Pair(1, [])] && CountIn(ps, Pair(1, []), Pair(2, [])) == 1 && count == 0
  {
    hide ZSet.Valid, CountAnswer, ZLess;
    var z := new ZSet();
    var added := z.Insert([], 1);
    count := CountMembers(z, Pair(1, []), Pair(2, []));
    ps := [Pair(1, [])];
    OneMember(ps);
    SortedListIs(z.scores, ps);
  }

  lemma OneMember(ps: seq<Pair>)
    requires ps == [Pair(1, [])]
    ensures Lists(map[[] := 1], ps) && CountIn(ps, Pair(1, []), Pair(2, [])) == 1
    ensures CountAnswer(ps, Pair(1, []), Pair(2, [])) == 0
  {
    assert ps[..0] == [] && ps[1..] == [];
    assert CountIn(ps[..0], Pair(1, []), Pair(2, [])) == 0;
  }

  // ---- runs ----

  datatype Op = Insert(name: Name, score: int) | Remove(name: Name) | Find(name: Name)

  /** A sorted set is a map from names to scores. */
  function Meaning(ops: seq<Op>): Scores {
    if ops == [] then map[] else Apply(Meaning(ops[..|ops| - 1]), ops[|ops| - 1])
  }

  /** Everything a run may have to modify has been allocated by the run. */
  twostate predicate OwnsAll(new z: ZSet)
    reads z, z.hmap.newer, z.hmap.older
  {
    && fresh(z) && fresh(z.hmap) && fresh(z.hmap.newer) && fresh(z.hmap.older)
    && (forall h | h in z.hmap.Nodes() :: fresh(h)) && (forall t | t in z.hmap.Tables() && t != null :: fresh(t))
    && forall n | n in z.nodes :: fresh(n) && fresh(n.data)
  }

  /** One operation, as do_zadd(), do_zrem() and do_zscore() perform it. */
  method Step(z: ZSet, op: Op)
    requires z.Valid()
    modifies z, z.hmap, z.hmap.newer, z.hmap.older, z.hmap.Tables(), z.hmap.Nodes(), z.nodes, Data(z.nodes)
    ensures z.Valid() && z.scores == Apply(old(z.scores), op)
    ensures fresh(z.hmap.Nodes() - old(z.hmap.Nodes())) && z.FreshTables(old(z.hmap.Tables()))
    ensures forall n | n in z.nodes :: n in old(z.nodes) || (fresh(n) && fresh(n.data))
  {
    hide ZSet.Valid;
    match op
    case Insert(name, score) =>
      var added := z.Insert(name, score);
    case Remove(name) =>
      var removed := z.Remove(name);
    case Find(name) =>
      var found := z.Lookup(name);
  }

  function Apply(scores: Scores, op: Op): Scores {
    match op
    case Insert(name, score) => scores[name := score]
    case Remove(name) => scores - {name}
    case Find(_) => scores
  }

  /** Over every run of insertions, removals and lookups both indexes agree with the map. */
  method Run(ops: seq<Op>) returns (z: ZSet)
    ensures z.Valid() && z.scores == Meaning(ops)
    ensures Known(z.scores, Inorder(z.tree)) && Lists(Meaning(ops), Listing(z))
  {
    hide ZSet.Valid;
    z := new ZSet();
    for i := 0 to |ops|
      invariant z.Valid() && OwnsAll(z) && z.scores == Meaning(ops[..i])
    {
      Step(z, ops[i]);
      assert ops[..i + 1][..i] == ops[..i];
    }
    assert ops[..|ops|] == ops;
    ListingListsMap(z);
  }
}
