/** The (score, name) order of a sorted set: what is sorted, how a descent splits it, and its only listing. */
module Ranking {
  import opened Pairs
  import opened AvlTree

  type Scores = map<Name, int>

  ghost function PairOf(scores: Scores, n: AVLNode): Pair
    requires n.data.name in scores
  {
    Pair(scores[n.data.name], n.data.name)
  }

  ghost predicate Known(scores: Scores, s: seq<AVLNode>) {
    forall i | 0 <= i < |s| :: s[i].data.name in scores
  }

  ghost predicate Sorted(scores: Scores, s: seq<AVLNode>) {
    Known(scores, s) && forall i, j | 0 <= i < j < |s| :: ZLess(PairOf(scores, s[i]), PairOf(scores, s[j]))
  }

  /** All of s sort before the key. */
  ghost predicate AllBefore(scores: Scores, s: seq<AVLNode>, key: Pair) {
    Known(scores, s) && forall i | 0 <= i < |s| :: ZLess(PairOf(scores, s[i]), key)
  }

  /** None of s sorts before the key. */
  ghost predicate NoneBefore(scores: Scores, s: seq<AVLNode>, key: Pair) {
    Known(scores, s) && forall i | 0 <= i < |s| :: !ZLess(PairOf(scores, s[i]), key)
  }

  // ---- descents ----

  /** The hole of c separates the nodes that sort before the key from the others. */
  ghost predicate Splits(scores: Scores, c: Context, key: Pair) {
    AllBefore(scores, Before(c), key) && NoneBefore(scores, After(c), key)
  }

  /** In a sorted sequence everything up to an element below the key is below the key. */
  lemma PrefixBefore(scores: Scores, s: seq<AVLNode>, k: nat, key: Pair)
    requires Sorted(scores, s) && k < |s| && ZLess(PairOf(scores, s[k]), key)
    ensures AllBefore(scores, s[..k + 1], key)
  {
    hide ZLess;
    forall i | 0 <= i <= k ensures ZLess(PairOf(scores, s[i]), key) {
      ZLessIsStrictTotalOrder(PairOf(scores, s[i]), PairOf(scores, s[k]), key);
    }
  }

  /** Everything from an element on that is not below the key is not below the key. */
  lemma SuffixNotBefore(scores: Scores, s: seq<AVLNode>, k: nat, key: Pair)
    requires Sorted(scores, s) && k < |s| && !ZLess(PairOf(scores, s[k]), key)
    ensures NoneBefore(scores, s[k..], key)
  {
    hide ZLess;
    forall i | k <= i < |s| ensures !ZLess(PairOf(scores, s[i]), key) {
      ZLessIsStrictTotalOrder(PairOf(scores, s[k]), PairOf(scores, s[i]), key);
    }
  }

  lemma KnownAt(scores: Scores, s: seq<AVLNode>, k: nat)
    requires Sorted(scores, s) && k < |s|
    ensures s[k].data.name in scores
  {
    hide ZLess;
  }

  lemma TailOf(front: seq<AVLNode>, n: AVLNode, right: seq<AVLNode>, after: seq<AVLNode>)
    ensures (front + [n] + (right + after))[|front|..] == [n] + right + after
  {
  }

  lemma DescendLeft(scores: Scores, c: Context, t: Tree, key: Pair)
    requires t.Bin? && Sorted(scores, Inorder(Plug(c, t))) && Splits(scores, c, key)
    ensures t.node.data.name in scores
    ensures !ZLess(PairOf(scores, t.node), key) ==> Splits(scores, Left(c, t.node, t.right), key)
  {
    hide ZLess, Sorted, AllBefore, NoneBefore, Plug;
    SplitContext(c, t);
    var s, k := Inorder(Plug(c, t)), |Before(c)| + |Inorder(t.left)|;
    assert s[k] == t.node;
    KnownAt(scores, s, k);
    if !ZLess(PairOf(scores, t.node), key) {
      SuffixNotBefore(scores, s, k, key);
      TailOf(Before(c) + Inorder(t.left), t.node, Inorder(t.right), After(c));
    }
  }

  lemma DescendRight(scores: Scores, c: Context, t: Tree, key: Pair)
    requires t.Bin? && Sorted(scores, Inorder(Plug(c, t))) && Splits(scores, c, key)
    ensures t.node.data.name in scores
    ensures ZLess(PairOf(scores, t.node), key) ==> Splits(scores, Right(t.left, t.node, c), key)
  {
    hide ZLess, Sorted, AllBefore, NoneBefore, Plug;
    SplitContext(c, t);
    var s, k := Inorder(Plug(c, t)), |Before(c)| + |Inorder(t.left)|;
    assert s[k] == t.node;
    KnownAt(scores, s, k);
    if ZLess(PairOf(scores, t.node), key) {
      PrefixBefore(scores, s, k, key);
      assert Before(Right(t.left, t.node, c)) == s[..k + 1];
    }
  }

  /** Two elements of a sequence with a newcomer between a and b. */
  lemma TwoWithNewcomer(scores: Scores, a: seq<AVLNode>, n: AVLNode, b: seq<AVLNode>, i: nat, j: nat)
    requires Sorted(scores, a + b) && n.data.name in scores && i < j < |a + [n] + b|
    requires forall x | x in a :: x.data.name in scores && ZLess(PairOf(scores, x), PairOf(scores, n))
    requires forall x | x in b :: x.data.name in scores && ZLess(PairOf(scores, n), PairOf(scores, x))
    ensures var s := a + [n] + b;
            && s[i].data.name in scores && s[j].data.name in scores
            && ZLess(PairOf(scores, s[i]), PairOf(scores, s[j]))
  {
    hide ZLess;
    var s := a + [n] + b;
    if i == |a| {
      assert s[j] == b[j - |a| - 1] && s[j] in b;
    } else if j == |a| {
      assert s[i] == a[i] && s[i] in a;
    } else {
      var i', j' := if i < |a| then i else i - 1, if j < |a| then j else j - 1;
      assert s[i] == (a + b)[i'] && s[j] == (a + b)[j'];
    }
  }

  /** A newcomer under a fresh name fits where the descent for its pair ended. */
  lemma NewcomerFits(scores: Scores, c: Context, n: AVLNode)
    requires n.data.name in scores && Sorted(scores, Inorder(Plug(c, Nil))) && Splits(scores, c, PairOf(scores, n))
    requires forall x | x in Inorder(Plug(c, Nil)) :: x.data.name != n.data.name
    ensures Sorted(scores, Before(c) + [n] + After(c))
  {
    hide ZLess, Inorder;
    PlugInorder(c, Nil);
    var a, b := Before(c), After(c);
    NilInorder();
    assert Inorder(Plug(c, Nil)) == a + [] + b == a + b;
    forall x | x in b ensures x.data.name in scores && ZLess(PairOf(scores, n), PairOf(scores, x)) {
      assert x in a + b;
      ZLessIsStrictTotalOrder(PairOf(scores, n), PairOf(scores, x), PairOf(scores, n));
    }
    forall i, j | 0 <= i < j < |a + [n] + b|
      ensures (a + [n] + b)[i].data.name in scores && (a + [n] + b)[j].data.name in scores
      ensures ZLess(PairOf(scores, (a + [n] + b)[i]), PairOf(scores, (a + [n] + b)[j]))
    {
      TwoWithNewcomer(scores, a, n, b, i, j);
    }
    assert forall i | 0 <= i < |a + [n] + b| :: (a + [n] + b)[i] in a || (a + [n] + b)[i] == n || (a + [n] + b)[i] in b;
  }

  lemma NilInorder()
    ensures Inorder(Nil) == []
  {
  }

  lemma SortedWithout(scores: Scores, a: seq<AVLNode>, n: AVLNode, b: seq<AVLNode>)
    requires Sorted(scores, a + [n] + b)
    ensures Sorted(scores, a + b)
  {
    hide ZLess;
    var s := a + [n] + b;
    assert forall i | 0 <= i < |a + b| :: (a + b)[i] == s[if i < |a| then i else i + 1];
  }

  lemma SortedFrame(scores: Scores, scores': Scores, s: seq<AVLNode>)
    requires Sorted(scores, s)
    requires forall i | 0 <= i < |s| && s[i].data.name in scores ::
             s[i].data.name in scores' && scores'[s[i].data.name] == scores[s[i].data.name]
    ensures Sorted(scores', s)
  {
    hide ZLess;
  }

  // ---- the listing of a map ----

  ghost predicate Ascending(ps: seq<Pair>) {
    forall i, j | 0 <= i < j < |ps| :: ZLess(ps[i], ps[j])
  }

  /** ps is the sorted list of the members of the map. */
  ghost predicate Lists(scores: Scores, ps: seq<Pair>) {
    && Ascending(ps)
    && (forall p | p in ps :: p.name in scores && scores[p.name] == p.score)
    && forall name | name in scores :: Pair(scores[name], name) in ps
  }

  /** A map has only one sorted list, so whatever is read off in order is determined by the map alone. */
  lemma {:induction false} ListingIsUnique(scores: Scores, ps: seq<Pair>, qs: seq<Pair>)
    requires Lists(scores, ps) && Lists(scores, qs)
    ensures ps == qs
    decreases |ps|
  {
    hide ZLess;
    assert ps != [] ==> ps[0] in ps && Pair(scores[ps[0].name], ps[0].name) == ps[0];
    assert qs != [] ==> qs[0] in qs && Pair(scores[qs[0].name], qs[0].name) == qs[0];
    if ps == [] || qs == [] {
    } else {
      var p, q := ps[0], qs[0];
      assert p in qs && q in ps by {
        assert Pair(scores[p.name], p.name) == p && Pair(scores[q.name], q.name) == q;
      }
      ZLessIsStrictTotalOrder(p, q, p);
      assert p == q;
      ListsTail(scores, ps);
      ListsTail(scores, qs);
      ListingIsUnique(scores - {p.name}, ps[1..], qs[1..]);
    }
  }

  lemma ListsTail(scores: Scores, ps: seq<Pair>)
    requires Lists(scores, ps) && ps != []
    ensures Lists(scores - {ps[0].name}, ps[1..])
  {
    hide ZLess;
    var p := ps[0];
    forall q | q in ps[1..] ensures q.name != p.name {
      ZLessIsStrictTotalOrder(p, q, p);
    }
  }

  lemma {:induction false} ListLength(scores: Scores, ps: seq<Pair>)
    requires Lists(scores, ps)
    ensures |ps| == |scores|
    decreases |ps|
  {
    hide ZLess;
    if ps == [] {
      assert scores == map[];
    } else {
      ListsTail(scores, ps);
      ListLength(scores - {ps[0].name}, ps[1..]);
      assert ps[0] in ps && (scores - {ps[0].name}).Keys == scores.Keys - {ps[0].name};
    }
  }

  /** The members of a sorted set in their order; a map has exactly one such list. */
  ghost function SortedList(scores: Scores): seq<Pair> {
    if exists ps :: Lists(scores, ps) then
      var ps :| Lists(scores, ps);
      ps
    else []
  }

  lemma SortedListIs(scores: Scores, ps: seq<Pair>)
    requires Lists(scores, ps)
    ensures SortedList(scores) == ps
  {
    ListingIsUnique(scores, ps, SortedList(scores));
  }

  /** The pairs of a node sequence. */
  ghost function PairsOf(scores: Scores, s: seq<AVLNode>): seq<Pair>
    requires Known(scores, s)
  {
    seq(|s|, i requires 0 <= i < |s| => PairOf(scores, s[i]))
  }

  /** The number of leading pairs that sort before the key. */
  ghost function Rank(ps: seq<Pair>, key: Pair): (r: nat)
    ensures r <= |ps|
  {
    if ps == [] || !ZLess(ps[0], key) then 0 else 1 + Rank(ps[1..], key)
  }

  lemma {:induction false} RankIsSplit(ps: seq<Pair>, key: Pair, k: nat)
    requires k <= |ps| && forall i | 0 <= i < k :: ZLess(ps[i], key)
    requires k < |ps| ==> !ZLess(ps[k], key)
    ensures Rank(ps, key) == k
  {
    if k > 0 {
      RankIsSplit(ps[1..], key, k - 1);
    }
  }

  /** In an ascending list the key comes after exactly the pairs below its rank. */
  lemma {:induction false} RankSplits(ps: seq<Pair>, key: Pair)
    requires Ascending(ps)
    ensures forall i | 0 <= i < |ps| :: ZLess(ps[i], key) <==> i < Rank(ps, key)
  {
    hide ZLess;
    if ps != [] {
      RankSplits(ps[1..], key);
      forall i | 0 < i < |ps| ensures ZLess(ps[i], key) <==> i < Rank(ps, key) {
        assert ps[i] == ps[1..][i - 1];
        ZLessIsStrictTotalOrder(ps[0], ps[i], key);
      }
    }
  }

  /** How many pairs p satisfy key1 <= p < key2. */
  ghost function CountIn(ps: seq<Pair>, key1: Pair, key2: Pair): nat {
    if ps == [] then 0
    else
      var last := ps[|ps| - 1];
      (if !ZLess(last, key1) && ZLess(last, key2) then 1 else 0) + CountIn(ps[..|ps| - 1], key1, key2)
  }

  lemma {:induction false} CountInPrefix(ps: seq<Pair>, key1: Pair, key2: Pair, k: nat)
    requires Ascending(ps) && k <= |ps|
    ensures CountIn(ps[..k], key1, key2) == Positive(Min(k, Rank(ps, key2)) - Min(k, Rank(ps, key1)))
  {
    if k > 0 {
      RankSplits(ps, key1);
      RankSplits(ps, key2);
      CountInPrefix(ps, key1, key2, k - 1);
      assert ps[..k][..k - 1] == ps[..k - 1];
    }
  }

  /** What do_zcount() returns: zero when either key lies past the end. */
  ghost function CountAnswer(ps: seq<Pair>, from: Pair, to: Pair): nat {
    if Rank(ps, from) == |ps| || Rank(ps, to) == |ps| then 0 else CountIn(ps, from, to)
  }

  function Positive(d: int): nat {
    if d > 0 then d else 0
  }

  /** The answer to ZQUERY: the pairs from `offset` places after the key onwards, at most `limit` of them. */
  ghost function Slice(ps: seq<Pair>, key: Pair, offset: int, limit: int): seq<Pair> {
    var start := Rank(ps, key) + offset;
    if limit <= 0 || Rank(ps, key) == |ps| || start < 0 || start >= |ps| then []
    else if start + limit >= |ps| then ps[start..]
    else ps[start..start + limit]
  }

  /** The places of the slice in an ascending list of which exactly the first `rank` sort before the key. */
  lemma SliceIs(ps: seq<Pair>, key: Pair, offset: int, limit: int, rank: nat)
    requires rank <= |ps| && forall k | 0 <= k < |ps| :: ZLess(ps[k], key) <==> k < rank
    ensures var start := rank + offset;
            Slice(ps, key, offset, limit) ==
              if limit <= 0 || rank == |ps| || start < 0 || start >= |ps| then []
              else ps[start..start + Min(limit, |ps| - start)]
  {
    hide ZLess;
    RankIsSplit(ps, key, rank);
  }

  lemma LastIsNew(ps: seq<Pair>)
    requires Ascending(ps) && ps != []
    ensures Ascending(ps[..|ps| - 1]) && ps[|ps| - 1] !in ps[..|ps| - 1]
    ensures forall p :: p in ps <==> p in ps[..|ps| - 1] || p == ps[|ps| - 1]
  {
    hide ZLess;
    var front, last := ps[..|ps| - 1], ps[|ps| - 1];
    forall p | p in front ensures p != last {
      ZLessIsStrictTotalOrder(p, last, p);
    }
  }

  ghost function Between(ps: seq<Pair>, from: Pair, to: Pair): set<Pair> {
    set p | p in ps && !ZLess(p, from) && ZLess(p, to)
  }

  lemma BetweenMore(ps: seq<Pair>, from: Pair, to: Pair)
    requires Ascending(ps) && ps != []
    ensures var front, last := ps[..|ps| - 1], ps[|ps| - 1];
            && Ascending(front) && last !in Between(front, from, to)
            && Between(ps, from, to)
            == Between(front, from, to) + if !ZLess(last, from) && ZLess(last, to) then {last} else {}
  {
    hide ZLess, Ascending;
    LastIsNew(ps);
  }

  lemma {:induction false} CountIsCardinality(ps: seq<Pair>, from: Pair, to: Pair)
    requires Ascending(ps)
    ensures CountIn(ps, from, to) == |Between(ps, from, to)|
  {
    hide ZLess, Ascending;
    if ps != [] {
      hide Between;
      BetweenMore(ps, from, to);
      CountIsCardinality(ps[..|ps| - 1], from, to);
    } else {
      assert Between(ps, from, to) == {};
    }
  }

  /** What do_zcount() returns, without ranks: 0 when every member sorts before the end, otherwise the true count. */
  lemma CountAnswerIs(ps: seq<Pair>, from: Pair, to: Pair)
    requires Ascending(ps)
    ensures CountAnswer(ps, from, to) ==
            if forall p | p in ps :: ZLess(p, to) then 0 else |set p | p in ps && !ZLess(p, from) && ZLess(p, to)|
  {
    hide ZLess, CountIn;
    assert Between(ps, from, to) == set p | p in ps && !ZLess(p, from) && ZLess(p, to);
    RankSplits(ps, from);
    RankSplits(ps, to);
    CountIsCardinality(ps, from, to);
    assert (forall p | p in ps :: ZLess(p, to)) <==> Rank(ps, to) == |ps| by {
      assert Rank(ps, to) < |ps| ==> ps[Rank(ps, to)] in ps;
    }
    if Rank(ps, from) == |ps| {
      assert (set p | p in ps && !ZLess(p, from) && ZLess(p, to)) == {};
    }
  }

  /** Every map has a sorted list. */
  lemma {:induction false} EveryMapIsListed(scores: Scores) returns (ps: seq<Pair>)
    ensures Lists(scores, ps)
    decreases |scores|
  {
    hide Lists;
    ps := [];
    if scores != map[] {
      var name :| name in scores;
      var rest := scores - {name};
      assert scores.Keys == rest.Keys + {name};
      var qs := EveryMapIsListed(rest);
      ps := ListWithOneMore(rest, qs, Pair(scores[name], name));
      assert rest[name := scores[name]] == scores;
    } else {
      NothingListed(scores);
    }
  }

  lemma NothingListed(scores: Scores)
    requires scores == map[]
    ensures Lists(scores, [])
  {
  }

  lemma ListWithOneMore(scores: Scores, qs: seq<Pair>, p: Pair) returns (ps: seq<Pair>)
    requires Lists(scores, qs) && p.name !in scores
    ensures Lists(scores[p.name := p.score], ps)
  {
    hide ZLess;
    RankSplits(qs, p);
    var r := Rank(qs, p);
    ps := qs[..r] + [p] + qs[r..];
    forall q | q in qs ensures ZLess(q, p) || ZLess(p, q) {
      ZLessIsStrictTotalOrder(q, p, q);
    }
    forall i, j | 0 <= i < j < |ps| ensures ZLess(ps[i], ps[j]) {
      assert i < r ==> ps[i] == qs[i] && qs[i] in qs;
      assert i > r ==> ps[i] == qs[i - 1];
      assert j < r ==> ps[j] == qs[j];
      assert j > r ==> ps[j] == qs[j - 1] && qs[j - 1] in qs;
    }
    assert p in ps && forall q :: q in ps <==> q in qs || q == p;
  }
}
