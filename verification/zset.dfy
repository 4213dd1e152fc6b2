/** zset.cc: a sorted set indexes the same members by name, in a hash map, and by (score, name), in an AVL tree. */
module ZSets {
  import opened Pairs
  import opened AvlTree
  import opened Avl
  import opened HashChains
  import opened HashTable
  import opened Ranking
  import opened StringHash
  import opened ZSetTree

  /** The comparison of hcmp(): equal lengths and no difference in memcmp(). */
  predicate SameName(a: Name, b: Name) {
    |a| == |b| && Memcmp(a, b, |a|) == 0
  }

  lemma {:induction false} SameNameIsEquality(a: Name, b: Name)
    ensures SameName(a, b) <==> a == b
  {
    if a != [] && b != [] {
      SameNameIsEquality(a[1..], b[1..]);
      assert a == [a[0]] + a[1..] && b == [b[0]] + b[1..];
    }
  }

  type Members = map<Name, HNode<AVLNode>>

  /** The hash nodes H and the tree nodes S belong to the same members, one for each name. */
  ghost predicate SameMembers(H: set<HNode<AVLNode>>, S: set<AVLNode>, members: Members, scores: Scores) {
    && members.Keys == scores.Keys
    && (forall name | name in members ::
          && members[name] in H && members[name].owner in S
          && members[name].owner.data.name == name && members[name].hcode == Hash(name))
    && (forall h | h in H :: h.owner.data.name in members && members[h.owner.data.name] == h)
    && forall n | n in S :: n.data.name in members && members[n.data.name].owner == n
  }

  /** A lookup by name finds the member of that name, if there is one. */
  lemma FoundByName(H: set<HNode<AVLNode>>, S: set<AVLNode>, members: Members, scores: Scores,
                    found: HNode?<AVLNode>, name: Name, eq: HNode<AVLNode> -> bool)
    requires SameMembers(H, S, members, scores)
    requires forall h: HNode<AVLNode> | h in H :: eq(h) == SameName(h.owner.data.name, name)
    requires found != null ==> found in H && Matches(found, Hash(name), eq)
    requires found == null ==> forall h | h in H :: !Matches(h, Hash(name), eq)
    ensures found == if name in members then members[name] else null
  {
    forall h: HNode<AVLNode> | h in H ensures eq(h) <==> h.owner.data.name == name {
      SameNameIsEquality(h.owner.data.name, name);
    }
    assert name in members ==> Matches(members[name], Hash(name), eq);
  }

  lemma NamesAreUnique(H: set<HNode<AVLNode>>, S: set<AVLNode>, members: Members, scores: Scores)
    requires SameMembers(H, S, members, scores)
    ensures forall m, n | m in S && n in S && m != n :: m.data.name != n.data.name
    ensures forall n | n in S :: n.data.name in scores
  {
  }

  lemma MemberAdded(H: set<HNode<AVLNode>>, S: set<AVLNode>, members: Members, scores: Scores,
                    h: HNode<AVLNode>, score: int)
    requires SameMembers(H, S, members, scores) && h.hcode == Hash(h.owner.data.name)
    requires h.owner.data.name !in scores
    ensures var name := h.owner.data.name;
            SameMembers(H + {h}, S + {h.owner}, members[name := h], scores[name := score])
    ensures h !in H && h.owner !in S
  {
  }

  lemma MemberRemoved(H: set<HNode<AVLNode>>, S: set<AVLNode>, members: Members, scores: Scores, name: Name)
    requires SameMembers(H, S, members, scores) && name in members
    ensures SameMembers(H - {members[name]}, S - {members[name].owner}, members - {name}, scores - {name})
  {
  }

  lemma MemberUpdated(H: set<HNode<AVLNode>>, S: set<AVLNode>, members: Members, scores: Scores, name: Name, score: int)
    requires SameMembers(H, S, members, scores) && name in scores
    ensures SameMembers(H, S, members, scores[name := score])
  {
  }

  lemma MembersCount(H: set<HNode<AVLNode>>, S: set<AVLNode>, members: Members, scores: Scores)
    requires SameMembers(H, S, members, scores)
    ensures |H| == |scores|
  {
    var names := set h | h in H :: h.owner.data.name;
    assert names == scores.Keys by {
      forall name | name in scores ensures name in names {
        assert members[name] in H;
      }
    }
    SameCount(H, names, members);
    assert |scores| == |scores.Keys|;
  }

  lemma {:induction false} SameCount(H: set<HNode<AVLNode>>, names: set<Name>, members: Members)
    requires forall h | h in H ::
               h.owner.data.name in names && h.owner.data.name in members && members[h.owner.data.name] == h
    requires forall name | name in names ::
               name in members && members[name] in H && members[name].owner.data.name == name
    ensures |H| == |names|
  {
    if H != {} {
      var h :| h in H;
      SameCount(H - {h}, names - {h.owner.data.name}, members);
    } else {
      assert names == {};
    }
  }

  class ZSet {
    var root: AVLNode?
    const hmap: HMap<AVLNode>
    ghost var tree: Tree
    ghost var nodes: set<AVLNode>
    ghost var members: Members
    ghost var scores: Scores
    ghost var repr: set<object>

    ghost predicate TreeValid()
      reads `root, `tree, `nodes, `scores, nodes, set n | n in nodes :: n.data
    {
      && nodes == Nodes(tree) && root == Root(tree) && IsTree(Snapshot(nodes), tree, null)
      && IsIndex(tree, scores) && HasScores(nodes, scores)
    }

    /** Both indexes hold exactly the members of the map `scores`. */
    ghost predicate Valid()
      reads `root, `tree, `nodes, `scores, `members, hmap, hmap.newer, hmap.older, hmap.newer.tab, hmap.older.tab,
        hmap.newer.nodes, hmap.older.nodes
      reads nodes, set n | n in nodes :: n.data
    {
      hmap.Valid() && TreeValid() && SameMembers(hmap.Nodes(), nodes, members, scores)
    }

    /** ZSet{} */
    constructor ()
      ensures Owned() && scores == map[] && fresh(repr)
      ensures fresh(hmap) && fresh(hmap.newer) && fresh(hmap.older)
      ensures hmap.Tables() == {null} && hmap.Nodes() == {} && tree == Nil && nodes == {}
    {
      root := null;
      hmap := new HMap();
      tree, nodes, members, scores := Nil, {}, map[], map[];
      new;
      repr := {this, hmap, hmap.newer, hmap.older};
    }

    /** A lookup may migrate hash nodes, but leaves the tree alone. */
    method LookupBeside(hcode: nat, eq: HNode<AVLNode> -> bool) returns (found: HNode?<AVLNode>)
      requires hmap.Valid() && TreeValid()
      modifies hmap, hmap.newer, hmap.older, hmap.Tables(), hmap.Nodes()
      ensures hmap.Valid() && TreeValid() && hmap.Nodes() == old(hmap.Nodes())
      ensures hmap.Tables() <= old(hmap.Tables()) + {null}
      ensures found != null ==> found in hmap.Nodes() && Matches(found, hcode, eq)
      ensures found == null ==> forall n | n in hmap.Nodes() :: !Matches(n, hcode, eq)
    {
      hide HMap.Valid, ZSet.TreeValid, Matches;
      found := hmap.Lookup(hcode, eq);
    }

    /** zset_lookup() */
    method Lookup(name: Name) returns (found: HNode?<AVLNode>)
      requires Valid()
      modifies hmap, hmap.newer, hmap.older, hmap.Tables(), hmap.Nodes()
      ensures Valid() && hmap.Nodes() == old(hmap.Nodes()) && hmap.Tables() <= old(hmap.Tables()) + {null}
      ensures found == if name in members then members[name] else null
      ensures name in members <==> name in scores
    {
      hide HMap.Valid, ZSet.TreeValid, SameMembers, Hash, SameName;
      Facts();
      found := null;
      if root == null {
        return;
      }
      var hcode := StrHash(name);
      var eq := (h: HNode<AVLNode>) => SameName(h.owner.data.name, name);
      found := LookupBeside(hcode, eq);
      FoundByName(hmap.Nodes(), nodes, members, scores, found, name, eq);
      Together();
    }

    lemma NewScore(node: AVLNode, score: int)
      requires TreeValid() && node !in nodes && node.data.score == score
      requires forall n | n in nodes :: n.data.name != node.data.name
      ensures IsIndex(tree, scores[node.data.name := score])
      ensures HasScores(nodes + {node}, scores[node.data.name := score])
      ensures IsTree(Snapshot(nodes + {node}), tree, null)
    {
      InorderNodes(tree);
      SortedFrame(scores, scores[node.data.name := score], Inorder(tree));
      TreeFrame(Snapshot(nodes), Snapshot(nodes + {node}), tree, null);
    }

    lemma Together()
      requires hmap.Valid() && TreeValid() && SameMembers(hmap.Nodes(), nodes, members, scores)
      ensures Valid()
    {
    }

    lemma TreeFacts()
      requires TreeValid()
      ensures nodes == Nodes(tree) && root == Root(tree) && IsTree(Snapshot(nodes), tree, null)
      ensures HasScores(nodes, scores)
      ensures AvlTree.Distinct(tree) && Balanced(tree) && Sorted(scores, Inorder(tree)) && Known(scores, Inorder(tree))
    {
    }

    lemma Facts()
      requires Valid()
      ensures hmap.Valid() && TreeValid() && SameMembers(hmap.Nodes(), nodes, members, scores)
      ensures members.Keys == scores.Keys && (root == null ==> members == map[])
      ensures forall n | n in nodes :: n.data.name in members && members[n.data.name].owner == n
      ensures forall name | name in members :: members[name].owner in nodes && members[name].owner.data.name == name
      ensures forall m, n | m in nodes && n in nodes && m != n :: m.data.name != n.data.name
    {
      NamesAreUnique(hmap.Nodes(), nodes, members, scores);
    }

    lemma NobodyHas(name: Name)
      requires Valid() && name !in scores
      ensures hmap.Valid() && TreeValid() && SameMembers(hmap.Nodes(), nodes, members, scores)
      ensures forall n | n in nodes :: n.data.name != name
    {
      Facts();
    }

    method SetIndex(newRoot: AVLNode?, ghost t: Tree, ghost S: set<AVLNode>, ghost scores': Scores,
                    ghost members': Members)
      requires S == Nodes(t) && newRoot == Root(t) && IsTree(Snapshot(S), t, null)
      requires IsIndex(t, scores') && HasScores(S, scores')
      modifies `root, `tree, `nodes, `scores, `members
      ensures TreeValid() && nodes == S && members == members' && scores == scores'
    {
      hide IsTree, IsIndex, HasScores, Nodes;
      root, tree, nodes, scores, members := newRoot, t, S, scores', members';
    }

    /** The node takes its place in the tree. */
    method IndexNode(node: AVLNode, score: int, ghost hnode: HNode<AVLNode>)
      requires TreeValid() && node !in nodes && node.data.score == score
      requires forall n | n in nodes :: n.data.name != node.data.name
      requires node.left == node.right == null && node.height == node.size == 1
      modifies `root, `tree, `nodes, `scores, `members, nodes, node
      ensures TreeValid() && nodes == old(nodes) + {node} && members == old(members)[node.data.name := hnode]
      ensures scores == old(scores)[node.data.name := score]
    {
      hide IsTree, IsIndex, HasScores, Nodes;
      NewScore(node, score);
      ghost var S, scores' := nodes + {node}, scores[node.data.name := score];
      var newRoot;
      ghost var u;
      newRoot, u := TreeInsert(root, node, S, tree, scores');
      SetIndex(newRoot, u, S, scores', members[node.data.name := hnode]);
    }

    /** The tree part of zset_update() */
    method ReindexNode(node: AVLNode, score: int)
      requires TreeValid() && node in nodes && forall n | n in nodes && n != node :: n.data.name != node.data.name
      modifies `root, `tree, `scores, nodes, node.data
      ensures TreeValid() && scores == old(scores)[node.data.name := score]
    {
      hide IsTree, IsIndex, HasScores, Nodes;
      root, tree := Reposition(root, node, score, nodes, tree, scores);
      scores := scores[node.data.name := score];
    }

    /** Reindexing leaves the hash map alone. */
    method ReindexBeside(node: AVLNode, score: int)
      requires hmap.Valid() && TreeValid() && node in nodes
      requires forall n | n in nodes && n != node :: n.data.name != node.data.name
      modifies `root, `tree, `scores, nodes, node.data
      ensures hmap.Valid() && hmap.Nodes() == old(hmap.Nodes()) && hmap.Tables() == old(hmap.Tables())
      ensures TreeValid() && scores == old(scores)[node.data.name := score]
    {
      hide HMap.Valid, ZSet.TreeValid;
      ReindexNode(node, score);
    }

    /** zset_update() */
    method Update(node: AVLNode, score: int)
      requires Valid() && node in nodes
      modifies `root, `tree, `scores, nodes, node.data
      ensures Valid() && scores == old(scores)[node.data.name := score]
      ensures hmap.Nodes() == old(hmap.Nodes()) && hmap.Tables() == old(hmap.Tables())
    {
      hide HMap.Valid, ZSet.TreeValid, SameMembers;
      Facts();
      NamesAreUnique(hmap.Nodes(), nodes, members, scores);
      MemberUpdated(hmap.Nodes(), nodes, members, scores, node.data.name, score);
      ReindexBeside(node, score);
    }

    /** znode_new() */
    method NewNode(name: Name, score: int) returns (hnode: HNode<AVLNode>)
      ensures fresh(hnode) && fresh(hnode.owner) && fresh(hnode.owner.data) && hnode.hcode == Hash(name)
      ensures hnode.owner.data.name == name && hnode.owner.data.score == score
      ensures hnode.owner.left == hnode.owner.right == null && hnode.owner.height == hnode.owner.size == 1
    {
      var data := new ZData(name, score);
      var node := new AVLNode(data);
      var hcode := StrHash(name);
      hnode := new HNode(hcode, node);
    }

    /** hm_insert(&zset->hmap, ...): the tree does not change. */
    method HashNode(hnode: HNode<AVLNode>)
      requires hmap.Valid() && TreeValid() && hnode !in hmap.Nodes() && hnode.owner !in nodes
      modifies hmap, hmap.newer, hmap.older, hmap.Tables(), hmap.Nodes(), hnode
      ensures hmap.Valid() && TreeValid() && hmap.Nodes() == old(hmap.Nodes()) + {hnode}
      ensures hmap.newer.tab in old(hmap.Tables()) || fresh(hmap.newer.tab)
      ensures hmap.older.tab == null || hmap.older.tab in old(hmap.Tables()) || fresh(hmap.older.tab)
    {
      hide HMap.Valid, ZSet.TreeValid;
      hmap.Insert(hnode);
    }

    /** Indexing leaves the hash map alone. */
    method IndexBeside(node: AVLNode, score: int, ghost hnode: HNode<AVLNode>)
      requires hmap.Valid() && TreeValid() && node !in nodes && node.data.score == score
      requires forall n | n in nodes :: n.data.name != node.data.name
      requires node.left == node.right == null && node.height == node.size == 1
      modifies `root, `tree, `nodes, `scores, `members, nodes, node
      ensures hmap.Valid() && hmap.Nodes() == old(hmap.Nodes()) && hmap.Tables() == old(hmap.Tables())
      ensures TreeValid() && nodes == old(nodes) + {node} && members == old(members)[node.data.name := hnode]
      ensures scores == old(scores)[node.data.name := score]
    {
      hide HMap.Valid, ZSet.TreeValid;
      IndexNode(node, score, hnode);
    }

    /** zset_insert(), when the name is new. */
    method Add(name: Name, score: int)
      requires Valid() && name !in scores
      modifies `root, `tree, `nodes, `scores, `members
      modifies hmap, hmap.newer, hmap.older, hmap.Tables(), hmap.Nodes(), nodes
      ensures Valid() && scores == old(scores)[name := score]
      ensures fresh(hmap.Nodes() - old(hmap.Nodes())) && FreshTables(old(hmap.Tables()))
      ensures forall n | n in nodes :: n in old(nodes) || (fresh(n) && fresh(n.data))
    {
      hide ZSet.Valid, HMap.Valid, ZSet.TreeValid, SameMembers, Hash, HMap.Nodes;
      NobodyHas(name);
      var hnode := NewNode(name, score);
      MemberAdded(hmap.Nodes(), nodes, members, scores, hnode, score);
      HashNode(hnode);
      IndexBeside(hnode.owner, score, hnode);
      Together();
    }

    lemma Forget(node: AVLNode)
      requires node in nodes && HasScores(nodes, scores)
      requires forall n | n in nodes && n != node :: n.data.name != node.data.name
      requires node in AvlTree.Nodes(tree) && IsTree(Snapshot(nodes), AvlTree.Delete(tree, node), null)
      requires AvlTree.Nodes(AvlTree.Delete(tree, node)) == nodes - {node}
      ensures HasScores(nodes - {node}, scores - {node.data.name})
      ensures IsTree(Snapshot(nodes - {node}), AvlTree.Delete(tree, node), null)
    {
      TreeFrame(Snapshot(nodes), Snapshot(nodes - {node}), AvlTree.Delete(tree, node), null);
    }

    /** The tree part of zset_delete() */
    method UnindexNode(node: AVLNode)
      requires TreeValid() && node in nodes && forall n | n in nodes && n != node :: n.data.name != node.data.name
      modifies `root, `tree, `nodes, `scores, `members, nodes
      ensures TreeValid() && scores == old(scores) - {node.data.name} && nodes == old(nodes) - {node}
      ensures members == old(members) - {node.data.name}
    {
      hide IsTree, HasScores, AvlTree.Nodes, AvlTree.Distinct, Balanced, Sorted, AvlTree.Delete;
      TakenOut(tree, node, scores, 0);
      var rest := AvlDel(node, nodes, tree);
      Forget(node);
      SetIndex(rest, AvlTree.Delete(tree, node), nodes - {node}, scores - {node.data.name}, members - {node.data.name});
    }

    /** Unindexing leaves the hash map alone. */
    method UnindexBeside(node: AVLNode)
      requires hmap.Valid() && TreeValid() && node in nodes
      requires forall n | n in nodes && n != node :: n.data.name != node.data.name
      modifies `root, `tree, `nodes, `scores, `members, nodes
      ensures hmap.Valid() && hmap.Nodes() == old(hmap.Nodes()) && hmap.Tables() == old(hmap.Tables())
      ensures TreeValid() && scores == old(scores) - {node.data.name} && nodes == old(nodes) - {node}
      ensures members == old(members) - {node.data.name}
    {
      hide HMap.Valid, ZSet.TreeValid;
      UnindexNode(node);
    }

    /** hm_delete() by name; the tree does not change. */
    method UnhashName(name: Name) returns (found: HNode?<AVLNode>)
      requires hmap.Valid() && TreeValid() && SameMembers(hmap.Nodes(), nodes, members, scores)
      modifies hmap, hmap.newer, hmap.older, hmap.Tables(), hmap.Nodes()
      ensures hmap.Valid() && TreeValid() && hmap.Tables() <= old(hmap.Tables()) + {null}
      ensures found == if name in members then members[name] else null
      ensures hmap.Nodes() == if found != null then old(hmap.Nodes()) - {found} else old(hmap.Nodes())
    {
      hide HMap.Valid, ZSet.TreeValid, SameMembers, Hash, SameName;
      ghost var H := hmap.Nodes();
      var hcode := StrHash(name);
      var eq := (h: HNode<AVLNode>) => SameName(h.owner.data.name, name);
      found := hmap.Delete(hcode, eq);
      FoundByName(H, nodes, members, scores, found, name, eq);
    }

    /** hm_delete() on the node's own key: it is found, as zset_delete() asserts. */
    method UnhashNode(node: AVLNode)
      requires Valid() && node in nodes
      modifies hmap, hmap.newer, hmap.older, hmap.Tables(), hmap.Nodes()
      ensures hmap.Valid() && TreeValid()
      ensures node.data.name in members && hmap.Nodes() == old(hmap.Nodes()) - {members[node.data.name]}
      ensures hmap.Tables() <= old(hmap.Tables()) + {null}
    {
      hide HMap.Valid, ZSet.TreeValid, SameMembers, Hash, SameName, ZSet.Valid;
      Facts();
      var found := UnhashName(node.data.name);
      assert found != null;
    }

    /** zset_delete() */
    method Delete(node: AVLNode)
      requires Valid() && node in nodes
      modifies `root, `tree, `nodes, `scores, `members
      modifies hmap, hmap.newer, hmap.older, hmap.Tables(), hmap.Nodes(), nodes
      ensures Valid() && scores == old(scores) - {node.data.name}
      ensures nodes == old(nodes) - {node}
      ensures hmap.Nodes() <= old(hmap.Nodes()) && hmap.Tables() <= old(hmap.Tables()) + {null}
    {
      hide HMap.Valid, ZSet.TreeValid, SameMembers, Hash;
      ghost var H := hmap.Nodes();
      Facts();
      MemberRemoved(hmap.Nodes(), nodes, members, scores, node.data.name);
      UnhashNode(node);
      UnindexBeside(node);
    }

    /** hm_size() of the hash map counts the members. */
    method Count() returns (n: nat)
      requires Valid()
      ensures n == |scores|
    {
      hide HMap.Valid, ZSet.TreeValid, SameMembers;
      Facts();
      n := hmap.Size();
      MembersCount(hmap.Nodes(), nodes, members, scores);
    }

    /** zset_lookup(), as the node of the tree. */
    method Locate(name: Name) returns (node: AVLNode?)
      requires Valid()
      modifies hmap, hmap.newer, hmap.older, hmap.Tables(), hmap.Nodes()
      ensures Valid() && hmap.Nodes() == old(hmap.Nodes()) && hmap.Tables() <= old(hmap.Tables()) + {null}
      ensures node == null <==> name !in scores
      ensures node != null ==> node in nodes && node.data.name == name
    {
      hide HMap.Valid, ZSet.TreeValid, SameMembers, ZSet.Valid;
      var hnode := Lookup(name);
      Facts();
      node := if hnode == null then null else hnode.owner;
    }

    /** zset_lookup() and the score of the node that was found. */
    method Score(name: Name) returns (found: bool, score: int)
      requires Valid()
      modifies hmap, hmap.newer, hmap.older, hmap.Tables(), hmap.Nodes()
      ensures Valid() && hmap.Nodes() == old(hmap.Nodes()) && hmap.Tables() <= old(hmap.Tables()) + {null}
      ensures found == (name in scores) && (found ==> score == scores[name])
    {
      hide HMap.Valid, SameMembers, IsTree, IsIndex;
      var hnode := Lookup(name);
      Facts();
      found, score := hnode != null, 0;
      if found {
        score := hnode.owner.data.score;
      }
    }

    /** zset_insert(): tells whether the name is new. */
    method Insert(name: Name, score: int) returns (added: bool)
      requires Valid()
      modifies `root, `tree, `nodes, `scores, `members
      modifies hmap, hmap.newer, hmap.older, hmap.Tables(), hmap.Nodes(), nodes, Data(nodes)
      ensures Valid() && scores == old(scores)[name := score] && added == (name !in old(scores))
      ensures fresh(hmap.Nodes() - old(hmap.Nodes())) && FreshTables(old(hmap.Tables()))
      ensures forall n | n in nodes :: n in old(nodes) || (fresh(n) && fresh(n.data))
    {
      hide ZSet.Valid;
      var node := Locate(name);
      added := node == null;
      if added {
        Add(name, score);
      } else {
        Update(node, score);
      }
    }

    /** do_zrem(): looks the member up and deletes it. */
    method Remove(name: Name) returns (removed: bool)
      requires Valid()
      modifies `root, `tree, `nodes, `scores, `members
      modifies hmap, hmap.newer, hmap.older, hmap.Tables(), hmap.Nodes(), nodes
      ensures Valid() && scores == old(scores) - {name} && removed == (name in old(scores))
      ensures nodes <= old(nodes) && hmap.Nodes() <= old(hmap.Nodes()) && hmap.Tables() <= old(hmap.Tables()) + {null}
    {
      hide ZSet.Valid;
      var node := Locate(name);
      removed := node != null;
      if removed {
        Delete(node);
      } else {
        assert scores - {name} == scores;
      }
    }

    twostate predicate FreshTables(tables: set<array?<HNode?<AVLNode>>>)
      reads hmap.newer, hmap.older
    {
      forall t | t in hmap.Tables() && t != null :: t in tables || fresh(t)
    }

    // ---- ownership ----

    /** All objects the two indexes consist of. */
    ghost function Objects(): set<object>
      reads this, hmap.newer, hmap.older
    {
      {this, hmap, hmap.newer, hmap.older} + hmap.Nodes() + nodes + Data(nodes)
      + (if hmap.newer.tab == null then {} else {hmap.newer.tab})
      + (if hmap.older.tab == null then {} else {hmap.older.tab})
    }

    /** The set is valid and made of objects it owns. */
    ghost predicate Owned()
      reads this, repr
    {
      && this in repr && hmap in repr && hmap.newer in repr && hmap.older in repr
      && (hmap.newer.tab != null ==> hmap.newer.tab in repr) && (hmap.older.tab != null ==> hmap.older.tab in repr)
      && hmap.newer.nodes <= repr && hmap.older.nodes <= repr && nodes <= repr
      && (forall n | n in nodes :: n.data in repr)
      && Valid()
    }

    /** The objects of the set belong to it from now on. */
    ghost method Adopt()
      requires Valid()
      modifies `repr
      ensures Owned() && repr == old(repr) + Objects()
    {
      hide ZSet.Valid;
      repr := repr + Objects();
    }

    /** No operation reaches for objects that are neither owned nor new. */
    twostate lemma OnlyNewObjects()
      requires old(Owned()) && FreshTables(old(hmap.Tables()))
      requires forall h | h in hmap.Nodes() :: h in old(hmap.Nodes()) || fresh(h)
      requires forall n | n in nodes :: n in old(nodes) || (fresh(n) && fresh(n.data))
      ensures fresh(Objects() - old(repr))
    {
      hide ZSet.Valid;
      assert fresh(hmap.Nodes() - old(repr)) by {
        assert forall h | h in old(hmap.Nodes()) :: h in old(repr);
      }
      assert fresh(nodes - old(repr));
      assert fresh(Data(nodes) - old(repr));
      assert forall t | t in old(hmap.Tables()) && t != null :: t in old(repr);
      assert hmap.newer.tab in hmap.Tables() && hmap.older.tab in hmap.Tables();
    }

    method Put(name: Name, score: int) returns (added: bool)
      requires Owned()
      modifies repr
      ensures Owned() && fresh(repr - old(repr)) && scores == old(scores)[name := score]
      ensures added == (name !in old(scores))
    {
      hide ZSet.Valid;
      added := Insert(name, score);
      OnlyNewObjects();
      Adopt();
    }

    method Drop(name: Name) returns (removed: bool)
      requires Owned()
      modifies repr
      ensures Owned() && fresh(repr - old(repr)) && scores == old(scores) - {name} && removed == (name in old(scores))
    {
      hide ZSet.Valid;
      removed := Remove(name);
      OnlyNewObjects();
      Adopt();
    }

    /** The part of do_zscore() behind the lookup of the key. */
    method ScoreOf(name: Name) returns (found: bool, score: int)
      requires Owned()
      modifies repr
      ensures Owned() && fresh(repr - old(repr)) && scores == old(scores)
      ensures found == (name in scores) && (found ==> score == scores[name])
    {
      hide ZSet.Valid;
      found, score := Score(name);
      OnlyNewObjects();
      Adopt();
    }
  }
}
