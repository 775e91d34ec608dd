/** The stack of visited nodes built by `search_parent_list` and
    `explore_subtree`. Stack entries are the subtrees rooted at the visited
    nodes: during a search the tree is read-locked and never changes, so a
    subtree value stands for the node reference the source pushes. */
module SearchPath {
  import opened Geometry
  import opened KdTree
  import opened Insertion

  /** `chain` is a descent of `q` by the insertion rule, the counter being
      `depth` at its first entry: every entry is a node, each entry after the
      first is the child the rule picks at the entry before it, and the slot
      the rule picks at the last entry is empty. */
  ghost predicate IsDescentChain(chain: seq<Tree>, q: Point, depth: nat)
  {
    && |chain| > 0
    && (forall i :: 0 <= i < |chain| ==> chain[i].Node?)
    && (forall i :: 0 < i < |chain| ==>
          chain[i] == Child(chain[i - 1], Side(q, chain[i - 1].location, depth + i - 1)))
    && Child(chain[|chain| - 1], Side(q, chain[|chain| - 1].location, depth + |chain| - 1)).Empty?
  }

  /** Prefixing a chain with the parent whose rule child is its first entry. */
  lemma ChainCons(s: Tree, chain: seq<Tree>, q: Point, depth: nat)
    requires s.Node? && IsDescentChain(chain, q, depth + 1)
    requires chain[0] == Child(s, Side(q, s.location, depth))
    ensures IsDescentChain([s] + chain, q, depth)
  {
    var c := [s] + chain;
    forall i | 0 < i < |c|
      ensures c[i] == Child(c[i - 1], Side(q, c[i - 1].location, depth + i - 1))
    {
      if i > 1 {
        assert c[i] == chain[i - 1] && c[i - 1] == chain[i - 2];
      }
    }
  }

  /** A chain stops at its first entry exactly when the rule's slot there is empty. */
  lemma ChainStops(chain: seq<Tree>, q: Point, depth: nat)
    requires IsDescentChain(chain, q, depth)
    ensures |chain| == 1 <==> Child(chain[0], Side(q, chain[0].location, depth)).Empty?
  {
    if |chain| > 1 {
      assert chain[1] == Child(chain[0], Side(q, chain[0].location, depth + 1 - 1));
    }
  }

  /** Dropping the first entry of a longer chain leaves a chain. */
  lemma ChainTail(chain: seq<Tree>, q: Point, depth: nat)
    requires IsDescentChain(chain, q, depth) && |chain| > 1
    ensures IsDescentChain(chain[1..], q, depth + 1)
    ensures chain[1] == Child(chain[0], Side(q, chain[0].location, depth))
  {
    assert chain[1] == Child(chain[0], Side(q, chain[0].location, depth + 1 - 1));
    var t := chain[1..];
    forall i | 0 < i < |t|
      ensures t[i] == Child(t[i - 1], Side(q, t[i - 1].location, depth + 1 + i - 1))
    {
      assert chain[i + 1] == Child(chain[i], Side(q, chain[i].location, depth + (i + 1) - 1));
    }
  }

  /** `explore_subtree`'s loop: starting at `s` with the counter at `depth`,
      repeatedly step to the child the rule picks, collecting every node
      stepped to; `s` itself is not collected. */
  function ExploreFrom(s: Tree, q: Point, depth: nat): (r: seq<Tree>)
    requires s.Node?
    ensures IsDescentChain([s] + r, q, depth)
    decreases s
  {
    var side := Side(q, s.location, depth);
    var next := Child(s, side);
    if next.Empty? then
      []
    else
      var rest := ExploreFrom(next, q, depth + 1);
      ChainCons(s, [next] + rest, q, depth);
      [next] + rest
  }

  /** Along a chain every later entry is a proper subtree of the first, the
      chain is no longer than the first entry's height, and the depth
      bookkeeping and the k-d ordering pass down the chain. */
  lemma ChainFacts(chain: seq<Tree>, q: Point, depth: nat)
    requires IsDescentChain(chain, q, depth)
    ensures forall i :: 0 < i < |chain| ==> Nodes(chain[i]) < Nodes(chain[0])
    ensures |chain| <= Height(chain[0])
    ensures DepthsFrom(chain[0], depth) ==> forall i :: 0 <= i < |chain| ==> DepthsFrom(chain[i], depth + i)
    ensures KdOrdered(chain[0]) ==> forall i :: 0 <= i < |chain| ==> KdOrdered(chain[i])
  {
    ChainShrinks(chain, q, depth);
    ChainKeepsInvariants(chain, q, depth);
  }

  /** Every later entry of a chain is a proper subtree of the first, and the
      chain is no longer than the first entry's height. */
  lemma {:induction false} ChainShrinks(chain: seq<Tree>, q: Point, depth: nat)
    requires IsDescentChain(chain, q, depth)
    ensures forall i :: 0 < i < |chain| ==> Nodes(chain[i]) < Nodes(chain[0])
    ensures |chain| <= Height(chain[0])
    decreases |chain|
  {
    var s := chain[0];
    if |chain| > 1 {
      ChainTail(chain, q, depth);
      var t := chain[1..];
      ChildNodes(s, Side(q, s.location, depth));
      ChainShrinks(t, q, depth + 1);
      forall i | 0 < i < |chain|
        ensures Nodes(chain[i]) < Nodes(s)
      {
        assert chain[i] == t[i - 1];
      }
    } else {
      assert Height(s) >= 1;
    }
  }

  /** The depth bookkeeping and the k-d ordering pass down a chain. */
  lemma {:induction false} ChainKeepsInvariants(chain: seq<Tree>, q: Point, depth: nat)
    requires IsDescentChain(chain, q, depth)
    ensures DepthsFrom(chain[0], depth) ==> forall i :: 0 <= i < |chain| ==> DepthsFrom(chain[i], depth + i)
    ensures KdOrdered(chain[0]) ==> forall i :: 0 <= i < |chain| ==> KdOrdered(chain[i])
    decreases |chain|
  {
    var s := chain[0];
    if |chain| > 1 {
      ChainTail(chain, q, depth);
      var t := chain[1..];
      ChainKeepsInvariants(t, q, depth + 1);
      if DepthsFrom(s, depth) {
        assert DepthsFrom(t[0], depth + 1);
        forall i | 0 <= i < |chain|
          ensures DepthsFrom(chain[i], depth + i)
        {
          if i > 0 {
            assert chain[i] == t[i - 1];
          }
        }
      }
      if KdOrdered(s) {
        assert KdOrdered(t[0]);
        forall i | 0 <= i < |chain|
          ensures KdOrdered(chain[i])
        {
          if i > 0 {
            assert chain[i] == t[i - 1];
          }
        }
      }
    }
  }

  /** `explore_subtree(s, point, stack)`: push onto `stack` every proper
      descendant of `s` along the rule's descent, the counter starting at
      the depth stored in `s`. */
  function ExploreSubtree(s: Tree, q: Point, stack: seq<Tree>): (r: seq<Tree>)
    requires s.Node?
    ensures |r| >= |stack| && r[..|stack|] == stack
    ensures IsDescentChain([s] + r[|stack|..], q, s.depth)
    ensures forall i :: |stack| <= i < |r| ==> Nodes(r[i]) < Nodes(s)
  {
    var pushed := ExploreFrom(s, q, s.depth);
    assert (stack + pushed)[|stack|..] == pushed;
    ChainFacts([s] + pushed, q, s.depth);
    assert forall i :: |stack| <= i < |stack + pushed| ==> (stack + pushed)[i] == ([s] + pushed)[i - |stack| + 1];
    stack + pushed
  }

  /** `search_parent_list`: the root followed by the rule's descent of `q`. */
  function SearchParentList(root: Tree, q: Point): (r: seq<Tree>)
    requires root.Node?
    ensures IsDescentChain(r, q, root.depth) && r[0] == root
    ensures forall i :: 0 <= i < |r| ==> r[i] in Nodes(root)
  {
    var r := ExploreSubtree(root, q, [root]);
    assert [root] + r[1..] == r;
    ChainFacts(r, q, root.depth);
    r
  }

  /** A descent chain from `t` visits exactly the nodes at the prefixes of
      the address `SearchParent` computes, so both searches agree. */
  lemma {:induction false} ChainMatchesDescent(t: Tree, q: Point, chain: seq<Tree>, path: seq<Slot>, slot: Slot, depth: nat)
    requires IsDescentChain(chain, q, depth) && chain[0] == t
    requires IsDescent(t, q, path, slot, depth)
    ensures |chain| == |path| + 1
    ensures forall i :: 0 <= i < |chain| ==> chain[i] == At(t, path[..i])
    decreases |path|
  {
    DescentStops(t, q, path, slot, depth);
    ChainStops(chain, q, depth);
    assert At(t, path[..0]) == t;
    if path != [] {
      var s := path[0];
      var c := Child(t, s);
      ChainTail(chain, q, depth);
      DescentCons(t, q, s, path[1..], slot, depth);
      assert [s] + path[1..] == path;
      ChainMatchesDescent(c, q, chain[1..], path[1..], slot, depth + 1);
      forall i | 1 <= i < |chain|
        ensures chain[i] == At(t, path[..i])
      {
        assert chain[i] == chain[1..][i - 1];
        assert path[..i] == [s] + path[1..][..i - 1];
        assert path[..i][1..] == path[1..][..i - 1];
      }
    }
  }

  /** `search_parent_list` and `search_parent` agree: the list has one more
      entry than the parent's address, its entries are the nodes at the
      prefixes of that address, and its last entry is the parent. */
  lemma SearchListEndsAtParent(root: Tree, q: Point)
    requires root.Node? && root.depth == 0
    ensures var list := SearchParentList(root, q);
            var ps := SearchParent(root, q, 0);
            && |list| == |ps.path| + 1
            && (forall i :: 0 <= i < |list| ==> list[i] == At(root, ps.path[..i]))
            && list[|list| - 1] == At(root, ps.path)
  {
    var list := SearchParentList(root, q);
    var ps := SearchParent(root, q, 0);
    ChainMatchesDescent(root, q, list, ps.path, ps.slot, 0);
    assert ps.path[..|ps.path|] == ps.path;
  }

  /** The descent chain from a node is unique: it is the node followed by
      what `ExploreFrom` collects. */
  lemma ExploreFromIsTheDescent(chain: seq<Tree>, q: Point, depth: nat)
    requires IsDescentChain(chain, q, depth)
    ensures chain == [chain[0]] + ExploreFrom(chain[0], q, depth)
  {
    var s := chain[0];
    var other := [s] + ExploreFrom(s, q, depth);
    var ps := SearchParent(s, q, depth);
    ChainMatchesDescent(s, q, chain, ps.path, ps.slot, depth);
    ChainMatchesDescent(s, q, other, ps.path, ps.slot, depth);
  }
}
