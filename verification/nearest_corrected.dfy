/** The nearest-neighbour search with its two omissions repaired, proved to
    find a closest stored point. The search as written (module `Nearest`)
    misses (1) the root of every unexplored branch it opens, because
    `explore_subtree` pushes only that root's descendants, and (2) the
    unexplored branch of the deepest node of the initial descent, because that
    node is popped as the first candidate and never examined by the loop.
    Here the opened branch's root is pushed before its descendants, and the
    deepest node stays on the stack so the loop examines it like any other. */
module NearestCorrected {
  import opened Wrappers
  import opened Geometry
  import opened KdTree
  import opened SearchPath
  import opened Nearest

  /** The nodes a stack entry answers for: itself and its whole unexplored branch. */
  function Cover(s: Tree, q: Point): (r: set<Tree>)
    requires s.Node?
    ensures forall x :: x in r ==> x.Node?
  {
    {s} + Nodes(Unexplored(s, q))
  }

  function CoverOf(stack: seq<Tree>, q: Point): (r: set<Tree>)
    requires forall i :: 0 <= i < |stack| ==> stack[i].Node?
    ensures forall x :: x in r ==> x.Node?
    decreases |stack|
  {
    if |stack| == 0 then {}
    else CoverOf(stack[..|stack| - 1], q) + Cover(stack[|stack| - 1], q)
  }

  /** A stack entry the search can reason about: k-d ordered with its depth
      bookkeeping intact. */
  predicate Sound(t: Tree)
  {
    t.Node? && KdOrdered(t) && DepthsFrom(t, t.depth)
  }

  predicate AllSound(stack: seq<Tree>)
  {
    forall i :: 0 <= i < |stack| ==> Sound(stack[i])
  }

  lemma {:induction false} CoverOfAppend(a: seq<Tree>, b: seq<Tree>, q: Point)
    requires forall i :: 0 <= i < |a| ==> a[i].Node?
    requires forall i :: 0 <= i < |b| ==> b[i].Node?
    ensures CoverOf(a + b, q) == CoverOf(a, q) + CoverOf(b, q)
    decreases |b|
  {
    if |b| == 0 {
      assert a + b == a;
    } else {
      assert (a + b)[..|a + b| - 1] == a + b[..|b| - 1];
      CoverOfAppend(a, b[..|b| - 1], q);
    }
  }

  /** With the depth bookkeeping intact, a descent chain from `s` answers for
      every node below `s`: each node is on the chain or inside the
      unexplored branch of a chain entry. */
  lemma {:induction false} CoverOfChain(chain: seq<Tree>, q: Point)
    requires |chain| > 0 && chain[0].Node? && IsDescentChain(chain, q, chain[0].depth)
    requires DepthsFrom(chain[0], chain[0].depth)
    ensures CoverOf(chain, q) == Nodes(chain[0])
    decreases |chain|
  {
    var s := chain[0];
    var side := Side(q, s.location, s.depth);
    ChainStops(chain, q, s.depth);
    assert Nodes(s) == Cover(s, q) + Nodes(Child(s, side)) by {
      if side == 0 {
        assert Nodes(s) == {s} + Nodes(s.low) + Nodes(s.high);
      } else {
        assert Nodes(s) == {s} + Nodes(s.low) + Nodes(s.high);
      }
    }
    assert CoverOf([s], q) == Cover(s, q) by {
      assert [s][..0] == [];
    }
    if |chain| > 1 {
      ChainTail(chain, q, s.depth);
      var t := chain[1..];
      CoverOfChain(t, q);
      assert [s] + t == chain;
      CoverOfAppend([s], t, q);
    }
  }

  /** Pruning is sound: every node an entry answers for is at least the
      entry's axis gap away from the query, because its unexplored branch
      lies entirely beyond the splitting line. */
  lemma PruneSound(curr: Tree, q: Point, x: Tree)
    requires curr.Node? && KdOrdered(curr) && x in Cover(curr, q)
    ensures Sq(AxisGap(curr.location, q, AxisOf(curr.depth))) <= DistSq(x.location, q)
  {
    var axis := AxisOf(curr.depth);
    if x == curr {
      GapBoundsDistance(curr.location, q, axis);
    } else {
      var side := Side(q, curr.location, curr.depth);
      var sub := Unexplored(curr, q);
      NodeLocation(x, sub);
      assert OnSide(Coord(x.location, axis), Coord(curr.location, axis), OtherSide(side));
      FarSideBound(x.location, q, curr.location, axis);
    }
  }

  /** The repaired push step: open the unexplored branch by pushing its root
      and then its descendants along the rule. */
  function PushUnexploredFixed(curr: Tree, q: Point, stack: seq<Tree>): seq<Tree>
    requires curr.Node?
  {
    var sub := Unexplored(curr, q);
    if sub.Node? then ExploreSubtree(sub, q, stack + [sub]) else stack
  }

  /** The repaired push step pushes the unexplored branch followed by its descent. */
  lemma PushFixedShape(curr: Tree, q: Point, rest: seq<Tree>)
    requires curr.Node?
    ensures var sub := Unexplored(curr, q);
            PushUnexploredFixed(curr, q, rest)
              == if sub.Node? then rest + ([sub] + ExploreFrom(sub, q, sub.depth)) else rest
  {
    var sub := Unexplored(curr, q);
    if sub.Node? {
      assert (rest + [sub]) + ExploreFrom(sub, q, sub.depth) == rest + ([sub] + ExploreFrom(sub, q, sub.depth));
    }
  }

  /** The repaired push step keeps every entry a node of the tree, leaves
      the stack below untouched and lowers the weight. */
  lemma PushFixedStep(root: Tree, curr: Tree, q: Point, rest: seq<Tree>)
    requires curr.Node? && curr in Nodes(root)
    requires forall i :: 0 <= i < |rest| ==> rest[i].Node? && rest[i] in Nodes(root)
    ensures var stack' := PushUnexploredFixed(curr, q, rest);
            && |stack'| >= |rest| && stack'[..|rest|] == rest
            && (forall i :: 0 <= i < |stack'| ==> stack'[i].Node? && stack'[i] in Nodes(root))
            && StackWeight(stack') < StackWeight(rest) + Weight(curr)
  {
    var sub := Unexplored(curr, q);
    PushFixedShape(curr, q, rest);
    if sub.Node? {
      var chain := [sub] + ExploreFrom(sub, q, sub.depth);
      var stack' := rest + chain;
      NodesClosed(curr, root);
      ChildNodes(curr, OtherSide(Side(q, curr.location, curr.depth)));
      ChainFacts(chain, q, sub.depth);
      forall i | 0 <= i < |stack'|
        ensures stack'[i].Node? && stack'[i] in Nodes(root)
      {
        if i >= |rest| {
          assert stack'[i] == chain[i - |rest|];
        } else {
          assert stack'[i] == rest[i];
        }
      }
      StackWeightAppend(rest, chain);
      ChainWeight(sub, q);
      Pow2Monotone(Height(sub), Height(curr));
    }
  }

  /** A branch together with its descent weighs less than twice the branch. */
  lemma ChainWeight(sub: Tree, q: Point)
    requires sub.Node?
    ensures StackWeight([sub] + ExploreFrom(sub, q, sub.depth)) < 2 * Weight(sub)
  {
    StackWeightAppend([sub], ExploreFrom(sub, q, sub.depth));
    assert StackWeight([sub]) == Weight(sub) by {
      assert [sub][..0] == [];
    }
    ExploreWeight(sub, q, sub.depth);
  }

  /** The unexplored branch of a sound entry is sound. */
  lemma UnexploredSound(curr: Tree, q: Point)
    requires Sound(curr) && Unexplored(curr, q).Node?
    ensures Sound(Unexplored(curr, q))
    ensures Unexplored(curr, q).depth == curr.depth + 1
  {
    var sub := Unexplored(curr, q);
    assert DepthsFrom(curr, curr.depth) && KdOrdered(curr);
    assert DepthsFrom(curr.low, curr.depth + 1) && DepthsFrom(curr.high, curr.depth + 1);
    assert sub == curr.low || sub == curr.high;
    assert DepthsFrom(sub, curr.depth + 1);
    assert sub.depth == curr.depth + 1;
  }

  /** Every entry of a descent chain from a sound node is sound. */
  lemma ChainSound(chain: seq<Tree>, q: Point)
    requires |chain| > 0 && Sound(chain[0]) && IsDescentChain(chain, q, chain[0].depth)
    ensures AllSound(chain)
  {
    ChainFacts(chain, q, chain[0].depth);
    forall i | 0 <= i < |chain|
      ensures Sound(chain[i])
    {
      assert DepthsFrom(chain[i], chain[0].depth + i);
      assert chain[i].depth == chain[0].depth + i;
    }
  }

  /** From a sound entry the repaired push step pushes sound entries. */
  lemma PushFixedSound(curr: Tree, q: Point, rest: seq<Tree>)
    requires Sound(curr) && AllSound(rest)
    ensures AllSound(PushUnexploredFixed(curr, q, rest))
  {
    var sub := Unexplored(curr, q);
    PushFixedShape(curr, q, rest);
    if sub.Node? {
      UnexploredSound(curr, q);
      var chain := [sub] + ExploreFrom(sub, q, sub.depth);
      ChainSound(chain, q);
      var stack' := rest + chain;
      assert forall i :: 0 <= i < |rest| ==> stack'[i] == rest[i];
      assert forall i :: |rest| <= i < |stack'| ==> stack'[i] == chain[i - |rest|];
    }
  }

  /** From a sound entry the repaired push step pushes entries that answer
      for exactly its unexplored branch. */
  lemma PushFixedCover(curr: Tree, q: Point, rest: seq<Tree>)
    requires Sound(curr)
    requires forall i :: 0 <= i < |rest| ==> rest[i].Node?
    ensures var stack' := PushUnexploredFixed(curr, q, rest);
            && (forall i :: 0 <= i < |stack'| ==> stack'[i].Node?)
            && CoverOf(stack', q) == CoverOf(rest, q) + Nodes(Unexplored(curr, q))
  {
    var sub := Unexplored(curr, q);
    PushFixedShape(curr, q, rest);
    if sub.Node? {
      UnexploredSound(curr, q);
      var chain := [sub] + ExploreFrom(sub, q, sub.depth);
      CoverOfChain(chain, q);
      CoverOfAppend(rest, chain, q);
    } else {
      assert Nodes(sub) == {};
    }
  }

  /** After a pruned pop: the popped entry's gap reaches the best distance,
      so everything it answers for is no closer than the result. */
  lemma PrunedBound(stack: seq<Tree>, q: Point, bestD: nat, bound: nat)
    requires |stack| > 0 && forall i :: 0 <= i < |stack| ==> stack[i].Node?
    requires var curr := stack[|stack| - 1];
             bound <= bestD <= Sq(AxisGap(curr.location, q, AxisOf(curr.depth)))
    requires AllSound(stack[..|stack| - 1]) ==>
             forall x :: x in CoverOf(stack[..|stack| - 1], q) ==> bound <= DistSq(x.location, q)
    ensures AllSound(stack) ==> forall x :: x in CoverOf(stack, q) ==> bound <= DistSq(x.location, q)
  {
    var curr := stack[|stack| - 1];
    var rest := stack[..|stack| - 1];
    if AllSound(stack) {
      assert AllSound(rest) by {
        assert forall i :: 0 <= i < |rest| ==> rest[i] == stack[i];
      }
      forall x | x in Cover(curr, q)
        ensures bound <= DistSq(x.location, q)
      {
        PruneSound(curr, q, x);
      }
    }
  }

  /** After an examined pop: the result is no farther than the popped entry,
      and the entries pushed for its unexplored branch answer for that branch. */
  lemma ExaminedBound(root: Tree, stack: seq<Tree>, q: Point, bound: nat)
    requires |stack| > 0 && forall i :: 0 <= i < |stack| ==> stack[i].Node? && stack[i] in Nodes(root)
    requires bound <= DistSq(stack[|stack| - 1].location, q)
    requires var stack' := PushUnexploredFixed(stack[|stack| - 1], q, stack[..|stack| - 1]);
             (forall i :: 0 <= i < |stack'| ==> stack'[i].Node?) &&
             (AllSound(stack') ==> forall x :: x in CoverOf(stack', q) ==> bound <= DistSq(x.location, q))
    ensures AllSound(stack) ==> forall x :: x in CoverOf(stack, q) ==> bound <= DistSq(x.location, q)
  {
    var curr := stack[|stack| - 1];
    var rest := stack[..|stack| - 1];
    if AllSound(stack) {
      assert AllSound(rest) by {
        assert forall i :: 0 <= i < |rest| ==> rest[i] == stack[i];
      }
      assert Sound(curr);
      PushFixedCover(curr, q, rest);
      PushFixedSound(curr, q, rest);
    }
  }

  /** The repaired loop. Besides what the loop as written guarantees, every
      node any sound stack entry answers for ends up no closer than the result. */
  function BacktrackFixed(ghost root: Tree, stack: seq<Tree>, q: Point, best: Tree, bestD: nat): (r: Best)
    requires forall i :: 0 <= i < |stack| ==> stack[i].Node? && stack[i] in Nodes(root)
    requires best.Node? && best in Nodes(root) && bestD == DistSq(best.location, q)
    ensures r.node.Node? && r.node in Nodes(root) && r.dist == DistSq(r.node.location, q)
    ensures r.dist <= bestD
    ensures AllSound(stack) ==> forall x :: x in CoverOf(stack, q) ==> r.dist <= DistSq(x.location, q)
    decreases StackWeight(stack)
  {
    if |stack| == 0 then
      Best(best, bestD)
    else
      var curr := stack[|stack| - 1];
      var rest := stack[..|stack| - 1];
      var axis := AxisOf(curr.depth);
      var gap := AxisGap(curr.location, q, axis);
      assert StackWeight(stack) == StackWeight(rest) + Weight(curr);
      if Sq(gap) < bestD then
        var d := DistSq(curr.location, q);
        var best' := if d < bestD then curr else best;
        var bestD' := if d < bestD then d else bestD;
        var stack' := PushUnexploredFixed(curr, q, rest);
        PushFixedStep(root, curr, q, rest);
        var r := BacktrackFixed(root, stack', q, best', bestD');
        ExaminedBound(root, stack, q, r.dist);
        r
      else
        var r := BacktrackFixed(root, rest, q, best, bestD);
        PrunedBound(stack, q, bestD, r.dist);
        r
  }

  /** The repaired `nearest_neighboor_search`: on a well-formed index the
      result is a stored entity whose distance is the least of all stored
      points, which is what a brute-force scan returns. */
  function NearestNeighbourSearchFixed(tree: TwoDTree, q: Point, readLock: bool): (r: Option<(Entity, nat)>)
    ensures r.None? <==> tree.root.Empty? || !readLock
    ensures r.Some? ==>
      exists n :: n in Nodes(tree.root) && n.Node? && n.entity == r.value.0 && DistSq(n.location, q) == r.value.1
    ensures r.Some? && WellFormed(tree) ==>
      forall n :: n in Nodes(tree.root) ==> r.value.1 <= DistSq(n.location, q)
  {
    if tree.root.Empty? then None
    else if !readLock then None
    else
      var stack := SearchParentList(tree.root, q);
      var deepest := stack[|stack| - 1];
      var b := BacktrackFixed(tree.root, stack, q, deepest, DistSq(deepest.location, q));
      StartCoversTree(tree, q);
      Some((b.node.entity, b.dist))
  }

  /** The initial search list of a well-formed index is sound and answers
      for every node. */
  lemma StartCoversTree(tree: TwoDTree, q: Point)
    requires tree.root.Node?
    ensures WellFormed(tree) ==>
      AllSound(SearchParentList(tree.root, q)) && CoverOf(SearchParentList(tree.root, q), q) == Nodes(tree.root)
  {
    if WellFormed(tree) {
      var stack := SearchParentList(tree.root, q);
      ChainFacts(stack, q, 0);
      CoverOfChain(stack, q);
    }
  }

  /** When one stored node is strictly nearer to the query than every other,
      the corrected search answers that node's entity and distance. */
  lemma StrictNearestIsFound(tree: TwoDTree, q: Point, b: Tree)
    requires WellFormed(tree)
    requires b in Nodes(tree.root) && b.Node?
    requires forall n :: n in Nodes(tree.root) && n != b ==> DistSq(b.location, q) < DistSq(n.location, q)
    ensures NearestNeighbourSearchFixed(tree, q, true) == Some((b.entity, DistSq(b.location, q)))
  {
    var res := NearestNeighbourSearchFixed(tree, q, true);
    var n :| n in Nodes(tree.root) && n.Node? && n.entity == res.value.0 && DistSq(n.location, q) == res.value.1;
    assert res.value.1 <= DistSq(b.location, q);
  }

  /** The corrected search is brute-force exact on distances, so two
      well-formed indexes holding the same points (for instance the same
      pairs inserted in different orders) give the same nearest distance;
      with ties the entity may differ. */
  lemma SamePointsSameDistance(t1: TwoDTree, t2: TwoDTree, q: Point)
    requires WellFormed(t1) && WellFormed(t2) && t1.root.Node?
    requires Locations(t1.root) == Locations(t2.root)
    ensures NearestNeighbourSearchFixed(t1, q, true).Some?
    ensures NearestNeighbourSearchFixed(t2, q, true).Some?
    ensures NearestNeighbourSearchFixed(t1, q, true).value.1 == NearestNeighbourSearchFixed(t2, q, true).value.1
  {
    var r1 := NearestNeighbourSearchFixed(t1, q, true);
    var n1 :| n1 in Nodes(t1.root) && n1.Node? && n1.entity == r1.value.0 && DistSq(n1.location, q) == r1.value.1;
    NodeLocation(n1, t1.root);
    var m2 := LocationNode(n1.location, t2.root);
    var r2 := NearestNeighbourSearchFixed(t2, q, true);
    var n2 :| n2 in Nodes(t2.root) && n2.Node? && n2.entity == r2.value.0 && DistSq(n2.location, q) == r2.value.1;
    NodeLocation(n2, t2.root);
    var m1 := LocationNode(n2.location, t1.root);
    assert r2.value.1 <= DistSq(m2.location, q);
    assert r1.value.1 <= DistSq(m1.location, q);
  }
}
