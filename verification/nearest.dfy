/** The backtracking nearest-neighbour search (`nearest_neighboor_search`)
    and the unfinished n-nearest search (`n_nearest_neighboors_search`). */
module Nearest {
  import opened Wrappers
  import opened Geometry
  import opened KdTree
  import opened Insertion
  import opened SearchPath
  import opened Items

  /** The current best candidate and its (squared) distance to the query. */
  datatype Best = Best(node: Tree, dist: nat)

  function Pow2(n: nat): (r: nat)
    ensures r >= 1
  {
    if n == 0 then 1 else 2 * Pow2(n - 1)
  }

  lemma {:induction false} Pow2Monotone(m: nat, n: nat)
    requires m < n
    ensures 2 * Pow2(m) <= Pow2(n)
    decreases n
  {
    if m + 1 < n {
      Pow2Monotone(m, n - 1);
    }
  }

  /** Termination measure of the search loop: a node of height h weighs 2^h,
      so a chain hanging below a node always weighs less than the node. */
  function Weight(t: Tree): nat
  {
    Pow2(Height(t))
  }

  function StackWeight(stack: seq<Tree>): nat
    decreases |stack|
  {
    if |stack| == 0 then 0
    else StackWeight(stack[..|stack| - 1]) + Weight(stack[|stack| - 1])
  }

  lemma {:induction false} StackWeightAppend(a: seq<Tree>, b: seq<Tree>)
    ensures StackWeight(a + b) == StackWeight(a) + StackWeight(b)
    decreases |b|
  {
    if |b| == 0 {
      assert a + b == a;
    } else {
      assert (a + b)[..|a + b| - 1] == a + b[..|b| - 1];
      StackWeightAppend(a, b[..|b| - 1]);
    }
  }

  /** What `explore_subtree` pushes below `s` weighs less than `s`. */
  lemma {:induction false} ExploreWeight(s: Tree, q: Point, depth: nat)
    requires s.Node?
    ensures StackWeight(ExploreFrom(s, q, depth)) < Weight(s)
    decreases s
  {
    var side := Side(q, s.location, depth);
    var next := Child(s, side);
    ChildNodes(s, side);
    if next.Node? {
      var rest := ExploreFrom(next, q, depth + 1);
      ExploreWeight(next, q, depth + 1);
      StackWeightAppend([next], rest);
      assert StackWeight([next]) == Weight(next) by {
        assert [next][..0] == [];
      }
      Pow2Monotone(Height(next), Height(s));
    }
  }

  /** The branch of `curr` the initial descent of `q` did not take
      (`unexplored_side`), chosen on `curr`'s stored depth. */
  function Unexplored(curr: Tree, q: Point): Tree
    requires curr.Node?
  {
    Child(curr, OtherSide(Side(q, curr.location, curr.depth)))
  }

  /** The loop of `nearest_neighboor_search`: pop the top of the stack; if
      its axis gap is below the best distance, take it when it is strictly
      closer and call `explore_subtree` on its unexplored branch (which
      pushes that branch's descendants, not the branch's own node); if the
      gap reaches the best distance, skip it. Every node still on the stack
      ends up no closer than the result, the result never gets worse than
      the current best, and it is a node of the tree at its own distance. */
  function Backtrack(ghost root: Tree, stack: seq<Tree>, q: Point, best: Tree, bestD: nat): (r: Best)
    requires forall i :: 0 <= i < |stack| ==> stack[i].Node? && stack[i] in Nodes(root)
    requires best.Node? && best in Nodes(root) && bestD == DistSq(best.location, q)
    ensures r.node.Node? && r.node in Nodes(root) && r.dist == DistSq(r.node.location, q)
    ensures r.dist <= bestD
    ensures forall i :: 0 <= i < |stack| ==> r.dist <= DistSq(stack[i].location, q)
    decreases StackWeight(stack)
  {
    if |stack| == 0 then
      Best(best, bestD)
    else
      var curr := stack[|stack| - 1];
      var rest := stack[..|stack| - 1];
      var axis := AxisOf(curr.depth);
      var gap := AxisGap(curr.location, q, axis);
      GapBoundsDistance(curr.location, q, axis);
      assert StackWeight(stack) == StackWeight(rest) + Weight(curr);
      if Sq(gap) < bestD then
        var d := DistSq(curr.location, q);
        var best' := if d < bestD then curr else best;
        var bestD' := if d < bestD then d else bestD;
        var stack' := PushUnexplored(curr, q, rest);
        PushStep(root, curr, q, rest);
        var r := Backtrack(root, stack', q, best', bestD');
        BoundCoversStack(stack, stack', q, r.dist);
        r
      else
        var r := Backtrack(root, rest, q, best, bestD);
        BoundCoversStack(stack, rest, q, r.dist);
        r
  }

  /** A bound that holds for the stack after a pop (and any pushes) and for
      the popped node holds for the stack before the pop. */
  lemma BoundCoversStack(stack: seq<Tree>, stack': seq<Tree>, q: Point, bound: nat)
    requires |stack| > 0 && |stack'| >= |stack| - 1 && stack'[..|stack| - 1] == stack[..|stack| - 1]
    requires forall i :: 0 <= i < |stack| ==> stack[i].Node?
    requires forall i :: 0 <= i < |stack'| ==> stack'[i].Node? && bound <= DistSq(stack'[i].location, q)
    requires bound <= DistSq(stack[|stack| - 1].location, q)
    ensures forall i :: 0 <= i < |stack| ==> bound <= DistSq(stack[i].location, q)
  {
    forall i | 0 <= i < |stack| - 1
      ensures bound <= DistSq(stack[i].location, q)
    {
      assert stack[i] == stack[..|stack| - 1][i] == stack'[i];
    }
  }

  /** The unexplored-branch step of `nearest_neighboor_search`: when the
      unexplored branch of `curr` is present, call `explore_subtree` on it. */
  function PushUnexplored(curr: Tree, q: Point, stack: seq<Tree>): seq<Tree>
    requires curr.Node?
  {
    var sub := Unexplored(curr, q);
    if sub.Node? then ExploreSubtree(sub, q, stack) else stack
  }

  /** The unexplored-branch step of `nearest_neighboor_search`, as written:
      the unexplored branch is slot 1 when the query is at most `curr` on its
      splitting axis and slot 0 otherwise, and opening it pushes the descent
      strictly below the branch's root, never the root itself. */
  lemma PushUnexploredSkipsBranchRoot(curr: Tree, q: Point, stack: seq<Tree>)
    requires curr.Node?
    ensures var axis := AxisOf(curr.depth);
            Unexplored(curr, q) == if Coord(q, axis) <= Coord(curr.location, axis) then curr.high else curr.low
    ensures var sub := Unexplored(curr, q);
            && (sub.Empty? ==> PushUnexplored(curr, q, stack) == stack)
            && (sub.Node? ==>
                  && PushUnexplored(curr, q, stack) == stack + ExploreFrom(sub, q, sub.depth)
                  && sub !in PushUnexplored(curr, q, stack)[|stack|..])
  {
    var sub := Unexplored(curr, q);
    if sub.Node? {
      var r := PushUnexplored(curr, q, stack);
      forall i | |stack| <= i < |r|
        ensures r[i] != sub
      {
        assert Nodes(r[i]) < Nodes(sub);
      }
    }
  }

  /** The nodes pushed below `curr` are nodes of the tree, the stack below
      them is untouched, and popping `curr` then pushing them lowers the weight. */
  lemma PushStep(root: Tree, curr: Tree, q: Point, rest: seq<Tree>)
    requires curr.Node? && curr in Nodes(root)
    requires forall i :: 0 <= i < |rest| ==> rest[i].Node? && rest[i] in Nodes(root)
    ensures var stack' := PushUnexplored(curr, q, rest);
            && |stack'| >= |rest| && stack'[..|rest|] == rest
            && (forall i :: 0 <= i < |stack'| ==> stack'[i].Node? && stack'[i] in Nodes(root))
            && StackWeight(stack') < StackWeight(rest) + Weight(curr)
  {
    var sub := Unexplored(curr, q);
    if sub.Node? {
      var stack' := ExploreSubtree(sub, q, rest);
      var pushed := ExploreFrom(sub, q, sub.depth);
      NodesClosed(curr, root);
      var chain := [sub] + pushed;
      ChainFacts(chain, q, sub.depth);
      forall i | 0 <= i < |stack'|
        ensures stack'[i].Node? && stack'[i] in Nodes(root)
      {
        if i >= |rest| {
          assert stack'[i] == chain[i - |rest| + 1];
        } else {
          assert stack'[i] == rest[i];
        }
      }
      StackWeightAppend(rest, pushed);
      ExploreWeight(sub, q, sub.depth);
      ChildNodes(curr, OtherSide(Side(q, curr.location, curr.depth)));
      Pow2Monotone(Height(sub), Height(curr));
    }
  }

  /** `nearest_neighboor_search`: nothing for an empty index or when the
      read lock is unavailable; otherwise the search list is built, its
      deepest entry is popped as the first candidate, and the loop runs on
      the rest. The result is a stored entity with its own squared distance,
      no farther than any node of the initial search list. */
  function NearestNeighbourSearch(tree: TwoDTree, q: Point, readLock: bool): (r: Option<(Entity, nat)>)
    ensures r.None? <==> tree.root.Empty? || !readLock
    ensures r.Some? ==>
      exists n :: n in Nodes(tree.root) && n.Node? && n.entity == r.value.0 && DistSq(n.location, q) == r.value.1
    ensures r.Some? ==>
      forall n :: n in SearchParentList(tree.root, q) ==> r.value.1 <= DistSq(n.location, q)
  {
    if tree.root.Empty? then None
    else if !readLock then None
    else
      var stack := SearchParentList(tree.root, q);
      var deepest := stack[|stack| - 1];
      var b := Backtrack(tree.root, stack[..|stack| - 1], q, deepest, DistSq(deepest.location, q));
      assert forall n :: n in stack ==> n == deepest || n in stack[..|stack| - 1];
      Some((b.node.entity, b.dist))
  }

  /** A search for the very point that created the index answers its
      entity at distance 0, whether or not the write lock was held. */
  lemma SearchAfterFirstInsert(e: Entity, p: Point, writeLock: bool)
    ensures NearestNeighbourSearch(Insert(EmptyTree(), e, p, writeLock).0, p, true) == Some((e, 0))
  {
    var t := Insert(EmptyTree(), e, p, writeLock).0;
    assert ExploreFrom(t.root, p, 0) == [];
    assert SearchParentList(t.root, p) == [t.root];
  }

  /** The loop of `n_nearest_neighboors_search`: it pops every remaining
      entry and computes the heap's greatest distance and whether the entry's
      axis gap is below it, but uses neither and never pushes onto the heap,
      so the heap comes back exactly as it went in. */
  function DrainStack(stack: seq<Tree>, q: Point, heap: seq<Item>): (r: seq<Item>)
    requires |heap| > 0
    requires forall i :: 0 <= i < |stack| ==> stack[i].Node?
    ensures r == heap
    decreases |stack|
  {
    if |stack| == 0 then
      heap
    else
      var curr := stack[|stack| - 1];
      var greatest := Peek(heap).dist;
      var couldBeInRadius := Sq(AxisGap(curr.location, q, AxisOf(curr.depth))) < greatest;
      DrainStack(stack[..|stack| - 1], q, heap)
  }

  /** `n_nearest_neighboors_search`: nothing for an empty index or when the
      read lock is unavailable; otherwise a heap holding just the deepest
      entry of the search list with its distance, whatever `n` is. */
  function NNearestNeighboursSearch(tree: TwoDTree, q: Point, n: nat, readLock: bool): (r: Option<seq<Item>>)
    ensures r.None? <==> tree.root.Empty? || !readLock
    ensures r.Some? ==>
      var list := SearchParentList(tree.root, q);
      && |r.value| == 1
      && r.value[0].entity == list[|list| - 1].entity
      && r.value[0].dist == DistSq(list[|list| - 1].location, q)
  {
    if tree.root.Empty? then None
    else if !readLock then None
    else
      var stack := SearchParentList(tree.root, q);
      var curr := stack[|stack| - 1];
      var heap := [Item(curr.entity, DistSq(curr.location, q))];
      Some(DrainStack(stack[..|stack| - 1], q, heap))
  }

  /** The n-nearest search returns the parent `search_parent` finds for the
      query (the deepest node of its descent), for every `n` including 0. */
  lemma NNearestIsSearchParent(tree: TwoDTree, q: Point, n: nat)
    requires tree.root.Node? && tree.root.depth == 0
    ensures var parent := At(tree.root, SearchParent(tree.root, q, 0).path);
            NNearestNeighboursSearch(tree, q, n, true)
              == Some([Item(parent.entity, DistSq(parent.location, q))])
  {
    SearchListEndsAtParent(tree.root, q);
  }
}
