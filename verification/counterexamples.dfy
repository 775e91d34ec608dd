/** Concrete indexes on which the search of `nearest_neighboor_search`, as
    it is written, misses the nearest entity, and on which the corrected
    search finds it. */
module Counterexamples {
  import opened Wrappers
  import opened Geometry
  import opened KdTree
  import opened Insertion
  import opened SearchPath
  import opened Nearest
  import opened NearestCorrected

  // ---------------------------------------------------------------------
  // A subtree root that is never examined.
  // Entities 1..4 at (0,0), (100,0), (30,-2), (1000,50), inserted in order.
  // ---------------------------------------------------------------------

  function FourPoints(): seq<(Entity, Point)>
  {
    [(1, Point(0, 0)), (2, Point(100, 0)), (3, Point(30, -2)), (4, Point(1000, 50))]
  }

  function OnePoint(): TwoDTree
  {
    TwoDTree(Node(1, Point(0, 0), 0, Empty, Empty))
  }

  function TwoPoints(): TwoDTree
  {
    TwoDTree(Node(1, Point(0, 0), 0, Empty, Node(2, Point(100, 0), 1, Empty, Empty)))
  }

  function ThreePoints(): TwoDTree
  {
    TwoDTree(Node(1, Point(0, 0), 0, Empty,
      Node(2, Point(100, 0), 1, Node(3, Point(30, -2), 2, Empty, Empty), Empty)))
  }

  function FourPointTree(): TwoDTree
  {
    TwoDTree(Node(1, Point(0, 0), 0, Empty,
      Node(2, Point(100, 0), 1,
        Node(3, Point(30, -2), 2, Empty, Empty),
        Node(4, Point(1000, 50), 2, Empty, Empty))))
  }

  lemma InsertSecond()
    ensures Insert(OnePoint(), 2, Point(100, 0), true).0 == TwoPoints()
  {
    assert SearchParent(OnePoint().root, Point(100, 0), 0) == ParentSlot([], 1);
  }

  lemma InsertThird()
    ensures Insert(TwoPoints(), 3, Point(30, -2), true).0 == ThreePoints()
  {
    assert SearchParent(TwoPoints().root, Point(30, -2), 0) == ParentSlot([1], 0);
  }

  lemma InsertFourth()
    ensures Insert(ThreePoints(), 4, Point(1000, 50), true).0 == FourPointTree()
  {
    assert SearchParent(ThreePoints().root, Point(1000, 50), 0) == ParentSlot([1], 1);
  }

  /** Inserting the four points in order builds exactly this tree. */
  lemma FourPointsBuildTree()
    ensures InsertAll(EmptyTree(), FourPoints()) == FourPointTree()
  {
    var items := FourPoints();
    assert Insert(EmptyTree(), 1, Point(0, 0), true).0 == OnePoint();
    InsertSecond();
    InsertThird();
    InsertFourth();
    var rest1: seq<(Entity, Point)> := items[1..];
    var rest2: seq<(Entity, Point)> := rest1[1..];
    var rest3: seq<(Entity, Point)> := rest2[1..];
    var rest4: seq<(Entity, Point)> := rest3[1..];
    assert |rest4| == 0;
    assert InsertAll(FourPointTree(), rest4) == FourPointTree();
    assert InsertAll(ThreePoints(), rest3) == FourPointTree();
    assert InsertAll(TwoPoints(), rest2) == FourPointTree();
    assert InsertAll(OnePoint(), rest1) == FourPointTree();
  }

  lemma FourPointDescent()
    ensures SearchParentList(FourPointTree().root, Point(30, 1))
      == [FourPointTree().root, FourPointTree().root.high, FourPointTree().root.high.high]
  {
    var r := FourPointTree().root;
    var q := Point(30, 1);
    assert ExploreFrom(r.high.high, q, 2) == [];
    assert ExploreFrom(r.high, q, 1) == [r.high.high];
    assert ExploreFrom(r, q, 0) == [r.high, r.high.high];
  }

  /** At (100,0) the unexplored side is the subtree rooted at (30,-2), but
      only that root's descendants (none) are pushed. */
  lemma FourPointOpensNothing(r: Tree)
    requires r == FourPointTree().root
    ensures PushUnexplored(r.high, Point(30, 1), [r]) == [r]
  {
    var q := Point(30, 1);
    assert Unexplored(r.high, q) == r.high.low;
    assert ExploreFrom(r.high.low, q, 2) == [];
  }

  /** Backtracking through (100,0): it is closer than (1000,50), and opening
      its unexplored side pushes nothing. */
  lemma FourPointFirstPop(r: Tree)
    requires r == FourPointTree().root
    ensures Backtrack(r, [r, r.high], Point(30, 1), r.high.high, 970 * 970 + 49 * 49)
         == Backtrack(r, [r], Point(30, 1), r.high, 4901)
  {
    var q := Point(30, 1);
    var a := r.high;
    assert DistSq(r.high.high.location, q) == 970 * 970 + 49 * 49;
    assert DistSq(a.location, q) == 4901;
    assert Sq(AxisGap(a.location, q, AxisOf(a.depth))) == 1;
    FourPointOpensNothing(r);
    assert [r, a][..1] == [r];
  }

  lemma FourPointSecondPop()
    ensures Backtrack(FourPointTree().root, [FourPointTree().root],
                      Point(30, 1), FourPointTree().root.high, 4901)
         == Best(FourPointTree().root, 901)
  {
    var r := FourPointTree().root;
    var q := Point(30, 1);
    assert PushUnexplored(r, q, []) == [];
  }

  lemma FourPointSearch()
    ensures NearestNeighbourSearch(FourPointTree(), Point(30, 1), true) == Some((1, 901))
  {
    FourPointDescent();
    var t := FourPointTree();
    var q := Point(30, 1);
    var l := SearchParentList(t.root, q);
    assert l[..|l| - 1] == [t.root, t.root.high];
    assert DistSq(t.root.high.high.location, q) == 970 * 970 + 49 * 49;
    FourPointFirstPop(t.root);
    FourPointSecondPop();
  }

  lemma FourPointNodes()
    ensures var r := FourPointTree().root;
      Nodes(r) == {r, r.high, r.high.low, r.high.high}
  {
    var r := FourPointTree().root;
    assert Nodes(r.high.low) == {r.high.low};
    assert Nodes(r.high.high) == {r.high.high};
  }

  lemma FourPointHoldsThree()
    ensures exists n :: n in Nodes(FourPointTree().root) && n.Node? && n.entity == 3
                        && DistSq(n.location, Point(30, 1)) == 9
  {
    FourPointNodes();
    var b := FourPointTree().root.high.low;
    assert b in Nodes(FourPointTree().root);
    assert DistSq(b.location, Point(30, 1)) == 9;
  }

  /** The search as written answers entity 1 at squared distance 901 for the
      query (30,1), although entity 3 is stored at squared distance 9. */
  lemma SubtreeRootMissed()
    ensures var tree := InsertAll(EmptyTree(), FourPoints());
      && NearestNeighbourSearch(tree, Point(30, 1), true) == Some((1, 901))
      && exists n :: n in Nodes(tree.root) && n.Node? && n.entity == 3 && DistSq(n.location, Point(30, 1)) == 9
  {
    FourPointsBuildTree();
    FourPointSearch();
    FourPointHoldsThree();
  }

  lemma FourPointStrict()
    ensures var r := FourPointTree().root;
      forall n :: n in Nodes(r) && n != r.high.low ==>
        DistSq(r.high.low.location, Point(30, 1)) < DistSq(n.location, Point(30, 1))
  {
    var r := FourPointTree().root;
    var q := Point(30, 1);
    FourPointNodes();
    assert DistSq(r.location, q) == 901;
    assert DistSq(r.high.location, q) == 4901;
    assert DistSq(r.high.low.location, q) == 9;
    assert DistSq(r.high.high.location, q) == 970 * 970 + 49 * 49;
  }

  lemma FourPointWellFormed()
    ensures WellFormed(FourPointTree())
  {
    RootFromHoldsOnePair(1, Point(0, 0));
    assert WellFormed(OnePoint());
    InsertSecond();
    assert WellFormed(TwoPoints());
    InsertThird();
    assert WellFormed(ThreePoints());
    InsertFourth();
  }

  lemma FourPointFixed(t: TwoDTree)
    requires t == FourPointTree()
    ensures NearestNeighbourSearchFixed(t, Point(30, 1), true) == Some((3, 9))
  {
    FourPointWellFormed();
    FourPointNodes();
    FourPointStrict();
    assert DistSq(t.root.high.low.location, Point(30, 1)) == 9;
    StrictNearestIsFound(t, Point(30, 1), t.root.high.low);
  }

  /** The corrected search answers entity 3 at squared distance 9. */
  lemma SubtreeRootFound()
    ensures NearestNeighbourSearchFixed(InsertAll(EmptyTree(), FourPoints()), Point(30, 1), true) == Some((3, 9))
  {
    FourPointsBuildTree();
    FourPointFixed(InsertAll(EmptyTree(), FourPoints()));
  }

  // ---------------------------------------------------------------------
  // The deepest node's other side is never examined.
  // Entity 1 at (0,0), then entity 2 at (0,10); query (1,10).
  // ---------------------------------------------------------------------

  function TwoStacked(): seq<(Entity, Point)>
  {
    [(1, Point(0, 0)), (2, Point(0, 10))]
  }

  function TwoStackedTree(): TwoDTree
  {
    TwoDTree(Node(1, Point(0, 0), 0, Node(2, Point(0, 10), 1, Empty, Empty), Empty))
  }

  lemma TwoStackedBuildTree()
    ensures InsertAll(EmptyTree(), TwoStacked()) == TwoStackedTree()
  {
    var items := TwoStacked();
    var one := TwoDTree(Node(1, Point(0, 0), 0, Empty, Empty));
    assert Insert(EmptyTree(), 1, Point(0, 0), true).0 == one;
    assert SearchParent(one.root, Point(0, 10), 0) == ParentSlot([], 0);
    assert Insert(one, 2, Point(0, 10), true).0 == TwoStackedTree();
    var rest1: seq<(Entity, Point)> := items[1..];
    var rest2: seq<(Entity, Point)> := rest1[1..];
    assert |rest2| == 0;
    assert InsertAll(TwoStackedTree(), rest2) == TwoStackedTree();
    assert InsertAll(one, rest1) == TwoStackedTree();
  }

  /** The search as written answers entity 1 at squared distance 101 for the
      query (1,10): the query falls on the empty high side of the root, the
      root is taken as the first best and its low side is never opened,
      although entity 2 is stored there at squared distance 1. */
  lemma DeepestSideMissed()
    ensures var tree := InsertAll(EmptyTree(), TwoStacked());
      && NearestNeighbourSearch(tree, Point(1, 10), true) == Some((1, 101))
      && exists n :: n in Nodes(tree.root) && n.Node? && n.entity == 2 && DistSq(n.location, Point(1, 10)) == 1
  {
    TwoStackedBuildTree();
    var t := TwoStackedTree();
    var q := Point(1, 10);
    assert ExploreFrom(t.root, q, 0) == [];
    assert SearchParentList(t.root, q) == [t.root];
    assert DistSq(t.root.location, q) == 101;
    assert t.root.low in Nodes(t.root);
    assert DistSq(t.root.low.location, q) == 1;
  }

  lemma TwoStackedFixed()
    ensures NearestNeighbourSearchFixed(TwoStackedTree(), Point(1, 10), true) == Some((2, 1))
  {
    var t := TwoStackedTree();
    var q := Point(1, 10);
    TwoStackedBuildTree();
    assert Nodes(t.root.low) == {t.root.low};
    assert Nodes(t.root) == {t.root, t.root.low};
    assert DistSq(t.root.location, q) == 101;
    assert DistSq(t.root.low.location, q) == 1;
    StrictNearestIsFound(t, q, t.root.low);
  }

  /** The corrected search answers entity 2 at squared distance 1. */
  lemma DeepestSideFound()
    ensures NearestNeighbourSearchFixed(InsertAll(EmptyTree(), TwoStacked()), Point(1, 10), true) == Some((2, 1))
  {
    TwoStackedBuildTree();
    TwoStackedFixed();
  }
}
