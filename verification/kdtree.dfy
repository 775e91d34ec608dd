/** The data model of the two-dimensional k-d tree (`TreeNode`, `TwoDTree`).

    The source links nodes through leaked raw pointers; here each node owns
    its two optional children, which gives the same tree shape. */
module KdTree {
  import opened Geometry

  /** The opaque identifier stored with each point (a Bevy `Entity`). */
  type Entity = nat

  /** A subtree: `Empty` is an absent branch (`None`), `Node` is a `TreeNode`
      with its two branches `low` (slot 0) and `high` (slot 1). */
  datatype Tree =
    | Empty
    | Node(entity: Entity, location: Point, depth: nat, low: Tree, high: Tree)

  /** The whole index: an empty root is `root: None`. */
  datatype TwoDTree = TwoDTree(root: Tree)

  /** The branch in slot `s` (`branch[s]`). */
  function Child(t: Tree, s: Slot): Tree
    requires t.Node?
  {
    if s == 0 then t.low else t.high
  }

  /** `t` with its branch in slot `s` replaced by `c`. */
  function SetChild(t: Tree, s: Slot, c: Tree): (r: Tree)
    requires t.Node?
    ensures r.Node? && Child(r, s) == c && Child(r, 1 - s) == Child(t, 1 - s)
    ensures r.entity == t.entity && r.location == t.location && r.depth == t.depth
  {
    if s == 0 then t.(low := c) else t.(high := c)
  }

  /** A childless node (`TreeNode::new`). */
  function NewNode(e: Entity, p: Point, depth: nat): Tree
  {
    Node(e, p, depth, Empty, Empty)
  }

  /** An index holding nothing (`TwoDTree::new`). */
  function EmptyTree(): TwoDTree
  {
    TwoDTree(Empty)
  }

  /** An index whose root is a single node at depth 0 (`TreeNode::root_from`). */
  function RootFrom(e: Entity, p: Point): TwoDTree
  {
    TwoDTree(NewNode(e, p, 0))
  }

  /** Every node of a subtree, as the subtree rooted at it. */
  function Nodes(t: Tree): (r: set<Tree>)
    ensures forall x :: x in r ==> x.Node?
  {
    match t
    case Empty => {}
    case Node(_, _, _, low, high) => {t} + Nodes(low) + Nodes(high)
  }

  /** The stored points of a subtree. */
  function Locations(t: Tree): set<Point>
  {
    match t
    case Empty => {}
    case Node(_, loc, _, low, high) => {loc} + Locations(low) + Locations(high)
  }

  /** The stored (entity, point) pairs of a subtree, with multiplicity. */
  function Entries(t: Tree): multiset<(Entity, Point)>
  {
    match t
    case Empty => multiset{}
    case Node(e, loc, _, low, high) => multiset{(e, loc)} + Entries(low) + Entries(high)
  }

  function Size(t: Tree): nat
  {
    match t
    case Empty => 0
    case Node(_, _, _, low, high) => 1 + Size(low) + Size(high)
  }

  function Height(t: Tree): nat
  {
    match t
    case Empty => 0
    case Node(_, _, _, low, high) =>
      1 + (if Height(low) < Height(high) then Height(high) else Height(low))
  }

  /** Depth bookkeeping: the node at the top of `t` has depth `d`, and every
      node below is one deeper than its parent. For the root (`d == 0`) this
      says each node's depth is its distance from the root. */
  predicate DepthsFrom(t: Tree, d: nat)
  {
    t.Node? ==> t.depth == d && DepthsFrom(t.low, d + 1) && DepthsFrom(t.high, d + 1)
  }

  /** Whether coordinate `c` belongs on side `s` of a splitting value `pivot`. */
  predicate OnSide(c: int, pivot: int, s: Slot)
  {
    if s == 0 then c <= pivot else c > pivot
  }

  /** Every point of `t` lies on side `s` of `pivot` along `axis`. */
  predicate AllOnSide(t: Tree, axis: Axis, pivot: int, s: Slot)
  {
    forall p :: p in Locations(t) ==> OnSide(Coord(p, axis), pivot, s)
  }

  /** The k-d ordering invariant: at every node, every point of slot 0 is at
      most the node's coordinate on the node's splitting axis and every point
      of slot 1 is greater. */
  predicate KdOrdered(t: Tree)
  {
    t.Node? ==>
      && AllOnSide(t.low, AxisOf(t.depth), Coord(t.location, AxisOf(t.depth)), 0)
      && AllOnSide(t.high, AxisOf(t.depth), Coord(t.location, AxisOf(t.depth)), 1)
      && KdOrdered(t.low)
      && KdOrdered(t.high)
  }

  /** The invariants every index built by `insert` keeps. */
  predicate WellFormed(tree: TwoDTree)
  {
    DepthsFrom(tree.root, 0) && KdOrdered(tree.root)
  }

  /** The subtree at address `a` (a sequence of slots followed from the top);
      `Empty` when the address leaves the tree. */
  function At(t: Tree, a: seq<Slot>): Tree
    decreases |a|
  {
    if a == [] then t
    else if t.Empty? then Empty
    else At(Child(t, a[0]), a[1..])
  }

  /** The identifying data of a node: entity, location and depth. */
  function Label(t: Tree): (Entity, Point, nat)
    requires t.Node?
  {
    (t.entity, t.location, t.depth)
  }

  /** Following one more slot from an address. */
  lemma AtSnoc(t: Tree, a: seq<Slot>, s: Slot)
    requires At(t, a).Node?
    ensures At(t, a + [s]) == Child(At(t, a), s)
    decreases |a|
  {
    if a != [] {
      assert (a + [s])[1..] == a[1..] + [s];
      AtSnoc(Child(t, a[0]), a[1..], s);
    }
  }

  /** A child's nodes are strictly fewer than its parent's. */
  lemma ChildNodes(t: Tree, s: Slot)
    requires t.Node?
    ensures Nodes(Child(t, s)) < Nodes(t)
    ensures Height(Child(t, s)) < Height(t)
  {
    if t in Nodes(Child(t, s)) {
      NodeSize(t, Child(t, s));
      assert false;
    }
  }

  /** A node of `t` is no larger than `t`. */
  lemma NodeSize(x: Tree, t: Tree)
    requires x in Nodes(t)
    ensures Size(x) <= Size(t)
  {
    if x != t {
      if x in Nodes(t.low) {
        NodeSize(x, t.low);
      } else {
        NodeSize(x, t.high);
      }
    }
  }

  /** Every node of a node's subtree is a node of the bigger tree. */
  lemma NodesClosed(x: Tree, t: Tree)
    requires x in Nodes(t)
    ensures Nodes(x) <= Nodes(t)
  {
    if x != t {
      if x in Nodes(t.low) {
        NodesClosed(x, t.low);
      } else {
        NodesClosed(x, t.high);
      }
    }
  }

  /** The location of a node of `t` is a stored point of `t`. */
  lemma NodeLocation(x: Tree, t: Tree)
    requires x in Nodes(t)
    ensures x.Node? && x.location in Locations(t)
  {
    if x != t {
      if x in Nodes(t.low) {
        NodeLocation(x, t.low);
      } else {
        NodeLocation(x, t.high);
      }
    }
  }

  /** Every stored point is the location of some node. */
  lemma LocationNode(p: Point, t: Tree) returns (x: Tree)
    requires p in Locations(t)
    ensures x in Nodes(t) && x.Node? && x.location == p
  {
    if p == t.location {
      x := t;
    } else if p in Locations(t.low) {
      x := LocationNode(p, t.low);
    } else {
      x := LocationNode(p, t.high);
    }
  }

  /** Depth bookkeeping seen through addresses: under `DepthsFrom(t, d)` the
      node at address `a` has depth `d + |a|`, so a counter started at `d` and
      incremented once per step down agrees with the stored depth. */
  lemma {:induction false} DepthIsDistance(t: Tree, d: nat, a: seq<Slot>)
    requires DepthsFrom(t, d)
    requires At(t, a).Node?
    ensures At(t, a).depth == d + |a|
    decreases |a|
  {
    if a != [] {
      DepthIsDistance(Child(t, a[0]), d + 1, a[1..]);
    }
  }

  /** A node reached by an address is a node of the tree. */
  lemma AtIsNode(t: Tree, a: seq<Slot>)
    requires At(t, a).Node?
    ensures At(t, a) in Nodes(t)
    decreases |a|
  {
    if a != [] {
      AtIsNode(Child(t, a[0]), a[1..]);
      ChildNodes(t, a[0]);
    }
  }

  /** `TreeNode::new` / `TreeNode::from`: a new node is childless, holds
      exactly the pair `(e, p)` and satisfies both invariants at its depth. */
  lemma NewNodeIsLeaf(e: Entity, p: Point, depth: nat)
    ensures var r := NewNode(e, p, depth);
            && r.Node? && Label(r) == (e, p, depth) && r.low.Empty? && r.high.Empty?
            && Entries(r) == multiset{(e, p)} && Locations(r) == {p} && Size(r) == 1
            && DepthsFrom(r, depth) && KdOrdered(r)
  {
    assert Locations(Empty) == {};
  }

  /** `TwoDTree::new` holds nothing and is well formed. */
  lemma EmptyTreeHoldsNothing()
    ensures Entries(EmptyTree().root) == multiset{} && Locations(EmptyTree().root) == {}
    ensures Size(EmptyTree().root) == 0 && WellFormed(EmptyTree())
  {
  }

  /** `TreeNode::root_from`: a fresh root at depth 0 holds exactly `(e, p)`
      and is well formed. */
  lemma RootFromHoldsOnePair(e: Entity, p: Point)
    ensures var r := RootFrom(e, p);
            && r.root.Node? && Label(r.root) == (e, p, 0)
            && Entries(r.root) == multiset{(e, p)} && Locations(r.root) == {p}
            && WellFormed(r)
  {
    NewNodeIsLeaf(e, p, 0);
  }

  /** No address leads anywhere from an absent subtree. */
  lemma AtEmpty(a: seq<Slot>)
    ensures At(Empty, a) == Empty
  {
  }
}
