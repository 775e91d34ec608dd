/** Insertion into the k-d tree (`TwoDTree::insert`) and the descent that
    finds where a new point goes (`search_parent_mut` / `search_parent`). */
module Insertion {
  import opened Geometry
  import opened KdTree

  /** Where the descent stops: the address of the parent node and the
      (empty) slot below it that the point would take. */
  datatype ParentSlot = ParentSlot(path: seq<Slot>, slot: Slot)

  /** `path`/`slot` is the descent of point `p` through `t` when the counter at
      the top is `depth`: every step takes the slot the insertion rule picks
      at the node reached so far (using the counter, not the stored depth),
      the node reached is present, and the slot it picks there is empty. */
  ghost predicate IsDescent(t: Tree, p: Point, path: seq<Slot>, slot: Slot, depth: nat)
  {
    && At(t, path).Node?
    && (forall i :: 0 <= i < |path| ==>
          At(t, path[..i]).Node? && path[i] == Side(p, At(t, path[..i]).location, depth + i))
    && slot == Side(p, At(t, path).location, depth + |path|)
    && Child(At(t, path), slot).Empty?
  }

  /** A descent that starts with slot `s` is the rule's first step followed by
      a descent of the child. */
  lemma DescentCons(t: Tree, p: Point, s: Slot, rest: seq<Slot>, slot: Slot, depth: nat)
    requires t.Node?
    ensures IsDescent(t, p, [s] + rest, slot, depth)
        <==> s == Side(p, t.location, depth) && IsDescent(Child(t, s), p, rest, slot, depth + 1)
  {
    var path := [s] + rest;
    var c := Child(t, s);
    assert path[1..] == rest;
    assert At(t, path) == At(c, rest);
    forall i | 0 <= i < |rest|
      ensures path[..i + 1][1..] == rest[..i]
      ensures At(t, path[..i + 1]) == At(c, rest[..i])
      ensures path[i + 1] == rest[i]
    {
      assert path[..i + 1][1..] == rest[..i];
    }
    assert At(t, path[..0]) == t;
    if IsDescent(t, p, path, slot, depth) {
      assert s == Side(p, t.location, depth) by {
        assert path[0] == Side(p, At(t, path[..0]).location, depth + 0);
      }
      forall i | 0 <= i < |rest|
        ensures At(c, rest[..i]).Node? && rest[i] == Side(p, At(c, rest[..i]).location, depth + 1 + i)
      {
        assert path[i + 1] == Side(p, At(t, path[..i + 1]).location, depth + (i + 1));
      }
    }
    if s == Side(p, t.location, depth) && IsDescent(c, p, rest, slot, depth + 1) {
      forall i | 0 <= i < |path|
        ensures At(t, path[..i]).Node? && path[i] == Side(p, At(t, path[..i]).location, depth + i)
      {
        if i > 0 {
          assert rest[i - 1] == Side(p, At(c, rest[..i - 1]).location, depth + 1 + (i - 1));
        }
      }
    }
  }

  /** `search_parent_mut` / `search_parent`: starting with the counter at
      `depth`, descend from `t` by the insertion rule until the slot the rule
      picks is empty; return the address of that node and the slot. */
  function SearchParent(t: Tree, p: Point, depth: nat): (r: ParentSlot)
    requires t.Node?
    ensures IsDescent(t, p, r.path, r.slot, depth)
    decreases t
  {
    var side := Side(p, t.location, depth);
    var next := Child(t, side);
    if next.Empty? then
      assert At(t, []) == t;
      ParentSlot([], side)
    else
      var r := SearchParent(next, p, depth + 1);
      DescentCons(t, p, side, r.path, r.slot, depth);
      ParentSlot([side] + r.path, r.slot)
  }

  /** The descent of a point is unique: `SearchParent` returns the only
      address/slot pair satisfying `IsDescent`. */
  lemma {:induction false} DescentUnique(t: Tree, p: Point, path1: seq<Slot>, slot1: Slot,
                                         path2: seq<Slot>, slot2: Slot, depth: nat)
    requires IsDescent(t, p, path1, slot1, depth)
    requires IsDescent(t, p, path2, slot2, depth)
    ensures path1 == path2 && slot1 == slot2
    decreases |path1|
  {
    DescentStops(t, p, path1, slot1, depth);
    DescentStops(t, p, path2, slot2, depth);
    if path1 != [] {
      DescentCons(t, p, path1[0], path1[1..], slot1, depth);
      DescentCons(t, p, path2[0], path2[1..], slot2, depth);
      assert [path1[0]] + path1[1..] == path1;
      assert [path2[0]] + path2[1..] == path2;
      DescentUnique(Child(t, path1[0]), p, path1[1..], slot1, path2[1..], slot2, depth + 1);
    }
  }

  /** A descent is empty exactly when the slot the rule picks at the top is
      empty; otherwise its first step is that slot. */
  lemma DescentStops(t: Tree, p: Point, path: seq<Slot>, slot: Slot, depth: nat)
    requires IsDescent(t, p, path, slot, depth)
    ensures t.Node?
    ensures path == [] <==> Child(t, Side(p, t.location, depth)).Empty?
    ensures path != [] ==> path[0] == Side(p, t.location, depth)
  {
    if t.Empty? {
      AtEmpty(path);
    }
    if path != [] {
      assert path[..0] == [];
      assert path[0] == Side(p, At(t, path[..0]).location, depth + 0);
      AtEmpty(path[1..]);
    }
  }

  /** Write `leaf` into slot `slot` of the node at address `path`
      (`parent.branch[index] = ...`). */
  function AttachAt(t: Tree, path: seq<Slot>, slot: Slot, leaf: Tree): (r: Tree)
    requires At(t, path).Node?
    decreases |path|
  {
    if path == [] then SetChild(t, slot, leaf)
    else SetChild(t, path[0], AttachAt(Child(t, path[0]), path[1..], slot, leaf))
  }

  /** Attaching at an empty slot adds the leaf's entries and nothing else. */
  lemma {:induction false} AttachEntries(t: Tree, path: seq<Slot>, slot: Slot, leaf: Tree)
    requires At(t, path).Node? && Child(At(t, path), slot).Empty?
    ensures Entries(AttachAt(t, path, slot, leaf)) == Entries(t) + Entries(leaf)
    decreases |path|
  {
    var r := AttachAt(t, path, slot, leaf);
    if path == [] {
      if slot == 0 {
        assert r == t.(low := leaf);
      } else {
        assert r == t.(high := leaf);
      }
    } else {
      var c' := AttachAt(Child(t, path[0]), path[1..], slot, leaf);
      AttachEntries(Child(t, path[0]), path[1..], slot, leaf);
      if path[0] == 0 {
        assert r == t.(low := c');
      } else {
        assert r == t.(high := c');
      }
    }
  }

  /** Attaching at an empty slot adds the leaf's points and nothing else. */
  lemma {:induction false} AttachLocations(t: Tree, path: seq<Slot>, slot: Slot, leaf: Tree)
    requires At(t, path).Node? && Child(At(t, path), slot).Empty?
    ensures Locations(AttachAt(t, path, slot, leaf)) == Locations(t) + Locations(leaf)
    decreases |path|
  {
    var r := AttachAt(t, path, slot, leaf);
    if path == [] {
      if slot == 0 {
        assert r == t.(low := leaf);
      } else {
        assert r == t.(high := leaf);
      }
    } else {
      var c' := AttachAt(Child(t, path[0]), path[1..], slot, leaf);
      AttachLocations(Child(t, path[0]), path[1..], slot, leaf);
      if path[0] == 0 {
        assert r == t.(low := c');
      } else {
        assert r == t.(high := c');
      }
    }
  }

  /** Attaching a leaf one deeper than its parent keeps the depth bookkeeping. */
  lemma {:induction false} AttachKeepsDepths(t: Tree, path: seq<Slot>, slot: Slot, e: Entity, p: Point, d: nat)
    requires DepthsFrom(t, d)
    requires At(t, path).Node?
    ensures DepthsFrom(AttachAt(t, path, slot, NewNode(e, p, At(t, path).depth + 1)), d)
    decreases |path|
  {
    var leaf := NewNode(e, p, At(t, path).depth + 1);
    var r := AttachAt(t, path, slot, leaf);
    if path == [] {
      assert DepthsFrom(leaf, d + 1);
      if slot == 0 {
        assert r == t.(low := leaf);
      } else {
        assert r == t.(high := leaf);
      }
    } else {
      var c := Child(t, path[0]);
      var c' := AttachAt(c, path[1..], slot, leaf);
      assert At(c, path[1..]) == At(t, path);
      AttachKeepsDepths(c, path[1..], slot, e, p, d + 1);
      if path[0] == 0 {
        assert r == t.(low := c');
      } else {
        assert r == t.(high := c');
      }
    }
  }

  /** Attaching the point at the end of its descent keeps the k-d ordering:
      at every node on the way the point lies on the side the descent took.
      The descent's counter must agree with the stored depths. */
  lemma {:induction false} AttachKeepsOrder(t: Tree, p: Point, e: Entity, path: seq<Slot>, slot: Slot, d: nat, leafDepth: nat)
    requires DepthsFrom(t, d) && KdOrdered(t)
    requires IsDescent(t, p, path, slot, d)
    ensures KdOrdered(AttachAt(t, path, slot, NewNode(e, p, leafDepth)))
    decreases |path|
  {
    var leaf := NewNode(e, p, leafDepth);
    var r := AttachAt(t, path, slot, leaf);
    assert Locations(leaf) == {p};
    DescentStops(t, p, path, slot, d);
    var s := if path == [] then slot else path[0];
    var axis := AxisOf(t.depth);
    var c' := if path == [] then leaf else AttachAt(Child(t, s), path[1..], slot, leaf);
    assert OnSide(Coord(p, axis), Coord(t.location, axis), s);
    if path == [] {
      assert KdOrdered(leaf);
    } else {
      var c := Child(t, s);
      DescentCons(t, p, s, path[1..], slot, d);
      assert [s] + path[1..] == path;
      AttachKeepsOrder(c, p, e, path[1..], slot, d + 1, leafDepth);
      AttachLocations(c, path[1..], slot, leaf);
    }
    assert AllOnSide(c', axis, Coord(t.location, axis), s);
    if s == 0 {
      assert r == t.(low := c');
    } else {
      assert r == t.(high := c');
    }
  }

  /** What attaching does to each address: every node present before is
      still present with the same entity, location and depth; the only new
      address is `path + [slot]`, which holds the leaf. */
  lemma {:induction false} AttachAddress(t: Tree, path: seq<Slot>, slot: Slot, leaf: Tree, a: seq<Slot>)
    requires At(t, path).Node? && Child(At(t, path), slot).Empty?
    requires leaf.Node? && leaf.low.Empty? && leaf.high.Empty?
    ensures At(t, a).Node? ==>
      At(AttachAt(t, path, slot, leaf), a).Node? && Label(At(AttachAt(t, path, slot, leaf), a)) == Label(At(t, a))
    ensures At(AttachAt(t, path, slot, leaf), a).Node? <==> At(t, a).Node? || a == path + [slot]
    ensures At(AttachAt(t, path, slot, leaf), path + [slot]) == leaf
    decreases |path|
  {
    var r := AttachAt(t, path, slot, leaf);
    assert t.Node? by {
      if t.Empty? {
        AtEmpty(path);
      }
    }
    AttachTarget(t, path, slot, leaf);
    AtSnoc(r, path, slot);
    if a != [] {
      var s, a' := a[0], a[1..];
      if path == [] {
        if s == slot {
          AtEmpty(a');
          if a' != [] {
            AtEmpty(a'[1..]);
          }
        }
      } else {
        var c := Child(t, path[0]);
        assert (path + [slot])[1..] == path[1..] + [slot];
        if s == path[0] {
          AttachAddress(c, path[1..], slot, leaf, a');
          assert a == path + [slot] <==> a' == path[1..] + [slot];
        }
      }
    }
  }

  /** The node at the attachment address keeps its label and gains the leaf. */
  lemma {:induction false} AttachTarget(t: Tree, path: seq<Slot>, slot: Slot, leaf: Tree)
    requires At(t, path).Node?
    ensures At(AttachAt(t, path, slot, leaf), path).Node?
    ensures Child(At(AttachAt(t, path, slot, leaf), path), slot) == leaf
    decreases |path|
  {
    if path != [] {
      AttachTarget(Child(t, path[0]), path[1..], slot, leaf);
    }
  }

  /** `TwoDTree::insert`: an empty index gets the point as its root (no lock
      is taken); otherwise, without the write lock nothing changes and the
      result is false; with it, the point is attached below the node found by
      `search_parent_mut` (counter starting at 0) at depth `parent.depth + 1`. */
  function Insert(tree: TwoDTree, e: Entity, p: Point, writeLock: bool): (r: (TwoDTree, bool))
    ensures r.1 <==> tree.root.Empty? || writeLock
    ensures !r.1 ==> r.0 == tree
    ensures tree.root.Empty? ==>
      r.0.root.Node? && Label(r.0.root) == (e, p, 0) && r.0.root.low.Empty? && r.0.root.high.Empty?
    ensures r.1 ==> Entries(r.0.root) == Entries(tree.root) + multiset{(e, p)}
    ensures r.1 ==> Locations(r.0.root) == Locations(tree.root) + {p}
    ensures WellFormed(tree) ==> WellFormed(r.0)
  {
    if tree.root.Empty? then
      RootFromHoldsOnePair(e, p);
      (RootFrom(e, p), true)
    else if !writeLock then
      (tree, false)
    else
      (AttachPoint(tree, e, p), true)
  }

  /** The locked part of `insert` on a non-empty index: find the parent with
      `search_parent_mut` (counter starting at 0) and store a childless node
      at depth `parent.depth + 1` in the empty slot. */
  function AttachPoint(tree: TwoDTree, e: Entity, p: Point): (r: TwoDTree)
    requires tree.root.Node?
    ensures Entries(r.root) == Entries(tree.root) + multiset{(e, p)}
    ensures Locations(r.root) == Locations(tree.root) + {p}
    ensures WellFormed(tree) ==> WellFormed(r)
  {
    var ps := SearchParent(tree.root, p, 0);
    var leaf := NewNode(e, p, At(tree.root, ps.path).depth + 1);
    var r := TwoDTree(AttachAt(tree.root, ps.path, ps.slot, leaf));
    AttachEntries(tree.root, ps.path, ps.slot, leaf);
    AttachLocations(tree.root, ps.path, ps.slot, leaf);
    assert Entries(leaf) == multiset{(e, p)};
    assert Locations(leaf) == {p};
    AttachKeepsWellFormed(tree.root, p, e, ps.path, ps.slot);
    r
  }

  /** Attaching at the end of the descent from the root keeps the index well formed. */
  lemma AttachKeepsWellFormed(t: Tree, p: Point, e: Entity, path: seq<Slot>, slot: Slot)
    requires IsDescent(t, p, path, slot, 0)
    ensures WellFormed(TwoDTree(t)) ==>
      WellFormed(TwoDTree(AttachAt(t, path, slot, NewNode(e, p, At(t, path).depth + 1))))
  {
    if WellFormed(TwoDTree(t)) {
      AttachKeepsDepths(t, path, slot, e, p, 0);
      AttachKeepsOrder(t, p, e, path, slot, 0, At(t, path).depth + 1);
    }
  }

  /** Insertion into a non-empty index with the lock held adds exactly one
      node: every existing node keeps its entity, location, depth and
      position, and the only new position is the end of the descent, which
      holds a childless node for `(e, p)` one deeper than its parent. */
  lemma InsertAddsOneNode(tree: TwoDTree, e: Entity, p: Point, a: seq<Slot>)
    requires tree.root.Node?
    ensures var r := Insert(tree, e, p, true).0;
            var ps := SearchParent(tree.root, p, 0);
            && (At(tree.root, a).Node? ==> At(r.root, a).Node? && Label(At(r.root, a)) == Label(At(tree.root, a)))
            && (At(r.root, a).Node? <==> At(tree.root, a).Node? || a == ps.path + [ps.slot])
            && At(r.root, ps.path + [ps.slot]) == NewNode(e, p, At(tree.root, ps.path).depth + 1)
  {
    var ps := SearchParent(tree.root, p, 0);
    var leaf := NewNode(e, p, At(tree.root, ps.path).depth + 1);
    AttachAddress(tree.root, ps.path, ps.slot, leaf, a);
  }

  /** In a well-formed index the new node's depth is its distance from the
      root: the local counter of `search_parent_mut` (the path length) and
      the stored depth used for `parent.depth + 1` agree. */
  lemma InsertDepthIsPathLength(tree: TwoDTree, e: Entity, p: Point)
    requires WellFormed(tree) && tree.root.Node?
    ensures var ps := SearchParent(tree.root, p, 0);
            && At(tree.root, ps.path).depth == |ps.path|
            && At(Insert(tree, e, p, true).0.root, ps.path + [ps.slot]).Node?
            && At(Insert(tree, e, p, true).0.root, ps.path + [ps.slot]).depth == |ps.path + [ps.slot]|
  {
    var ps := SearchParent(tree.root, p, 0);
    DepthIsDistance(tree.root, 0, ps.path);
    InsertAddsOneNode(tree, e, p, []);
  }

  /** A run of `insert` calls, each getting the write lock. */
  function InsertAll(tree: TwoDTree, items: seq<(Entity, Point)>): (r: TwoDTree)
    ensures Entries(r.root) == Entries(tree.root) + multiset(items)
    ensures WellFormed(tree) ==> WellFormed(r)
    decreases |items|
  {
    if |items| == 0 then
      tree
    else
      assert multiset(items) == multiset{items[0]} + multiset(items[1..]) by {
        assert items == [items[0]] + items[1..];
      }
      InsertAll(Insert(tree, items[0].0, items[0].1, true).0, items[1..])
  }

  /** Which pairs an index holds does not depend on the order they were
      inserted in (the shape of the tree does). */
  lemma InsertOrderKeepsEntries(items: seq<(Entity, Point)>, reordered: seq<(Entity, Point)>)
    requires multiset(items) == multiset(reordered)
    ensures Entries(InsertAll(EmptyTree(), items).root) == Entries(InsertAll(EmptyTree(), reordered).root)
  {
  }

  /** A node holding point `p` lies on `p`'s own descent: its address is a
      prefix of the descent. This is what the k-d ordering buys the side rule:
      at every node above it, a stored point sits in the slot the rule picks
      for it. */
  lemma {:induction false} StoredOnDescent(t: Tree, p: Point, path: seq<Slot>, slot: Slot, d: nat, a: seq<Slot>)
    requires DepthsFrom(t, d) && KdOrdered(t)
    requires IsDescent(t, p, path, slot, d)
    requires At(t, a).Node? && At(t, a).location == p
    ensures |a| <= |path| && path[..|a|] == a
    decreases |a|
  {
    if a != [] {
      DescentStops(t, p, path, slot, d);
      var s := a[0];
      var c := Child(t, s);
      var axis := AxisOf(d);
      assert At(c, a[1..]).Node?;
      AtIsNode(c, a[1..]);
      NodeLocation(At(c, a[1..]), c);
      assert AllOnSide(c, axis, Coord(t.location, axis), s);
      assert OnSide(Coord(p, axis), Coord(t.location, axis), s);
      assert Side(p, t.location, d) == s;
      assert path != [];
      assert path == [path[0]] + path[1..];
      DescentCons(t, p, path[0], path[1..], slot, d);
      StoredOnDescent(c, p, path[1..], slot, d + 1, a[1..]);
      assert path[..|a|] == [path[0]] + path[1..][..|a| - 1];
      assert a == [a[0]] + a[1..];
    }
  }

  /** In a well-formed index every node holding `p` is met by the descent
      `search_parent` makes for `p` (its address is a prefix of it). */
  lemma StoredPointOnItsDescent(tree: TwoDTree, p: Point, a: seq<Slot>)
    requires WellFormed(tree) && tree.root.Node?
    requires At(tree.root, a).Node? && At(tree.root, a).location == p
    ensures var ps := SearchParent(tree.root, p, 0);
            |a| <= |ps.path| && ps.path[..|a|] == a
  {
    var ps := SearchParent(tree.root, p, 0);
    StoredOnDescent(tree.root, p, ps.path, ps.slot, 0, a);
  }
}
