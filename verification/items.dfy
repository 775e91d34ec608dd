/** Search results (`Item`) and the order the result heap ranks them by. */
module Items {
  import opened KdTree

  /** `Item(entity, distance)`; the distance is the squared Euclidean distance. */
  datatype Item = Item(entity: Entity, dist: nat)

  datatype Ordering = Less | Equal | Greater

  /** `Item::cmp`: items compare by distance alone. */
  function Cmp(a: Item, b: Item): Ordering
  {
    if a.dist < b.dist then Less
    else if a.dist == b.dist then Equal
    else Greater
  }

  /** `Item::eq`: two items are equal when their distances are. */
  predicate ItemEq(a: Item, b: Item)
  {
    a.dist == b.dist
  }

  /** `eq` is an equivalence that ignores the entity, and `cmp` answers
      `Equal` exactly on `eq`-equal items, as `Ord` requires. */
  lemma CmpAgreesWithEq(a: Item, b: Item, c: Item)
    ensures ItemEq(a, a)
    ensures ItemEq(a, b) ==> ItemEq(b, a)
    ensures ItemEq(a, b) && ItemEq(b, c) ==> ItemEq(a, c)
    ensures forall e :: ItemEq(a, Item(e, a.dist))
    ensures Cmp(a, b) == Equal <==> ItemEq(a, b)
  {
  }

  /** The item order is a total preorder that ignores the entity and follows
      the order of the distances. */
  lemma CmpIsTotalPreorder(a: Item, b: Item, c: Item)
    ensures Cmp(a, a) == Equal
    ensures Cmp(a, b) == Less <==> Cmp(b, a) == Greater
    ensures Cmp(a, b) == Less <==> a.dist < b.dist
    ensures Cmp(a, b) != Greater && Cmp(b, c) != Greater ==> Cmp(a, c) != Greater
    ensures forall e1, e2 :: Cmp(a, b) == Cmp(Item(e1, a.dist), Item(e2, b.dist))
  {
  }

  /** `BinaryHeap::peek` on a max-heap: an item of the heap that no other item
      exceeds. */
  function Peek(heap: seq<Item>): (r: Item)
    requires |heap| > 0
    ensures r in heap
    ensures forall i :: 0 <= i < |heap| ==> Cmp(heap[i], r) != Greater
  {
    if |heap| == 1 then heap[0]
    else
      var m := Peek(heap[1..]);
      assert forall i :: 1 <= i < |heap| ==> heap[i] == heap[1..][i - 1];
      if Cmp(heap[0], m) == Greater then heap[0] else m
  }
}
