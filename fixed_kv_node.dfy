/**
 * The child-pointer array of a fixed-kv B-tree node of SeaStore
 * (crimson/os/seastore/btree/fixed_kv_node.h).
 *
 * A node holds a vector of child pointers sized to its capacity; slot i
 * belongs to the i-th key of the node. Inserting or removing a key shifts the
 * slots behind it (memmove), splitting, merging and rebalancing nodes moves
 * ranges of slots into the replacement nodes, and committing a pending node
 * fills its empty slots from the stable node it replaces by walking both key
 * lists in step. The keys themselves live in the node layout, which is not
 * modelled; a node's keys appear here as a strictly increasing sequence whose
 * length is the node size.
 */
module FixedKVNode {
  import opened MachineInt

  /** A node key (laddr_t / paddr_t); only the order matters here. */
  type Key = int

  /**
   * A child pointer slot: null, the RESERVATION_PTR placeholder used for
   * reserved LBA space, or a pointer to the child extent with the given id.
   */
  datatype ChildPtr = Null | Reservation | Child(id: nat)

  /** The keys are strictly increasing, as a B-tree node's keys are. */
  predicate StrictlySorted(keys: seq<Key>)
  {
    forall i, j :: 0 <= i < j < |keys| ==> keys[i] < keys[j]
  }

  /** Some slot in [lo, hi) holds a real child (is_valid_child_ptr). */
  predicate HasValidChildIn(a: seq<ChildPtr>, lo: nat, hi: nat)
  {
    exists i :: lo <= i < hi && i < |a| && a[i].Child?
  }

  /**
   * The slots after inserting `v` at `o` into a node of size `n`: slots
   * before `o` stay, [o, n) moves up by one, slots past `n` stay.
   */
  function ShiftInsert(a: seq<ChildPtr>, o: nat, n: nat, v: ChildPtr): (r: seq<ChildPtr>)
    requires o <= n < |a|
    ensures |r| == |a|
    ensures r[o] == v
    ensures forall i :: 0 <= i < o ==> r[i] == a[i]
    ensures forall i :: o < i <= n ==> r[i] == a[i - 1]
    ensures forall i :: n < i < |a| ==> r[i] == a[i]
  {
    a[..o] + [v] + a[o..n] + a[n + 1..]
  }

  /**
   * The slots after removing slot `o` from a node of size `n`: [o + 1, n)
   * moves down by one; the last slot n - 1 keeps its old pointer.
   */
  function ShiftRemove(a: seq<ChildPtr>, o: nat, n: nat): (r: seq<ChildPtr>)
    requires o < n <= |a|
    ensures |r| == |a|
    ensures forall i :: 0 <= i < o ==> r[i] == a[i]
    ensures forall i :: o <= i < n - 1 ==> r[i] == a[i + 1]
    ensures forall i :: n - 1 <= i < |a| ==> r[i] == a[i]
  {
    a[..o] + a[o + 1..n] + [a[n - 1]] + a[n..]
  }

  /** Removing the slot just inserted gives back the old slots of the node. */
  lemma RemoveUndoesInsert(a: seq<ChildPtr>, o: nat, n: nat, v: ChildPtr)
    requires o <= n < |a|
    ensures ShiftRemove(ShiftInsert(a, o, n, v), o, n + 1)[..n] == a[..n]
    ensures ShiftRemove(ShiftInsert(a, o, n, v), o, n + 1)[n + 1..] == a[n + 1..]
  {
    var r := ShiftRemove(ShiftInsert(a, o, n, v), o, n + 1);
    assert forall i :: 0 <= i < n ==> r[i] == a[i];
    assert forall i :: n + 1 <= i < |a| ==> r[i] == a[i];
  }

  /** `src` copied over `dst` starting at slot `at` (memmove of a range). */
  function Place(dst: seq<ChildPtr>, at: nat, src: seq<ChildPtr>): (r: seq<ChildPtr>)
    requires at + |src| <= |dst|
    ensures |r| == |dst|
    ensures forall i :: 0 <= i < |dst| ==> r[i] == if at <= i < at + |src| then src[i - at] else dst[i]
  {
    dst[..at] + src + dst[at + |src|..]
  }

  /** The slots of a merged node: pending sources' slots placed side by side. */
  function Merged(dst: seq<ChildPtr>, l: seq<ChildPtr>, r: seq<ChildPtr>, lp: bool, rp: bool): (s: seq<ChildPtr>)
    requires lp ==> |l| <= |dst|
    requires rp ==> |l| + |r| <= |dst|
    ensures |s| == |dst|
  {
    var d := if lp then Place(dst, 0, l) else dst;
    if rp then Place(d, |l|, r) else d
  }

  /** When both halves are pending, the merged node starts with left's slots followed by right's. */
  lemma MergeConcatenates(dst: seq<ChildPtr>, l: seq<ChildPtr>, r: seq<ChildPtr>)
    requires |l| + |r| <= |dst|
    ensures Merged(dst, l, r, true, true)[..|l| + |r|] == l + r
    ensures Merged(dst, l, r, true, true)[|l| + |r|..] == dst[|l| + |r|..]
  {
    var m := Merged(dst, l, r, true, true);
    assert forall i :: 0 <= i < |l| + |r| ==> m[i] == (l + r)[i];
  }

  /** A split hands every slot of [0, n) to exactly one side, in order. */
  lemma SplitPartitions(a: seq<ChildPtr>, n: nat, p: nat, dl: seq<ChildPtr>, dr: seq<ChildPtr>)
    requires p <= n <= |a| && p <= |dl| && n - p <= |dr|
    ensures Place(dl, 0, a[..p])[..p] + Place(dr, 0, a[p..n])[..n - p] == a[..n]
  {
    var x := Place(dl, 0, a[..p]);
    var y := Place(dr, 0, a[p..n]);
    assert forall i :: 0 <= i < n ==> (x[..p] + y[..n - p])[i] == a[i];
  }

  /** A node's child-pointer array together with the keys of its layout. */
  class Node {
    /** The node capacity (CAPACITY of the layout). */
    const capacity: nat
    /** children: one slot per key, sized to the capacity. */
    const children: array<ChildPtr>
    /** The node's keys; their number is get_node_size(). */
    var keys: seq<Key>
    /** is_pending(): the node belongs to an uncommitted transaction. */
    const pending: bool
    /** is_leaf_and_has_children(): a leaf whose values carry child extents. */
    const leafWithChildren: bool
    /** my_tracker != nullptr: the node has handed out a parent tracker. */
    var hasTracker: bool

    predicate Valid()
      reads this
    {
      && children.Length == capacity
      && |keys| <= capacity
      && StrictlySorted(keys)
    }

    /** get_node_size() */
    function Size(): nat
      reads this
    {
      |keys|
    }

    /** FixedKVNode(capacity, ptr): every slot starts out null. */
    constructor(capacity: nat, keys: seq<Key>, pending: bool, leafWithChildren: bool)
      requires |keys| <= capacity && StrictlySorted(keys)
      ensures Valid()
      ensures this.keys == keys && this.pending == pending && this.leafWithChildren == leafWithChildren
      ensures fresh(children) && !hasTracker
      ensures forall i :: 0 <= i < children.Length ==> children[i] == Null
    {
      this.capacity := capacity;
      this.children := new ChildPtr[capacity](_ => Null);
      this.keys := keys;
      this.pending := pending;
      this.leafWithChildren := leafWithChildren;
      this.hasTracker := false;
    }

    /** update_child_ptr: point the slot at `offset` to `child`, nothing else. */
    method UpdateChildPtr(offset: nat, child: ChildPtr)
      requires Valid() && offset < capacity && child.Child?
      modifies this, children
      ensures Valid() && keys == old(keys) && hasTracker
      ensures children[..] == old(children[..])[offset := child]
    {
      children[offset] := child;
      hasTracker := true;
    }

    /**
     * insert_child_ptr: shift the slots [offset, size) up by one and put the
     * child at `offset`; a null child stands for reserved space and is stored
     * as RESERVATION_PTR, which only a leaf with children may hold.
     */
    method InsertChildPtr(offset: nat, child: ChildPtr)
      requires Valid() && offset <= Size() < capacity
      requires !child.Reservation?
      requires child.Null? ==> leafWithChildren
      modifies this, children
      ensures Valid() && keys == old(keys)
      ensures children[..] == ShiftInsert(old(children[..]), offset, Size(), if child.Null? then Reservation else child)
      ensures hasTracker == (old(hasTracker) || child.Child?)
    {
      var n := |keys|;
      var i := n;
      while i > offset
        invariant offset <= i <= n
        invariant keys == old(keys) && hasTracker == old(hasTracker)
        invariant forall k :: 0 <= k < children.Length ==>
          children[k] == if i < k <= n then old(children[k - 1]) else old(children[k])
      {
        children[i] := children[i - 1];
        i := i - 1;
      }
      if child.Child? {
        children[offset] := child;
        hasTracker := true;
      } else {
        children[offset] := Reservation;
      }
    }

    /** remove_child_ptr: shift the slots [offset + 1, size) down by one. */
    method RemoveChildPtr(offset: nat)
      requires Valid() && offset < Size()
      modifies children
      ensures children[..] == ShiftRemove(old(children[..]), offset, Size())
    {
      var n := |keys|;
      var i := offset;
      while i + 1 < n
        invariant offset <= i <= n - 1
        invariant forall k :: 0 <= k < children.Length ==>
          children[k] == if offset <= k < i then old(children[k + 1]) else old(children[k])
      {
        children[i] := children[i + 1];
        i := i + 1;
      }
    }

    /**
     * split_child_ptrs: a pending node hands its slots [0, pivot) to `left`
     * and [pivot, size) to `right`, both from slot 0, and drops its tracker;
     * a stable node moves nothing. The pivot is the layout's split pivot.
     */
    method SplitChildPtrs(left: Node, right: Node, pivot: nat)
      requires Valid() && left.Valid() && right.Valid()
      requires children != left.children && children != right.children && left.children != right.children
      requires !left.hasTracker && !right.hasTracker
      requires pending ==> 0 < pivot < Size() && pivot <= left.capacity && Size() - pivot <= right.capacity
      modifies this, left, left.children, right, right.children
      ensures keys == old(keys) && left.keys == old(left.keys) && right.keys == old(right.keys)
      ensures pending ==> left.children[..] == Place(old(left.children[..]), 0, children[..pivot])
      ensures pending ==> right.children[..] == Place(old(right.children[..]), 0, children[pivot..Size()])
      ensures !pending ==> left.children[..] == old(left.children[..]) && right.children[..] == old(right.children[..])
      ensures hasTracker == (old(hasTracker) && !pending)
      ensures left.hasTracker == (pending && HasValidChildIn(children[..], 0, pivot))
      ensures right.hasTracker == (pending && HasValidChildIn(children[..], pivot, Size()))
    {
      if pending {
        MoveChildPtrs(left, this, 0, 0, pivot);
        MoveChildPtrs(right, this, 0, pivot, |keys|);
        hasTracker := false;
      }
    }

    /**
     * merge_child_ptrs: this fresh node takes the slots of a pending `left`
     * from slot 0 and those of a pending `right` from slot left.size; each
     * pending source drops its tracker. Stable sources move nothing.
     */
    method MergeChildPtrs(left: Node, right: Node)
      requires Valid() && left.Valid() && right.Valid()
      requires children != left.children && children != right.children && left.children != right.children
      requires !hasTracker
      requires left.pending ==> 0 < left.Size() <= capacity
      requires right.pending ==> 0 < right.Size() && left.Size() + right.Size() <= capacity
      modifies this, children, left, right
      ensures keys == old(keys) && left.keys == old(left.keys) && right.keys == old(right.keys)
      ensures children[..] == Merged(old(children[..]), left.children[..left.Size()], right.children[..right.Size()], left.pending, right.pending)
      ensures left.hasTracker == (old(left.hasTracker) && !left.pending)
      ensures right.hasTracker == (old(right.hasTracker) && !right.pending)
    {
      if left.pending {
        MoveChildPtrs(this, left, 0, 0, |left.keys|);
        left.hasTracker := false;
      }
      if right.pending {
        MoveChildPtrs(this, right, |left.keys|, 0, |right.keys|);
        right.hasTracker := false;
      }
    }

    /**
     * is_children_empty: no slot in [0, size) points to a child that is still
     * valid; `live` is the set of child extents currently valid.
     */
    method IsChildrenEmpty(live: set<nat>) returns (r: bool)
      requires Valid()
      ensures r <==> forall i :: 0 <= i < Size() ==> !(children[i].Child? && children[i].id in live)
    {
      var i := 0;
      while i < |keys|
        invariant 0 <= i <= |keys|
        invariant forall k :: 0 <= k < i ==> !(children[k].Child? && children[k].id in live)
      {
        if children[i].Child? && children[i].id in live {
          return false;
        }
        i := i + 1;
      }
      return true;
    }

    /**
     * copy_children_from_stable_source: walk the foreign keys
     * [foreignStart, foreignEnd) of `source` and the local keys from
     * localStart in step; where the keys are equal, a null local slot takes
     * the foreign child. Returns the local offset where the walk stopped.
     */
    method CopyChildrenFromStableSource(source: Node, foreignStart: nat, foreignEnd: nat, localStart: nat)
      returns (pos: nat)
      requires Valid() && source.Valid() && children != source.children
      requires foreignStart <= foreignEnd <= source.Size() && localStart <= Size()
      modifies children
      ensures localStart <= pos <= Size()
      // only null slots of the walked range are written
      ensures forall i :: 0 <= i < children.Length && !(localStart <= i < pos && old(children[i]).Null?) ==>
        children[i] == old(children[i])
      // a null slot whose key the source has gets the source's child
      ensures forall i, j :: localStart <= i < pos && foreignStart <= j < foreignEnd && keys[i] == source.keys[j] && old(children[i]).Null? ==>
        children[i] == source.children[j]
      // a null slot whose key the source lacks stays null
      ensures forall i :: localStart <= i < pos && old(children[i]).Null? && (forall j :: foreignStart <= j < foreignEnd ==> source.keys[j] != keys[i]) ==>
        children[i] == Null
      // the walk stops either at the end of the node or past every foreign key
      ensures pos < Size() ==> forall j :: foreignStart <= j < foreignEnd ==> source.keys[j] < keys[pos]
    {
      var f := foreignStart;
      var l := localStart;
      while f != foreignEnd && l < |keys|
        invariant foreignStart <= f <= foreignEnd && localStart <= l <= |keys|
        invariant forall i :: 0 <= i < children.Length && !(localStart <= i < l && old(children[i]).Null?) ==>
          children[i] == old(children[i])
        invariant forall i, j :: localStart <= i < l && foreignStart <= j < f && keys[i] == source.keys[j] && old(children[i]).Null? ==>
          children[i] == source.children[j]
        invariant forall i :: localStart <= i < l && old(children[i]).Null? && (forall j :: foreignStart <= j < f ==> source.keys[j] != keys[i]) ==>
          children[i] == Null
        invariant forall j, i :: foreignStart <= j < f && l <= i < |keys| ==> source.keys[j] < keys[i]
        invariant forall i, j :: localStart <= i < l && f <= j < foreignEnd ==> keys[i] < source.keys[j]
        decreases (foreignEnd - f) + (|keys| - l)
      {
        if source.keys[f] == keys[l] {
          if children[l].Null? {
            children[l] := source.children[f];
          }
          f := f + 1;
          l := l + 1;
        } else if source.keys[f] < keys[l] {
          f := f + 1;
        } else {
          l := l + 1;
        }
      }
      pos := l;
    }
  }

  /**
   * move_child_ptrs: copy src's slots [srcStart, srcEnd) to dest's slots from
   * destStart on, and give every real child moved a parent tracker of dest.
   */
  method MoveChildPtrs(dest: Node, src: Node, destStart: nat, srcStart: nat, srcEnd: nat)
    requires dest.Valid() && src.Valid() && dest.children != src.children
    requires srcStart < srcEnd <= src.children.Length
    requires destStart + (srcEnd - srcStart) <= dest.children.Length
    modifies dest, dest.children
    ensures dest.Valid() && dest.keys == old(dest.keys)
    ensures dest.children[..] == Place(old(dest.children[..]), destStart, src.children[srcStart..srcEnd])
    ensures dest.hasTracker == (old(dest.hasTracker) || HasValidChildIn(src.children[..], srcStart, srcEnd))
  {
    var len := srcEnd - srcStart;
    var k := 0;
    while k < len
      invariant 0 <= k <= len
      invariant dest.keys == old(dest.keys) && dest.hasTracker == old(dest.hasTracker)
      invariant forall i :: 0 <= i < dest.children.Length ==>
        dest.children[i] == if destStart <= i < destStart + k then src.children[srcStart + i - destStart] else old(dest.children[i])
    {
      dest.children[destStart + k] := src.children[srcStart + k];
      k := k + 1;
    }
    ghost var moved := dest.children[..];
    var j := srcStart;
    while j < srcEnd
      invariant srcStart <= j <= srcEnd
      invariant dest.keys == old(dest.keys) && dest.children[..] == moved
      invariant dest.hasTracker == (old(dest.hasTracker) || HasValidChildIn(src.children[..], srcStart, j))
    {
      if src.children[j].Child? {
        dest.hasTracker := true;
      }
      j := j + 1;
    }
  }

  /**
   * The first slot of the right replacement in balance_child_ptrs: half the
   * total, rounded up when the left side is preferred.
   */
  function BalancePivot(l: nat, r: nat, preferLeft: bool): (p: nat)
    ensures p <= l + r
    ensures preferLeft ==> 0 <= 2 * p - (l + r) <= 1
    ensures !preferLeft ==> 0 <= (l + r) - 2 * p <= 1
  {
    var total := l + r;
    if total % 2 == 1 && preferLeft then total / 2 + 1 else total / 2
  }

  /** The slots of the left replacement after balance_child_ptrs. */
  function BalancedLeft(dst: seq<ChildPtr>, l: seq<ChildPtr>, r: seq<ChildPtr>, p: nat, lp: bool, rp: bool): (s: seq<ChildPtr>)
    requires p <= |l| + |r| && p <= |dst|
    ensures |s| == |dst|
  {
    if p < |l| then
      (if lp then Place(dst, 0, l[..p]) else dst)
    else
      var d := if lp then Place(dst, 0, l) else dst;
      if rp then Place(d, |l|, r[..p - |l|]) else d
  }

  /** The slots of the right replacement after balance_child_ptrs. */
  function BalancedRight(dst: seq<ChildPtr>, l: seq<ChildPtr>, r: seq<ChildPtr>, p: nat, lp: bool, rp: bool): (s: seq<ChildPtr>)
    requires p <= |l| + |r| && |l| + |r| - p <= |dst|
    ensures |s| == |dst|
  {
    if p < |l| then
      var d := if lp then Place(dst, 0, l[p..]) else dst;
      if rp then Place(d, |l| - p, r) else d
    else
      if rp then Place(dst, 0, r[p - |l|..]) else dst
  }

  /**
   * When both nodes are pending, balancing deals the concatenated slots
   * left ++ right out at the pivot: the first p to the left replacement and
   * the rest to the right one; slots past those stay as they were.
   */
  lemma BalanceRedistributes(dl: seq<ChildPtr>, dr: seq<ChildPtr>, l: seq<ChildPtr>, r: seq<ChildPtr>, p: nat)
    requires p <= |l| + |r| && p <= |dl| && |l| + |r| - p <= |dr|
    ensures BalancedLeft(dl, l, r, p, true, true)[..p] == (l + r)[..p]
    ensures BalancedLeft(dl, l, r, p, true, true)[p..] == dl[p..]
    ensures BalancedRight(dr, l, r, p, true, true)[..|l| + |r| - p] == (l + r)[p..]
    ensures BalancedRight(dr, l, r, p, true, true)[|l| + |r| - p..] == dr[|l| + |r| - p..]
  {
    var x := BalancedLeft(dl, l, r, p, true, true);
    var y := BalancedRight(dr, l, r, p, true, true);
    assert forall i :: 0 <= i < p ==> x[i] == (l + r)[i];
    assert forall i :: p <= i < |dl| ==> x[i] == dl[i];
    assert forall i :: 0 <= i < |l| + |r| - p ==> y[i] == (l + r)[p + i];
    assert forall i :: |l| + |r| - p <= i < |dr| ==> y[i] == dr[i];
  }

  /**
   * balance_child_ptrs: redistribute the slots of `left` and `right` between
   * two fresh replacement nodes at BalancePivot; only pending sources move
   * their slots, and each pending source drops its tracker.
   */
  method BalanceChildPtrs(left: Node, right: Node, preferLeft: bool, replacementLeft: Node, replacementRight: Node)
    requires left.Valid() && right.Valid() && replacementLeft.Valid() && replacementRight.Valid()
    requires replacementLeft.children != replacementRight.children
    requires replacementLeft.children != left.children && replacementLeft.children != right.children
    requires replacementRight.children != left.children && replacementRight.children != right.children
    requires !replacementLeft.hasTracker && !replacementRight.hasTracker
    requires var p := BalancePivot(left.Size(), right.Size(), preferLeft);
      && p <= replacementLeft.capacity
      && left.Size() + right.Size() - p <= replacementRight.capacity
      && (p < left.Size() ==> (left.pending ==> 0 < p) && (right.pending ==> 0 < right.Size()))
      && (left.Size() <= p ==> (left.pending ==> 0 < left.Size()) && (right.pending ==> left.Size() < p < left.Size() + right.Size()))
    modifies left, right, replacementLeft, replacementLeft.children, replacementRight, replacementRight.children
    ensures left.keys == old(left.keys) && right.keys == old(right.keys)
    ensures replacementLeft.keys == old(replacementLeft.keys) && replacementRight.keys == old(replacementRight.keys)
    ensures var p := BalancePivot(old(left.Size()), old(right.Size()), preferLeft);
      replacementLeft.children[..] == BalancedLeft(old(replacementLeft.children[..]), left.children[..left.Size()], right.children[..right.Size()], p, left.pending, right.pending)
    ensures var p := BalancePivot(old(left.Size()), old(right.Size()), preferLeft);
      replacementRight.children[..] == BalancedRight(old(replacementRight.children[..]), left.children[..left.Size()], right.children[..right.Size()], p, left.pending, right.pending)
    ensures left.hasTracker == (old(left.hasTracker) && !left.pending)
    ensures right.hasTracker == (old(right.hasTracker) && !right.pending)
  {
    var pivot := BalancePivot(|left.keys|, |right.keys|, preferLeft);
    if pivot < |left.keys| {
      BalancePivotInLeft(left, right, pivot, replacementLeft, replacementRight);
    } else {
      BalancePivotInRight(left, right, pivot, replacementLeft, replacementRight);
    }
  }

  /** balance_child_ptrs when the pivot falls inside the left node. */
  method BalancePivotInLeft(left: Node, right: Node, pivot: nat, replacementLeft: Node, replacementRight: Node)
    requires left.Valid() && right.Valid() && replacementLeft.Valid() && replacementRight.Valid()
    requires replacementLeft.children != replacementRight.children
    requires replacementLeft.children != left.children && replacementLeft.children != right.children
    requires replacementRight.children != left.children && replacementRight.children != right.children
    requires pivot < left.Size() && pivot <= replacementLeft.capacity
    requires left.Size() + right.Size() - pivot <= replacementRight.capacity
    requires (left.pending ==> 0 < pivot) && (right.pending ==> 0 < right.Size())
    modifies left, right, replacementLeft, replacementLeft.children, replacementRight, replacementRight.children
    ensures left.keys == old(left.keys) && right.keys == old(right.keys)
    ensures replacementLeft.keys == old(replacementLeft.keys) && replacementRight.keys == old(replacementRight.keys)
    ensures replacementLeft.children[..] == BalancedLeft(old(replacementLeft.children[..]), left.children[..left.Size()], right.children[..right.Size()], pivot, left.pending, right.pending)
    ensures replacementRight.children[..] == BalancedRight(old(replacementRight.children[..]), left.children[..left.Size()], right.children[..right.Size()], pivot, left.pending, right.pending)
    ensures left.hasTracker == (old(left.hasTracker) && !left.pending)
    ensures right.hasTracker == (old(right.hasTracker) && !right.pending)
  {
    var lSize := |left.keys|;
    var rSize := |right.keys|;
    ghost var l, r := left.children[..lSize], right.children[..rSize];
    ghost var dl, dr := replacementLeft.children[..], replacementRight.children[..];
    if left.pending {
      MoveChildPtrs(replacementLeft, left, 0, 0, pivot);
      assert left.children[0..pivot] == l[..pivot];
      MoveChildPtrs(replacementRight, left, 0, pivot, lSize);
      assert left.children[pivot..lSize] == l[pivot..];
      left.hasTracker := false;
    }
    assert replacementLeft.children[..] == BalancedLeft(dl, l, r, pivot, left.pending, right.pending);
    if right.pending {
      MoveChildPtrs(replacementRight, right, lSize - pivot, 0, rSize);
      assert right.children[0..rSize] == r;
      right.hasTracker := false;
    }
    assert left.children[..lSize] == l && right.children[..rSize] == r;
  }

  /** balance_child_ptrs when the pivot falls at or after the end of the left node. */
  method BalancePivotInRight(left: Node, right: Node, pivot: nat, replacementLeft: Node, replacementRight: Node)
    requires left.Valid() && right.Valid() && replacementLeft.Valid() && replacementRight.Valid()
    requires replacementLeft.children != replacementRight.children
    requires replacementLeft.children != left.children && replacementLeft.children != right.children
    requires replacementRight.children != left.children && replacementRight.children != right.children
    requires left.Size() <= pivot <= left.Size() + right.Size() && pivot <= replacementLeft.capacity
    requires left.Size() + right.Size() - pivot <= replacementRight.capacity
    requires (left.pending ==> 0 < left.Size()) && (right.pending ==> left.Size() < pivot < left.Size() + right.Size())
    modifies left, right, replacementLeft, replacementLeft.children, replacementRight, replacementRight.children
    ensures left.keys == old(left.keys) && right.keys == old(right.keys)
    ensures replacementLeft.keys == old(replacementLeft.keys) && replacementRight.keys == old(replacementRight.keys)
    ensures replacementLeft.children[..] == BalancedLeft(old(replacementLeft.children[..]), left.children[..left.Size()], right.children[..right.Size()], pivot, left.pending, right.pending)
    ensures replacementRight.children[..] == BalancedRight(old(replacementRight.children[..]), left.children[..left.Size()], right.children[..right.Size()], pivot, left.pending, right.pending)
    ensures left.hasTracker == (old(left.hasTracker) && !left.pending)
    ensures right.hasTracker == (old(right.hasTracker) && !right.pending)
  {
    var lSize := |left.keys|;
    var rSize := |right.keys|;
    ghost var l, r := left.children[..lSize], right.children[..rSize];
    ghost var dl, dr := replacementLeft.children[..], replacementRight.children[..];
    if left.pending {
      MoveChildPtrs(replacementLeft, left, 0, 0, lSize);
      assert left.children[0..lSize] == l;
      left.hasTracker := false;
    }
    if right.pending {
      DealRightChildPtrs(right, lSize, pivot - lSize, replacementLeft, replacementRight);
      right.hasTracker := false;
    }
    assert left.children[..lSize] == l && right.children[..rSize] == r;
  }

  /**
   * The right node's part of balance_child_ptrs when the pivot falls inside
   * it: its first `cut` slots go after the left node's in the left
   * replacement, the rest to the front of the right replacement.
   */
  method DealRightChildPtrs(src: Node, at: nat, cut: nat, replacementLeft: Node, replacementRight: Node)
    requires src.Valid() && replacementLeft.Valid() && replacementRight.Valid()
    requires replacementLeft.children != replacementRight.children
    requires replacementLeft.children != src.children && replacementRight.children != src.children
    requires 0 < cut < src.Size() && at + cut <= replacementLeft.capacity
    requires src.Size() - cut <= replacementRight.capacity
    modifies replacementLeft, replacementLeft.children, replacementRight, replacementRight.children
    ensures replacementLeft.keys == old(replacementLeft.keys) && replacementRight.keys == old(replacementRight.keys)
    ensures replacementLeft.children[..] == Place(old(replacementLeft.children[..]), at, src.children[..src.Size()][..cut])
    ensures replacementRight.children[..] == Place(old(replacementRight.children[..]), 0, src.children[..src.Size()][cut..])
  {
    var n := |src.keys|;
    MoveChildPtrs(replacementLeft, src, at, 0, cut);
    assert src.children[0..cut] == src.children[..n][..cut];
    MoveChildPtrs(replacementRight, src, 0, cut, n);
    assert src.children[cut..n] == src.children[..n][cut..];
  }

  /** lower_bound: the first slot whose key is not below `key`. */
  function LowerBound(keys: seq<Key>, key: Key): (r: nat)
    ensures r <= |keys|
    ensures forall i :: 0 <= i < r ==> keys[i] < key
    ensures r < |keys| ==> key <= keys[r]
  {
    if keys == [] || key <= keys[0] then 0 else 1 + LowerBound(keys[1..], key)
  }

  /** upper_bound: the first slot whose key is above `key`. */
  function UpperBound(keys: seq<Key>, key: Key): (r: nat)
    ensures r <= |keys|
    ensures forall i :: 0 <= i < r ==> keys[i] <= key
    ensures r < |keys| ==> key < keys[r]
  {
    if keys == [] || key < keys[0] then 0 else 1 + UpperBound(keys[1..], key)
  }

  /**
   * child_pos_for_key: in an internal node, the slot of the last key not
   * above `key` (upper_bound minus one, which must not be the first slot's
   * predecessor); in a leaf, lower_bound.
   */
  function ChildPosForKey(keys: seq<Key>, key: Key, leaf: bool): (r: nat)
    requires leaf || (|keys| > 0 && keys[0] <= key)
    ensures !leaf ==> r < |keys| && keys[r] <= key && (r + 1 < |keys| ==> key < keys[r + 1])
    ensures leaf ==> r <= |keys| && (forall i :: 0 <= i < r ==> keys[i] < key) && (r < |keys| ==> key <= keys[r])
  {
    if leaf then LowerBound(keys, key) else UpperBound(keys, key) - 1
  }

  /**
   * In a node with strictly increasing keys, the internal child position is
   * the only slot whose key range [keys[i], keys[i + 1]) holds `key`.
   */
  lemma ChildPosIsCoveringSlot(keys: seq<Key>, key: Key, i: nat)
    requires StrictlySorted(keys) && |keys| > 0 && keys[0] <= key
    requires i < |keys| && keys[i] <= key && (i + 1 < |keys| ==> key < keys[i + 1])
    ensures ChildPosForKey(keys, key, false) == i
  {
  }

  /** get_min_capacity: (capacity - 1) / 2 in size_t arithmetic. */
  function MinCapacity(capacity: u64): (m: u64)
    ensures capacity > 0 ==> 2 * m < capacity <= 2 * m + 2
  {
    Sub64(capacity, 1) / 2
  }

  /** at_max_capacity; the node size never exceeds the capacity. */
  predicate AtMaxCapacity(size: u64, capacity: u64)
    requires size <= capacity
    ensures AtMaxCapacity(size, capacity) && capacity > 0 ==> size > MinCapacity(capacity)
  {
    size == capacity
  }

  /** at_min_capacity; the size is at least get_min_capacity() - 1 (in size_t). */
  predicate AtMinCapacity(size: u64, capacity: u64)
    requires size >= Sub64(MinCapacity(capacity), 1)
    ensures MinCapacity(capacity) >= 1 ==>
              (AtMinCapacity(size, capacity) <==> size == MinCapacity(capacity) - 1 || size == MinCapacity(capacity))
  {
    size <= MinCapacity(capacity)
  }

  /** below_min_capacity; same precondition as at_min_capacity. */
  predicate BelowMinCapacity(size: u64, capacity: u64)
    requires size >= Sub64(MinCapacity(capacity), 1)
    ensures MinCapacity(capacity) >= 1 ==> (BelowMinCapacity(size, capacity) <==> size == MinCapacity(capacity) - 1)
  {
    size < MinCapacity(capacity)
  }

  /**
   * How the capacity predicates relate: below the minimum implies at the
   * minimum; at but not below the minimum means exactly the minimum; a full
   * node is never at the minimum.
   */
  lemma CapacityPredicates(size: u64, capacity: u64)
    requires capacity > 0 && size <= capacity && size >= Sub64(MinCapacity(capacity), 1)
    ensures BelowMinCapacity(size, capacity) ==> AtMinCapacity(size, capacity)
    ensures AtMinCapacity(size, capacity) && !BelowMinCapacity(size, capacity) <==> size == MinCapacity(capacity)
    ensures AtMaxCapacity(size, capacity) ==> !AtMinCapacity(size, capacity)
  {
  }

  /**
   * With capacity 1 or 2 the minimum is 0 and get_min_capacity() - 1 wraps
   * to the largest size_t, so no node size meets the assertion of
   * at_min_capacity.
   */
  lemma TinyCapacityMinAssertUnsatisfiable(size: u64, capacity: u64)
    requires 0 < capacity <= 2 && size <= capacity
    ensures size < Sub64(MinCapacity(capacity), 1)
  {
  }
}
