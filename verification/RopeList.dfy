/** Rope nodes on the heap, updated in place, and the list built on them. */
module RopeNodes {
  import opened RopeTree

  /** A leaf holds a slice: the first count elements of an array of its own. A fork has none. */
  class RopeNode<T> {
    var leaf: array?<T>
    var count: nat
    var left: RopeNode?<T>
    var right: RopeNode?<T>
    var length: nat

    ghost var tree: Tree<T>
    ghost var Repr: set<object>

    ghost predicate Valid()
      reads this, Repr
      ensures Valid() ==> this in Repr
      decreases Repr
    {
      && this in Repr
      && length == |Items(tree)|
      && (leaf != null ==> leaf in Repr && count <= leaf.Length && tree == Leaf(leaf[..count]))
      && (leaf == null ==>
            && left != null && left in Repr && left.Repr <= Repr && this !in left.Repr && left.Valid()
            && right != null && right in Repr && right.Repr <= Repr && this !in right.Repr && right.Valid()
            && left.Repr !! right.Repr
            && tree == Fork(left.tree, right.tree))
    }

    constructor NewLeaf(items: seq<T>)
      ensures Valid() && fresh(Repr) && tree == Leaf(items)
    {
      var store := new T[|items|](k requires 0 <= k < |items| => items[k]);
      leaf, count, left, right, length := store, |items|, null, null, |items|;
      tree, Repr := Leaf(items), {this, store};
      new;
      assert leaf[..count] == items;
    }

    constructor NewFork(left: RopeNode<T>, right: RopeNode<T>, length: nat)
      requires left.Valid() && right.Valid() && left.Repr !! right.Repr
      requires length == left.length + right.length
      ensures Valid() && Repr == {this} + left.Repr + right.Repr && tree == Fork(left.tree, right.tree)
    {
      this.leaf, this.count, this.left, this.right, this.length := null, 0, left, right, length;
      tree, Repr := Fork(left.tree, right.tree), {this} + left.Repr + right.Repr;
    }

    predicate IsLeaf()
      reads this
    {
      leaf != null
    }

    /** What a valid fork has below it. */
    lemma ForkSides()
      requires Valid() && !IsLeaf()
      ensures left != null && left.Repr < Repr && left.Valid()
      ensures right != null && right.Repr < Repr && right.Valid()
      ensures length == left.length + right.length && tree == Fork(left.tree, right.tree)
    {
    }

    function At(i: nat): (x: T)
      requires Valid() && i < |Items(tree)|
      reads this, Repr
      ensures x == Items(tree)[i]
      decreases Repr
    {
      if IsLeaf() then leaf[i]
      else if i < left.length then left.At(i)
      else right.At(i - left.length)
    }

    method SetInLeaf(i: nat, v: T)
      requires Valid() && IsLeaf() && i < count
      modifies this, leaf
      ensures Valid() && Repr == old(Repr) && tree == Leaf(old(leaf[..count])[i := v])
    {
      leaf[i] := v;
      tree := Leaf(leaf[..count]);
    }

    method SetAt(i: nat, v: T)
      requires Valid() && i < |Items(tree)|
      modifies Repr
      ensures Valid() && Repr == old(Repr)
      ensures Items(tree) == old(Items(tree))[i := v]
      ensures old(Balanced(tree)) ==> Balanced(tree)
      decreases Repr
    {
      if IsLeaf() {
        SetInLeaf(i, v);
      } else {
        if i < left.length {
          left.SetAt(i, v);
        } else {
          right.SetAt(i - left.length, v);
        }
        tree := Fork(left.tree, right.tree);
      }
    }

    /** Collecting the items behind those already collected. */
    method AppendTo(dst: seq<T>) returns (out: seq<T>)
      requires Valid()
      ensures out == dst + Items(tree)
      decreases Repr
    {
      if IsLeaf() {
        return dst + leaf[..count];
      }
      out := left.AppendTo(dst);
      out := right.AppendTo(out);
    }

    /** A copy that shares no node with the original. */
    method Clone() returns (r: RopeNode<T>)
      requires Valid()
      ensures r.Valid() && fresh(r.Repr) && r.tree == tree
      decreases Repr
    {
      if IsLeaf() {
        r := new RopeNode.NewLeaf(leaf[..count]);
      } else {
        ForkSides();
        hide Valid, Items;
        var l := left.Clone();
        var r' := right.Clone();
        r := new RopeNode.NewFork(l, r', length);
      }
    }

    /** A balanced rope over the given items; none for no items. */
    static method BuildRope(items: seq<T>) returns (r: RopeNode?<T>)
      ensures r == null <==> items == []
      ensures r != null ==> r.Valid() && fresh(r.Repr) && Items(r.tree) == items && Balanced(r.tree)
      decreases |items|
    {
      hide RopeNode.Valid;
      if |items| == 0 {
        return null;
      }
      if |items| <= LEAF_SIZE {
        r := new RopeNode.NewLeaf(items);
        return;
      }
      var mid := |items| / 2;
      var left := BuildRope(items[..mid]);
      var right := BuildRope(items[mid..]);
      assert items == items[..mid] + items[mid..];
      r := new RopeNode.NewFork(left, right, left.length + right.length);
    }

    /** A leaf, or a fork whose halves are balanced but whose own weights may not be. */
    ghost predicate HalvesBalanced()
      reads this
    {
      match tree
      case Leaf(items) => items != []
      case Fork(l, r) => Balanced(l) && Balanced(r)
    }

    /** Restores the weight condition at the root. Both halves hold items here, so
        there is never an empty half to drop. */
    method RebalanceIfNeeded() returns (r: RopeNode<T>)
      requires Valid() && HalvesBalanced()
      ensures r.Valid() && fresh(r.Repr - Repr)
      ensures Items(r.tree) == Items(tree) && Balanced(r.tree)
    {
      if IsLeaf() || length <= LEAF_SIZE * 2 {
        return this;
      }
      if left.length <= right.length * 4 && right.length <= left.length * 4 {
        return this;
      }
      BalancedNonEmpty(tree.left);
      var items := AppendTo([]);
      r := BuildRope(items);
    }

    /** One side of a fork: missing, or a balanced rope of its own. */
    ghost predicate HalfOk(half: RopeNode?<T>)
      reads half, if half == null then {} else half.Repr
    {
      half != null ==> half.Valid() && Balanced(half.tree) && this !in half.Repr
    }

    ghost function ItemsOf(half: RopeNode?<T>): seq<T>
      reads half
    {
      if half == null then [] else Items(half.tree)
    }

    ghost function ReprOf(half: RopeNode?<T>): set<object>
      reads half
    {
      if half == null then {} else half.Repr
    }

    /** A fork about to be settled: its sides are in order, though one may be missing. */
    ghost predicate Sides()
      reads this, left, right, if left == null then {} else left.Repr, if right == null then {} else right.Repr
    {
      && !IsLeaf() && (left != null || right != null)
      && HalfOk(left) && HalfOk(right) && ReprOf(left) !! ReprOf(right)
    }

    /** Recounts a fork whose sides have changed. */
    method Recompute()
      requires Sides() && left != null && right != null
      modifies this
      ensures Valid() && left == old(left) && right == old(right)
      ensures Repr == {this} + old(left.Repr + right.Repr) && tree == old(Fork(left.tree, right.tree))
    {
      length := left.length + right.length;
      tree := Fork(left.tree, right.tree);
      Repr := {this} + left.Repr + right.Repr;
    }

    /** Recounts it and rebalances it. */
    method Rejoin() returns (r: RopeNode<T>)
      requires Sides() && left != null && right != null
      modifies this
      ensures r.Valid() && fresh(r.Repr - {this} - old(ReprOf(left)) - old(ReprOf(right)))
      ensures Items(r.tree) == old(ItemsOf(left) + ItemsOf(right)) && Balanced(r.tree)
    {
      Recompute();
      hide Valid;
      r := RebalanceIfNeeded();
    }

    /** Moves a full slice to a longer array. */
    method GrowLeaf(filler: T)
      requires Valid() && IsLeaf()
      modifies this
      ensures Valid() && fresh(Repr - old(Repr)) && IsLeaf() && count < leaf.Length && count == old(count) && tree == old(tree)
      ensures leaf in Repr && (leaf == old(leaf) || fresh(leaf))
    {
      if count == leaf.Length {
        var items := leaf[..count];
        var store := new T[2 * count + 1](k requires k >= 0 => if k < |items| then items[k] else filler);
        assert store[..count] == items;
        leaf := store;
        Repr := Repr + {store};
      }
    }

    /** Makes room in the slice and puts the item there. */
    method ShiftIn(i: nat, item: T)
      requires Valid() && IsLeaf() && i <= count < leaf.Length
      modifies this, leaf
      ensures Valid() && Repr == old(Repr)
      ensures tree == Leaf(Inserted(old(leaf[..count]), i, item))
    {
      ghost var merged := Inserted(leaf[..count], i, item);
      forall k | i < k <= count {
        leaf[k] := leaf[k - 1];
      }
      leaf[i] := item;
      count := count + 1;
      assert leaf[..count] == merged;
      length := count;
      tree := Leaf(merged);
    }

    /** A full leaf becomes a fork over the halves of what it should hold. */
    method SplitLeaf(merged: seq<T>)
      requires Valid() && IsLeaf() && LEAF_SIZE < |merged|
      modifies this
      ensures Valid() && fresh(Repr - old(Repr))
      ensures Items(tree) == merged && Balanced(tree)
    {
      hide Valid;
      var mid := |merged| / 2;
      var l := new RopeNode.NewLeaf(merged[..mid]);
      var r := new RopeNode.NewLeaf(merged[mid..]);
      assert merged == merged[..mid] + merged[mid..];
      BecomeFork(l, r);
    }

    /** Turns this node into a fork over two nodes. */
    method BecomeFork(l: RopeNode<T>, r: RopeNode<T>)
      requires HalfOk(l) && HalfOk(r) && l.Repr !! r.Repr
      modifies this
      ensures Valid() && Repr == {this} + l.Repr + r.Repr && tree == Fork(l.tree, r.tree)
    {
      leaf, count, left, right := null, 0, l, r;
      Recompute();
    }

    /** Inserting into a leaf: in place while there are fewer than a leaf's worth of items. */
    method InsertIntoLeaf(i: nat, item: T)
      requires Valid() && IsLeaf() && i <= |Items(tree)|
      modifies Repr
      ensures Valid() && fresh(Repr - old(Repr))
      ensures Items(tree) == Inserted(old(Items(tree)), i, item) && Balanced(tree)
    {
      if count < LEAF_SIZE {
        GrowLeaf(item);
        ShiftIn(i, item);
      } else {
        var merged := leaf[..i] + [item] + leaf[i..count];
        assert merged == Inserted(leaf[..count], i, item);
        SplitLeaf(merged);
      }
    }

    method InsertOnLeft(i: nat, item: T)
      requires Valid() && Balanced(tree) && !IsLeaf() && i <= |Items(left.tree)|
      modifies Repr
      ensures Sides() && left != null && right != null
      ensures ItemsOf(left) + ItemsOf(right) == Inserted(old(Items(tree)), i, item)
      ensures fresh(ReprOf(left) + ReprOf(right) - old(Repr))
      decreases Repr, 0
    {
      InsertedInHalf(Items(left.tree), Items(right.tree), i, item);
      left := left.InsertAt(i, item);
    }

    method InsertOnRight(i: nat, item: T)
      requires Valid() && Balanced(tree) && !IsLeaf() && left.length < i <= |Items(tree)|
      modifies Repr
      ensures Sides() && left != null && right != null
      ensures ItemsOf(left) + ItemsOf(right) == Inserted(old(Items(tree)), i, item)
      ensures fresh(ReprOf(left) + ReprOf(right) - old(Repr))
      decreases Repr, 0
    {
      InsertedInHalf(Items(left.tree), Items(right.tree), i, item);
      right := right.InsertAt(i - left.length, item);
    }

    method InsertAt(i: nat, item: T) returns (r: RopeNode<T>)
      requires Valid() && Balanced(tree) && i <= |Items(tree)|
      modifies Repr
      ensures r.Valid() && fresh(r.Repr - old(Repr))
      ensures Items(r.tree) == Inserted(old(Items(tree)), i, item) && Balanced(r.tree)
      decreases Repr, 1
    {
      if IsLeaf() {
        InsertIntoLeaf(i, item);
        return this;
      }
      if i <= left.length {
        InsertOnLeft(i, item);
      } else {
        InsertOnRight(i, item);
      }
      hide Inserted, Weighted, Items, Balanced;
      r := Rejoin();
    }

    /** Drops a missing side, or joins two small leaves. Answers this node itself
        when both sides stay. */
    method Compact() returns (r: RopeNode<T>)
      requires Sides()
      ensures r == this ==> left != null && right != null
      ensures r != this ==>
                && r.Valid() && fresh(r.Repr - ReprOf(left) - ReprOf(right))
                && Items(r.tree) == ItemsOf(left) + ItemsOf(right) && Balanced(r.tree)
    {
      if left == null {
        return right;
      }
      if right == null {
        return left;
      }
      if left.IsLeaf() && right.IsLeaf() && left.count + right.count <= LEAF_SIZE {
        r := new RopeNode.NewLeaf(left.leaf[..left.count] + right.leaf[..right.count]);
        return;
      }
      return this;
    }

    /** What follows a removal below a fork: compact, recount, rebalance. */
    method Settle() returns (r: RopeNode<T>)
      requires Sides()
      modifies this
      ensures r.Valid() && fresh(r.Repr - {this} - old(ReprOf(left)) - old(ReprOf(right)))
      ensures Items(r.tree) == old(ItemsOf(left) + ItemsOf(right)) && Balanced(r.tree)
    {
      r := Compact();
      if r == this {
        r := Rejoin();
      } else {
        r := r.RebalanceIfNeeded();
      }
    }

    /** Removing from a leaf in place; an emptied leaf disappears. */
    method RemoveFromLeaf(i: nat) returns (r: RopeNode?<T>, removed: T)
      requires Valid() && IsLeaf() && i < |Items(tree)|
      modifies Repr
      ensures removed == old(Items(tree))[i] && Repr == old(Repr)
      ensures r == null <==> |old(Items(tree))| == 1
      ensures r != null ==> r == this && Valid() && Items(tree) == Removed(old(Items(tree)), i) && Balanced(tree)
    {
      removed := leaf[i];
      ghost var rest := Removed(leaf[..count], i);
      count := count - 1;
      forall k | i <= k < count {
        leaf[k] := leaf[k + 1];
      }
      assert leaf[..count] == rest;
      length := count;
      tree := Leaf(rest);
      r := if count == 0 then null else this;
    }

    method RemoveOnLeft(i: nat) returns (removed: T)
      requires Valid() && Balanced(tree) && !IsLeaf() && i < |Items(left.tree)|
      modifies Repr
      ensures removed == old(Items(tree))[i]
      ensures Sides() && ItemsOf(left) + ItemsOf(right) == Removed(old(Items(tree)), i)
      ensures fresh(ReprOf(left) + ReprOf(right) - old(Repr))
      decreases Repr, 0
    {
      RemovedInHalf(Items(left.tree), Items(right.tree), i);
      left, removed := left.RemoveAt(i);
    }

    method RemoveOnRight(i: nat) returns (removed: T)
      requires Valid() && Balanced(tree) && !IsLeaf() && left.length <= i < |Items(tree)|
      modifies Repr
      ensures removed == old(Items(tree))[i]
      ensures Sides() && ItemsOf(left) + ItemsOf(right) == Removed(old(Items(tree)), i)
      ensures fresh(ReprOf(left) + ReprOf(right) - old(Repr))
      decreases Repr, 0
    {
      RemovedInHalf(Items(left.tree), Items(right.tree), i);
      right, removed := right.RemoveAt(i - left.length);
    }

    method RemoveAt(i: nat) returns (r: RopeNode?<T>, removed: T)
      requires Valid() && Balanced(tree) && i < |Items(tree)|
      modifies Repr
      ensures removed == old(Items(tree))[i]
      ensures r == null <==> |old(Items(tree))| == 1
      ensures r != null ==>
                && r.Valid() && fresh(r.Repr - old(Repr))
                && Items(r.tree) == Removed(old(Items(tree)), i) && Balanced(r.tree)
      decreases Repr, 1
    {
      if IsLeaf() {
        r, removed := RemoveFromLeaf(i);
        return;
      }
      BalancedNonEmpty(tree.left);
      BalancedNonEmpty(tree.right);
      if i < left.length {
        removed := RemoveOnLeft(i);
      } else {
        removed := RemoveOnRight(i);
      }
      hide Removed, Weighted, Items, Balanced;
      r := Settle();
    }
  }
}

module RopeLists {
  import opened Options
  import opened RopeTree
  import opened RopeNodes

  function Kept<T>(s: seq<T>, drop: T -> bool): seq<T> {
    if s == [] then []
    else
      var n := |s| - 1;
      Kept(s[..n], drop) + if drop(s[n]) then [] else [s[n]]
  }

  lemma {:induction false} KeptShorter<T>(s: seq<T>, drop: T -> bool)
    ensures |Kept(s, drop)| <= |s|
    ensures |Kept(s, drop)| == |s| ==> Kept(s, drop) == s
  {
    if s != [] {
      KeptShorter(s[..|s| - 1], drop);
    }
  }

  /** The items kept, by position: exactly those the predicate does not drop, in order. */
  lemma {:induction false} KeptMeans<T>(s: seq<T>, drop: T -> bool) returns (at: seq<nat>)
    ensures |at| == |Kept(s, drop)| && forall i :: 0 <= i < |at| ==> at[i] < |s| && Kept(s, drop)[i] == s[at[i]]
    ensures forall i, j :: 0 <= i < j < |at| ==> at[i] < at[j]
    ensures forall k: nat :: k in at <==> k < |s| && !drop(s[k])
  {
    if s == [] {
      at := [];
    } else {
      var n := |s| - 1;
      var front := KeptMeans(s[..n], drop);
      at := front + if drop(s[n]) then [] else [n];
      assert forall k: nat :: k < n ==> s[..n][k] == s[k];
    }
  }

  function Mapped<T>(s: seq<T>, mapper: (nat, T) -> T): seq<T> {
    seq(|s|, i requires 0 <= i < |s| => mapper(i, s[i]))
  }

  lemma InsertedNext<T>(s: seq<T>, index: nat, items: seq<T>, k: nat)
    requires index <= |s| && k < |items|
    ensures Inserted(s[..index] + items[..k] + s[index..], index + k, items[k])
         == s[..index] + items[..k + 1] + s[index..]
  {
    assert items[..k + 1] == items[..k] + [items[k]];
  }

  class RopeList<T> {
    var root: RopeNode?<T>
    var len: nat

    ghost function Footprint(): set<object>
      reads this, root
    {
      {this} + if root == null then {} else root.Repr
    }

    ghost function Contents(): seq<T>
      reads this, root
    {
      if root == null then [] else Items(root.tree)
    }

    ghost predicate Valid()
      reads this, root, if root == null then {} else root.Repr
    {
      && (root != null ==> root.Valid() && Balanced(root.tree) && this !in root.Repr)
      && len == |Contents()|
    }

    /** Every operation keeps Valid, so in every reachable list a subtree k levels
        down over more than 128 items holds at most (4/5)^k of the list, and no path
        is longer than k + 127 once (5/4)^k exceeds Len/129. */
    lemma Shallow(k: nat)
      requires Valid() && root != null
      ensures forall sub :: AtDepth(root.tree, k, sub) && |Items(sub)| > 128 ==>
                Pow(5, k) * |Items(sub)| <= Pow(4, k) * len
      ensures Pow(4, k) * len < Pow(5, k) * 129 ==> Height(root.tree) < k + 128
    {
      forall sub | AtDepth(root.tree, k, sub) && |Items(sub)| > 128
        ensures Pow(5, k) * |Items(sub)| <= Pow(4, k) * len
      {
        DepthBound(root.tree, k, sub);
      }
      if Pow(4, k) * len < Pow(5, k) * 129 {
        HeightBound(root.tree, k);
      }
    }

    /** A list none of whose objects changed is what it was. */
    twostate lemma Untouched()
      requires old(Valid()) && unchanged(old(Footprint()))
      ensures Valid() && Footprint() == old(Footprint()) && Contents() == old(Contents())
    {
    }

    constructor (items: seq<T>)
      ensures Valid() && fresh(Footprint()) && Contents() == items
    {
      root, len := null, 0;
      new;
      if |items| > 0 {
        root := RopeNode<T>.BuildRope(items);
        len := |items|;
      }
    }

    /** Inserting items one after another from a position on. */
    method InsertEach(index: nat, items: seq<T>)
      requires Valid() && root != null && index <= |Contents()|
      modifies Footprint()
      ensures Valid() && fresh(Footprint() - old(Footprint()))
      ensures Contents() == old(Contents())[..index] + items + old(Contents())[index..]
    {
      ghost var before := Contents();
      hide RopeNode.Valid, Balanced, Items;
      var offset := 0;
      while offset < |items|
        invariant 0 <= offset <= |items|
        invariant Valid() && root != null && fresh(Footprint() - old(Footprint()))
        invariant Contents() == before[..index] + items[..offset] + before[index..]
      {
        InsertedNext(before, index, items, offset);
        root := root.InsertAt(index + offset, items[offset]);
        len := len + 1;
        offset := offset + 1;
      }
      assert items[..offset] == items;
    }

    method Add(items: seq<T>)
      requires Valid()
      modifies Footprint()
      ensures Valid() && fresh(Footprint() - old(Footprint()))
      ensures Contents() == old(Contents()) + items
    {
      if |items| == 0 {
        return;
      }
      if root == null {
        root := RopeNode<T>.BuildRope(items);
        len := |items|;
        return;
      }
      InsertEach(len, items);
    }

    method InsertAt(index: int, items: seq<T>) returns (ok: bool)
      requires Valid()
      modifies Footprint()
      ensures Valid() && fresh(Footprint() - old(Footprint()))
      ensures ok == (0 <= index <= |old(Contents())|)
      ensures Contents() == if ok then old(Contents())[..index] + items + old(Contents())[index..] else old(Contents())
    {
      if index < 0 || index > len {
        return false;
      }
      if |items| == 0 {
        return true;
      }
      if root == null {
        root := new RopeNode<T>.NewLeaf(items);
        len := |items|;
        return true;
      }
      InsertEach(index, items);
      return true;
    }

    method Get(index: int) returns (r: Option<T>)
      requires Valid()
      ensures r == if 0 <= index < |Contents()| then Some(Contents()[index]) else None
    {
      if root == null || index < 0 || index >= len {
        return None;
      }
      return Some(root.At(index));
    }

    method Set(index: int, item: T) returns (ok: bool)
      requires Valid()
      modifies Footprint()
      ensures Valid() && Footprint() == old(Footprint())
      ensures ok == (0 <= index < |old(Contents())|)
      ensures Contents() == if ok then old(Contents())[index := item] else old(Contents())
    {
      if root == null || index < 0 || index >= len {
        return false;
      }
      root.SetAt(index, item);
      return true;
    }

    method RemoveAt(index: int) returns (r: Option<T>)
      requires Valid()
      modifies Footprint()
      ensures Valid() && fresh(Footprint() - old(Footprint()))
      ensures r == if 0 <= index < |old(Contents())| then Some(old(Contents())[index]) else None
      ensures Contents() == if r.Some? then old(Contents())[..index] + old(Contents())[index + 1..] else old(Contents())
    {
      if root == null || index < 0 || index >= len {
        return None;
      }
      var removed;
      root, removed := root.RemoveAt(index);
      len := len - 1;
      return Some(removed);
    }

    method Values() returns (s: seq<T>)
      requires Valid()
      ensures s == Contents()
    {
      if root == null {
        return [];
      }
      s := root.AppendTo([]);
    }

    static method Keep(items: seq<T>, drop: T -> bool) returns (next: seq<T>)
      ensures next == Kept(items, drop)
    {
      next := [];
      for i := 0 to |items|
        invariant next == Kept(items[..i], drop)
      {
        assert items[..i + 1][..i] == items[..i];
        if !drop(items[i]) {
          next := next + [items[i]];
        }
      }
      assert items[..|items|] == items;
    }

    method RemoveIf(drop: T -> bool) returns (removed: nat)
      requires Valid()
      modifies this
      ensures Valid() && fresh(Footprint() - old(Footprint()))
      ensures Contents() == Kept(old(Contents()), drop)
      ensures removed == |old(Contents())| - |Contents()|
    {
      if root == null {
        return 0;
      }
      hide RopeNode.Valid, Balanced, Items, Kept;
      var items := Values();
      var next := Keep(items, drop);
      KeptShorter(items, drop);
      removed := |items| - |next|;
      if removed == 0 {
        return;
      }
      root := RopeNode<T>.BuildRope(next);
      len := |next|;
    }

    method SetAllIndexed(mapper: (nat, T) -> T) returns (count: nat)
      requires Valid()
      modifies this
      ensures Valid() && fresh(Footprint() - old(Footprint()))
      ensures Contents() == Mapped(old(Contents()), mapper) && count == |old(Contents())|
      ensures |Contents()| == count && forall i :: 0 <= i < count ==> Contents()[i] == mapper(i, old(Contents())[i])
    {
      if root == null {
        return 0;
      }
      var items := Values();
      ghost var before := items;
      for i := 0 to |items|
        invariant |items| == |before|
        invariant forall j :: 0 <= j < i ==> items[j] == mapper(j, before[j])
        invariant forall j :: i <= j < |items| ==> items[j] == before[j]
      {
        items := items[i := mapper(i, items[i])];
      }
      assert items == Mapped(before, mapper);
      BalancedNonEmpty(root.tree);
      root := RopeNode<T>.BuildRope(items);
      count := |items|;
    }

    /** The copy shares no mutable object with its source. */
    method Clone() returns (copy: RopeList<T>)
      requires Valid()
      ensures copy.Valid() && fresh(copy.Footprint()) && copy.Contents() == Contents()
    {
      copy := new RopeList([]);
      if root != null {
        copy.root := root.Clone();
        copy.len := len;
      }
    }
  }

  // ----- whole runs

  datatype Op<!T> =
    | OpAdd(items: seq<T>)
    | OpInsertAt(index: int, items: seq<T>)
    | OpGet(index: int)
    | OpSet(index: int, item: T)
    | OpRemoveAt(index: int)
    | OpRemoveIf(drop: T -> bool)
    | OpSetAllIndexed(mapper: (nat, T) -> T)

  /** An operation on one of the lists made so far, or a clone of it, which joins them. */
  datatype Action<!T> = On(i: nat, op: Op<T>) | CloneOf(i: nat)

  datatype Answer<T> = Nothing | Flag(ok: bool) | Item(item: Option<T>) | Count(n: nat)

  /** The same operation on a plain sequence: its contents afterwards and its answer. */
  function OnSeq<T>(s: seq<T>, op: Op<T>): (seq<T>, Answer<T>) {
    match op
    case OpAdd(items) => (s + items, Nothing)
    case OpInsertAt(i, items) =>
      if 0 <= i <= |s| then (s[..i] + items + s[i..], Flag(true)) else (s, Flag(false))
    case OpGet(i) => (s, Item(if 0 <= i < |s| then Some(s[i]) else None))
    case OpSet(i, x) => if 0 <= i < |s| then (s[i := x], Flag(true)) else (s, Flag(false))
    case OpRemoveAt(i) => if 0 <= i < |s| then (Removed(s, i), Item(Some(s[i]))) else (s, Item(None))
    case OpRemoveIf(drop) => (Kept(s, drop), Count(if |Kept(s, drop)| <= |s| then |s| - |Kept(s, drop)| else 0))
    case OpSetAllIndexed(mapper) => (Mapped(s, mapper), Count(|s|))
  }

  /** The same action on plain sequences: only the one named changes, and a clone adds one. */
  function OnSeqs<T>(lists: seq<seq<T>>, a: Action<T>): (seq<seq<T>>, Answer<T>) {
    if a.i >= |lists| then (lists, Nothing)
    else
      match a
      case On(i, op) =>
        var (s, answer) := OnSeq(lists[i], op);
        (lists[i := s], answer)
      case CloneOf(i) => (lists + [lists[i]], Nothing)
  }

  /** A run begins with one empty list. */
  function ContentsAfter<T>(script: seq<Action<T>>): seq<seq<T>> {
    if script == [] then [[]]
    else OnSeqs(ContentsAfter(script[..|script| - 1]), script[|script| - 1]).0
  }

  function AnswersOf<T>(script: seq<Action<T>>): seq<Answer<T>> {
    if script == [] then []
    else
      var n := |script| - 1;
      AnswersOf(script[..n]) + [OnSeqs(ContentsAfter(script[..n]), script[n]).1]
  }

  /** One operation on a rope list does what it does on a plain sequence. */
  method Perform<T>(list: RopeList<T>, op: Op<T>) returns (answer: Answer<T>)
    requires list.Valid()
    modifies list.Footprint()
    ensures list.Valid() && fresh(list.Footprint() - old(list.Footprint()))
    ensures (list.Contents(), answer) == OnSeq(old(list.Contents()), op)
  {
    match op
    case OpAdd(items) =>
      list.Add(items);
      answer := Nothing;
    case OpInsertAt(i, items) =>
      var ok := list.InsertAt(i, items);
      answer := Flag(ok);
    case OpGet(i) =>
      var x := list.Get(i);
      answer := Item(x);
    case OpSet(i, x) =>
      var ok := list.Set(i, x);
      answer := Flag(ok);
    case OpRemoveAt(i) =>
      var x := list.RemoveAt(i);
      answer := Item(x);
    case OpRemoveIf(drop) =>
      var n := list.RemoveIf(drop);
      answer := Count(n);
    case OpSetAllIndexed(mapper) =>
      var n := list.SetAllIndexed(mapper);
      answer := Count(n);
  }

  ghost function AllObjects<T>(lists: seq<RopeList<T>>): set<object>
    reads *
  {
    set i, o | 0 <= i < |lists| && o in lists[i].Footprint() :: o
  }

  /** Valid lists that share no object. */
  ghost predicate Separate<T>(lists: seq<RopeList<T>>)
    reads *
  {
    && (forall i :: 0 <= i < |lists| ==> lists[i].Valid())
    && (forall i, j :: 0 <= i < j < |lists| ==> lists[i].Footprint() !! lists[j].Footprint())
  }

  /** Such lists, holding these items. */
  ghost predicate Apart<T>(lists: seq<RopeList<T>>, contents: seq<seq<T>>)
    reads *
  {
    && Separate(lists) && |lists| == |contents|
    && forall i :: 0 <= i < |lists| ==> lists[i].Contents() == contents[i]
  }

  /** Only objects of list i changed, and it took in new ones only. */
  twostate predicate OnlyChanged<T>(lists: seq<RopeList<T>>, new i: nat)
    requires i < |lists|
    reads *
  {
    && (forall o :: o in lists[i].Footprint() ==> o in old(lists[i].Footprint()) || fresh(o))
    && (forall o :: o in old(AllObjects(lists)) && o !in old(lists[i].Footprint()) ==> unchanged(o))
  }

  /** A change to one list that takes in new objects only leaves the others as they were. */
  twostate lemma OthersKept<T>(lists: seq<RopeList<T>>, new i: nat)
    requires old(Separate(lists)) && i < |lists| && lists[i].Valid() && OnlyChanged(lists, i)
    ensures Separate(lists)
    ensures forall j :: 0 <= j < |lists| && j != i ==> lists[j].Contents() == old(lists[j].Contents())
    ensures forall o :: o in AllObjects(lists) ==> o in old(AllObjects(lists)) || fresh(o)
  {
    hide RopeList.Valid, RopeList.Contents;
    forall j | 0 <= j < |lists| && j != i
      ensures lists[j].Valid() && lists[j].Footprint() == old(lists[j].Footprint())
      ensures lists[j].Contents() == old(lists[j].Contents())
    {
      lists[j].Untouched();
    }
  }

  method ActOn<T>(lists: seq<RopeList<T>>, i: nat, op: Op<T>, ghost contents: seq<seq<T>>) returns (answer: Answer<T>)
    requires Apart(lists, contents) && i < |lists|
    modifies AllObjects(lists)
    ensures var (s, a) := OnSeq(contents[i], op); Apart(lists, contents[i := s]) && answer == a
    ensures forall o :: o in AllObjects(lists) ==> o in old(AllObjects(lists)) || fresh(o)
  {
    hide RopeList.Valid, RopeList.Contents, OnSeq;
    answer := Perform(lists[i], op);
    forall o | o in lists[i].Footprint() && o !in old(lists[i].Footprint()) ensures fresh(o) {
      assert o in lists[i].Footprint() - old(lists[i].Footprint());
    }
    assert OnlyChanged(lists, i);
    hide OnlyChanged, Separate;
    OthersKept(lists, i);
  }

  method Act<T>(lists: seq<RopeList<T>>, a: Action<T>, ghost contents: seq<seq<T>>)
    returns (next: seq<RopeList<T>>, answer: Answer<T>)
    requires Apart(lists, contents)
    modifies AllObjects(lists)
    ensures Apart(next, OnSeqs(contents, a).0) && answer == OnSeqs(contents, a).1
    ensures forall o :: o in AllObjects(next) ==> o in old(AllObjects(lists)) || fresh(o)
  {
    hide RopeList.Valid, RopeList.Contents, OnSeq;
    next, answer := lists, Nothing;
    if a.i < |lists| {
      match a
      case On(i, op) =>
        answer := ActOn(lists, i, op, contents);
      case CloneOf(i) =>
        var copy := lists[i].Clone();
        next := lists + [copy];
    }
  }

  /** Every run of operations on any number of lists, cloned from one another from one
      empty list on, gives the contents and the answers of the same run on plain
      sequences; so what is done to a list never shows in a clone of it, nor the other
      way round. */
  method Replay<T>(script: seq<Action<T>>) returns (contents: seq<seq<T>>, answers: seq<Answer<T>>)
    ensures contents == ContentsAfter(script) && answers == AnswersOf(script)
  {
    hide OnSeqs, Apart, AllObjects;
    var lists := NewLists<T>();
    answers := [];
    for n := 0 to |script|
      invariant Apart(lists, ContentsAfter(script[..n])) && fresh(AllObjects(lists))
      invariant answers == AnswersOf(script[..n])
    {
      assert script[..n + 1][..n] == script[..n];
      var answer;
      lists, answer := Act(lists, script[n], ContentsAfter(script[..n]));
      answers := answers + [answer];
    }
    assert script[..|script|] == script;
    contents := AllValues(lists, ContentsAfter(script));
  }

  method NewLists<T>() returns (lists: seq<RopeList<T>>)
    ensures Apart(lists, [[]]) && fresh(AllObjects(lists))
  {
    var list := new RopeList<T>([]);
    lists := [list];
  }

  method AllValues<T>(lists: seq<RopeList<T>>, ghost contents: seq<seq<T>>) returns (values: seq<seq<T>>)
    requires Apart(lists, contents)
    ensures values == contents
  {
    hide RopeList.Valid, RopeList.Contents;
    values := [];
    for i := 0 to |lists|
      invariant values == contents[..i]
    {
      var s := lists[i].Values();
      values := values + [s];
    }
  }
}
