/** The shape of a rope as a value: what a tree of nodes holds, when it is
    balanced, and what balance says about depth. */
module RopeTree {

  const LEAF_SIZE := 64

  datatype Tree<T> = Leaf(items: seq<T>) | Fork(left: Tree<T>, right: Tree<T>)

  function Items<T>(t: Tree<T>): seq<T> {
    match t
    case Leaf(items) => items
    case Fork(l, r) => Items(l) + Items(r)
  }

  predicate WithinFactor4(a: nat, b: nat) {
    a <= 4 * b && b <= 4 * a
  }

  /** No empty leaf, and every fork over more than two leaves' worth of items has
      halves within a factor of four. */
  predicate Balanced<T>(t: Tree<T>) {
    match t
    case Leaf(items) => items != []
    case Fork(l, r) => Balanced(l) && Balanced(r) && Weighted(l, r)
  }

  predicate Weighted<T>(l: Tree<T>, r: Tree<T>) {
    |Items(l)| + |Items(r)| > 2 * LEAF_SIZE ==> WithinFactor4(|Items(l)|, |Items(r)|)
  }

  lemma BalancedNonEmpty<T>(t: Tree<T>)
    requires Balanced(t)
    ensures Items(t) != []
  {
  }

  function Inserted<T>(s: seq<T>, i: nat, x: T): seq<T>
    requires i <= |s|
  {
    s[..i] + [x] + s[i..]
  }

  function Removed<T>(s: seq<T>, i: nat): seq<T>
    requires i < |s|
  {
    s[..i] + s[i + 1..]
  }

  lemma InsertedInHalf<T>(l: seq<T>, r: seq<T>, i: nat, x: T)
    requires i <= |l| + |r|
    ensures i <= |l| ==> Inserted(l + r, i, x) == Inserted(l, i, x) + r
    ensures i >= |l| ==> Inserted(l + r, i, x) == l + Inserted(r, i - |l|, x)
  {
  }

  lemma RemovedInHalf<T>(l: seq<T>, r: seq<T>, i: nat)
    requires i < |l| + |r|
    ensures i < |l| ==> Removed(l + r, i) == Removed(l, i) + r
    ensures i >= |l| ==> Removed(l + r, i) == l + Removed(r, i - |l|)
  {
  }

  /** The subtrees k levels down. */
  ghost predicate AtDepth<T>(t: Tree<T>, k: nat, sub: Tree<T>) {
    if k == 0 then t == sub
    else t.Fork? && (AtDepth(t.left, k - 1, sub) || AtDepth(t.right, k - 1, sub))
  }

  function Height<T>(t: Tree<T>): nat {
    match t
    case Leaf(_) => 0
    case Fork(l, r) => 1 + if Height(l) >= Height(r) then Height(l) else Height(r)
  }

  function Pow(b: nat, k: nat): nat {
    if k == 0 then 1 else b * Pow(b, k - 1)
  }

  lemma {:induction false} SubtreeIsSmaller<T>(t: Tree<T>, k: nat, sub: Tree<T>)
    requires AtDepth(t, k, sub)
    ensures |Items(sub)| <= |Items(t)|
    ensures Balanced(t) ==> Balanced(sub)
  {
    if k > 0 {
      SubtreeIsSmaller(if AtDepth(t.left, k - 1, sub) then t.left else t.right, k - 1, sub);
    }
  }

  /** Below a node of a balanced rope, the weight of a heavy subtree falls by a
      factor of at least 4/5 per level. */
  lemma {:induction false} DepthBound<T>(t: Tree<T>, k: nat, sub: Tree<T>)
    requires Balanced(t) && AtDepth(t, k, sub) && |Items(sub)| > 2 * LEAF_SIZE
    ensures Pow(5, k) * |Items(sub)| <= Pow(4, k) * |Items(t)|
  {
    if k > 0 {
      var c := if AtDepth(t.left, k - 1, sub) then t.left else t.right;
      SubtreeIsSmaller(c, k - 1, sub);
      DepthBound(c, k - 1, sub);
      assert 5 * |Items(c)| <= 4 * |Items(t)|;
      OneLevel(Pow(5, k - 1), Pow(4, k - 1), |Items(sub)|, |Items(c)|, |Items(t)|);
    }
  }

  lemma OneLevel(p5: nat, p4: nat, w: nat, m: nat, n: nat)
    requires p5 * w <= p4 * m && 5 * m <= 4 * n
    ensures 5 * p5 * w <= 4 * p4 * n
  {
    MulLeft(p4, 5 * m, 4 * n);
    assert 5 * p5 * w == 5 * (p5 * w) && 5 * (p4 * m) == p4 * (5 * m) && p4 * (4 * n) == 4 * p4 * n;
  }

  lemma MulLeft(a: nat, b: nat, c: nat)
    requires b <= c
    ensures a * b <= a * c
  {
  }

  lemma {:induction false} HeightBelowLength<T>(t: Tree<T>)
    requires Balanced(t)
    ensures Height(t) < |Items(t)|
  {
    if t.Fork? {
      HeightBelowLength(t.left);
      HeightBelowLength(t.right);
    }
  }

  /** A tree that is higher than k has some subtree k levels down that is higher by the rest. */
  lemma {:induction false} DeepSubtree<T>(t: Tree<T>, k: nat) returns (sub: Tree<T>)
    requires Height(t) >= k
    ensures AtDepth(t, k, sub) && Height(sub) == Height(t) - k
  {
    if k == 0 {
      sub := t;
    } else {
      sub := DeepSubtree(if Height(t.left) >= Height(t.right) then t.left else t.right, k - 1);
    }
  }

  lemma {:induction false} NoDeeper<T>(t: Tree<T>, k: nat, sub: Tree<T>)
    requires AtDepth(t, k, sub)
    ensures k <= Height(t)
  {
    if k > 0 {
      NoDeeper(if AtDepth(t.left, k - 1, sub) then t.left else t.right, k - 1, sub);
    }
  }

  /** The height is how far down subtrees go. */
  lemma HeightMeans<T>(t: Tree<T>, k: nat)
    ensures k <= Height(t) ==> exists sub :: AtDepth(t, k, sub)
    ensures (exists sub :: AtDepth(t, k, sub)) ==> k <= Height(t)
  {
    hide AtDepth, Height;
    if k <= Height(t) {
      var deep := DeepSubtree(t, k);
      assert AtDepth(t, k, deep);
    }
    forall sub | AtDepth(t, k, sub) ensures k <= Height(t) {
      NoDeeper(t, k, sub);
    }
  }

  /** The height of a balanced rope is logarithmic in its length, up to a constant:
      once (5/4)^k exceeds Len/129, no path is longer than k + 127. */
  lemma HeightBound<T>(t: Tree<T>, k: nat)
    requires Balanced(t)
    requires Pow(4, k) * |Items(t)| < Pow(5, k) * (2 * LEAF_SIZE + 1)
    ensures Height(t) < k + 2 * LEAF_SIZE
  {
    if Height(t) >= k + 2 * LEAF_SIZE {
      var sub := DeepSubtree(t, k);
      SubtreeIsSmaller(t, k, sub);
      HeightBelowLength(sub);
      DepthBound(t, k, sub);
      MulLeft(Pow(5, k), 2 * LEAF_SIZE + 1, |Items(sub)|);
    }
  }
}
