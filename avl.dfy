/**
 * Value model of the AVL tree in avl.c.
 *
 * A `Tree` is a subtree as the C code stores it: `Nil` is a NULL slot and a
 * `Node` carries the fields of `struct node` (avl.h), the stored `size` and
 * `height` included, whether or not they are right. Every mutator of avl.c
 * has a function here that computes the subtree it leaves in the caller's
 * slot, step for step; the lemmas then prove what those steps achieve on a
 * tree that satisfies the AVL invariants.
 */
module Avl {

  datatype Tree = Nil | Node(left: Tree, data: int, size: int, height: nat, right: Tree)

  function Max(a: int, b: int): int { if a > b then a else b }

  /** The height a slot contributes, as avl.c reads it: the field, 0 for NULL. */
  function HeightOf(t: Tree): nat { if t.Nil? then 0 else t.height }

  /** The size a slot contributes: the stored field, 0 for NULL. */
  function SizeOf(t: Tree): int { if t.Nil? then 0 else t.size }

  function Keys(t: Tree): (ks: set<int>)
    ensures t.Node? ==> t.data in ks
  {
    match t
    case Nil => {}
    case Node(l, x, _, _, r) => Keys(l) + {x} + Keys(r)
  }

  /** The keys in the order an in-order walk visits them. */
  function InOrder(t: Tree): seq<int>
  {
    match t
    case Nil => []
    case Node(l, x, _, _, r) => InOrder(l) + [x] + InOrder(r)
  }

  // ---------------------------------------------------------------------
  // The invariants of avl.h's `struct node`

  /** Strict global search order: left keys < data < right keys, everywhere. */
  ghost predicate Ordered(t: Tree)
  {
    match t
    case Nil => true
    case Node(l, x, _, _, r) =>
      Ordered(l) && Ordered(r) &&
      (forall y :: y in Keys(l) ==> y < x) &&
      (forall y :: y in Keys(r) ==> x < y)
  }

  /** Every stored size is size(left) + size(right) + 1. */
  ghost predicate SizesOk(t: Tree)
  {
    t.Node? ==>
      SizesOk(t.left) && SizesOk(t.right) &&
      t.size == SizeOf(t.left) + SizeOf(t.right) + 1
  }

  /** Every stored height is 1 + the larger child height (absent child: 0). */
  ghost predicate HeightsOk(t: Tree)
  {
    t.Node? ==>
      HeightsOk(t.left) && HeightsOk(t.right) &&
      t.height == 1 + Max(HeightOf(t.left), HeightOf(t.right))
  }

  /** Every node's child heights differ by at most one. */
  ghost predicate Balanced(t: Tree)
  {
    t.Node? ==>
      Balanced(t.left) && Balanced(t.right) &&
      -1 <= HeightOf(t.left) - HeightOf(t.right) <= 1
  }

  ghost predicate Avl(t: Tree)
  {
    Ordered(t) && SizesOk(t) && HeightsOk(t) && Balanced(t)
  }

  /**
   * The state `rotate` is called in: both children are AVL trees, the node's
   * own key, size and height are right, and the children's heights differ by
   * at most two.
   */
  ghost predicate Fixable(t: Tree)
  {
    t.Node? && Avl(t.left) && Avl(t.right) &&
    (forall y :: y in Keys(t.left) ==> y < t.data) &&
    (forall y :: y in Keys(t.right) ==> t.data < y) &&
    t.size == SizeOf(t.left) + SizeOf(t.right) + 1 &&
    t.height == 1 + Max(HeightOf(t.left), HeightOf(t.right)) &&
    -2 <= HeightOf(t.left) - HeightOf(t.right) <= 2
  }

  // ---------------------------------------------------------------------
  // The mutators, as avl.c performs them

  /** updateHeight: recompute this node's height from its children's fields. */
  function UpdateHeight(t: Tree): (u: Tree)
    ensures u.Nil? == t.Nil?
  {
    if t.Nil? then t else t.(height := 1 + Max(HeightOf(t.left), HeightOf(t.right)))
  }

  /**
   * rotateLeft: the right child is promoted and takes over the old root's
   * size; the demoted root loses the child's size and gains the size of the
   * child's left subtree, which it adopts as its right subtree.
   */
  function RotateLeft(t: Tree): (u: Tree)
    requires t.Node? && t.right.Node?
    ensures u.Node?
  {
    var child := t.right;
    var inner := child.left;
    var demoted := UpdateHeight(Node(t.left, t.data, t.size - child.size + SizeOf(inner), t.height, inner));
    UpdateHeight(Node(demoted, child.data, t.size, child.height, child.right))
  }

  /** rotateRight: the mirror image of `RotateLeft`. */
  function RotateRight(t: Tree): (u: Tree)
    requires t.Node? && t.left.Node?
    ensures u.Node?
  {
    var child := t.left;
    var inner := child.right;
    var demoted := UpdateHeight(Node(inner, t.data, t.size - child.size + SizeOf(inner), t.height, t.right));
    UpdateHeight(Node(child.left, child.data, t.size, child.height, demoted))
  }

  /** rotate: the rebalancing step, chosen from the stored heights. */
  function Rotate(t: Tree): (u: Tree)
    ensures u.Nil? == t.Nil?
  {
    if t.Nil? then t
    else
      var diff := HeightOf(t.left) - HeightOf(t.right);
      if diff == 2 then
        if HeightOf(t.left.right) - HeightOf(t.left.left) > 0 then
          RotateRight(t.(left := RotateLeft(t.left)))
        else
          RotateRight(t)
      else if diff == -2 then
        if HeightOf(t.right.left) - HeightOf(t.right.right) > 0 then
          RotateLeft(t.(right := RotateRight(t.right)))
        else
          RotateLeft(t)
      else if diff > 1 then RotateRight(t)
      else if diff < -1 then RotateLeft(t)
      else t
  }

  /**
   * avlInsert: the subtree left in the slot, and the return code (0 inserted,
   * -1 already present).
   */
  function Insert(t: Tree, k: int): (res: (Tree, int))
    ensures res.1 == 0 || res.1 == -1
    ensures res.1 == -1 ==> res.0 == t
    ensures res.0.Node?
  {
    match t
    case Nil => (Node(Nil, k, 1, 1, Nil), 0)
    case Node(l, x, s, h, r) =>
      if x == k then (t, -1)
      else if x > k then
        var sub := Insert(l, k);
        if sub.1 == 0 then (Rotate(UpdateHeight(Node(sub.0, x, s + 1, h, r))), 0)
        else (Node(sub.0, x, s, h, r), sub.1)
      else
        var sub := Insert(r, k);
        if sub.1 == 0 then (Rotate(UpdateHeight(Node(l, x, s + 1, h, sub.0))), 0)
        else (Node(l, x, s, h, sub.0), sub.1)
  }

  /** avlDeleteMin: the subtree left in the slot, and the key taken out. */
  function DeleteMin(t: Tree): (res: (Tree, int))
    requires t.Node?
    ensures res.1 in Keys(t)
  {
    if t.left.Node? then
      var sub := DeleteMin(t.left);
      (Rotate(UpdateHeight(t.(left := sub.0, size := t.size - 1))), sub.1)
    else
      (if t.right.Node? then Rotate(UpdateHeight(t.right)) else Nil, t.data)
  }

  /** avlDeleteMax: the mirror image of `DeleteMin`. */
  function DeleteMax(t: Tree): (res: (Tree, int))
    requires t.Node?
    ensures res.1 in Keys(t)
  {
    if t.right.Node? then
      var sub := DeleteMax(t.right);
      (Rotate(UpdateHeight(t.(right := sub.0, size := t.size - 1))), sub.1)
    else
      (if t.left.Node? then Rotate(UpdateHeight(t.left)) else Nil, t.data)
  }

  /**
   * The part of avlRemove that takes out the node holding the key. Its key
   * is overwritten by the right subtree's minimum whenever there is a right
   * subtree, by the left subtree's maximum only when there is none, and a
   * leaf is dropped.
   */
  function RemoveRoot(t: Tree): (u: Tree)
    requires t.Node?
    ensures u.Nil? <==> t.left.Nil? && t.right.Nil?
  {
    if t.right.Node? then
      var sub := DeleteMin(t.right);
      Rotate(UpdateHeight(Node(t.left, sub.1, t.size - 1, t.height, sub.0)))
    else if t.left.Node? then
      var sub := DeleteMax(t.left);
      Rotate(UpdateHeight(Node(sub.0, sub.1, t.size - 1, t.height, t.right)))
    else
      Nil
  }

  /**
   * avlRemove: the subtree left in the slot, and the return code (0 removed,
   * -1 not found).
   */
  function Remove(t: Tree, k: int): (res: (Tree, int))
    ensures res.1 == 0 || res.1 == -1
    ensures res.1 == -1 ==> res.0 == t
  {
    match t
    case Nil => (Nil, -1)
    case Node(l, x, s, h, r) =>
      if x == k then (RemoveRoot(t), 0)
      else if x > k then
        var sub := Remove(l, k);
        if sub.1 == 0 then (Rotate(UpdateHeight(Node(sub.0, x, s - 1, h, r))), 0)
        else (Node(sub.0, x, s, h, r), sub.1)
      else
        var sub := Remove(r, k);
        if sub.1 == 0 then (Rotate(UpdateHeight(Node(l, x, s - 1, h, sub.0))), 0)
        else (Node(l, x, s, h, sub.0), sub.1)
  }

  // ---------------------------------------------------------------------
  // Metric maintenance and rotations

  /** updateHeight repairs this node's height and touches no other field. */
  lemma UpdateHeightRepairs(t: Tree)
    requires t.Node? && HeightsOk(t.left) && HeightsOk(t.right)
    ensures var u := UpdateHeight(t);
      HeightsOk(u) && u.left == t.left && u.data == t.data && u.size == t.size && u.right == t.right
  {
  }

  /** On a node whose height is already right, updateHeight changes nothing. */
  lemma UpdateHeightIdle(t: Tree)
    requires HeightsOk(t)
    ensures UpdateHeight(t) == t
  {
  }

  lemma AppendAssoc(sa: seq<int>, x: int, sb: seq<int>, y: int, sd: seq<int>)
    ensures (sa + [x] + sb) + [y] + sd == sa + [x] + (sb + [y] + sd)
  {
  }

  /** A left rotation keeps the in-order key sequence. */
  lemma RotateLeftInOrder(t: Tree)
    requires t.Node? && t.right.Node?
    ensures InOrder(RotateLeft(t)) == InOrder(t)
  {
    var Node(a, x, _, _, c) := t;
    var Node(b, y, _, _, d) := c;
    var u := RotateLeft(t);
    var sa, sb, sd := InOrder(a), InOrder(b), InOrder(d);
    assert u.left.left == a && u.left.data == x && u.left.right == b;
    assert u.data == y && u.right == d;
    assert InOrder(u.left) == sa + [x] + sb;
    assert InOrder(u) == InOrder(u.left) + [y] + sd;
    assert InOrder(c) == sb + [y] + sd;
    assert InOrder(t) == sa + [x] + InOrder(c);
    AppendAssoc(sa, x, sb, y, sd);
  }

  /** A right rotation keeps the in-order key sequence. */
  lemma RotateRightInOrder(t: Tree)
    requires t.Node? && t.left.Node?
    ensures InOrder(RotateRight(t)) == InOrder(t)
  {
    var Node(c, x, _, _, d) := t;
    var Node(a, y, _, _, b) := c;
    var u := RotateRight(t);
    var sa, sb, sd := InOrder(a), InOrder(b), InOrder(d);
    assert u.right.left == b && u.right.data == x && u.right.right == d;
    assert u.left == a && u.data == y;
    assert InOrder(u.right) == sb + [x] + sd;
    assert InOrder(u) == sa + [y] + InOrder(u.right);
    assert InOrder(c) == sa + [y] + sb;
    assert InOrder(t) == InOrder(c) + [x] + sd;
    AppendAssoc(sa, y, sb, x, sd);
  }

  /** A left rotation keeps the key set and the search order. */
  lemma RotateLeftOrdered(t: Tree)
    requires t.Node? && t.right.Node? && Ordered(t)
    ensures Keys(RotateLeft(t)) == Keys(t) && Ordered(RotateLeft(t))
  {
    var Node(a, x, _, _, c) := t;
    var Node(b, y, _, _, d) := c;
    var u := RotateLeft(t);
    assert u.left.left == a && u.left.data == x && u.left.right == b;
    assert u.data == y && u.right == d;
    assert y in Keys(c);
    assert Keys(u.left) == Keys(a) + {x} + Keys(b);
    assert Ordered(u.left);
    assert forall z :: z in Keys(u.left) ==> z < y;
  }

  /** The mirror image of `RotateLeftOrdered`. */
  lemma RotateRightOrdered(t: Tree)
    requires t.Node? && t.left.Node? && Ordered(t)
    ensures Keys(RotateRight(t)) == Keys(t) && Ordered(RotateRight(t))
  {
    var Node(c, x, _, _, d) := t;
    var Node(a, y, _, _, b) := c;
    var u := RotateRight(t);
    assert u.right.left == b && u.right.data == x && u.right.right == d;
    assert u.left == a && u.data == y;
    assert y in Keys(c);
    assert Keys(u.right) == Keys(b) + {x} + Keys(d);
    assert Ordered(u.right);
    assert forall z :: z in Keys(u.right) ==> y < z;
  }

  /**
   * A left rotation keeps the sizes right: the promoted child takes the old
   * root's size, and the demoted node's becomes old size - child size +
   * inner subtree size, which is again size(left) + size(right) + 1. Both
   * rebuilt heights are right.
   */
  lemma RotateLeftMetrics(t: Tree)
    requires t.Node? && t.right.Node? && SizesOk(t)
    requires HeightsOk(t.left) && HeightsOk(t.right.left) && HeightsOk(t.right.right)
    ensures SizesOk(RotateLeft(t)) && HeightsOk(RotateLeft(t)) && SizeOf(RotateLeft(t)) == t.size
  {
    var u := RotateLeft(t);
    assert u.left.left == t.left && u.left.right == t.right.left && u.right == t.right.right;
  }

  /** The mirror image of `RotateLeftMetrics`. */
  lemma RotateRightMetrics(t: Tree)
    requires t.Node? && t.left.Node? && SizesOk(t)
    requires HeightsOk(t.right) && HeightsOk(t.left.left) && HeightsOk(t.left.right)
    ensures SizesOk(RotateRight(t)) && HeightsOk(RotateRight(t)) && SizeOf(RotateRight(t)) == t.size
  {
    var u := RotateRight(t);
    assert u.left == t.left.left && u.right.left == t.left.right && u.right.right == t.right;
  }

  /** A single right rotation fixes a left overflow whose left child is not right-heavy. */
  lemma FixLeftSingle(t: Tree)
    requires Fixable(t) && HeightOf(t.left) - HeightOf(t.right) == 2
    requires HeightOf(t.left.right) <= HeightOf(t.left.left)
    ensures var u := RotateRight(t);
      Avl(u) && Keys(u) == Keys(t) && SizeOf(u) == t.size && t.height - 1 <= HeightOf(u) <= t.height
  {
    var u := RotateRight(t);
    RotateRightOrdered(t);
    RotateRightMetrics(t);
    assert u.left == t.left.left && u.right.left == t.left.right && u.right.right == t.right;
  }

  /** The mirror image of `FixLeftSingle`. */
  lemma FixRightSingle(t: Tree)
    requires Fixable(t) && HeightOf(t.left) - HeightOf(t.right) == -2
    requires HeightOf(t.right.left) <= HeightOf(t.right.right)
    ensures var u := RotateLeft(t);
      Avl(u) && Keys(u) == Keys(t) && SizeOf(u) == t.size && t.height - 1 <= HeightOf(u) <= t.height
  {
    var u := RotateLeft(t);
    RotateLeftOrdered(t);
    RotateLeftMetrics(t);
    assert u.right == t.right.right && u.left.right == t.right.left && u.left.left == t.left;
  }

  /** The two rotations of a left-right double rotation keep keys, order and sizes. */
  lemma DoubleLeftSound(t: Tree)
    requires Fixable(t) && t.left.Node? && t.left.right.Node?
    ensures var u := RotateRight(t.(left := RotateLeft(t.left)));
      Keys(u) == Keys(t) && Ordered(u) && SizesOk(u) && HeightsOk(u) && SizeOf(u) == t.size
  {
    var l := t.left;
    var l' := RotateLeft(l);
    assert Ordered(l) && SizesOk(l) && HeightsOk(l);
    assert HeightsOk(l.left) && HeightsOk(l.right);
    assert HeightsOk(l.right.left) && HeightsOk(l.right.right);
    RotateLeftOrdered(l);
    RotateLeftMetrics(l);
    var t' := t.(left := l');
    assert Keys(t') == Keys(t);
    assert Ordered(t') && SizesOk(t');
    assert HeightsOk(l'.left) && HeightsOk(l'.right) && HeightsOk(t.right);
    RotateRightOrdered(t');
    RotateRightMetrics(t');
  }

  /**
   * A left-right double rotation fixes a left overflow whose left child is
   * right-heavy; the result is one level lower than the overflowing node.
   */
  lemma FixLeftDouble(t: Tree)
    requires Fixable(t) && HeightOf(t.left) - HeightOf(t.right) == 2
    requires HeightOf(t.left.right) > HeightOf(t.left.left)
    ensures var u := RotateRight(t.(left := RotateLeft(t.left)));
      Avl(u) && Keys(u) == Keys(t) && SizeOf(u) == t.size && HeightOf(u) == t.height - 1
  {
    DoubleLeftSound(t);
    var l := t.left;
    var l' := RotateLeft(l);
    var u := RotateRight(t.(left := l'));
    var Node(a, y, _, _, b) := l;
    var Node(b1, z, _, _, b2) := b;
    var hr := HeightOf(t.right);
    assert Balanced(l) && HeightsOk(l) && Balanced(b) && HeightsOk(b);
    assert HeightOf(b) == hr + 1 && HeightOf(a) == hr;
    assert hr - 1 <= HeightOf(b1) <= hr && hr - 1 <= HeightOf(b2) <= hr;
    assert Balanced(a) && Balanced(b1) && Balanced(b2) && Balanced(t.right);
    assert l'.left.left == a && l'.left.right == b1 && l'.right == b2;
    assert u.left == l'.left && u.right.left == b2 && u.right.right == t.right;
    assert HeightOf(u.left) == hr + 1 && HeightOf(u.right) == hr + 1;
    assert Balanced(u.left);
    assert Balanced(u.right);
  }

  /** The mirror image of `DoubleLeftSound`. */
  lemma DoubleRightSound(t: Tree)
    requires Fixable(t) && t.right.Node? && t.right.left.Node?
    ensures var u := RotateLeft(t.(right := RotateRight(t.right)));
      Keys(u) == Keys(t) && Ordered(u) && SizesOk(u) && HeightsOk(u) && SizeOf(u) == t.size
  {
    var r := t.right;
    var r' := RotateRight(r);
    assert Ordered(r) && SizesOk(r) && HeightsOk(r);
    assert HeightsOk(r.left) && HeightsOk(r.right);
    assert HeightsOk(r.left.left) && HeightsOk(r.left.right);
    RotateRightOrdered(r);
    RotateRightMetrics(r);
    var t' := t.(right := r');
    assert Keys(t') == Keys(t);
    assert Ordered(t') && SizesOk(t');
    assert HeightsOk(r'.left) && HeightsOk(r'.right) && HeightsOk(t.left);
    RotateLeftOrdered(t');
    RotateLeftMetrics(t');
  }

  /** The mirror image of `FixLeftDouble`. */
  lemma FixRightDouble(t: Tree)
    requires Fixable(t) && HeightOf(t.left) - HeightOf(t.right) == -2
    requires HeightOf(t.right.left) > HeightOf(t.right.right)
    ensures var u := RotateLeft(t.(right := RotateRight(t.right)));
      Avl(u) && Keys(u) == Keys(t) && SizeOf(u) == t.size && HeightOf(u) == t.height - 1
  {
    DoubleRightSound(t);
    var r := t.right;
    var r' := RotateRight(r);
    var u := RotateLeft(t.(right := r'));
    var Node(b, y, _, _, a) := r;
    var Node(b1, z, _, _, b2) := b;
    var hl := HeightOf(t.left);
    assert Balanced(r) && HeightsOk(r) && Balanced(b) && HeightsOk(b);
    assert HeightOf(b) == hl + 1 && HeightOf(a) == hl;
    assert hl - 1 <= HeightOf(b1) <= hl && hl - 1 <= HeightOf(b2) <= hl;
    assert Balanced(a) && Balanced(b1) && Balanced(b2) && Balanced(t.left);
    assert r'.right.right == a && r'.right.left == b2 && r'.left == b1;
    assert u.right == r'.right && u.left.right == b1 && u.left.left == t.left;
    assert HeightOf(u.left) == hl + 1 && HeightOf(u.right) == hl + 1;
    assert Balanced(u.right);
    assert Balanced(u.left);
  }

  /**
   * rotate restores balance at a node whose children are AVL trees with
   * heights at most two apart: the keys and the size stay, the height drops
   * by at most one, and a node already balanced is left untouched.
   */
  lemma RotateRestores(t: Tree)
    requires Fixable(t)
    ensures var u := Rotate(t);
      Avl(u) && Keys(u) == Keys(t) && SizeOf(u) == t.size &&
      t.height - 1 <= HeightOf(u) <= t.height &&
      (-1 <= HeightOf(t.left) - HeightOf(t.right) <= 1 <==> u == t)
  {
    var diff := HeightOf(t.left) - HeightOf(t.right);
    if diff == 2 {
      if HeightOf(t.left.right) - HeightOf(t.left.left) > 0 {
        FixLeftDouble(t);
      } else {
        FixLeftSingle(t);
      }
    } else if diff == -2 {
      if HeightOf(t.right.left) - HeightOf(t.right.right) > 0 {
        FixRightDouble(t);
      } else {
        FixRightSingle(t);
      }
    }
  }

  /**
   * What every mutator does on the way back up after one child changed:
   * rebuild the node with its new size, update its height and rotate. From
   * AVL children in search order whose heights are at most two apart, this
   * gives an AVL tree over the same keys, no lower than the taller child and
   * at most one above it, exactly one above it when no rotation was due.
   */
  lemma Rebuild(l: Tree, x: int, s: int, h: nat, r: Tree)
    requires Avl(l) && Avl(r)
    requires forall y :: y in Keys(l) ==> y < x
    requires forall y :: y in Keys(r) ==> x < y
    requires s == SizeOf(l) + SizeOf(r) + 1
    requires -2 <= HeightOf(l) - HeightOf(r) <= 2
    ensures Avl(Rotate(UpdateHeight(Node(l, x, s, h, r))))
    ensures Keys(Rotate(UpdateHeight(Node(l, x, s, h, r)))) == Keys(l) + {x} + Keys(r)
    ensures SizeOf(Rotate(UpdateHeight(Node(l, x, s, h, r)))) == s
    ensures Max(HeightOf(l), HeightOf(r)) <= HeightOf(Rotate(UpdateHeight(Node(l, x, s, h, r))))
              <= 1 + Max(HeightOf(l), HeightOf(r))
    ensures -1 <= HeightOf(l) - HeightOf(r) <= 1 ==>
              HeightOf(Rotate(UpdateHeight(Node(l, x, s, h, r)))) == 1 + Max(HeightOf(l), HeightOf(r))
  {
    var v := UpdateHeight(Node(l, x, s, h, r));
    assert Fixable(v);
    RotateRestores(v);
  }

  // ---------------------------------------------------------------------
  // Insert and delete

  // Set identities the key-set bookkeeping below relies on.

  lemma AddToSide(a: set<int>, a': set<int>, x: int, b: set<int>, k: int)
    requires a' == a + {k}
    ensures a' + {x} + b == (a + {x} + b) + {k}
    ensures b + {x} + a' == (b + {x} + a) + {k}
  {}

  lemma DropFromSide(a: set<int>, a': set<int>, x: int, b: set<int>, m: int)
    requires a' == a - {m} && m != x && m !in b
    ensures a' + {x} + b == (a + {x} + b) - {m}
    ensures b + {x} + a' == (b + {x} + a) - {m}
  {}

  lemma ReplaceRoot(a: set<int>, a': set<int>, x: int, b: set<int>, m: int)
    requires a' == a - {m} && m in a && x !in a && x !in b
    ensures b + {m} + a' == (b + {x} + a) - {x}
    ensures a' + {m} + b == (a + {x} + b) - {x}
  {}

  /**
   * avlInsert on an AVL tree returns 0 exactly when the key was absent; the
   * keys gain exactly that key, the tree stays AVL, the root size rises by
   * one on success, and the height grows by at most one.
   */
  ghost predicate InsertPost(t: Tree, k: int, res: (Tree, int))
  {
    Avl(res.0) && Keys(res.0) == Keys(t) + {k} &&
    (res.1 == 0 <==> k !in Keys(t)) &&
    SizeOf(res.0) == SizeOf(t) + (if k in Keys(t) then 0 else 1) &&
    HeightOf(t) <= HeightOf(res.0) <= HeightOf(t) + 1
  }

  /** One level of avlInsert that inserted the key into the left subtree. */
  lemma InsertLeftStep(t: Tree, k: int, sub: (Tree, int))
    requires Avl(t) && t.Node? && k < t.data
    requires sub.1 == 0 && InsertPost(t.left, k, sub)
    ensures InsertPost(t, k, (Rotate(UpdateHeight(t.(left := sub.0, size := t.size + 1))), 0))
  {
    var l' := sub.0;
    Rebuild(l', t.data, t.size + 1, t.height, t.right);
    AddToSide(Keys(t.left), Keys(l'), t.data, Keys(t.right), k);
    assert k !in Keys(t.right);
  }

  /** One level of avlInsert that inserted the key into the right subtree. */
  lemma InsertRightStep(t: Tree, k: int, sub: (Tree, int))
    requires Avl(t) && t.Node? && t.data < k
    requires sub.1 == 0 && InsertPost(t.right, k, sub)
    ensures InsertPost(t, k, (Rotate(UpdateHeight(t.(right := sub.0, size := t.size + 1))), 0))
  {
    var r' := sub.0;
    Rebuild(t.left, t.data, t.size + 1, t.height, r');
    AddToSide(Keys(t.right), Keys(r'), t.data, Keys(t.left), k);
    assert k !in Keys(t.left);
  }

  lemma {:induction false} InsertCorrect(t: Tree, k: int)
    requires Avl(t)
    ensures InsertPost(t, k, Insert(t, k))
  {
    if t.Node? && k < t.data {
      InsertCorrect(t.left, k);
      var sub := Insert(t.left, k);
      if sub.1 == 0 {
        InsertLeftStep(t, k, sub);
        assert Insert(t, k) == (Rotate(UpdateHeight(t.(left := sub.0, size := t.size + 1))), 0);
      } else {
        assert Insert(t, k) == (t, -1);
      }
    } else if t.Node? && t.data < k {
      InsertCorrect(t.right, k);
      var sub := Insert(t.right, k);
      if sub.1 == 0 {
        InsertRightStep(t, k, sub);
        assert Insert(t, k) == (Rotate(UpdateHeight(t.(right := sub.0, size := t.size + 1))), 0);
      } else {
        assert Insert(t, k) == (t, -1);
      }
    }
  }

  /**
   * avlDeleteMin on a non-empty AVL tree returns its smallest key and leaves
   * an AVL tree holding exactly the other keys, one node smaller and at most
   * one level lower; avlDeleteMax the same with the largest key.
   */
  ghost predicate DeletePost(t: Tree, res: (Tree, int), smallest: bool)
  {
    res.1 in Keys(t) &&
    (forall y :: y in Keys(t) ==> if smallest then res.1 <= y else y <= res.1) &&
    Keys(res.0) == Keys(t) - {res.1} && Avl(res.0) && SizeOf(res.0) == SizeOf(t) - 1 &&
    HeightOf(t) - 1 <= HeightOf(res.0) <= HeightOf(t)
  }

  /** One level of avlDeleteMin that descends to the left. */
  lemma DeleteMinStep(t: Tree, sub: (Tree, int))
    requires Avl(t) && t.Node? && t.left.Node?
    requires DeletePost(t.left, sub, true)
    ensures DeletePost(t, (Rotate(UpdateHeight(t.(left := sub.0, size := t.size - 1))), sub.1), true)
  {
    var l', m := sub.0, sub.1;
    Rebuild(l', t.data, t.size - 1, t.height, t.right);
    assert m < t.data;
    assert m !in Keys(t.right);
    DropFromSide(Keys(t.left), Keys(l'), t.data, Keys(t.right), m);
    forall y | y in Keys(t) ensures m <= y {
      if y in Keys(t.right) { assert t.data < y; }
    }
  }

  /** avlDeleteMin at the leftmost node: its right subtree takes its place. */
  lemma DeleteMinHere(t: Tree)
    requires Avl(t) && t.Node? && t.left.Nil?
    ensures DeletePost(t, (if t.right.Node? then Rotate(UpdateHeight(t.right)) else Nil, t.data), true)
  {
    if t.right.Node? {
      UpdateHeightIdle(t.right);
      assert Rotate(t.right) == t.right;
    }
  }

  lemma {:induction false} DeleteMinCorrect(t: Tree)
    requires Avl(t) && t.Node?
    ensures DeletePost(t, DeleteMin(t), true)
  {
    if t.left.Node? {
      DeleteMinCorrect(t.left);
      var sub := DeleteMin(t.left);
      DeleteMinStep(t, sub);
      assert DeleteMin(t) == (Rotate(UpdateHeight(t.(left := sub.0, size := t.size - 1))), sub.1);
    } else {
      DeleteMinHere(t);
      assert DeleteMin(t) == (if t.right.Node? then Rotate(UpdateHeight(t.right)) else Nil, t.data);
    }
  }

  /** One level of avlDeleteMax that descends to the right. */
  lemma DeleteMaxStep(t: Tree, sub: (Tree, int))
    requires Avl(t) && t.Node? && t.right.Node?
    requires DeletePost(t.right, sub, false)
    ensures DeletePost(t, (Rotate(UpdateHeight(t.(right := sub.0, size := t.size - 1))), sub.1), false)
  {
    var r', m := sub.0, sub.1;
    Rebuild(t.left, t.data, t.size - 1, t.height, r');
    assert t.data < m;
    assert m !in Keys(t.left);
    DropFromSide(Keys(t.right), Keys(r'), t.data, Keys(t.left), m);
    forall y | y in Keys(t) ensures y <= m {
      if y in Keys(t.left) { assert y < t.data; }
    }
  }

  /** avlDeleteMax at the rightmost node: its left subtree takes its place. */
  lemma DeleteMaxHere(t: Tree)
    requires Avl(t) && t.Node? && t.right.Nil?
    ensures DeletePost(t, (if t.left.Node? then Rotate(UpdateHeight(t.left)) else Nil, t.data), false)
  {
    if t.left.Node? {
      UpdateHeightIdle(t.left);
      assert Rotate(t.left) == t.left;
    }
  }

  lemma {:induction false} DeleteMaxCorrect(t: Tree)
    requires Avl(t) && t.Node?
    ensures DeletePost(t, DeleteMax(t), false)
  {
    if t.right.Node? {
      DeleteMaxCorrect(t.right);
      var sub := DeleteMax(t.right);
      DeleteMaxStep(t, sub);
      assert DeleteMax(t) == (Rotate(UpdateHeight(t.(right := sub.0, size := t.size - 1))), sub.1);
    } else {
      DeleteMaxHere(t);
      assert DeleteMax(t) == (if t.left.Node? then Rotate(UpdateHeight(t.left)) else Nil, t.data);
    }
  }

  /**
   * avlRemove on an AVL tree returns 0 exactly when the key was present; the
   * keys lose exactly that key, the tree stays AVL, the root size drops by
   * one on success, and the height drops by at most one.
   */
  ghost predicate RemovePost(t: Tree, k: int, res: (Tree, int))
  {
    Avl(res.0) && Keys(res.0) == Keys(t) - {k} &&
    (res.1 == 0 <==> k in Keys(t)) &&
    SizeOf(res.0) == SizeOf(t) - (if k in Keys(t) then 1 else 0) &&
    HeightOf(t) - 1 <= HeightOf(res.0) <= HeightOf(t)
  }

  /**
   * The node holding the removed key, its key overwritten by the minimum
   * its right subtree gave up.
   */
  lemma ReplaceByMin(t: Tree, sub: (Tree, int))
    requires Avl(t) && t.Node? && t.right.Node?
    requires DeletePost(t.right, sub, true)
    ensures RemovePost(t, t.data, (Rotate(UpdateHeight(Node(t.left, sub.1, t.size - 1, t.height, sub.0))), 0))
  {
    var r', m := sub.0, sub.1;
    Rebuild(t.left, m, t.size - 1, t.height, r');
    assert t.data < m;
    forall y | y in Keys(t.left) ensures y < m {
      assert y < t.data;
    }
    ReplaceRoot(Keys(t.right), Keys(r'), t.data, Keys(t.left), m);
  }

  /**
   * The node holding the removed key, with no right subtree, its key
   * overwritten by the maximum its left subtree gave up.
   */
  lemma ReplaceByMax(t: Tree, sub: (Tree, int))
    requires Avl(t) && t.Node? && t.right.Nil? && t.left.Node?
    requires DeletePost(t.left, sub, false)
    ensures RemovePost(t, t.data, (Rotate(UpdateHeight(Node(sub.0, sub.1, t.size - 1, t.height, t.right))), 0))
  {
    var l', m := sub.0, sub.1;
    Rebuild(l', m, t.size - 1, t.height, t.right);
    assert m < t.data;
    ReplaceRoot(Keys(t.left), Keys(l'), t.data, Keys(t.right), m);
  }

  /** avlRemove at the node holding the key, when it has a right subtree. */
  lemma RemoveHereRight(t: Tree)
    requires Avl(t) && t.Node? && t.right.Node?
    ensures RemovePost(t, t.data, (RemoveRoot(t), 0))
  {
    DeleteMinCorrect(t.right);
    var sub := DeleteMin(t.right);
    ReplaceByMin(t, sub);
  }

  /** avlRemove at the node holding the key, when it has only a left subtree. */
  lemma RemoveHereLeft(t: Tree)
    requires Avl(t) && t.Node? && t.right.Nil? && t.left.Node?
    ensures RemovePost(t, t.data, (RemoveRoot(t), 0))
  {
    DeleteMaxCorrect(t.left);
    var sub := DeleteMax(t.left);
    ReplaceByMax(t, sub);
  }

  /** One level of avlRemove that removed the key from the left subtree. */
  lemma RemoveLeftStep(t: Tree, k: int, sub: (Tree, int))
    requires Avl(t) && t.Node? && k < t.data
    requires sub.1 == 0 && RemovePost(t.left, k, sub)
    ensures RemovePost(t, k, (Rotate(UpdateHeight(t.(left := sub.0, size := t.size - 1))), 0))
  {
    var l' := sub.0;
    Rebuild(l', t.data, t.size - 1, t.height, t.right);
    assert k !in Keys(t.right);
    DropFromSide(Keys(t.left), Keys(l'), t.data, Keys(t.right), k);
  }

  /** One level of avlRemove that removed the key from the right subtree. */
  lemma RemoveRightStep(t: Tree, k: int, sub: (Tree, int))
    requires Avl(t) && t.Node? && t.data < k
    requires sub.1 == 0 && RemovePost(t.right, k, sub)
    ensures RemovePost(t, k, (Rotate(UpdateHeight(t.(right := sub.0, size := t.size - 1))), 0))
  {
    var r' := sub.0;
    Rebuild(t.left, t.data, t.size - 1, t.height, r');
    assert k !in Keys(t.left);
    DropFromSide(Keys(t.right), Keys(r'), t.data, Keys(t.left), k);
  }

  /** avlRemove descending left, given what the recursive call achieved. */
  lemma RemoveDescendLeft(t: Tree, k: int)
    requires Avl(t) && t.Node? && k < t.data
    requires RemovePost(t.left, k, Remove(t.left, k))
    ensures RemovePost(t, k, Remove(t, k))
  {
    var sub := Remove(t.left, k);
    if sub.1 == 0 {
      RemoveLeftStep(t, k, sub);
      assert Remove(t, k) == (Rotate(UpdateHeight(t.(left := sub.0, size := t.size - 1))), 0);
    } else {
      assert k !in Keys(t.right);
      assert Remove(t, k) == (t, -1);
    }
  }

  /** avlRemove descending right, given what the recursive call achieved. */
  lemma RemoveDescendRight(t: Tree, k: int)
    requires Avl(t) && t.Node? && t.data < k
    requires RemovePost(t.right, k, Remove(t.right, k))
    ensures RemovePost(t, k, Remove(t, k))
  {
    var sub := Remove(t.right, k);
    if sub.1 == 0 {
      RemoveRightStep(t, k, sub);
      assert Remove(t, k) == (Rotate(UpdateHeight(t.(right := sub.0, size := t.size - 1))), 0);
    } else {
      assert k !in Keys(t.left);
      assert Remove(t, k) == (t, -1);
    }
  }

  lemma {:induction false} RemoveCorrect(t: Tree, k: int)
    requires Avl(t)
    ensures RemovePost(t, k, Remove(t, k))
  {
    if t.Nil? {
    } else if k < t.data {
      RemoveCorrect(t.left, k);
      RemoveDescendLeft(t, k);
    } else if t.data < k {
      RemoveCorrect(t.right, k);
      RemoveDescendRight(t, k);
    } else if t.right.Node? {
      RemoveHereRight(t);
    } else if t.left.Node? {
      RemoveHereLeft(t);
    }
  }

  // ---------------------------------------------------------------------
  // The queries of avl.c

  /**
   * avlFind: 1 when the key is met on the search path, 0 otherwise. On a hit
   * the second component is the node whose `data` field `*value` is left
   * pointing at; on a miss it is `Nil` (`*value` is not written).
   */
  function Find(t: Tree, k: int): (r: (int, Tree))
    ensures r.0 == 1 || r.0 == 0
    ensures r.0 == 1 <==> r.1.Node?
    ensures r.0 == 1 ==> r.1.data == k && k in Keys(t)
  {
    if t.Nil? then (0, Nil)
    else if t.data == k then (1, t)
    else if t.data > k then Find(t.left, k)
    else Find(t.right, k)
  }

  /** In an ordered tree avlFind misses no key. */
  lemma {:induction false} FindComplete(t: Tree, k: int)
    requires Ordered(t) && k in Keys(t)
    ensures Find(t, k).0 == 1
  {
    if t.data > k {
      assert k !in Keys(t.right);
      FindComplete(t.left, k);
    } else if t.data < k {
      assert k !in Keys(t.left);
      FindComplete(t.right, k);
    }
  }

  /** size: the number of nodes, counted rather than read from the fields. */
  function Size(t: Tree): (n: nat)
    ensures n == |InOrder(t)|
  {
    match t
    case Nil => 0
    case Node(l, _, _, _, r) => Size(l) + 1 + Size(r)
  }

  /** Where the size fields are right, the count agrees with the root's field. */
  lemma {:induction false} SizeMatchesField(t: Tree)
    requires SizesOk(t)
    ensures Size(t) == SizeOf(t)
  {
    if t.Node? {
      SizeMatchesField(t.left);
      SizeMatchesField(t.right);
    }
  }

  /** In an ordered tree no key is stored twice, so the count is the number of keys. */
  lemma {:induction false} SizeCountsKeys(t: Tree)
    requires Ordered(t)
    ensures Size(t) == |Keys(t)|
  {
    if t.Node? {
      SizeCountsKeys(t.left);
      SizeCountsKeys(t.right);
      var a, b := Keys(t.left), Keys(t.right);
      assert a !! {t.data} && (a + {t.data}) !! b by {
        forall y | y in b ensures y !in a + {t.data} {
          assert t.data < y;
        }
      }
      assert |a + {t.data}| == |a| + 1;
      assert |a + {t.data} + b| == |a| + 1 + |b|;
    }
  }

  /**
   * maxHeight: the number of edges on the longest downward path, 0 for an
   * empty tree and for a leaf.
   */
  function MaxHeight(t: Tree): (e: nat)
    ensures t.Node? ==> e < Size(t)
  {
    if t.Nil? then 0
    else
      var left := if t.left.Node? then MaxHeight(t.left) + 1 else 0;
      var right := if t.right.Node? then MaxHeight(t.right) + 1 else 0;
      if left > right then left else right
  }

  /** Where the height fields are right, maxHeight is one less than the root's height. */
  lemma {:induction false} MaxHeightMatchesField(t: Tree)
    requires HeightsOk(t) && t.Node?
    ensures MaxHeight(t) + 1 == t.height
  {
    if t.left.Node? { MaxHeightMatchesField(t.left); }
    if t.right.Node? { MaxHeightMatchesField(t.right); }
  }

  function Pow2(e: nat): nat
  {
    if e == 0 then 1 else 2 * Pow2(e - 1)
  }

  lemma {:induction false} Pow2Grows(a: nat, b: nat)
    requires a <= b
    ensures Pow2(a) <= Pow2(b)
    decreases b
  {
    if a < b { Pow2Grows(a, b - 1); }
  }

  /**
   * The balance rule bounds the height by the size: an AVL tree of height h
   * holds at least 2^(h/2) - 1 nodes, so its height is at most about twice
   * the logarithm of its size.
   */
  lemma {:induction false} AvlHeightBound(t: Tree)
    requires Avl(t)
    ensures Pow2(HeightOf(t) / 2) <= SizeOf(t) + 1
  {
    if t.Node? {
      var h := t.height;
      AvlHeightBound(t.left);
      AvlHeightBound(t.right);
      if h >= 2 {
        assert HeightOf(t.left) >= h - 2 && HeightOf(t.right) >= h - 2;
        Pow2Grows((h - 2) / 2, HeightOf(t.left) / 2);
        Pow2Grows((h - 2) / 2, HeightOf(t.right) / 2);
        assert Pow2(h / 2) == 2 * Pow2((h - 2) / 2);
      }
    }
  }

  /** max: the key of the rightmost node, 0 for an empty tree. */
  function MaxKey(t: Tree): (m: int)
    ensures t.Nil? ==> m == 0
    ensures t.Node? ==> m in Keys(t)
  {
    if t.Nil? then 0
    else if t.right.Nil? then t.data
    else MaxKey(t.right)
  }

  /** min: the key of the leftmost node, 0 for an empty tree. */
  function MinKey(t: Tree): (m: int)
    ensures t.Nil? ==> m == 0
    ensures t.Node? ==> m in Keys(t)
  {
    if t.Nil? then 0
    else if t.left.Nil? then t.data
    else MinKey(t.left)
  }

  /** In an ordered tree the rightmost key is the largest. */
  lemma {:induction false} MaxKeyIsLargest(t: Tree)
    requires Ordered(t)
    ensures forall y :: y in Keys(t) ==> y <= MaxKey(t)
  {
    if t.Node? && t.right.Node? {
      MaxKeyIsLargest(t.right);
      var m := MaxKey(t.right);
      assert m in Keys(t.right) && t.data < m;
      forall y | y in Keys(t) ensures y <= m {
        if y in Keys(t.left) { assert y < t.data; }
      }
    } else if t.Node? {
      assert MaxKey(t) == t.data && Keys(t.right) == {};
      forall y | y in Keys(t) ensures y <= MaxKey(t) {
        if y in Keys(t.left) { assert y < t.data; }
      }
    }
  }

  /** In an ordered tree the leftmost key is the smallest. */
  lemma {:induction false} MinKeyIsSmallest(t: Tree)
    requires Ordered(t)
    ensures forall y :: y in Keys(t) ==> MinKey(t) <= y
  {
    if t.Node? && t.left.Node? {
      MinKeyIsSmallest(t.left);
      var m := MinKey(t.left);
      assert m in Keys(t.left) && m < t.data;
      forall y | y in Keys(t) ensures m <= y {
        if y in Keys(t.right) { assert t.data < y; }
      }
    } else if t.Node? {
      assert MinKey(t) == t.data && Keys(t.left) == {};
      forall y | y in Keys(t) ensures MinKey(t) <= y {
        if y in Keys(t.right) { assert t.data < y; }
      }
    }
  }

  // ---------------------------------------------------------------------
  // The checks and loops of avl-test.c

  /**
   * The checks checkAVL makes, node by node: each child's key on the right
   * side of its parent's, the size sum at nodes with two children, the
   * child heights within one.
   */
  ghost predicate LocalOk(t: Tree)
  {
    t.Node? ==>
      (t.left.Node? ==> t.left.data < t.data && LocalOk(t.left)) &&
      (t.right.Node? ==> t.data < t.right.data && LocalOk(t.right)) &&
      (t.left.Node? && t.right.Node? ==> t.left.size + t.right.size == t.size - 1) &&
      -1 <= HeightOf(t.left) - HeightOf(t.right) <= 1
  }

  /** checkAVL: 0 when every node passes the local checks, nonzero otherwise. */
  function CheckAvl(t: Tree): (good: int)
    ensures -1 <= good <= 1
    ensures good == 0 <==> LocalOk(t)
  {
    if t.Nil? then 0
    else
      var g1 := if t.left.Node? && t.left.data >= t.data then -1 else 0;
      var g2 := if t.left.Node? then (if CheckAvl(t.left) != 0 || g1 != 0 then 1 else 0) else g1;
      var g3 := if t.right.Node? && t.right.data <= t.data then -1 else g2;
      var g4 := if t.right.Node? then (if CheckAvl(t.right) != 0 || g3 != 0 then 1 else 0) else g3;
      var g5 := if t.left.Node? && t.right.Node? && t.left.size + t.right.size != t.size - 1 then -1 else g4;
      var diff := HeightOf(t.left) - HeightOf(t.right);
      if diff > 1 || diff < -1 then -1 else g5
  }

  /** The global invariants imply every local check of checkAVL. */
  lemma {:induction false} AvlPassesCheck(t: Tree)
    requires Avl(t)
    ensures CheckAvl(t) == 0
  {
    if t.Node? {
      AvlPassesCheck(t.left);
      AvlPassesCheck(t.right);
      if t.left.Node? { assert t.left.data in Keys(t.left); }
      if t.right.Node? { assert t.right.data in Keys(t.right); }
    }
  }

  /** Insert the keys one after another; the return codes in order. */
  function InsertAll(t: Tree, xs: seq<int>): (res: (Tree, seq<int>))
    ensures |res.1| == |xs|
    decreases |xs|
  {
    if xs == [] then (t, [])
    else
      var first := Insert(t, xs[0]);
      var rest := InsertAll(first.0, xs[1..]);
      (rest.0, [first.1] + rest.1)
  }

  /** Remove the keys one after another; the return codes in order. */
  function RemoveAll(t: Tree, xs: seq<int>): (res: (Tree, seq<int>))
    ensures |res.1| == |xs|
    decreases |xs|
  {
    if xs == [] then (t, [])
    else
      var first := Remove(t, xs[0]);
      var rest := RemoveAll(first.0, xs[1..]);
      (rest.0, [first.1] + rest.1)
  }

  /** The keys a sequence lists. */
  function SetOf(xs: seq<int>): (s: set<int>)
    ensures forall x :: x in s <==> x in xs
  {
    if xs == [] then {} else {xs[0]} + SetOf(xs[1..])
  }

  /** How many of the return codes report success. */
  function Successes(codes: seq<int>): nat
  {
    if codes == [] then 0 else (if codes[0] == 0 then 1 else 0) + Successes(codes[1..])
  }

  /**
   * What a run of inserts achieves: an AVL tree holding the old keys and the
   * inserted ones, grown by exactly the number of inserts reported as
   * successful, so rejected duplicates plus the growth make up all attempts.
   */
  ghost predicate InsertAllPost(t: Tree, xs: seq<int>, res: (Tree, seq<int>))
  {
    Avl(res.0) &&
    Keys(res.0) == Keys(t) + SetOf(xs) &&
    |Keys(res.0)| == |Keys(t)| + Successes(res.1)
  }

  /** One insert followed by a run of inserts is a run of inserts. */
  lemma InsertThenRun(t: Tree, xs: seq<int>, first: (Tree, int), rest: (Tree, seq<int>))
    requires xs != [] && InsertPost(t, xs[0], first)
    requires InsertAllPost(first.0, xs[1..], rest)
    ensures InsertAllPost(t, xs, (rest.0, [first.1] + rest.1))
  {
    var codes := [first.1] + rest.1;
    assert codes[1..] == rest.1;
    assert SetOf(xs) == {xs[0]} + SetOf(xs[1..]);
    CountOne(Keys(t), Keys(first.0), xs[0], first.1 == 0);
  }

  /** Adding one key to a set grows it by one exactly when the key is new. */
  lemma CountOne(a: set<int>, b: set<int>, x: int, added: bool)
    requires b == a + {x} && (added <==> x !in a)
    ensures |b| == |a| + (if added then 1 else 0)
  {
    if x in a { assert b == a; }
  }

  /** The insert loop of avl-test.c keeps every invariant and loses no key. */
  lemma {:induction false} InsertAllCorrect(t: Tree, xs: seq<int>)
    requires Avl(t)
    ensures InsertAllPost(t, xs, InsertAll(t, xs))
    decreases |xs|
  {
    if xs != [] {
      var first := Insert(t, xs[0]);
      InsertCorrect(t, xs[0]);
      InsertAllCorrect(first.0, xs[1..]);
      var rest := InsertAll(first.0, xs[1..]);
      InsertThenRun(t, xs, first, rest);
      assert InsertAll(t, xs) == (rest.0, [first.1] + rest.1);
    }
  }

  /**
   * Removing, one by one, distinct keys that are exactly the tree's keys
   * succeeds every time and leaves the tree empty.
   */
  lemma {:induction false} RemoveAllDrains(t: Tree, xs: seq<int>)
    requires Avl(t)
    requires forall i, j :: 0 <= i < j < |xs| ==> xs[i] != xs[j]
    requires Keys(t) == SetOf(xs)
    ensures RemoveAll(t, xs).0 == Nil
    ensures forall i :: 0 <= i < |xs| ==> RemoveAll(t, xs).1[i] == 0
    decreases |xs|
  {
    if xs != [] {
      var first := Remove(t, xs[0]);
      RemoveCorrect(t, xs[0]);
      assert xs[0] !in xs[1..];
      assert Keys(first.0) == SetOf(xs[1..]);
      RemoveAllDrains(first.0, xs[1..]);
      var rest := RemoveAll(first.0, xs[1..]);
      assert RemoveAll(t, xs) == (rest.0, [first.1] + rest.1);
    }
  }
}
