/**
 * Value model of the unbalanced binary search tree in bst.c.
 *
 * A `Tree` is a subtree as the C code stores it: `Nil` is a NULL slot and a
 * `Node` carries the fields of `struct node` (bst.h), the stored `size`
 * included. A slot inside a tree is named by the path of child links that
 * leads to it from the subtree's root; `getParent` returns such a slot and
 * `removeNode` later writes through it. Each mutator is a function computing
 * the subtree it leaves in the caller's slot, step for step.
 */
module Bst {

  datatype Tree = Nil | Node(left: Tree, data: int, size: int, right: Tree)

  datatype Dir = Left | Right

  datatype Option<T> = None | Some(value: T)

  /** The size a slot contributes: the stored field, 0 for NULL. */
  function SizeOf(t: Tree): int { if t.Nil? then 0 else t.size }

  function Keys(t: Tree): (ks: set<int>)
    ensures t.Node? ==> t.data in ks
  {
    match t
    case Nil => {}
    case Node(l, x, _, r) => Keys(l) + {x} + Keys(r)
  }

  // ---------------------------------------------------------------------
  // The invariants of bst.h's `struct node`

  /** Strict global search order: left keys < data < right keys, everywhere. */
  ghost predicate Ordered(t: Tree)
  {
    match t
    case Nil => true
    case Node(l, x, _, r) =>
      Ordered(l) && Ordered(r) &&
      (forall y :: y in Keys(l) ==> y < x) &&
      (forall y :: y in Keys(r) ==> x < y)
  }

  /** Every stored size is size(left) + size(right) + 1. */
  ghost predicate SizesOk(t: Tree)
  {
    t.Node? ==>
      SizesOk(t.left) && SizesOk(t.right) &&
      t.size == SizeOf(t.left) + SizeOf(t.right) + 1
  }

  ghost predicate Valid(t: Tree)
  {
    Ordered(t) && SizesOk(t)
  }

  /** The links and keys of a tree, its size fields blanked out. */
  function Skeleton(t: Tree): Tree
  {
    match t
    case Nil => Nil
    case Node(l, x, _, r) => Node(Skeleton(l), x, 0, Skeleton(r))
  }

  // ---------------------------------------------------------------------
  // Slots

  /** The subtree in the slot that `path` leads to; `Nil` once it leaves the tree. */
  function At(t: Tree, path: seq<Dir>): Tree
    decreases |path|
  {
    if path == [] || t.Nil? then (if path == [] then t else Nil)
    else if path[0] == Left then At(t.left, path[1..])
    else At(t.right, path[1..])
  }

  /** `path` leads through nodes only, to a node or to an empty slot of one. */
  ghost predicate Reaches(t: Tree, path: seq<Dir>)
    decreases |path|
  {
    path == [] || (t.Node? && Reaches(if path[0] == Left then t.left else t.right, path[1..]))
  }

  /** Two paths that part somewhere: neither slot lies below the other. */
  ghost predicate Apart(p: seq<Dir>, q: seq<Dir>)
    decreases |p|
  {
    p != [] && q != [] && (p[0] != q[0] || Apart(p[1..], q[1..]))
  }

  /** The tree after `u` is stored into the slot that `path` leads to. */
  function Put(t: Tree, path: seq<Dir>, u: Tree): (v: Tree)
    ensures path != [] && t.Node? ==> v.Node? && v.data == t.data && v.size == t.size
    ensures Reaches(t, path) ==> Reaches(v, path) && At(v, path) == u
    decreases |path|
  {
    if path == [] then u
    else if t.Nil? then t
    else if path[0] == Left then t.(left := Put(t.left, path[1..], u))
    else t.(right := Put(t.right, path[1..], u))
  }

  // ---------------------------------------------------------------------
  // The mutators, as bst.c performs them

  /** insert: the subtree left in the slot, and the return code (0 inserted, -1 present). */
  function Insert(t: Tree, k: int): (res: (Tree, int))
    ensures res.1 == 0 || res.1 == -1
    ensures res.1 == -1 ==> res.0 == t
  {
    match t
    case Nil => (Node(Nil, k, 1, Nil), 0)
    case Node(l, x, s, r) =>
      if x == k then (t, -1)
      else if x > k then
        var sub := Insert(l, k);
        (Node(sub.0, x, if sub.1 == 0 then s + 1 else s, r), sub.1)
      else
        var sub := Insert(r, k);
        (Node(l, x, if sub.1 == 0 then s + 1 else s, sub.0), sub.1)
  }

  /**
   * getParent: the slot, strictly below the given node, whose node holds the
   * key; found by walking the search path and looking one link ahead.
   */
  function GetParent(t: Tree, k: int): (p: Option<seq<Dir>>)
    ensures p.Some? ==> |p.value| >= 1 && At(t, p.value).Node? && At(t, p.value).data == k
  {
    if t.Nil? then None
    else if t.data > k then
      if t.left.Nil? then None
      else if t.left.data == k then Some([Left])
      else
        var q := GetParent(t.left, k);
        if q.Some? then Some([Left] + q.value) else None
    else if t.data < k then
      if t.right.Nil? then None
      else if t.right.data == k then Some([Right])
      else
        var q := GetParent(t.right, k);
        if q.Some? then Some([Right] + q.value) else None
    else None
  }

  /**
   * decrementChain: lower the size of every node on the search path for the
   * key, stopping at the node that holds it.
   */
  function DecrementChain(t: Tree, k: int): (u: Tree)
    ensures Keys(u) == Keys(t) && Size(u) == Size(t)
    ensures Skeleton(u) == Skeleton(t)
    ensures Ordered(u) == Ordered(t)
  {
    match t
    case Nil => Nil
    case Node(l, x, s, r) =>
      if x == k then t
      else if x > k then Node(DecrementChain(l, k), x, s - 1, r)
      else Node(l, x, s - 1, DecrementChain(r, k))
  }

  /** min: the key of the leftmost node, 0 for an empty tree. */
  function MinKey(t: Tree): (m: int)
    ensures t.Nil? ==> m == 0
    ensures t.Node? ==> m in Keys(t)
  {
    if t.Nil? then 0
    else if t.left.Nil? then t.data
    else MinKey(t.left)
  }

  /** max: the key of the rightmost node, 0 for an empty tree. */
  function MaxKey(t: Tree): (m: int)
    ensures t.Nil? ==> m == 0
    ensures t.Node? ==> m in Keys(t)
  {
    if t.Nil? then 0
    else if t.right.Nil? then t.data
    else MaxKey(t.right)
  }

  /**
   * The part of removeNode that takes out the key of the node it stands on.
   * With a right subtree, the key is overwritten by that subtree's minimum and
   * the node that held the minimum is unlinked: directly when it is the right
   * child, otherwise through the slot getParent finds, after decrementChain
   * has lowered the sizes above it. Without a right subtree the same is done
   * with the left subtree's maximum; a leaf is dropped. The second component
   * is the return code: -1 only when getParent finds no slot, in which case
   * the key has already been overwritten and nothing else is changed. The
   * link read from the unlinked node is the one it had before decrementChain,
   * which changes sizes only.
   */
  function RemoveHere(t: Tree): (res: (Tree, int))
    requires t.Node?
    ensures res.1 == 0 || res.1 == -1
  {
    if t.right.Node? then
      var m := MinKey(t.right);
      if m == t.right.data then (Node(t.left, m, t.size - 1, t.right.right), 0)
      else
        var slot := GetParent(t.right, m);
        if slot.None? then (t.(data := m), -1)
        else
          var d := DecrementChain(t.right, m);
          (Node(t.left, m, t.size - 1, Put(d, slot.value, At(t.right, slot.value).right)), 0)
    else if t.left.Node? then
      var m := MaxKey(t.left);
      if m == t.left.data then (Node(t.left.left, m, t.size - 1, t.right), 0)
      else
        var slot := GetParent(t.left, m);
        if slot.None? then (t.(data := m), -1)
        else
          var d := DecrementChain(t.left, m);
          (Node(Put(d, slot.value, At(t.left, slot.value).left), m, t.size - 1, t.right), 0)
    else (Nil, 0)
  }

  /** removeNode: the subtree left in the slot, and the return code (0 removed, -1 not). */
  function Remove(t: Tree, k: int): (res: (Tree, int))
    ensures res.1 == 0 || res.1 == -1
  {
    match t
    case Nil => (Nil, -1)
    case Node(l, x, s, r) =>
      if x == k then RemoveHere(t)
      else if x > k then
        var sub := Remove(l, k);
        (Node(sub.0, x, if sub.1 == 0 then s - 1 else s, r), sub.1)
      else
        var sub := Remove(r, k);
        (Node(l, x, if sub.1 == 0 then s - 1 else s, sub.0), sub.1)
  }

  // ---------------------------------------------------------------------
  // The queries of bst.c

  /** find: 1 when the key is met on the search path, 0 otherwise. */
  function Find(t: Tree, k: int): (r: int)
    ensures r == 1 || r == 0
    ensures r == 1 ==> k in Keys(t)
  {
    if t.Nil? then 0
    else if t.data == k then 1
    else if t.data > k then Find(t.left, k)
    else Find(t.right, k)
  }

  /** size: the number of nodes, counted rather than read from the fields. */
  function Size(t: Tree): (n: nat)
    ensures n == 0 <==> t.Nil?
  {
    match t
    case Nil => 0
    case Node(l, _, _, r) => Size(l) + 1 + Size(r)
  }

  /**
   * maxHeight: the number of edges on the longest downward path, 0 for an
   * empty tree and for a leaf.
   */
  function MaxHeight(t: Tree): (e: nat)
    ensures t.Node? ==> e < Size(t)
  {
    if t.Nil? then 0
    else
      var left := if t.left.Node? then MaxHeight(t.left) + 1 else 0;
      var right := if t.right.Node? then MaxHeight(t.right) + 1 else 0;
      if left > right then left else right
  }

  /** The number of nodes on the longest downward path: 0 empty, 1 for a leaf. */
  function Levels(t: Tree): nat
  {
    match t
    case Nil => 0
    case Node(l, _, _, r) => 1 + (if Levels(l) > Levels(r) then Levels(l) else Levels(r))
  }

  // ---------------------------------------------------------------------
  // What insert achieves

  /**
   * What insert promises: the order and size invariants still hold, the key
   * set gains exactly the key, the return code tells whether it was new, and
   * the root's size grows by one exactly when it was.
   */
  ghost predicate InsertPost(t: Tree, k: int, res: (Tree, int))
  {
    Valid(res.0) &&
    Keys(res.0) == Keys(t) + {k} &&
    (res.1 == 0 <==> k !in Keys(t)) &&
    SizeOf(res.0) == SizeOf(t) + (if k in Keys(t) then 0 else 1)
  }

  lemma {:induction false} InsertCorrect(t: Tree, k: int)
    requires Valid(t)
    ensures InsertPost(t, k, Insert(t, k))
  {
    match t
    case Nil =>
    case Node(l, x, s, r) =>
      if x > k {
        InsertCorrect(l, k);
        assert k !in Keys(r);
        var sub := Insert(l, k);
        assert Insert(t, k) == (Node(sub.0, x, if sub.1 == 0 then s + 1 else s, r), sub.1);
      } else if x < k {
        InsertCorrect(r, k);
        assert k !in Keys(l);
        var sub := Insert(r, k);
        assert Insert(t, k) == (Node(l, x, if sub.1 == 0 then s + 1 else s, sub.0), sub.1);
      }
  }

  /** The links insert follows from the root: to the node holding the key or to an empty slot. */
  function SearchPath(t: Tree, k: int): seq<Dir>
  {
    if t.Nil? || t.data == k then []
    else if t.data > k then [Left] + SearchPath(t.left, k)
    else [Right] + SearchPath(t.right, k)
  }

  /**
   * Inserting an absent key hangs one new leaf, of size 1, in the empty slot
   * at the end of the search path; apart from the sizes on that path, every
   * other link and key stays as it was.
   */
  lemma {:induction false} InsertGrafts(t: Tree, k: int)
    requires k !in Keys(t)
    ensures Insert(t, k).1 == 0
    ensures var p := SearchPath(t, k);
      At(t, p) == Nil && At(Insert(t, k).0, p) == Node(Nil, k, 1, Nil) &&
      Skeleton(Insert(t, k).0) == Skeleton(Put(t, p, Node(Nil, k, 1, Nil)))
  {
    match t
    case Nil =>
    case Node(l, x, s, r) =>
      if x > k {
        InsertGrafts(l, k);
        var q := SearchPath(l, k);
        assert ([Left] + q)[1..] == q;
      } else {
        InsertGrafts(r, k);
        var q := SearchPath(r, k);
        assert ([Right] + q)[1..] == q;
      }
  }

  /** Storing into one slot leaves every slot apart from it as it was. */
  lemma {:induction false} PutElsewhere(t: Tree, path: seq<Dir>, u: Tree, q: seq<Dir>)
    requires Apart(path, q)
    ensures At(Put(t, path, u), q) == At(t, q)
    decreases |path|
  {
    if t.Node? && path[0] == q[0] {
      PutElsewhere(if path[0] == Left then t.left else t.right, path[1..], u, q[1..]);
    }
  }

  // ---------------------------------------------------------------------
  // What getParent and decrementChain compute

  /**
   * In an ordered tree getParent finds a slot exactly for the keys stored
   * strictly below the node it starts from.
   */
  lemma {:induction false} GetParentFinds(t: Tree, k: int)
    requires Ordered(t) && t.Node?
    ensures GetParent(t, k).Some? <==> k in Keys(t) && k != t.data
  {
    if t.data > k {
      assert k !in Keys(t.right);
      if t.left.Node? && t.left.data != k {
        GetParentFinds(t.left, k);
      }
    } else if t.data < k {
      assert k !in Keys(t.left);
      if t.right.Node? && t.right.data != k {
        GetParentFinds(t.right, k);
      }
    }
  }

  /**
   * The sizes decrementChain leaves for a key: each node's size is the number
   * of nodes in its subtree, less one exactly when the key's node lies
   * strictly below it.
   */
  ghost predicate SizesAbove(u: Tree, k: int)
  {
    u.Node? ==>
      SizesAbove(u.left, k) && SizesAbove(u.right, k) &&
      u.size == Size(u) - (if k in Keys(u) && k != u.data then 1 else 0)
  }

  /** A subtree without the key keeps sizes that are plain counts. */
  lemma {:induction false} SizesOkAbove(t: Tree, k: int)
    requires SizesOk(t) && k !in Keys(t)
    ensures SizesAbove(t, k)
  {
    if t.Node? {
      SizesOkAbove(t.left, k);
      SizesOkAbove(t.right, k);
      SizeMatchesField(t);
    }
  }

  /**
   * decrementChain lowers by one the size of exactly the nodes strictly above
   * the key's node and leaves every other size as it was.
   */
  lemma {:induction false} DecrementChainCounts(t: Tree, k: int)
    requires Valid(t) && k in Keys(t)
    ensures SizesAbove(DecrementChain(t, k), k)
  {
    if t.data == k {
      assert k !in Keys(t.left) && k !in Keys(t.right);
      SizesOkAbove(t.left, k);
      SizesOkAbove(t.right, k);
      SizeMatchesField(t);
    } else if t.data > k {
      assert k !in Keys(t.right);
      DecrementChainCounts(t.left, k);
      SizesOkAbove(t.right, k);
      SizeMatchesField(t);
    } else {
      assert k !in Keys(t.left);
      DecrementChainCounts(t.right, k);
      SizesOkAbove(t.left, k);
      SizeMatchesField(t);
    }
  }

  // ---------------------------------------------------------------------
  // What removeNode achieves

  /**
   * Unlinking the node that holds a subtree's minimum through the slot
   * getParent finds, after decrementChain, removes exactly that key and keeps
   * both invariants; the slot is always found.
   */
  lemma {:induction false} UnlinkMin(t: Tree, m: int)
    requires Valid(t) && t.Node? && m in Keys(t) && m != t.data
    requires forall y :: y in Keys(t) ==> m <= y
    ensures GetParent(t, m).Some?
    ensures
      var p := GetParent(t, m).value;
      var u := Put(DecrementChain(t, m), p, At(t, p).right);
      Valid(u) && Keys(u) == Keys(t) - {m} && SizeOf(u) == SizeOf(t) - 1
  {
    var l, x, s, r := t.left, t.data, t.size, t.right;
    assert m < x && m in Keys(l);
    if l.data == m {
      assert l.left.Nil? by { LeftmostHasNoLeft(l); }
      assert GetParent(t, m) == Some([Left]);
      assert DecrementChain(t, m) == Node(l, x, s - 1, r);
      var u := Node(l.right, x, s - 1, r);
      assert Put(DecrementChain(t, m), [Left], At(t, [Left]).right) == u;
      assert Keys(l) == {m} + Keys(l.right);
      assert m !in Keys(l.right);
    } else {
      UnlinkMin(l, m);
      var q := GetParent(l, m).value;
      var d := DecrementChain(l, m);
      var u := Put(d, q, At(l, q).right);
      assert GetParent(t, m) == Some([Left] + q);
      assert ([Left] + q)[1..] == q;
      assert At(t, [Left] + q) == At(l, q);
      assert DecrementChain(t, m) == Node(d, x, s - 1, r);
      assert Put(DecrementChain(t, m), [Left] + q, At(l, q).right) == Node(u, x, s - 1, r);
      assert m !in Keys(r);
    }
  }

  /** The mirror image of `UnlinkMin`, for a subtree's maximum. */
  lemma {:induction false} UnlinkMax(t: Tree, m: int)
    requires Valid(t) && t.Node? && m in Keys(t) && m != t.data
    requires forall y :: y in Keys(t) ==> y <= m
    ensures GetParent(t, m).Some?
    ensures
      var p := GetParent(t, m).value;
      var u := Put(DecrementChain(t, m), p, At(t, p).left);
      Valid(u) && Keys(u) == Keys(t) - {m} && SizeOf(u) == SizeOf(t) - 1
  {
    var l, x, s, r := t.left, t.data, t.size, t.right;
    assert x < m && m in Keys(r);
    if r.data == m {
      assert r.right.Nil? by { RightmostHasNoRight(r); }
      assert GetParent(t, m) == Some([Right]);
      assert DecrementChain(t, m) == Node(l, x, s - 1, r);
      var u := Node(l, x, s - 1, r.left);
      assert Put(DecrementChain(t, m), [Right], At(t, [Right]).left) == u;
      assert Keys(r) == Keys(r.left) + {m};
      assert m !in Keys(r.left);
    } else {
      UnlinkMax(r, m);
      var q := GetParent(r, m).value;
      var d := DecrementChain(r, m);
      var u := Put(d, q, At(r, q).left);
      assert GetParent(t, m) == Some([Right] + q);
      assert ([Right] + q)[1..] == q;
      assert At(t, [Right] + q) == At(r, q);
      assert DecrementChain(t, m) == Node(l, x, s - 1, d);
      assert Put(DecrementChain(t, m), [Right] + q, At(r, q).left) == Node(l, x, s - 1, u);
      assert m !in Keys(l);
    }
  }

  /** A node holding the smallest key of an ordered subtree has no left child. */
  lemma LeftmostHasNoLeft(t: Tree)
    requires Ordered(t) && t.Node?
    requires forall y :: y in Keys(t) ==> t.data <= y
    ensures t.left.Nil?
  {
    if t.left.Node? {
      assert t.left.data in Keys(t);
    }
  }

  /** A node holding the largest key of an ordered subtree has no right child. */
  lemma RightmostHasNoRight(t: Tree)
    requires Ordered(t) && t.Node?
    requires forall y :: y in Keys(t) ==> y <= t.data
    ensures t.right.Nil?
  {
    if t.right.Node? {
      assert t.right.data in Keys(t);
    }
  }

  /**
   * What removeNode promises: the invariants still hold, the key set loses
   * exactly the key, the return code tells whether it was there, the root's
   * size drops by one exactly when it was, and a missing key leaves the tree
   * untouched.
   */
  ghost predicate RemovePost(t: Tree, k: int, res: (Tree, int))
  {
    Valid(res.0) &&
    Keys(res.0) == Keys(t) - {k} &&
    (res.1 == 0 <==> k in Keys(t)) &&
    (k !in Keys(t) ==> res.0 == t) &&
    SizeOf(res.0) == SizeOf(t) - (if k in Keys(t) then 1 else 0)
  }

  /** The right child holds the right subtree's minimum: it moves up with its right subtree. */
  lemma PromoteRight(t: Tree)
    requires Valid(t) && t.Node? && t.right.Node? && MinKey(t.right) == t.right.data
    ensures RemovePost(t, t.data, (Node(t.left, t.right.data, t.size - 1, t.right.right), 0))
  {
    var l, x, r := t.left, t.data, t.right;
    assert SizesOk(l) && SizesOk(r);
    MinKeyIsSmallest(r);
    LeftmostHasNoLeft(r);
    assert x < r.data && x !in Keys(l) && x !in Keys(r);
    assert Keys(r) == {r.data} + Keys(r.right);
    assert forall y :: y in Keys(l) ==> y < r.data;
    assert SizeOf(r) == SizeOf(r.right) + 1;
  }

  /**
   * The right subtree's minimum sits deeper: getParent finds its slot, and
   * after decrementChain the slot takes the node's right subtree.
   */
  lemma SpliceRight(t: Tree)
    requires Valid(t) && t.Node? && t.right.Node? && MinKey(t.right) != t.right.data
    ensures GetParent(t.right, MinKey(t.right)).Some?
    ensures
      var r := t.right;
      var m := MinKey(r);
      var p := GetParent(r, m).value;
      RemovePost(t, t.data, (Node(t.left, m, t.size - 1, Put(DecrementChain(r, m), p, At(r, p).right)), 0))
  {
    var l, x, r := t.left, t.data, t.right;
    var m := MinKey(r);
    assert SizesOk(l) && SizesOk(r);
    MinKeyIsSmallest(r);
    assert x < m && x !in Keys(l) && x !in Keys(r);
    UnlinkMin(r, m);
    var p := GetParent(r, m).value;
    var u := Put(DecrementChain(r, m), p, At(r, p).right);
    assert Keys(r) == Keys(u) + {m};
  }

  /** Taking out the key of a node with a right subtree: its minimum moves up. */
  lemma RemoveHereRight(t: Tree)
    requires Valid(t) && t.Node? && t.right.Node?
    ensures RemovePost(t, t.data, RemoveHere(t))
  {
    if MinKey(t.right) == t.right.data {
      PromoteRight(t);
    } else {
      SpliceRight(t);
    }
  }

  /** The left child holds the left subtree's maximum: it moves up with its left subtree. */
  lemma PromoteLeft(t: Tree)
    requires Valid(t) && t.Node? && t.right.Nil? && t.left.Node? && MaxKey(t.left) == t.left.data
    ensures RemovePost(t, t.data, (Node(t.left.left, t.left.data, t.size - 1, t.right), 0))
  {
    var l, x := t.left, t.data;
    assert SizesOk(l);
    MaxKeyIsLargest(l);
    RightmostHasNoRight(l);
    assert l.data < x && x !in Keys(l);
    assert Keys(l) == Keys(l.left) + {l.data};
    assert SizeOf(l) == SizeOf(l.left) + 1;
  }

  /** The mirror of SpliceRight for the left subtree's maximum. */
  lemma SpliceLeft(t: Tree)
    requires Valid(t) && t.Node? && t.right.Nil? && t.left.Node? && MaxKey(t.left) != t.left.data
    ensures GetParent(t.left, MaxKey(t.left)).Some?
    ensures
      var l := t.left;
      var m := MaxKey(l);
      var p := GetParent(l, m).value;
      RemovePost(t, t.data, (Node(Put(DecrementChain(l, m), p, At(l, p).left), m, t.size - 1, t.right), 0))
  {
    var l, x := t.left, t.data;
    var m := MaxKey(l);
    assert SizesOk(l);
    MaxKeyIsLargest(l);
    assert m < x && x !in Keys(l);
    UnlinkMax(l, m);
    var p := GetParent(l, m).value;
    var u := Put(DecrementChain(l, m), p, At(l, p).left);
    assert Keys(l) == Keys(u) + {m};
  }

  /** Taking out the key of a node with only a left subtree: its maximum moves up. */
  lemma RemoveHereLeft(t: Tree)
    requires Valid(t) && t.Node? && t.right.Nil? && t.left.Node?
    ensures RemovePost(t, t.data, RemoveHere(t))
  {
    if MaxKey(t.left) == t.left.data {
      PromoteLeft(t);
    } else {
      SpliceLeft(t);
    }
  }

  lemma {:induction false} RemoveCorrect(t: Tree, k: int)
    requires Valid(t)
    ensures RemovePost(t, k, Remove(t, k))
  {
    match t
    case Nil =>
    case Node(l, x, s, r) =>
      if x == k {
        if r.Node? {
          RemoveHereRight(t);
        } else if l.Node? {
          RemoveHereLeft(t);
        } else {
          assert RemoveHere(t) == (Nil, 0);
        }
      } else if x > k {
        RemoveCorrect(l, k);
        assert k !in Keys(r);
        var sub := Remove(l, k);
        assert Remove(t, k) == (Node(sub.0, x, if sub.1 == 0 then s - 1 else s, r), sub.1);
      } else {
        RemoveCorrect(r, k);
        assert k !in Keys(l);
        var sub := Remove(r, k);
        assert Remove(t, k) == (Node(l, x, if sub.1 == 0 then s - 1 else s, sub.0), sub.1);
      }
  }

  // ---------------------------------------------------------------------
  // What the queries compute

  /** In an ordered tree find misses no key. */
  lemma {:induction false} FindComplete(t: Tree, k: int)
    requires Ordered(t) && k in Keys(t)
    ensures Find(t, k) == 1
  {
    if t.data > k {
      assert k !in Keys(t.right);
      FindComplete(t.left, k);
    } else if t.data < k {
      assert k !in Keys(t.left);
      FindComplete(t.right, k);
    }
  }

  /** Where the size fields are right, the count agrees with the root's field. */
  lemma {:induction false} SizeMatchesField(t: Tree)
    requires SizesOk(t)
    ensures Size(t) == SizeOf(t)
  {
    if t.Node? {
      SizeMatchesField(t.left);
      SizeMatchesField(t.right);
    }
  }

  /** In an ordered tree no key is stored twice, so the count is the number of keys. */
  lemma {:induction false} SizeCountsKeys(t: Tree)
    requires Ordered(t)
    ensures Size(t) == |Keys(t)|
  {
    if t.Node? {
      SizeCountsKeys(t.left);
      SizeCountsKeys(t.right);
      var a, b := Keys(t.left), Keys(t.right);
      assert a !! {t.data} && (a + {t.data}) !! b by {
        forall y | y in b ensures y !in a + {t.data} {
          assert t.data < y;
        }
      }
      assert |a + {t.data}| == |a| + 1;
      assert |a + {t.data} + b| == |a| + 1 + |b|;
    }
  }

  /** maxHeight counts edges: one less than the number of levels of a non-empty tree. */
  lemma {:induction false} MaxHeightCountsEdges(t: Tree)
    requires t.Node?
    ensures MaxHeight(t) + 1 == Levels(t)
  {
    if t.left.Node? { MaxHeightCountsEdges(t.left); }
    if t.right.Node? { MaxHeightCountsEdges(t.right); }
  }

  /** In an ordered tree the rightmost key is the largest. */
  lemma {:induction false} MaxKeyIsLargest(t: Tree)
    requires Ordered(t)
    ensures forall y :: y in Keys(t) ==> y <= MaxKey(t)
  {
    if t.Node? && t.right.Node? {
      MaxKeyIsLargest(t.right);
      var m := MaxKey(t.right);
      assert m in Keys(t.right) && t.data < m;
      forall y | y in Keys(t) ensures y <= m {
        if y in Keys(t.left) { assert y < t.data; }
      }
    } else if t.Node? {
      assert MaxKey(t) == t.data && Keys(t.right) == {};
      forall y | y in Keys(t) ensures y <= MaxKey(t) {
        if y in Keys(t.left) { assert y < t.data; }
      }
    }
  }

  /** In an ordered tree the leftmost key is the smallest. */
  lemma {:induction false} MinKeyIsSmallest(t: Tree)
    requires Ordered(t)
    ensures forall y :: y in Keys(t) ==> MinKey(t) <= y
  {
    if t.Node? && t.left.Node? {
      MinKeyIsSmallest(t.left);
      var m := MinKey(t.left);
      assert m in Keys(t.left) && m < t.data;
      forall y | y in Keys(t) ensures m <= y {
        if y in Keys(t.right) { assert t.data < y; }
      }
    } else if t.Node? {
      assert MinKey(t) == t.data && Keys(t.left) == {};
      forall y | y in Keys(t) ensures MinKey(t) <= y {
        if y in Keys(t.right) { assert t.data < y; }
      }
    }
  }
}
