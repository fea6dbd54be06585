/**
 * Model of the B-tree of btree.c: insertion and lookup.
 *
 * A node is a value holding its two arrays at their allocated lengths
 * (degree + 1 keys, degree + 2 child links) and its live count `size`.
 * Slots past the live range keep whatever calloc or earlier moves left in
 * them, as in the C arrays. The tree header of btree.h is a class whose
 * fields `btree_insert` updates in place. `memmove` and `memcpy` become
 * functions on sequences.
 */
module BTree {

  datatype Link = Null | Ptr(node: Node)

  datatype Node = Node(data: seq<int>, nodes: seq<Link>, size: nat)

  /** A key array fresh from calloc. */
  function Zeros(n: nat): (s: seq<int>)
    ensures |s| == n && forall i :: 0 <= i < n ==> s[i] == 0
  {
    seq(n, _ => 0)
  }

  /** A child array fresh from calloc: every link NULL. */
  function Nulls(n: nat): (s: seq<Link>)
    ensures |s| == n && forall i :: 0 <= i < n ==> s[i].Null?
  {
    seq(n, _ => Null)
  }

  /** create_btree_node: no keys, room for degree + 1 keys and degree + 2 links. */
  function NewNode(degree: nat): (n: Node)
    ensures Shape(n, degree, 1, degree) && Walk(n, 1) == []
  {
    Node(Zeros(degree + 1), Nulls(degree + 2), 0)
  }

  /** memmove of `count` slots starting at `at` one place up. */
  function Move<T>(a: seq<T>, at: nat, count: nat): (b: seq<T>)
    requires at + count < |a|
    ensures |b| == |a|
    ensures forall i :: 0 <= i < |a| ==> b[i] == if at < i <= at + count then a[i - 1] else a[i]
  {
    a[..at + 1] + a[at..at + count] + a[at + count + 1..]
  }

  /**
   * `b` is `a` with `x` grown in at `at`: the first `live` slots of `a`
   * sit in `b` with `x` in front of the ones from `at` on.
   */
  ghost predicate Opened<T>(a: seq<T>, b: seq<T>, at: nat, x: T, live: nat)
  {
    at <= live < |a| == |b| &&
    b[..at] == a[..at] && b[at] == x && b[at + 1..live + 1] == a[at..live]
  }

  /** memcpy of `src` to the front of `dst`. */
  function Copy<T>(dst: seq<T>, src: seq<T>): (b: seq<T>)
    requires |src| <= |dst|
    ensures |b| == |dst|
    ensures forall i :: 0 <= i < |dst| ==> b[i] == if i < |src| then src[i] else dst[i]
  {
    src + dst[|src|..]
  }

  // ---------------------------------------------------------------------
  // Keys in order

  ghost predicate Sorted(s: seq<int>)
  {
    forall i, j :: 0 <= i < j < |s| ==> s[i] < s[j]
  }

  /** `s` with `k` put in front of the first element that is not smaller. */
  function Place(s: seq<int>, k: int): seq<int>
  {
    if s == [] then [k]
    else if s[0] < k then [s[0]] + Place(s[1..], k)
    else [k] + s
  }

  /** The keys of the subtree on a link of a node of height `h`, in order. */
  ghost function Sub(l: Link, h: nat): seq<int>
    decreases h, 0
  {
    if l.Null? || h <= 1 then [] else Walk(l.node, h - 1)
  }

  /** Child 0, key 0, child 1, key 1, ... for the given keys and links. */
  ghost function Seam(ks: seq<int>, cs: seq<Link>, h: nat): seq<int>
    requires |ks| == |cs|
    decreases h, 1, |ks|
  {
    if ks == [] then [] else Sub(cs[0], h) + [ks[0]] + Seam(ks[1..], cs[1..], h)
  }

  /** The keys of the subtree of height `h` at `n`, in order: the live range only. */
  ghost function Walk(n: Node, h: nat): seq<int>
    decreases h, 2
  {
    if n.size < |n.nodes| && n.size <= |n.data| then
      Seam(n.data[..n.size], n.nodes[..n.size], h) + Sub(n.nodes[n.size], h)
    else []
  }

  /**
   * The layout every node keeps: arrays at their allocated lengths, at most
   * `cap` live keys, a leaf (height 1) without any child link, an inner node
   * with a child at every live position, each of height h - 1 holding at most
   * `degree` keys, so that all leaves sit at the same depth.
   */
  ghost predicate Shape(n: Node, degree: nat, h: nat, cap: nat)
    decreases h
  {
    h >= 1 && cap <= degree + 1 &&
    |n.data| == degree + 1 && |n.nodes| == degree + 2 && n.size <= cap &&
    (h == 1 ==> forall i :: 0 <= i < |n.nodes| ==> n.nodes[i].Null?) &&
    (h > 1 ==> forall i :: 0 <= i <= n.size ==>
       n.nodes[i].Ptr? && Shape(n.nodes[i].node, degree, h - 1, degree))
  }

  // ---------------------------------------------------------------------
  // The comparison after the scan

  /** The key test after the scan, confined to the live keys. */
  function Probe(n: Node, stop: nat, k: int): (r: bool)
    requires stop < |n.data|
    ensures r ==> stop < n.size
  {
    stop < n.size && n.data[stop] == k
  }

  /** The key test after the scan as btree.c writes it: the slot is read even at stop == size. */
  function ProbeAsWritten(n: Node, stop: nat, k: int): (r: bool)
    requires stop < |n.data|
    ensures stop < n.size ==> (r <==> Probe(n, stop, k))
  {
    n.data[stop] == k
  }

  // ---------------------------------------------------------------------
  // The split

  /**
   * The split of an overfull node `c` at `res` = c.size / 2: a fresh node
   * receives the keys after the median and the links after it, and `c`
   * keeps its arrays with its size halved.
   */
  function Cleave(c: Node, res: nat, degree: nat): (halves: (Node, Node))
    requires res < c.size <= |c.data| && c.size < |c.nodes|
    requires c.size - res - 1 <= degree + 1
    ensures halves.0.size + 1 + halves.1.size == c.size
    ensures halves.0.data == c.data && halves.0.nodes == c.nodes
    ensures |halves.1.data| == degree + 1 && |halves.1.nodes| == degree + 2
  {
    var back := c.size - res - 1;
    var blank := NewNode(degree);
    var right := Node(Copy(blank.data, c.data[res + 1..res + 1 + back]),
                      Copy(blank.nodes, c.nodes[res + 1..res + 2 + back]),
                      (c.size - 1) / 2);
    (c.(size := c.size / 2), right)
  }

  /** The root btree_insert makes for the first key. */
  function FirstRoot(k: int, degree: nat): (n: Node)
    ensures |n.data| == degree + 1 && n.size == 1 && n.data[0] == k && n.nodes == Nulls(degree + 2)
  {
    var n := NewNode(degree);
    n.(size := 1, data := n.data[0 := k])
  }

  /** The root btree_insert makes when the old root splits. */
  function SplitRoot(left: Node, up: int, right: Node, degree: nat): (n: Node)
    ensures |n.data| == degree + 1 && |n.nodes| == degree + 2
    ensures n.size == 1 && n.data[0] == up && n.nodes[0] == Ptr(left) && n.nodes[1] == Ptr(right)
    ensures forall i :: 2 <= i < |n.nodes| ==> n.nodes[i].Null?
  {
    var n := NewNode(degree);
    n.(data := n.data[0 := up], size := 1, nodes := n.nodes[0 := Ptr(left)][1 := Ptr(right)])
  }

  // ---------------------------------------------------------------------
  // Lemmas about the key walk

  lemma {:induction false} SeamAppend(a: seq<int>, b: seq<int>, c: seq<Link>, d: seq<Link>, h: nat)
    requires |a| == |c| && |b| == |d|
    ensures Seam(a + b, c + d, h) == Seam(a, c, h) + Seam(b, d, h)
    decreases |a|
  {
    if a == [] {
      assert a + b == b && c + d == d;
    } else {
      assert (a + b)[1..] == a[1..] + b;
      assert (c + d)[1..] == c[1..] + d;
      SeamAppend(a[1..], b, c[1..], d, h);
    }
  }

  /** The walk over a non-empty run of keys ends with the last key. */
  lemma SeamLast(ks: seq<int>, cs: seq<Link>, h: nat)
    requires |ks| == |cs| && |ks| > 0
    ensures Seam(ks, cs, h) == Seam(ks[..|ks| - 1], cs[..|cs| - 1], h) + Sub(cs[|cs| - 1], h) + [ks[|ks| - 1]]
  {
    var n := |ks|;
    var x, l := ks[n - 1], cs[n - 1];
    assert ks[..n - 1] + [x] == ks;
    assert cs[..n - 1] + [l] == cs;
    SeamAppend(ks[..n - 1], [x], cs[..n - 1], [l], h);
    assert Seam([x], [l], h) == Sub(l, h) + [x] by {
      assert [x][1..] == [] && [l][1..] == [];
    }
  }

  /** In a leaf the walk is the run of keys itself. */
  lemma {:induction false} SeamLeaf(ks: seq<int>, cs: seq<Link>)
    requires |ks| == |cs|
    ensures Seam(ks, cs, 1) == ks
    decreases |ks|
  {
    if ks != [] {
      SeamLeaf(ks[1..], cs[1..]);
    }
  }

  /** The walk of a node given by its live keys, its links in front of them and its last live link. */
  lemma WalkOf(n: Node, ks: seq<int>, cs: seq<Link>, last: Link, h: nat)
    requires n.size < |n.nodes| && n.size <= |n.data|
    requires n.data[..n.size] == ks && n.nodes[..n.size] == cs && n.nodes[n.size] == last
    ensures Walk(n, h) == Seam(ks, cs, h) + Sub(last, h)
  {
  }

  /** The keys before child `j`, in order. */
  ghost function Before(n: Node, j: nat, h: nat): seq<int>
    requires j <= n.size <= |n.data| && n.size < |n.nodes|
  {
    Seam(n.data[..j], n.nodes[..j], h)
  }

  /** The keys after child `j`, in order: key j first. */
  ghost function After(n: Node, j: nat, h: nat): seq<int>
    requires j <= n.size <= |n.data| && n.size < |n.nodes|
  {
    if j == n.size then []
    else [n.data[j]] + Seam(n.data[j + 1..n.size], n.nodes[j + 1..n.size], h) + Sub(n.nodes[n.size], h)
  }

  /** A node's walk cut around child `j`. */
  lemma WalkSplit(n: Node, j: nat, h: nat)
    requires j <= n.size <= |n.data| && n.size < |n.nodes|
    ensures Walk(n, h) == Before(n, j, h) + Sub(n.nodes[j], h) + After(n, j, h)
  {
    if j < n.size {
      var ks, cs := n.data[..n.size], n.nodes[..n.size];
      SeamAppend(ks[..j], ks[j..], cs[..j], cs[j..], h);
      assert ks[..j] + ks[j..] == ks && cs[..j] + cs[j..] == cs;
      assert ks[..j] == n.data[..j] && cs[..j] == n.nodes[..j];
      assert ks[j..][1..] == n.data[j + 1..n.size] && cs[j..][1..] == n.nodes[j + 1..n.size];
    }
  }

  lemma SortedMiddle(b: seq<int>, s: seq<int>, a: seq<int>)
    requires Sorted(b + s + a)
    ensures Sorted(s)
  {
    forall i, j | 0 <= i < j < |s|
      ensures s[i] < s[j]
    {
      assert s[i] == (b + s + a)[|b| + i] && s[j] == (b + s + a)[|b| + j];
    }
  }

  /**
   * The scan that stops at the first live key not below `k` divides the
   * node's keys: everything before child `stop` is below `k`, everything
   * after it is above `k` unless key `stop` is `k` itself, so `k` is in the
   * subtree exactly when the probe matches or `k` is under child `stop`.
   */
  lemma ScanDivides(n: Node, stop: nat, k: int, h: nat)
    requires stop <= n.size < |n.data| && n.size < |n.nodes|
    requires Sorted(Walk(n, h))
    requires forall i :: 0 <= i < stop ==> n.data[i] < k
    requires stop == n.size || k <= n.data[stop]
    ensures forall x :: x in Before(n, stop, h) ==> x < k
    ensures !Probe(n, stop, k) ==> forall x :: x in After(n, stop, h) ==> k < x
    ensures k in Walk(n, h) <==> Probe(n, stop, k) || k in Sub(n.nodes[stop], h)
  {
    WalkSplit(n, stop, h);
    var b, s, a := Before(n, stop, h), Sub(n.nodes[stop], h), After(n, stop, h);
    var w := b + s + a;
    if stop > 0 {
      SeamLast(n.data[..stop], n.nodes[..stop], h);
      assert b[|b| - 1] == n.data[stop - 1] < k;
      forall x | x in b
        ensures x < k
      {
        var i :| 0 <= i < |b| && b[i] == x;
        assert w[i] == x && w[|b| - 1] == b[|b| - 1];
      }
    }
    if stop < n.size {
      assert a[0] == n.data[stop];
      forall x | x in a && x != a[0]
        ensures a[0] < x
      {
        var i :| 0 <= i < |a| && a[i] == x;
        assert w[|b| + |s|] == a[0] && w[|b| + |s| + i] == x;
      }
    }
  }

  lemma {:induction false} PlaceAfter(s: seq<int>, a: seq<int>, k: int)
    requires forall x :: x in a ==> k < x
    ensures Place(s + a, k) == Place(s, k) + a
    decreases |s|
  {
    if s == [] {
      assert s + a == a;
      if a != [] {
        assert a[0] in a;
      }
    } else {
      assert (s + a)[0] == s[0] && (s + a)[1..] == s[1..] + a;
      if s[0] < k {
        PlaceAfter(s[1..], a, k);
      }
    }
  }

  lemma {:induction false} PlaceBefore(b: seq<int>, s: seq<int>, k: int)
    requires forall x :: x in b ==> x < k
    ensures Place(b + s, k) == b + Place(s, k)
    decreases |b|
  {
    if b == [] {
      assert b + s == s;
    } else {
      assert (b + s)[0] == b[0] && (b + s)[1..] == b[1..] + s;
      assert b[0] in b;
      assert forall x :: x in b[1..] ==> x in b;
      PlaceBefore(b[1..], s, k);
      assert b == [b[0]] + b[1..];
    }
  }

  /** Putting `k` into a walk that `k` falls in the middle of touches only the middle. */
  lemma PlaceAround(b: seq<int>, s: seq<int>, a: seq<int>, k: int)
    requires forall x :: x in b ==> x < k
    requires forall x :: x in a ==> k < x
    ensures Place(b + s + a, k) == b + Place(s, k) + a
  {
    PlaceBefore(b, s + a, k);
    PlaceAfter(s, a, k);
    assert b + s + a == b + (s + a);
  }

  /** `Place` adds `k` and nothing else, and keeps a sorted sequence without `k` sorted. */
  lemma {:induction false} PlaceAdds(s: seq<int>, k: int)
    ensures |Place(s, k)| == |s| + 1
    ensures forall x :: x in Place(s, k) <==> x in s || x == k
    ensures Sorted(s) && k !in s ==> Sorted(Place(s, k))
    decreases |s|
  {
    if s != [] && s[0] < k {
      PlaceAdds(s[1..], k);
      assert s == [s[0]] + s[1..];
      if Sorted(s) && k !in s {
        var r := Place(s, k);
        assert Sorted(Place(s[1..], k));
        forall i, j | 0 <= i < j < |r|
          ensures r[i] < r[j]
        {
          if i == 0 {
            assert r[j] in Place(s[1..], k);
            assert r[j] in s[1..] || r[j] == k;
          }
        }
      }
    }
  }

  /** The move and the store open the value in: the C's way of inserting into an array. */
  lemma MoveOpens<T>(a: seq<T>, at: nat, count: nat, x: T)
    requires at + count < |a|
    ensures Move(a, at, 0) == a
    ensures Opened(a, Move(a, at, count)[at := x], at, x, at + count)
  {
    assert a[..at + 1] + a[at + 1..] == a;
  }

  /**
   * The C's way of inserting into a node array: when `guard` holds, memmove
   * the slots from `at` to `live` one place up, then store `x` at `at`. The
   * guard may only be false when nothing is to be moved.
   */
  function OpenIn<T>(a: seq<T>, at: nat, live: nat, guard: bool, x: T): (b: seq<T>)
    requires at <= live < |a| && (guard || at == live)
    ensures Opened(a, b, at, x, live)
  {
    MoveOpens(a, at, live - at, x);
    (if guard then Move(a, at, live - at) else a)[at := x]
  }

  // ---------------------------------------------------------------------
  // The three ways _btree_insert changes a node

  /** A leaf walks to its live keys. */
  lemma LeafWalk(n: Node)
    requires n.size < |n.nodes| && n.size <= |n.data|
    ensures Walk(n, 1) == n.data[..n.size]
  {
    SeamLeaf(n.data[..n.size], n.nodes[..n.size]);
  }

  /** Opening `k` at the place the scan found is `Place` on the live keys. */
  lemma OpenedPlaces(live: seq<int>, grown: seq<int>, stop: nat, k: int)
    requires stop <= |live| && |grown| == |live| + 1
    requires grown[..stop] == live[..stop] && grown[stop] == k && grown[stop + 1..] == live[stop..]
    requires forall i :: 0 <= i < stop ==> live[i] < k
    requires stop == |live| || k < live[stop]
    ensures grown == Place(live, k)
  {
    var b, a := live[..stop], live[stop..];
    assert grown == b + [k] + a by {
      assert grown == grown[..stop] + [grown[stop]] + grown[stop + 1..];
    }
    assert live == b + a;
    forall x | x in b
      ensures x < k
    {
      var i :| 0 <= i < stop && b[i] == x;
    }
    PlaceBefore(b, a, k);
    if a != [] {
      assert a[0] == live[stop];
    }
    assert Place(a, k) == [k] + a;
  }

  /** The leaf branch: the key grown into the key array at `stop`. */
  lemma LeafInsert(n: Node, stop: nat, k: int, degree: nat, data: seq<int>)
    requires Shape(n, degree, 1, degree) && Sorted(Walk(n, 1))
    requires stop <= n.size && (stop == n.size || k < n.data[stop])
    requires forall i :: 0 <= i < stop ==> n.data[i] < k
    requires Opened(n.data, data, stop, k, n.size)
    ensures Shape(Node(data, n.nodes, n.size + 1), degree, 1, degree + 1)
    ensures Walk(Node(data, n.nodes, n.size + 1), 1) == Place(Walk(n, 1), k)
  {
    var m := Node(data, n.nodes, n.size + 1);
    LeafWalk(n);
    LeafWalk(m);
    assert data[..n.size + 1][..stop] == data[..stop];
    assert data[..n.size + 1][stop + 1..] == data[stop + 1..n.size + 1];
    assert n.data[..n.size][stop..] == n.data[stop..n.size];
    OpenedPlaces(n.data[..n.size], data[..n.size + 1], stop, k);
  }

  /** A node within a lower bound on its size fits the layout with that bound. */
  lemma ShapeCap(n: Node, degree: nat, h: nat, cap: nat, cap': nat)
    requires Shape(n, degree, h, cap) && n.size <= cap' <= degree + 1
    ensures Shape(n, degree, h, cap')
  {
  }

  /** Child `stop` of an inner node, and its walk. */
  lemma ChildOf(n: Node, stop: nat, degree: nat, h: nat)
    requires Shape(n, degree, h, degree) && h > 1 && stop <= n.size && Sorted(Walk(n, h))
    ensures n.nodes[stop].Ptr? && Shape(n.nodes[stop].node, degree, h - 1, degree)
    ensures Sub(n.nodes[stop], h) == Walk(n.nodes[stop].node, h - 1)
    ensures Sorted(Walk(n.nodes[stop].node, h - 1))
  {
    WalkSplit(n, stop, h);
    SortedMiddle(Before(n, stop, h), Sub(n.nodes[stop], h), After(n, stop, h));
  }

  /** Replacing child `stop` by one whose walk has `k` placed places `k` in the parent's walk. */
  lemma AdoptChildWalk(n: Node, stop: nat, k: int, h: nat, c: Link)
    requires stop <= n.size <= |n.data| && n.size < |n.nodes|
    requires forall y :: y in Before(n, stop, h) ==> y < k
    requires forall y :: y in After(n, stop, h) ==> k < y
    requires Sub(c, h) == Place(Sub(n.nodes[stop], h), k)
    ensures Walk(n.(nodes := n.nodes[stop := c]), h) == Place(Walk(n, h), k)
  {
    var m := n.(nodes := n.nodes[stop := c]);
    WalkSplit(n, stop, h);
    WalkSplit(m, stop, h);
    assert m.nodes[..stop] == n.nodes[..stop];
    if stop < n.size {
      assert m.nodes[stop + 1..n.size] == n.nodes[stop + 1..n.size];
    }
    PlaceAround(Before(n, stop, h), Sub(n.nodes[stop], h), After(n, stop, h), k);
  }

  /** The branch where the child `c` took the key without splitting (`r` is 0). */
  lemma AdoptChild(n: Node, stop: nat, k: int, degree: nat, h: nat, c: Node)
    requires Shape(n, degree, h, degree) && h > 1 && Sorted(Walk(n, h))
    requires stop <= n.size && (stop == n.size || k < n.data[stop])
    requires forall i :: 0 <= i < stop ==> n.data[i] < k
    requires Shape(c, degree, h - 1, degree) && Walk(c, h - 1) == Place(Walk(n.nodes[stop].node, h - 1), k)
    ensures Shape(n.(nodes := n.nodes[stop := Ptr(c)]), degree, h, degree)
    ensures Walk(n.(nodes := n.nodes[stop := Ptr(c)]), h) == Place(Walk(n, h), k)
  {
    ChildOf(n, stop, degree, h);
    ScanDivides(n, stop, k, h);
    AdoptChildWalk(n, stop, k, h, Ptr(c));
  }

  /** What the fresh right half of a split holds. */
  lemma CleaveRight(c: Node, res: nat, degree: nat)
    requires res < c.size <= |c.data| && c.size < |c.nodes| && c.size - res - 1 <= degree + 1
    ensures Cleave(c, res, degree).1.size == (c.size - 1) / 2
    ensures |Cleave(c, res, degree).1.data| == degree + 1 && |Cleave(c, res, degree).1.nodes| == degree + 2
    ensures forall i :: 0 <= i < degree + 2 ==>
      Cleave(c, res, degree).1.nodes[i] == if i <= c.size - res - 1 then c.nodes[res + 1 + i] else Null
    ensures Cleave(c, res, degree).1.data[..c.size - res - 1] == c.data[res + 1..c.size]
    ensures Cleave(c, res, degree).1.nodes[..c.size - res] == c.nodes[res + 1..c.size + 1]
  {
  }

  /** Both halves of a split fit the node layout again. */
  lemma CleaveShape(c: Node, res: nat, degree: nat, h: nat)
    requires degree >= 1 && Shape(c, degree, h, degree + 1) && c.size == degree + 1 && res == c.size / 2
    ensures Shape(Cleave(c, res, degree).0, degree, h, degree)
    ensures Shape(Cleave(c, res, degree).1, degree, h, degree)
  {
    var right := Cleave(c, res, degree).1;
    CleaveRight(c, res, degree);
    var back := c.size - res - 1;
    assert right.size == back;
    if h > 1 {
      forall i | 0 <= i <= back
        ensures right.nodes[i].Ptr? && Shape(right.nodes[i].node, degree, h - 1, degree)
      {
        assert right.nodes[i] == c.nodes[res + 1 + i];
      }
    }
  }

  /** The kept half, the median and the fresh half walk to what the split node walked to. */
  lemma CleaveWalk(c: Node, res: nat, degree: nat, h: nat)
    requires res == c.size / 2 && res < c.size <= |c.data| && c.size < |c.nodes| && c.size - res - 1 <= degree + 1
    ensures Walk(Cleave(c, res, degree).0, h) + [c.data[res]] + Walk(Cleave(c, res, degree).1, h) == Walk(c, h)
  {
    var left, right := Cleave(c, res, degree).0, Cleave(c, res, degree).1;
    CleaveRight(c, res, degree);
    var back := c.size - res - 1;
    assert right.size == back;
    assert right.nodes[..back] == c.nodes[res + 1..c.size];
    assert right.nodes[back] == c.nodes[c.size];
    WalkOf(right, c.data[res + 1..c.size], c.nodes[res + 1..c.size], c.nodes[c.size], h);
    WalkOf(left, c.data[..res], c.nodes[..res], c.nodes[res], h);
    WalkSplit(c, res, h);
    Regroup(Before(c, res, h), Sub(c.nodes[res], h), c.data[res],
            Seam(c.data[res + 1..c.size], c.nodes[res + 1..c.size], h), Sub(c.nodes[c.size], h));
  }

  lemma Regroup(a: seq<int>, b: seq<int>, x: int, c: seq<int>, d: seq<int>)
    ensures (a + b) + [x] + (c + d) == a + b + ([x] + c + d)
  {
  }

  /**
   * The split of an overfull node conserves its keys: the kept half, the
   * median and the fresh half walk to what the node walked to, and both
   * halves fit the node layout again.
   */
  lemma CleaveSplits(c: Node, res: nat, degree: nat, h: nat)
    requires degree >= 1 && Shape(c, degree, h, degree + 1) && c.size == degree + 1 && res == c.size / 2
    ensures Shape(Cleave(c, res, degree).0, degree, h, degree)
    ensures Shape(Cleave(c, res, degree).1, degree, h, degree)
    ensures Cleave(c, res, degree).0.size == c.size / 2
    ensures Cleave(c, res, degree).1.size == (c.size - 1) / 2
    ensures Cleave(c, res, degree).0.data[..c.size / 2] == c.data[..res]
    ensures Cleave(c, res, degree).1.data[..(c.size - 1) / 2] == c.data[res + 1..c.size]
    ensures Cleave(c, res, degree).1.nodes[..(c.size - 1) / 2 + 1] == c.nodes[res + 1..c.size + 1]
    ensures Walk(Cleave(c, res, degree).0, h) + [c.data[res]] + Walk(Cleave(c, res, degree).1, h) == Walk(c, h)
  {
    CleaveRight(c, res, degree);
    CleaveShape(c, res, degree, h);
    CleaveWalk(c, res, degree, h);
  }

  /** After a split of child `stop`, the parent's links still fit the layout, one more of them. */
  lemma AdoptSplitShape(n: Node, stop: nat, degree: nat, h: nat, left: Node, right: Node, data: seq<int>, nodes: seq<Link>, up: int)
    requires Shape(n, degree, h, degree) && h > 1 && stop <= n.size
    requires Shape(left, degree, h - 1, degree) && Shape(right, degree, h - 1, degree)
    requires Opened(n.data, data, stop, up, n.size)
    requires Opened(n.nodes, nodes, stop + 1, Ptr(right), n.size + 1)
    ensures Shape(Node(data, nodes[stop := Ptr(left)], n.size + 1), degree, h, degree + 1)
  {
    var m := Node(data, nodes[stop := Ptr(left)], n.size + 1);
    forall i | 0 <= i <= m.size
      ensures m.nodes[i].Ptr? && Shape(m.nodes[i].node, degree, h - 1, degree)
    {
      if i < stop {
        assert m.nodes[i] == nodes[..stop + 1][i] == n.nodes[i];
      } else if i > stop + 1 {
        assert m.nodes[i] == nodes[stop + 1..n.size + 2][i - stop - 1] == n.nodes[i - 1];
      }
    }
  }

  /** The keys after child `stop` once a key and a link are opened in behind it. */
  lemma AfterGrown(n: Node, m: Node, stop: nat, up: int, r: Link, h: nat)
    requires stop <= n.size <= |n.data| && n.size < |n.nodes|
    requires m.size == n.size + 1 <= |m.data| && m.size < |m.nodes|
    requires m.data[stop] == up && m.data[stop + 1..m.size] == n.data[stop..n.size]
    requires m.nodes[stop + 1] == r && m.nodes[stop + 2..m.size + 1] == n.nodes[stop + 1..n.size + 1]
    ensures After(m, stop, h) == [up] + Sub(r, h) + After(n, stop, h)
  {
    if stop < n.size {
      var tail := n.nodes[stop + 1..n.size];
      assert m.nodes[stop + 1..m.size] == [r] + tail by {
        assert m.nodes[stop + 1..m.size] == [m.nodes[stop + 1]] + m.nodes[stop + 2..m.size];
        assert m.nodes[stop + 2..m.size] == m.nodes[stop + 2..m.size + 1][..n.size - stop - 1];
        assert n.nodes[stop + 1..n.size + 1][..n.size - stop - 1] == tail;
      }
      assert m.nodes[m.size] == m.nodes[stop + 2..m.size + 1][n.size - stop - 1];
      var ks := n.data[stop..n.size];
      assert ks[1..] == n.data[stop + 1..n.size] && ([r] + tail)[1..] == tail;
    } else {
      assert m.nodes[m.size] == m.nodes[stop + 1];
    }
  }

  /**
   * After a split of child `stop`, the parent walks to its old walk with `k`
   * placed, given that `k` falls between the keys before and after that child.
   */
  lemma AdoptSplitWalk(n: Node, stop: nat, k: int, h: nat, left: Node, up: int, right: Node, data: seq<int>, nodes: seq<Link>)
    requires stop <= n.size <= |n.data| && n.size < |n.nodes| && h > 1
    requires forall y :: y in Before(n, stop, h) ==> y < k
    requires forall y :: y in After(n, stop, h) ==> k < y
    requires Walk(left, h - 1) + [up] + Walk(right, h - 1) == Place(Sub(n.nodes[stop], h), k)
    requires Opened(n.data, data, stop, up, n.size)
    requires Opened(n.nodes, nodes, stop + 1, Ptr(right), n.size + 1)
    ensures Walk(Node(data, nodes[stop := Ptr(left)], n.size + 1), h) == Place(Walk(n, h), k)
  {
    var m := Node(data, nodes[stop := Ptr(left)], n.size + 1);
    var b, s, a := Before(n, stop, h), Sub(n.nodes[stop], h), After(n, stop, h);
    WalkSplit(n, stop, h);
    assert Walk(m, h) == b + Walk(left, h - 1) + ([up] + Walk(right, h - 1) + a) by {
      WalkSplit(m, stop, h);
      assert Before(m, stop, h) == b by {
        assert m.nodes[..stop] == nodes[..stop + 1][..stop] == n.nodes[..stop];
      }
      AfterGrown(n, m, stop, up, Ptr(right), h);
    }
    Reassemble(Walk(n, h), Walk(m, h), b, s, a, Walk(left, h - 1), up, Walk(right, h - 1), k);
  }

  /** A walk whose middle part was replaced by the two halves and median of its placed form. */
  lemma Reassemble(wn: seq<int>, wm: seq<int>, b: seq<int>, s: seq<int>, a: seq<int>,
                   l: seq<int>, x: int, r: seq<int>, k: int)
    requires wn == b + s + a && wm == b + l + ([x] + r + a)
    requires l + [x] + r == Place(s, k)
    requires forall y :: y in b ==> y < k
    requires forall y :: y in a ==> k < y
    ensures wm == Place(wn, k)
  {
    assert wm == b + (l + [x] + r) + a;
    PlaceAround(b, s, a, k);
  }

  /**
   * The branch where the child split: the parent opens the median and a link
   * to the fresh right half in behind child `stop`, which becomes the kept left half.
   */
  lemma AdoptHalves(n: Node, stop: nat, k: int, degree: nat, h: nat, left: Node, up: int, right: Node, data: seq<int>, nodes: seq<Link>)
    requires Shape(n, degree, h, degree) && h > 1 && Sorted(Walk(n, h))
    requires stop <= n.size && (stop == n.size || k < n.data[stop])
    requires forall i :: 0 <= i < stop ==> n.data[i] < k
    requires Shape(left, degree, h - 1, degree) && Shape(right, degree, h - 1, degree)
    requires Walk(left, h - 1) + [up] + Walk(right, h - 1) == Place(Walk(n.nodes[stop].node, h - 1), k)
    requires Opened(n.data, data, stop, up, n.size)
    requires Opened(n.nodes, nodes, stop + 1, Ptr(right), n.size + 1)
    ensures Shape(Node(data, nodes[stop := Ptr(left)], n.size + 1), degree, h, degree + 1)
    ensures Walk(Node(data, nodes[stop := Ptr(left)], n.size + 1), h) == Place(Walk(n, h), k)
  {
    AdoptSplitShape(n, stop, degree, h, left, right, data, nodes, up);
    ChildOf(n, stop, degree, h);
    ScanDivides(n, stop, k, h);
    AdoptSplitWalk(n, stop, k, h, left, up, right, data, nodes);
  }

  /** The branch where the child `c` came back overfull with its median at `r`. */
  lemma AdoptSplit(n: Node, stop: nat, k: int, degree: nat, h: nat, c: Node, r: int)
    requires degree >= 1 && Shape(n, degree, h, degree) && h > 1 && Sorted(Walk(n, h))
    requires stop <= n.size && (stop == n.size || k < n.data[stop])
    requires forall i :: 0 <= i < stop ==> n.data[i] < k
    requires r > 0
    requires Shape(c, degree, h - 1, degree + 1) && Walk(c, h - 1) == Place(Walk(n.nodes[stop].node, h - 1), k)
    requires r > 0 <==> c.size > degree
    requires r > 0 ==> r == c.size / 2
    ensures var halves := Cleave(c, r, degree);
      var m := Node(OpenIn(n.data, stop, n.size, stop < degree, c.data[r]),
                    OpenIn(n.nodes, stop + 1, n.size + 1, stop + 1 <= degree, Ptr(halves.1))[stop := Ptr(halves.0)],
                    n.size + 1);
      Shape(m, degree, h, degree + 1) && Walk(m, h) == Place(Walk(n, h), k)
  {
    assert Shape(c, degree, h - 1, degree + 1) && c.size == degree + 1 && r == c.size / 2;
    assert Walk(c, h - 1) == Place(Walk(n.nodes[stop].node, h - 1), k);
    var halves := Cleave(c, r, degree);
    CleaveSplits(c, r, degree, h - 1);
    AdoptHalves(n, stop, k, degree, h, halves.0, c.data[r], halves.1,
                OpenIn(n.data, stop, n.size, stop < degree, c.data[r]),
                OpenIn(n.nodes, stop + 1, n.size + 1, stop + 1 <= degree, Ptr(halves.1)));
  }

  // ---------------------------------------------------------------------
  // _btree_insert and _btree_find

  /**
   * The leaf case of _btree_insert: `k` is opened in at `stop`, behind the
   * keys below it, and the node grows by one.
   */
  method PlaceInLeaf(n: Node, stop: nat, k: int, degree: nat) returns (m: Node)
    requires Shape(n, degree, 1, degree) && Sorted(Walk(n, 1))
    requires stop <= n.size && (stop == n.size || k < n.data[stop])
    requires forall i :: 0 <= i < stop ==> n.data[i] < k
    ensures Shape(m, degree, 1, degree + 1) && Walk(m, 1) == Place(Walk(n, 1), k)
    ensures m.size == n.size + 1
  {
    var data := OpenIn(n.data, stop, n.size, stop < degree, k);
    m := n.(data := data, size := n.size + 1);
    LeafInsert(n, stop, k, degree, data);
  }

  /**
   * The second half of _btree_insert's inner-node case: the child at `stop`
   * came back from the recursion as `c`. With `r == 0` it is stored back;
   * with `r > 0` it overflowed, and its median `up` (at index `r`) is opened
   * in at `stop`, the child keeps its first half, and a new node with its
   * second half is linked in behind it.
   */
  method Adopt(n: Node, stop: nat, k: int, degree: nat, ghost h: nat, c: Node, r: int, up: int) returns (m: Node)
    requires degree >= 1 && Shape(n, degree, h, degree) && h > 1 && Sorted(Walk(n, h))
    requires stop <= n.size && (stop == n.size || k < n.data[stop])
    requires forall i :: 0 <= i < stop ==> n.data[i] < k
    requires r >= 0
    requires Shape(c, degree, h - 1, degree + 1) && Walk(c, h - 1) == Place(Walk(n.nodes[stop].node, h - 1), k)
    requires r > 0 <==> c.size > degree
    requires r > 0 ==> r == c.size / 2 && up == c.data[r]
    ensures Shape(m, degree, h, degree + 1) && Walk(m, h) == Place(Walk(n, h), k)
    ensures m.size == if r > 0 then n.size + 1 else n.size
  {
    if r > 0 {
      var data := OpenIn(n.data, stop, n.size, stop < degree, up);
      var halves := Cleave(c, r, degree);
      var nodes := OpenIn(n.nodes, stop + 1, n.size + 1, stop + 1 <= degree, Ptr(halves.1));
      // the child keeps its arrays with its size halved
      m := Node(data, nodes[stop := Ptr(halves.0)], n.size + 1);
      AdoptSplit(n, stop, k, degree, h, c, r);
    } else {
      m := n.(nodes := n.nodes[stop := Ptr(c)]);
      assert Shape(c, degree, h - 1, degree) by {
        ShapeCap(c, degree, h - 1, degree + 1, degree);
      }
      AdoptChild(n, stop, k, degree, h, c);
      ShapeCap(m, degree, h, degree, degree + 1);
    }
  }

  /**
   * The inner-node case of _btree_insert: `k` goes into child `stop`; -1 if
   * it is already there, else the child's result is adopted.
   */
  method Descend(n: Node, stop: nat, k: int, degree: nat, ghost h: nat) returns (m: Node, res: int)
    requires degree >= 1 && Shape(n, degree, h, degree) && Sorted(Walk(n, h))
    requires stop <= n.size && (stop == n.size || k < n.data[stop])
    requires forall i :: 0 <= i < stop ==> n.data[i] < k
    requires n.nodes[stop].Ptr?
    ensures res == 0 || res == -1
    ensures res == -1 <==> k in Sub(n.nodes[stop], h)
    ensures res == -1 ==> m == n
    ensures res == 0 ==> Shape(m, degree, h, degree + 1) && Walk(m, h) == Place(Walk(n, h), k)
    decreases h, 0
  {
    assert h > 1 && Sub(n.nodes[stop], h) == Walk(n.nodes[stop].node, h - 1) &&
      Shape(n.nodes[stop].node, degree, h - 1, degree) && Sorted(Walk(n.nodes[stop].node, h - 1)) by {
      ChildOf(n, stop, degree, h);
    }
    var c, r, up := InsertInto(n.nodes[stop].node, k, degree, h - 1);
    if r < 0 {
      return n, -1;
    }
    m := Adopt(n, stop, k, degree, h, c, r, up);
    res := 0;
  }

  /**
   * _btree_insert: puts `k` into the subtree at `n` of height `h`. Returns the
   * new node, -1 if `k` is already there (node unchanged), or else the
   * node with `k` placed among its keys, and, when that leaves the node with
   * more than `degree` keys, the median index as `res` and the median key as
   * `lift` for the parent to take.
   */
  method InsertInto(n: Node, k: int, degree: nat, ghost h: nat) returns (m: Node, res: int, lift: int)
    requires degree >= 1 && Shape(n, degree, h, degree) && Sorted(Walk(n, h))
    ensures res >= -1
    ensures res == -1 <==> k in Walk(n, h)
    ensures res == -1 ==> m == n
    ensures res != -1 ==> Shape(m, degree, h, degree + 1) && Walk(m, h) == Place(Walk(n, h), k)
    ensures res != -1 ==> (res > 0 <==> m.size > degree)
    ensures res > 0 ==> res == m.size / 2 && lift == m.data[res]
    decreases h, 1
  {
    var stop := 0;
    while stop < n.size && k > n.data[stop]
      invariant stop <= n.size
      invariant forall i :: 0 <= i < stop ==> n.data[i] < k
    {
      stop := stop + 1;
    }
    assert k in Walk(n, h) <==> Probe(n, stop, k) || k in Sub(n.nodes[stop], h) by {
      ScanDivides(n, stop, k, h);
    }
    if Probe(n, stop, k) {
      return n, -1, 0;
    }
    lift := 0;
    if n.nodes[stop].Null? {
      res := 0;
      // a leaf: open the key in at `stop`
      m := PlaceInLeaf(n, stop, k, degree);
    } else {
      m, res := Descend(n, stop, k, degree, h);
    }
    if m.size > degree {
      lift := m.data[m.size / 2];
      res := m.size / 2;
    }
  }

  /** _btree_find: 1 if `k` is in the subtree at `n` of height `h`, else 0. */
  method FindIn(n: Node, k: int, degree: nat, ghost h: nat) returns (r: int)
    requires Shape(n, degree, h, degree) && Sorted(Walk(n, h))
    ensures r == 0 || r == 1
    ensures r == 1 <==> k in Walk(n, h)
    decreases h
  {
    var stop := 0;
    while stop < n.size && k > n.data[stop]
      invariant stop <= n.size
      invariant forall i :: 0 <= i < stop ==> n.data[i] < k
    {
      stop := stop + 1;
    }
    ScanDivides(n, stop, k, h);
    if Probe(n, stop, k) {
      return 1;
    } else if n.nodes[stop].Null? {
      return 0;
    }
    ChildOf(n, stop, degree, h);
    r := FindIn(n.nodes[stop].node, k, degree, h - 1);
  }

  // ---------------------------------------------------------------------
  // Facts about whole nodes and roots

  /** Every key of a seam shows up in its walk. */
  lemma {:induction false} SeamHas(ks: seq<int>, cs: seq<Link>, h: nat)
    requires |ks| == |cs|
    ensures forall i :: 0 <= i < |ks| ==> ks[i] in Seam(ks, cs, h)
    decreases |ks|
  {
    if ks != [] {
      SeamHas(ks[1..], cs[1..], h);
      forall i | 0 < i < |ks|
        ensures ks[i] in Seam(ks, cs, h)
      {
        assert ks[i] == ks[1..][i - 1];
      }
    }
  }

  /** In a sorted concatenation everything in front is below everything behind. */
  lemma SortedApart(b: seq<int>, s: seq<int>, a: seq<int>)
    requires Sorted(b + s + a)
    ensures forall x, y :: x in b && y in a ==> x < y
  {
    forall x, y | x in b && y in a
      ensures x < y
    {
      var i :| 0 <= i < |b| && b[i] == x;
      var j :| 0 <= j < |a| && a[j] == y;
      assert (b + s + a)[i] == x && (b + s + a)[|b| + |s| + j] == y;
    }
  }

  /** The live keys of a node whose walk is sorted are strictly ascending. */
  lemma LiveKeysAscending(n: Node, h: nat)
    requires n.size < |n.nodes| && n.size <= |n.data| && Sorted(Walk(n, h))
    ensures forall i, j :: 0 <= i < j < n.size ==> n.data[i] < n.data[j]
  {
    forall i, j | 0 <= i < j < n.size
      ensures n.data[i] < n.data[j]
    {
      WalkSplit(n, j, h);
      SeamHas(n.data[..j], n.nodes[..j], h);
      assert n.data[..j][i] == n.data[i];
      assert n.data[i] in Before(n, j, h);
      assert After(n, j, h)[0] == n.data[j];
      assert n.data[j] in After(n, j, h);
      SortedApart(Before(n, j, h), Sub(n.nodes[j], h), After(n, j, h));
    }
  }

  /** A sorted sequence holds as many distinct keys as it has elements. */
  lemma {:induction false} SortedCount(s: seq<int>)
    requires Sorted(s)
    ensures |set x | x in s| == |s|
    decreases |s|
  {
    if s != [] {
      var t := s[1..];
      assert Sorted(t) by {
        forall i, j | 0 <= i < j < |t|
          ensures t[i] < t[j]
        {
          assert t[i] == s[i + 1] && t[j] == s[j + 1];
        }
      }
      SortedCount(t);
      assert s[0] !in t by {
        forall i | 0 <= i < |t|
          ensures t[i] != s[0]
        {
          assert t[i] == s[i + 1];
        }
      }
      assert (set x | x in s) == (set x | x in t) + {s[0]} by {
        assert s == [s[0]] + t;
      }
    }
  }

  /** Placing a new key into sorted keys keeps them sorted and adds exactly that key. */
  lemma Grows(s: seq<int>, k: int)
    requires Sorted(s) && k !in s
    ensures Sorted(Place(s, k)) && |Place(s, k)| == |s| + 1
    ensures (set x | x in Place(s, k)) == (set x | x in s) + {k}
  {
    PlaceAdds(s, k);
  }

  /** The first root holds just the key. */
  lemma FirstRootWalk(k: int, degree: nat)
    requires degree >= 1
    ensures Shape(FirstRoot(k, degree), degree, 1, degree)
    ensures Walk(FirstRoot(k, degree), 1) == [k]
  {
    var n := FirstRoot(k, degree);
    WalkOf(n, [k], [Null], Null, 1);
    assert n.data[..1] == [k] && n.nodes[..1] == [Null];
  }

  /**
   * The root split of btree_insert: the halves of the overfull old root go
   * under a new root holding only the median, one level higher; the keys
   * in order stay as they were.
   */
  lemma RootSplit(m: Node, res: nat, degree: nat, h: nat)
    requires degree >= 1 && Shape(m, degree, h, degree + 1) && m.size == degree + 1 && res == m.size / 2
    ensures var halves := Cleave(m, res, degree);
      Shape(SplitRoot(halves.0, m.data[res], halves.1, degree), degree, h + 1, degree)
    ensures var halves := Cleave(m, res, degree);
      Walk(SplitRoot(halves.0, m.data[res], halves.1, degree), h + 1) == Walk(m, h)
  {
    var halves := Cleave(m, res, degree);
    CleaveSplits(m, res, degree, h);
    var root := SplitRoot(halves.0, m.data[res], halves.1, degree);
    WalkOf(root, [m.data[res]], [Ptr(halves.0)], Ptr(halves.1), h + 1);
    assert root.data[..1] == [m.data[res]] && root.nodes[..1] == [Ptr(halves.0)];
    assert Seam([m.data[res]], [Ptr(halves.0)], h + 1) == Walk(halves.0, h) + [m.data[res]] by {
      assert [m.data[res]][1..] == [];
    }
  }

  /**
   * The probe as btree.c writes it matches a slot past the live keys: with
   * degree 3 and only -5 inserted, the scan for 0 passes key -5 and stops
   * at the first stale slot, which calloc left at 0, although 0 is no key.
   */
  lemma StaleSlotMatches()
    ensures var n := FirstRoot(-5, 3);
      Shape(n, 3, 1, 3) && Sorted(Walk(n, 1)) &&
      n.size == 1 && n.data[0] < 0 &&
      ProbeAsWritten(n, 1, 0) && !Probe(n, 1, 0) && 0 !in Walk(n, 1)
  {
    FirstRootWalk(-5, 3);
  }

  // ---------------------------------------------------------------------
  // Roots

  /** The keys under a root link whose leaves sit at depth `height`, in order. */
  ghost function Contents(root: Link, height: nat): seq<int>
  {
    if root.Null? then [] else Walk(root.node, height)
  }

  /** A root link that holds a well-shaped tree of sorted keys. */
  ghost predicate Rooted(root: Link, height: nat, degree: nat)
  {
    (root.Null? <==> height == 0) &&
    (root.Ptr? ==> Shape(root.node, degree, height, degree)) &&
    Sorted(Contents(root, height))
  }

  /**
   * The work btree_insert does on the root link: the first key makes a root
   * of its own; otherwise the key goes in below the root, and a root that
   * overflows splits under a new root with one key and two children, one
   * level higher. -1 if `k` is already there, with the root unchanged.
   */
  method InsertAtRoot(root: Link, ghost height: nat, degree: nat, k: int) returns (top: Link, ghost depth: nat, r: int)
    requires degree >= 1 && Rooted(root, height, degree)
    ensures r == 0 || r == -1
    ensures r == -1 <==> k in Contents(root, height)
    ensures r == -1 ==> top == root && depth == height
    ensures r == 0 ==> Rooted(top, depth, degree) && Contents(top, depth) == Place(Contents(root, height), k)
    ensures r == 0 ==> |Contents(top, depth)| == |Contents(root, height)| + 1
    ensures r == 0 ==> (set x | x in Contents(top, depth)) == (set x | x in Contents(root, height)) + {k}
    ensures root.Null? ==> top == Ptr(FirstRoot(k, degree))
    ensures root.Ptr? ==> depth == height || depth == height + 1
    ensures root.Ptr? && depth == height + 1 ==>
      top.Ptr? && top.node.size == 1 && top.node.nodes[0].Ptr? && top.node.nodes[1].Ptr?
  {
    ghost var e := Contents(root, height);
    if root.Null? {
      top, depth, r := Ptr(FirstRoot(k, degree)), 1, 0;
      FirstRootWalk(k, degree);
      Grows(e, k);
      return;
    }
    var m, res, up := InsertInto(root.node, k, degree, height);
    if res < 0 {
      return root, height, -1;
    }
    Grows(e, k);
    if res == 0 {
      ShapeCap(m, degree, height, degree + 1, degree);
      return Ptr(m), height, 0;
    }
    // the root overflowed: its halves go under a new root
    RootSplit(m, res, degree, height);
    var halves := Cleave(m, res, degree);
    top, depth, r := Ptr(SplitRoot(halves.0, up, halves.1, degree)), height + 1, 0;
  }

  // ---------------------------------------------------------------------
  // struct btree

  /**
   * The tree header of btree.h: the degree, the number of keys and the
   * root. `height` is the ghost depth of the leaves (0 for no root).
   */
  class Tree {
    var degree: nat
    var size: nat
    var root: Link
    ghost var height: nat

    /** The keys of the tree, in order. */
    ghost function Elements(): seq<int>
      reads this
    {
      Contents(root, height)
    }

    ghost function Keys(): set<int>
      reads this
    {
      set x | x in Elements()
    }

    ghost predicate Valid()
      reads this
    {
      degree >= 1 && Rooted(root, height, degree) && size == |Elements()|
    }

    /** The initializer `{degree, 0, NULL}` of an empty tree. */
    constructor (degree: nat)
      requires degree >= 1
      ensures Valid() && this.degree == degree && size == 0 && Elements() == []
    {
      this.degree := degree;
      size := 0;
      root := Null;
      height := 0;
    }

    /** `size` counts the distinct keys of a valid tree. */
    lemma SizeCountsKeys()
      requires Valid()
      ensures size == |Keys()|
    {
      SortedCount(Elements());
    }

    /**
     * btree_insert: 0 if `k` was added, -1 if it was already there; the
     * size counts the added key.
     */
    method Insert(k: int) returns (r: int)
      requires Valid()
      modifies this
      ensures Valid() && degree == old(degree)
      ensures r == 0 || r == -1
      ensures r == -1 <==> k in old(Keys())
      ensures Keys() == old(Keys()) + {k}
      ensures Elements() == if r == -1 then old(Elements()) else Place(old(Elements()), k)
      ensures size == if r == 0 then old(size) + 1 else old(size)
      ensures r == -1 ==> root == old(root) && height == old(height)
      ensures old(root).Null? ==> root == Ptr(FirstRoot(k, degree)) && size == 1
      ensures old(root).Ptr? ==> height == old(height) || height == old(height) + 1
      ensures old(root).Ptr? && height == old(height) + 1 ==>
        root.Ptr? && root.node.size == 1 && root.node.nodes[0].Ptr? && root.node.nodes[1].Ptr?
    {
      var top, depth, res := InsertAtRoot(root, height, degree, k);
      if res < 0 {
        return res;
      }
      // with no root the tree was empty, so this is the size 1 of the first key
      root, height, size := top, depth, size + 1;
      r := 0;
    }

    /** btree_find: 1 if `k` is in the tree, else 0. */
    method Find(k: int) returns (r: int)
      requires Valid()
      ensures r == 0 || r == 1
      ensures r == 1 <==> k in Keys()
    {
      if root.Null? {
        return 0;
      }
      r := FindIn(root.node, k, degree, height);
    }
  }
}
