/** Insertion from the bottom up. The code finds a leaf on the way down and then climbs by parent pointers; a path
    is what lies around the page it stands on. Climbing with the outcome of the leaf gives the abstract insertion. */
module BTreePaths {
  import opened Ids
  import opened BTree
  import opened BTreeProofs

  /** The page is child |left| of a page with keys ks, which lies below `up`. */
  datatype Path = Top | Below(ks: seq<Entry>, left: seq<Tree>, right: seq<Tree>, up: Path)

  predicate PathShaped(b: Bucket, c: Path) {
    c.Below? ==>
      |c.ks| <= b && |c.left| + |c.right| == |c.ks| &&
      (forall i :: 0 <= i < |c.left| ==> Shaped(b, c.left[i])) &&
      (forall i :: 0 <= i < |c.right| ==> Shaped(b, c.right[i])) &&
      PathShaped(b, c.up)
  }

  /** The tree around a page that became u: children are replaced, splits are passed on, up to the root. */
  function Ascend(b: Bucket, c: Path, u: Up): (t: Tree)
    requires PathShaped(b, c) && UpShaped(b, u)
    ensures Shaped(b, t)
    decreases c
  {
    match c
    case Top => Finish(u)
    case Below(ks, left, right, up) =>
      match u
      case Done(t) => Ascend(b, up, Done(Node(ks, left + [t] + right)))
      case Split(l, k, r) => Ascend(b, up, AddInner(b, ks, left + [l] + right, k, r))
  }

  /** What a page becomes when an element, and in an inner page the subtree right of it, is added to it. */
  function AddTo(b: Bucket, t: Tree, e: Entry, r: Tree): (u: Up)
    requires Shaped(b, t) && Shaped(b, r)
    ensures UpShaped(b, u)
  {
    if t.Leaf? then AddLeaf(b, t.ks, e) else AddInner(b, t.ks, t.cs, e, r)
  }

  datatype Descent = Descent(path: Path, leaf: seq<Entry>)

  /** `findIndexPage`: the leaf for key k, and the path to it from a page with path c. */
  function Descend(b: Bucket, t: Tree, k: nat, c: Path): (d: Descent)
    requires Shaped(b, t) && PathShaped(b, c)
    ensures PathShaped(b, d.path) && |d.leaf| <= b
    decreases t
  {
    match t
    case Leaf(es) => Descent(c, es)
    case Node(ks, cs) =>
      var i := InsertPos(ks, k);
      Descend(b, cs[i], k, Below(ks, cs[..i], cs[i + 1..], c))
  }

  predicate Has(ks: seq<Entry>, k: nat) {
    var i := FirstAtMost(ks, k);
    i < |ks| && K(ks[i]) == k
  }

  /** The leaf for k holds k. */
  predicate Reaches(b: Bucket, t: Tree, k: nat)
    requires Shaped(b, t)
  {
    Has(Descend(b, t, k, Top).leaf, k)
  }

  /** The leaf that is reached for k holds k exactly when any leaf does. So `update` misses no entry. */
  lemma {:induction false} ReachesIffPresent(b: Bucket, t: Tree, k: nat, c: Path, lo: int, hi: Option<nat>)
    requires Shaped(b, t) && PathShaped(b, c) && Ordered(t, lo, hi)
    ensures Has(Descend(b, t, k, c).leaf, k) <==> !Fresh(t, k)
    decreases t
  {
    if t.Leaf? {
      HasIffPresent(t.ks, k);
      assert t == Leaf(t.ks);
    } else {
      var i := InsertPos(t.ks, k);
      ChildPathShaped(b, t, c, i);
      ReachesIffPresent(b, t.cs[i], k, Below(t.ks, t.cs[..i], t.cs[i + 1..], c), LoOf(t.ks, i, lo), HiOf(t.ks, i, hi));
      FreshIsFreshBelow(t, lo, hi, k);
    }
  }

  lemma ChildPathShaped(b: Bucket, t: Tree, c: Path, i: nat)
    requires Shaped(b, t) && t.Node? && PathShaped(b, c) && i < |t.cs|
    ensures PathShaped(b, Below(t.ks, t.cs[..i], t.cs[i + 1..], c))
  {
  }

  lemma HasIffPresent(ks: seq<Entry>, k: nat)
    requires StrictDesc(ks)
    ensures Has(ks, k) <==> !Fresh(Leaf(ks), k)
  {
    var i := FirstAtMost(ks, k);
    if i < |ks| {
      forall j | i < j < |ks| ensures K(ks[j]) < K(ks[i]) <= k {
      }
    }
    if Has(ks, k) {
      assert InOrder(Leaf(ks))[i] == ks[i];
    }
  }

  lemma FreshIsFreshBelow(t: Tree, lo: int, hi: Option<nat>, k: nat)
    requires Ordered(t, lo, hi) && t.Node?
    ensures Fresh(t, k) <==> Fresh(t.cs[InsertPos(t.ks, k)], k)
  {
    var i := InsertPos(t.ks, k);
    ChildBetween(t, lo, hi, i);
    var a, m := InOrders(t.cs[..i]), InOrder(t.cs[i]);
    forall j | 0 <= j < |m| ensures InOrder(t)[|a| + j] == m[j] {
    }
  }

  /** Climbing from the leaf is inserting from the root. */
  lemma {:induction false} AscendIsInsert(b: Bucket, t: Tree, e: Entry, c: Path)
    requires Shaped(b, t) && PathShaped(b, c)
    ensures var d := Descend(b, t, K(e), c);
            Ascend(b, d.path, AddLeaf(b, d.leaf, e)) == Ascend(b, c, Insert(b, t, e))
    decreases t
  {
    if t.Node? {
      var i := InsertPos(t.ks, K(e));
      var u := Insert(b, t.cs[i], e);
      ChildPathShaped(b, t, c, i);
      AscendIsInsert(b, t.cs[i], e, Below(t.ks, t.cs[..i], t.cs[i + 1..], c));
      Replaced(t.cs, i, if u.Done? then u.t else u.l);
    }
  }

  /** Putting a repositioned leaf back in its place is updating from the root. */
  lemma {:induction false} AscendIsUpdate(b: Bucket, t: Tree, k: nat, pos: int, c: Path)
    requires Shaped(b, t) && PathShaped(b, c)
    ensures var d := Descend(b, t, k, c);
            Ascend(b, d.path, Done(Leaf(Repositioned(d.leaf, k, pos)))) == Ascend(b, c, Done(Update(b, t, k, pos)))
    decreases t
  {
    if t.Node? {
      var i := InsertPos(t.ks, k);
      AscendIsUpdate(b, t.cs[i], k, pos, Below(t.ks, t.cs[..i], t.cs[i + 1..], c));
      Replaced(t.cs, i, Update(b, t.cs[i], k, pos));
    }
  }

  lemma Replaced<T>(s: seq<T>, i: nat, x: T)
    requires i < |s|
    ensures s[..i] + [x] + s[i + 1..] == s[i := x]
  {
  }
}
