/** The abstract B+ tree: what an index holds, read as a value, and insertion as the source performs it.

    Keys stand in DESCENDING order from left to right: a search turns left at the first element that is
    smaller than the key it looks for. A leaf split promotes a copy of a key, an inner split moves one. */
module BTree {
  import opened Ids

  /** The bucket size: an odd number, so that both halves of a split are equally full. */
  type Bucket = b: nat | b >= 3 && b % 2 == 1 witness 5

  const BUCKET_MAX_ELEMENTS: Bucket := 5

  /** An `Index` record of the source: the key's `_id`, the document and its offset in the data stream. */
  datatype Entry = Entry(key: Id, documentId: Id, posData: int)

  datatype Tree = Leaf(ks: seq<Entry>) | Node(ks: seq<Entry>, cs: seq<Tree>)

  /** What an insertion below hands to the page above: a page in the old one's place, or two and the key between. */
  datatype Up = Done(t: Tree) | Split(l: Tree, k: Entry, r: Tree)

  function K(e: Entry): nat {
    Rank(e.key)
  }

  /** The first position whose element is smaller than k. */
  function InsertPos(ks: seq<Entry>, k: nat): (p: nat)
    ensures p <= |ks|
    ensures forall i :: 0 <= i < p ==> k <= K(ks[i])
    ensures p < |ks| ==> K(ks[p]) < k
  {
    if ks == [] || K(ks[0]) < k then 0 else 1 + InsertPos(ks[1..], k)
  }

  function InsertAt<T>(s: seq<T>, p: nat, x: T): (r: seq<T>)
    requires p <= |s|
    ensures |r| == |s| + 1
    ensures forall i :: 0 <= i < |r| ==> r[i] == if i < p then s[i] else if i == p then x else s[i - 1]
  {
    s[..p] + [x] + s[p..]
  }

  // ---- Shape -------------------------------------------------------------------------------------

  predicate Shaped(b: Bucket, t: Tree) {
    |t.ks| <= b &&
    (t.Node? ==> |t.cs| == |t.ks| + 1 && forall i :: 0 <= i < |t.cs| ==> Shaped(b, t.cs[i]))
  }

  predicate UpShaped(b: Bucket, u: Up) {
    match u
    case Done(t) => Shaped(b, t)
    case Split(l, _, r) => Shaped(b, l) && Shaped(b, r)
  }

  // ---- Insertion ---------------------------------------------------------------------------------

  /** A leaf as it is, or halved when it holds one element too many. The key that goes up is a copy. */
  function OverflowLeaf(b: Bucket, es: seq<Entry>): (u: Up)
    requires |es| <= b + 1
    ensures UpShaped(b, u)
  {
    var m := b / 2 + 1;
    if |es| <= b then Done(Leaf(es)) else Split(Leaf(es[..m]), es[m], Leaf(es[m..]))
  }

  /** An inner page as it is, or halved when it holds one element too many. The key that goes up is moved. */
  function OverflowInner(b: Bucket, ks: seq<Entry>, cs: seq<Tree>): (u: Up)
    requires |ks| <= b + 1 && |cs| == |ks| + 1 && forall i :: 0 <= i < |cs| ==> Shaped(b, cs[i])
    ensures UpShaped(b, u)
  {
    var m := b / 2 + 1;
    if |ks| <= b then Done(Node(ks, cs))
    else Split(Node(ks[..m], cs[..m + 1]), ks[m], Node(ks[m + 1..], cs[m + 1..]))
  }

  function AddLeaf(b: Bucket, es: seq<Entry>, e: Entry): (u: Up)
    requires |es| <= b
    ensures UpShaped(b, u)
  {
    OverflowLeaf(b, InsertAt(es, InsertPos(es, K(e)), e))
  }

  /** `cs` already holds the left part of the split child; k and the right part r go in by k's position. */
  function AddInner(b: Bucket, ks: seq<Entry>, cs: seq<Tree>, k: Entry, r: Tree): (u: Up)
    requires Shaped(b, Node(ks, cs)) && Shaped(b, r)
    ensures UpShaped(b, u)
  {
    var p := InsertPos(ks, K(k));
    OverflowInner(b, InsertAt(ks, p, k), InsertAt(cs, p + 1, r))
  }

  function Insert(b: Bucket, t: Tree, e: Entry): (u: Up)
    requires Shaped(b, t)
    ensures UpShaped(b, u)
  {
    match t
    case Leaf(es) => AddLeaf(b, es, e)
    case Node(ks, cs) =>
      var i := InsertPos(ks, K(e));
      match Insert(b, cs[i], e)
      case Done(c) => Done(Node(ks, cs[i := c]))
      case Split(l, k, r) => AddInner(b, ks, cs[i := l], k, r)
  }

  /** A split of the root puts a new root above it. */
  function Finish(u: Up): Tree {
    match u
    case Done(t) => t
    case Split(l, k, r) => Node([k], [l, r])
  }

  function InsertRoot(b: Bucket, t: Tree, e: Entry): (r: Tree)
    requires Shaped(b, t)
    ensures Shaped(b, r)
  {
    Finish(Insert(b, t, e))
  }

  // ---- Reading -----------------------------------------------------------------------------------

  datatype Option<+T> = None | Some(value: T)

  /** `findIndex`: the first element equal to the key on the way down, be it in a leaf or a separator. */
  function Lookup(b: Bucket, t: Tree, k: nat): Option<Entry>
    requires Shaped(b, t)
    decreases t
  {
    var i := FirstAtMost(t.ks, k);
    if i < |t.ks| && K(t.ks[i]) == k then Some(t.ks[i])
    else if t.Node? then Lookup(b, t.cs[i], k)
    else None
  }

  /** The first position whose element is not larger than k. */
  function FirstAtMost(ks: seq<Entry>, k: nat): (p: nat)
    ensures p <= |ks|
    ensures forall i :: 0 <= i < p ==> k < K(ks[i])
    ensures p < |ks| ==> K(ks[p]) <= k
  {
    if ks == [] || K(ks[0]) <= k then 0 else 1 + FirstAtMost(ks[1..], k)
  }

  /** The leaf entries, page after page from left to right. */
  function InOrder(t: Tree): seq<Entry> {
    match t
    case Leaf(es) => es
    case Node(_, cs) => InOrders(cs)
  }

  function InOrders(cs: seq<Tree>): seq<Entry> {
    if cs == [] then [] else InOrder(cs[0]) + InOrders(cs[1..])
  }

  /** The separators of all inner pages, each between the leaves it separates. */
  function Seps(t: Tree): seq<Entry> {
    match t
    case Leaf(_) => []
    case Node(ks, cs) => Weave(ks, cs)
  }

  function Weave(ks: seq<Entry>, cs: seq<Tree>): seq<Entry>
    decreases cs
  {
    if cs == [] then []
    else if ks == [] then Seps(cs[0])
    else Seps(cs[0]) + [ks[0]] + Weave(ks[1..], cs[1..])
  }

  /** The entry of a run with key k. */
  function Find(es: seq<Entry>, k: nat): (r: Option<Entry>)
    ensures r.Some? ==> r.value in es && K(r.value) == k
    ensures r.None? ==> forall i :: 0 <= i < |es| ==> K(es[i]) != k
  {
    if es == [] then None else if K(es[0]) == k then Some(es[0]) else Find(es[1..], k)
  }

  /** `update`: the leaf entry with the key gets the new position. The separators are left alone. */
  function Update(b: Bucket, t: Tree, k: nat, pos: int): (r: Tree)
    requires Shaped(b, t)
    ensures Shaped(b, r)
  {
    match t
    case Leaf(es) => Leaf(Repositioned(es, k, pos))
    case Node(ks, cs) =>
      var i := InsertPos(ks, k);
      Node(ks, cs[i := Update(b, cs[i], k, pos)])
  }

  function Repositioned(es: seq<Entry>, k: nat, pos: int): (r: seq<Entry>)
    ensures |r| == |es|
  {
    var i := FirstAtMost(es, k);
    if i < |es| && K(es[i]) == k then es[i := es[i].(posData := pos)] else es
  }

  /** `IndexPage::find`: the matches of a page, behind the matches of its children from the last to the first. */
  function Scan(t: Tree, wanted: Entry -> bool): seq<Entry> {
    if t.Leaf? then Filter(t.ks, wanted) else Scans(t.cs, wanted) + Filter(t.ks, wanted)
  }

  function Scans(cs: seq<Tree>, wanted: Entry -> bool): seq<Entry> {
    if cs == [] then [] else Scans(cs[1..], wanted) + Scan(cs[0], wanted)
  }

  function Filter(es: seq<Entry>, wanted: Entry -> bool): seq<Entry> {
    if es == [] then [] else (if wanted(es[0]) then [es[0]] else []) + Filter(es[1..], wanted)
  }

  // ---- The invariant -----------------------------------------------------------------------------

  predicate StrictDesc(ks: seq<Entry>) {
    forall i, j :: 0 <= i < j < |ks| ==> K(ks[j]) < K(ks[i])
  }

  /** All keys of t lie in (lo, hi], in descending order; if hi is given, it is the first key of the leftmost leaf.
      So a separator is the first key of the leftmost leaf to its right. `lo` is -1 where there is no lower bound. */
  predicate Ordered(t: Tree, lo: int, hi: Option<nat>) {
    StrictDesc(t.ks) &&
    (forall i :: 0 <= i < |t.ks| ==> lo < K(t.ks[i])) &&
    match t
    case Leaf(es) => hi.Some? ==> es != [] && K(es[0]) == hi.value
    case Node(ks, cs) =>
      |cs| == |ks| + 1 &&
      (hi.Some? ==> forall i :: 0 <= i < |ks| ==> K(ks[i]) < hi.value) &&
      forall i :: 0 <= i < |cs| ==> Ordered(cs[i], LoOf(ks, i, lo), HiOf(ks, i, hi))
  }

  function LoOf(ks: seq<Entry>, i: nat, lo: int): int {
    if i < |ks| then K(ks[i]) else lo
  }

  function HiOf(ks: seq<Entry>, i: nat, hi: Option<nat>): Option<nat>
    requires i <= |ks|
  {
    if i == 0 then hi else Some(K(ks[i - 1]))
  }

  predicate UpOrdered(u: Up, lo: int, hi: Option<nat>) {
    match u
    case Done(t) => Ordered(t, lo, hi)
    case Split(l, k, r) =>
      Ordered(l, K(k), hi) && Ordered(r, lo, Some(K(k))) && lo < K(k) && (hi.Some? ==> K(k) < hi.value)
  }

  /** All leaves at one depth n, and the room every page keeps: at least (b+1)/2 elements in a leaf and (b-1)/2
      in an inner page, below the root. */
  predicate Balanced(b: Bucket, t: Tree, n: nat, root: bool) {
    match t
    case Leaf(es) => n == 0 && (root || |es| >= b / 2 + 1)
    case Node(ks, cs) =>
      n > 0 && |ks| >= (if root then 1 else b / 2) && forall i :: 0 <= i < |cs| ==> Balanced(b, cs[i], n - 1, false)
  }

  predicate UpBalanced(b: Bucket, u: Up, n: nat, root: bool) {
    match u
    case Done(t) => Balanced(b, t, n, root)
    case Split(l, _, r) => Balanced(b, l, n, false) && Balanced(b, r, n, false)
  }

  predicate WellFormed(b: Bucket, t: Tree, n: nat) {
    Shaped(b, t) && Balanced(b, t, n, true) && Ordered(t, -1, None)
  }
}
