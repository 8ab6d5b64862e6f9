/** How a heap of linked pages stands for a tree.

    The conditions are local to a page and its slots: a child's `parentElement` is the page that holds it, and it is
    one level lower. A child therefore has one parent, and no page lies below itself. */
module IndexLinks {
  import opened Ids
  import opened BTree
  import opened BTreePaths
  import opened IndexPages

  type Heap = map<Ref, PageV>
  type Heights = map<Ref, nat>

  ghost predicate PageOk(b: Bucket, v: PageV) {
    |v.elements| == b && |v.pointers| == b + 1 && 0 <= v.size <= b &&
    forall i :: 0 <= i < b ==> (v.elements[i].Some? <==> i < v.size)
  }

  ghost function Keys(b: Bucket, v: PageV): (ks: seq<Entry>)
    requires PageOk(b, v)
    ensures |ks| == v.size && forall i :: 0 <= i < |ks| ==> v.elements[i] == Some(ks[i])
  {
    seq(v.size, i requires 0 <= i < v.size => v.elements[i].value)
  }

  /** A leaf has no children; an inner page has one more than it has elements, all different, all below it. */
  ghost predicate SlotsOk(h: Heap, ht: Heights, p: Ref)
    requires p in h && h.Keys == ht.Keys
  {
    var v := h[p];
    (forall i :: 0 <= i < |v.pointers| ==>
      if ht[p] > 0 && i <= v.size then ChildOk(h, ht, p, v.pointers[i]) else v.pointers[i] == NIL) &&
    (ht[p] > 0 ==> forall i, j :: 0 <= i < j < |v.pointers| && j <= v.size ==> v.pointers[i] != v.pointers[j])
  }

  ghost predicate ChildOk(h: Heap, ht: Heights, p: Ref, q: Ref)
    requires p in h && h.Keys == ht.Keys
  {
    q in h && ht[q] + 1 == ht[p] && h[q].parent == p
  }

  ghost predicate LinksDown(b: Bucket, h: Heap, ht: Heights) {
    h.Keys == ht.Keys && NIL !in h &&
    forall p {:trigger SlotsOk(h, ht, p)} {:trigger PageOk(b, h[p])} :: p in h ==> PageOk(b, h[p]) && SlotsOk(h, ht, p)
  }

  /** Every page but the head hangs on the page it names as its parent. A page just split off, the orphan, hangs
      nowhere yet. */
  ghost predicate LinksUp(h: Heap, head: Ref, orphan: Ref) {
    head in h && h[head].parent == NIL && head != orphan &&
    (orphan != NIL ==> orphan in h && h[orphan].parent == NIL) &&
    forall p {:trigger Hangs(h, p)} :: p in h && p != head && p != orphan ==> Hangs(h, p)
  }

  ghost predicate Hangs(h: Heap, p: Ref)
    requires p in h
  {
    h[p].parent in h && p in h[h[p].parent].pointers
  }

  ghost predicate Linked(b: Bucket, h: Heap, ht: Heights, head: Ref, orphan: Ref) {
    LinksDown(b, h, ht) && LinksUp(h, head, orphan)
  }

  /** The tree below a page. */
  ghost function TreeOf(b: Bucket, h: Heap, ht: Heights, p: Ref): (t: Tree)
    requires LinksDown(b, h, ht) && p in h
    ensures Shaped(b, t) && t.ks == Keys(b, h[p]) && (t.Leaf? <==> ht[p] == 0)
    decreases ht[p], 2
  {
    var v := h[p];
    if ht[p] == 0 then Leaf(Keys(b, v)) else Node(Keys(b, v), Children(b, h, ht, p))
  }

  ghost function Children(b: Bucket, h: Heap, ht: Heights, p: Ref): (cs: seq<Tree>)
    requires LinksDown(b, h, ht) && p in h && ht[p] > 0
    ensures |cs| == h[p].size + 1 && forall i :: 0 <= i < |cs| ==> Shaped(b, cs[i])
    decreases ht[p], 1
  {
    assert PageOk(b, h[p]);
    seq(h[p].size + 1, i requires 0 <= i <= h[p].size => ChildTree(b, h, ht, p, i))
  }

  ghost function ChildTree(b: Bucket, h: Heap, ht: Heights, p: Ref, i: nat): (t: Tree)
    requires LinksDown(b, h, ht) && p in h && ht[p] > 0 && i <= h[p].size
    ensures Shaped(b, t)
    decreases ht[p], 0
  {
    assert SlotsOk(h, ht, p) && ChildOk(h, ht, p, h[p].pointers[i]);
    TreeOf(b, h, ht, h[p].pointers[i])
  }

  /** `c` is what lies around page p. */
  ghost predicate PathTo(b: Bucket, h: Heap, ht: Heights, head: Ref, p: Ref, c: Path)
    requires LinksDown(b, h, ht) && p in h
    decreases c
  {
    match c
    case Top => p == head
    case Below(ks, left, right, up) =>
      p != head && h[p].parent in h &&
      IsChild(b, h, ht, h[p].parent, p, ks, left, right) && PathTo(b, h, ht, head, h[p].parent, up)
  }

  /** p is child |left| of q, and what stands left and right of it is known. */
  ghost predicate IsChild(b: Bucket, h: Heap, ht: Heights, q: Ref, p: Ref, ks: seq<Entry>,
                          left: seq<Tree>, right: seq<Tree>)
    requires LinksDown(b, h, ht) && q in h
  {
    ht[q] > 0 && ks == Keys(b, h[q]) && |left| + |right| == |ks| && h[q].pointers[|left|] == p &&
    left == Children(b, h, ht, q)[..|left|] && right == Children(b, h, ht, q)[|left| + 1..]
  }

  // ---- One heap ------------------------------------------------------------------------------------

  lemma PathIsShaped(b: Bucket, h: Heap, ht: Heights, head: Ref, p: Ref, c: Path)
    requires LinksDown(b, h, ht) && p in h && PathTo(b, h, ht, head, p, c)
    ensures PathShaped(b, c)
    decreases c
  {
    if c.Below? {
      assert PageOk(b, h[h[p].parent]);
      PathIsShaped(b, h, ht, head, h[p].parent, c.up);
    }
  }

  lemma ParentTree(b: Bucket, h: Heap, ht: Heights, q: Ref, p: Ref, ks: seq<Entry>, left: seq<Tree>, right: seq<Tree>)
    requires LinksDown(b, h, ht) && p in h && q in h && IsChild(b, h, ht, q, p, ks, left, right)
    ensures ht[q] == ht[p] + 1 && h[p].parent == q
    ensures TreeOf(b, h, ht, q) == Node(ks, left + [TreeOf(b, h, ht, p)] + right)
  {
    var cs := Children(b, h, ht, q);
    assert SlotsOk(h, ht, q) && ChildOk(h, ht, q, h[q].pointers[|left|]);
    assert cs[|left|] == ChildTree(b, h, ht, q, |left|);
    assert cs == cs[..|left|] + [cs[|left|]] + cs[|left| + 1..];
  }

  /** The tree below the head, seen from any page: that page's tree in its surroundings. */
  lemma {:induction false} Plug(b: Bucket, h: Heap, ht: Heights, head: Ref, p: Ref, c: Path)
    requires LinksDown(b, h, ht) && p in h && head in h && PathTo(b, h, ht, head, p, c)
    ensures PathShaped(b, c) && TreeOf(b, h, ht, head) == Ascend(b, c, Done(TreeOf(b, h, ht, p)))
    decreases c
  {
    PathIsShaped(b, h, ht, head, p, c);
    if c.Below? {
      Plug(b, h, ht, head, h[p].parent, c.up);
      ParentTree(b, h, ht, h[p].parent, p, c.ks, c.left, c.right);
    }
  }

  // ---- Two heaps -----------------------------------------------------------------------------------

  ghost predicate SameContent(u: PageV, v: PageV) {
    u.size == v.size && u.elements == v.elements && u.pointers == v.pointers
  }

  /** Nothing below level n has changed but parents. */
  ghost predicate SameBelow(h: Heap, ht: Heights, h': Heap, ht': Heights, n: nat)
    requires h.Keys == ht.Keys && h'.Keys == ht'.Keys
  {
    forall p :: p in h && ht[p] < n ==> p in h' && ht'[p] == ht[p] && SameContent(h[p], h'[p])
  }

  lemma {:induction false} SameTree(b: Bucket, h: Heap, ht: Heights, h': Heap, ht': Heights, n: nat, p: Ref)
    requires LinksDown(b, h, ht) && LinksDown(b, h', ht') && SameBelow(h, ht, h', ht', n) && p in h && ht[p] < n
    ensures TreeOf(b, h, ht, p) == TreeOf(b, h', ht', p)
    decreases ht[p]
  {
    if ht[p] > 0 {
      SameChildren(b, h, ht, h', ht', n, p);
    }
  }

  lemma {:induction false} SameChildren(b: Bucket, h: Heap, ht: Heights, h': Heap, ht': Heights, n: nat, p: Ref)
    requires LinksDown(b, h, ht) && LinksDown(b, h', ht') && SameBelow(h, ht, h', ht', n)
    requires p in h && p in h' && 0 < ht[p] == ht'[p] <= n && SameContent(h[p], h'[p])
    ensures Children(b, h, ht, p) == Children(b, h', ht', p)
    decreases ht[p], 0
  {
    forall i | 0 <= i <= h[p].size ensures ChildTree(b, h, ht, p, i) == ChildTree(b, h', ht', p, i) {
      assert SlotsOk(h, ht, p) && ChildOk(h, ht, p, h[p].pointers[i]);
      SameTree(b, h, ht, h', ht', n, h[p].pointers[i]);
    }
  }

  /** On level n only the tree of page x may have changed; above it nothing has but the parents of what is below. */
  ghost predicate OnlyBelow(b: Bucket, h: Heap, ht: Heights, h': Heap, ht': Heights, n: nat, x: Ref)
    requires LinksDown(b, h, ht) && LinksDown(b, h', ht')
  {
    x in h && ht[x] == n && x in h' && ht'[x] == n && h'[x].parent == h[x].parent &&
    (forall p :: p in h && ht[p] == n && p != x ==>
       p in h' && ht'[p] == n && TreeOf(b, h', ht', p) == TreeOf(b, h, ht, p)) &&
    (forall p :: p in h && ht[p] > n ==> p in h' && ht'[p] == ht[p] && h'[p] == h[p])
  }

  lemma LevelUp(b: Bucket, h: Heap, ht: Heights, h': Heap, ht': Heights, n: nat, x: Ref, q: Ref)
    requires LinksDown(b, h, ht) && LinksDown(b, h', ht') && OnlyBelow(b, h, ht, h', ht', n, x)
    requires q in h && ht[q] == n + 1 && h[x].parent == q
    ensures OnlyBelow(b, h, ht, h', ht', n + 1, q)
  {
    forall p | p in h && ht[p] == n + 1 && p != q ensures TreeOf(b, h', ht', p) == TreeOf(b, h, ht, p) {
      forall i | 0 <= i <= h[p].size ensures ChildTree(b, h', ht', p, i) == ChildTree(b, h, ht, p, i) {
        assert SlotsOk(h, ht, p) && ChildOk(h, ht, p, h[p].pointers[i]);
      }
      assert Children(b, h', ht', p) == Children(b, h, ht, p);
    }
  }

  /** The surroundings of a page do not change with its content. */
  lemma {:induction false} SamePath(b: Bucket, h: Heap, ht: Heights, h': Heap, ht': Heights, head: Ref, x: Ref, c: Path)
    requires LinksDown(b, h, ht) && LinksDown(b, h', ht') && x in h && OnlyBelow(b, h, ht, h', ht', ht[x], x)
    requires PathTo(b, h, ht, head, x, c)
    ensures PathTo(b, h', ht', head, x, c)
    decreases c
  {
    if c.Below? {
      var q := h[x].parent;
      ParentTree(b, h, ht, q, x, c.ks, c.left, c.right);
      LevelUp(b, h, ht, h', ht', ht[x], x, q);
      SamePath(b, h, ht, h', ht', head, q, c.up);
      SameSiblings(b, h, ht, h', ht', q, x, c.ks, c.left, c.right);
    }
  }

  lemma SameSiblings(b: Bucket, h: Heap, ht: Heights, h': Heap, ht': Heights, q: Ref, x: Ref,
                     ks: seq<Entry>, left: seq<Tree>, right: seq<Tree>)
    requires LinksDown(b, h, ht) && LinksDown(b, h', ht') && x in h && OnlyBelow(b, h, ht, h', ht', ht[x], x)
    requires q in h && ht[q] == ht[x] + 1 && IsChild(b, h, ht, q, x, ks, left, right)
    ensures IsChild(b, h', ht', q, x, ks, left, right)
  {
    var cs, cs' := Children(b, h, ht, q), Children(b, h', ht', q);
    forall i | 0 <= i <= h[q].size && i != |left| ensures cs[i] == cs'[i] {
      assert SlotsOk(h, ht, q) && ChildOk(h, ht, q, h[q].pointers[i]);
      assert cs[i] == ChildTree(b, h, ht, q, i) && cs'[i] == ChildTree(b, h', ht', q, i);
    }
    assert left == cs'[..|left|];
    assert right == cs'[|left| + 1..];
  }
}
