/** What insertion keeps, and what a tree of distinct keys means as a map. */
module BTreeProofs {
  import opened Ids
  import opened BTree

  // ---- Leaf sequences ----------------------------------------------------------------------------

  lemma {:induction false} InOrdersConcat(a: seq<Tree>, b: seq<Tree>)
    ensures InOrders(a + b) == InOrders(a) + InOrders(b)
  {
    if a == [] {
      assert a + b == b;
    } else {
      assert (a + b)[1..] == a[1..] + b;
      InOrdersConcat(a[1..], b);
    }
  }

  lemma InOrdersAt(cs: seq<Tree>, i: nat)
    requires i < |cs|
    ensures InOrders(cs) == InOrders(cs[..i]) + InOrder(cs[i]) + InOrders(cs[i + 1..])
  {
    assert cs == cs[..i] + cs[i..] && cs[i..] == [cs[i]] + cs[i + 1..];
    InOrdersConcat(cs[..i], cs[i..]);
  }

  function UpInOrder(u: Up): seq<Entry> {
    InOrder(Finish(u))
  }

  lemma SplitInOrder(l: Tree, k: Entry, r: Tree)
    ensures UpInOrder(Split(l, k, r)) == InOrder(l) + InOrder(r)
  {
    assert [l, r][1..] == [r] && [r][1..] == [];
    assert InOrders([r]) == InOrder(r) + [];
    assert InOrders([l, r]) == InOrder(l) + InOrders([r]);
  }

  // ---- Ordered trees have strictly descending leaves -----------------------------------------------

  lemma StrictDescConcat(a: seq<Entry>, c: seq<Entry>, mid: int)
    requires StrictDesc(a) && StrictDesc(c)
    requires forall i :: 0 <= i < |a| ==> mid < K(a[i])
    requires forall i :: 0 <= i < |c| ==> K(c[i]) <= mid
    ensures StrictDesc(a + c)
  {
  }

  ghost predicate Within(es: seq<Entry>, lo: int, hi: Option<nat>) {
    StrictDesc(es) &&
    (forall i :: 0 <= i < |es| ==> lo < K(es[i])) &&
    (hi.Some? ==> es != [] && K(es[0]) == hi.value)
  }

  /** The leaves of an ordered tree, read left to right, are strictly descending, inside the tree's interval,
      and start at its upper bound. */
  lemma {:induction false} OrderedLeaves(t: Tree, lo: int, hi: Option<nat>)
    requires Ordered(t, lo, hi)
    ensures Within(InOrder(t), lo, hi)
    decreases t, |t.ks| + 2
  {
    if t.Node? {
      OrderedSuffix(t, lo, hi, 0);
      assert t.cs[0..] == t.cs;
    }
  }

  lemma {:induction false} OrderedSuffix(t: Tree, lo: int, hi: Option<nat>, j: nat)
    requires Ordered(t, lo, hi) && t.Node? && j < |t.cs|
    ensures Within(InOrders(t.cs[j..]), lo, HiOf(t.ks, j, hi))
    decreases t, |t.cs| - j
  {
    var ks, cs := t.ks, t.cs;
    OrderedLeaves(cs[j], LoOf(ks, j, lo), HiOf(ks, j, hi));
    assert cs[j..] == [cs[j]] + cs[j + 1..];
    assert cs[j..][1..] == cs[j + 1..];
    var a, c := InOrder(cs[j]), InOrders(cs[j + 1..]);
    assert InOrders(cs[j..]) == a + c;
    if j + 1 < |cs| {
      OrderedSuffix(t, lo, hi, j + 1);
      assert forall i :: 0 <= i < |c| ==> K(c[i]) <= K(c[0]);
      StrictDescConcat(a, c, K(ks[j]));
      assert lo < K(ks[j]);
    } else {
      assert cs[j + 1..] == [];
      assert a + c == a;
    }
  }

  ghost predicate Fresh(t: Tree, k: nat) {
    forall i :: 0 <= i < |InOrder(t)| ==> K(InOrder(t)[i]) != k
  }

  /** The leaves left of child i are larger than every key the child may hold. */
  lemma LeftOfChild(t: Tree, lo: int, hi: Option<nat>, i: nat)
    requires Ordered(t, lo, hi) && t.Node? && 0 < i < |t.cs|
    ensures forall j :: 0 <= j < |InOrders(t.cs[..i])| ==> K(t.ks[i - 1]) < K(InOrders(t.cs[..i])[j])
  {
    var a, m := InOrders(t.cs[..i]), InOrder(t.cs[i]);
    InOrdersAt(t.cs, i);
    OrderedLeaves(t, lo, hi);
    OrderedLeaves(t.cs[i], LoOf(t.ks, i, lo), HiOf(t.ks, i, hi));
    forall j | 0 <= j < |a| ensures K(t.ks[i - 1]) < K(a[j]) {
      assert InOrder(t)[j] == a[j] && InOrder(t)[|a|] == m[0];
    }
  }

  /** ... and those right of it are not larger than its lower bound. */
  lemma ChildBetween(t: Tree, lo: int, hi: Option<nat>, i: nat)
    requires Ordered(t, lo, hi) && t.Node? && i < |t.cs|
    ensures var a, c := InOrders(t.cs[..i]), InOrders(t.cs[i + 1..]);
            InOrder(t) == a + InOrder(t.cs[i]) + c &&
            (forall j :: 0 <= j < |a| ==> i > 0 && K(t.ks[i - 1]) < K(a[j])) &&
            (forall j :: 0 <= j < |c| ==> i < |t.ks| && K(c[j]) <= K(t.ks[i]))
  {
    InOrdersAt(t.cs, i);
    if i > 0 {
      LeftOfChild(t, lo, hi, i);
    } else {
      assert t.cs[..i] == [];
    }
    if i < |t.ks| {
      OrderedSuffix(t, lo, hi, i + 1);
    } else {
      assert t.cs[i + 1..] == [];
    }
  }

  // ---- Insertion keeps the order -------------------------------------------------------------------

  /** The slot of a fresh key: strictly inside the interval of the child it is sent to. */
  lemma FreshSlot(t: Tree, lo: int, hi: Option<nat>, k: nat)
    requires Ordered(t, lo, hi) && t.Node? && Fresh(t, k)
    requires lo < k && (hi.Some? ==> k < hi.value)
    ensures var i := InsertPos(t.ks, k);
            LoOf(t.ks, i, lo) < k && (HiOf(t.ks, i, hi).Some? ==> k < HiOf(t.ks, i, hi).value) && Fresh(t.cs[i], k)
  {
    var i := InsertPos(t.ks, k);
    ChildBetween(t, lo, hi, i);
    var a, m := InOrders(t.cs[..i]), InOrder(t.cs[i]);
    OrderedLeaves(t.cs[i], LoOf(t.ks, i, lo), HiOf(t.ks, i, hi));
    forall j | 0 <= j < |m| ensures K(m[j]) != k {
      assert InOrder(t)[|a| + j] == m[j];
    }
  }

  /** A fresh key in its place keeps a run of keys strictly descending. */
  lemma InsertAtDesc(ks: seq<Entry>, p: nat, e: Entry)
    requires StrictDesc(ks) && p <= |ks|
    requires p > 0 ==> K(e) < K(ks[p - 1])
    requires p < |ks| ==> K(ks[p]) < K(e)
    ensures StrictDesc(InsertAt(ks, p, e))
  {
    var ks' := InsertAt(ks, p, e);
    forall i, j | 0 <= i < j < |ks'| ensures K(ks'[j]) < K(ks'[i]) {
      if j == p {
        assert K(ks[p - 1]) <= K(ks[i]);
      } else if i == p {
        assert K(ks[j - 1]) <= K(ks[p]);
      }
    }
  }

  lemma LeafInsertOrdered(b: Bucket, es: seq<Entry>, e: Entry, lo: int, hi: Option<nat>)
    requires |es| <= b && Ordered(Leaf(es), lo, hi) && Fresh(Leaf(es), K(e))
    requires lo < K(e) && (hi.Some? ==> K(e) < hi.value)
    ensures UpOrdered(AddLeaf(b, es, e), lo, hi)
  {
    var p := InsertPos(es, K(e));
    if p > 0 {
      assert InOrder(Leaf(es))[p - 1] == es[p - 1];
    }
    InsertAtDesc(es, p, e);
    OverflowLeafOrdered(b, InsertAt(es, p, e), lo, hi);
  }

  lemma OverflowLeafOrdered(b: Bucket, es: seq<Entry>, lo: int, hi: Option<nat>)
    requires |es| <= b + 1 && Ordered(Leaf(es), lo, hi)
    ensures UpOrdered(OverflowLeaf(b, es), lo, hi)
  {
  }

  /** An ordered node, except that nothing is said of child i. */
  ghost predicate OrderedBut(ks: seq<Entry>, cs: seq<Tree>, i: nat, lo: int, hi: Option<nat>) {
    |cs| == |ks| + 1 && StrictDesc(ks) &&
    (forall j :: 0 <= j < |ks| ==> lo < K(ks[j]) && (hi.Some? ==> K(ks[j]) < hi.value)) &&
    forall j :: 0 <= j < |cs| && j != i ==> Ordered(cs[j], LoOf(ks, j, lo), HiOf(ks, j, hi))
  }

  lemma PlacedKeys(ks: seq<Entry>, cs: seq<Tree>, i: nat, k: Entry, r: Tree, lo: int, hi: Option<nat>)
    requires i <= |ks| && OrderedBut(ks, cs, i, lo, hi)
    requires UpOrdered(Split(cs[i], k, r), LoOf(ks, i, lo), HiOf(ks, i, hi))
    ensures var ks' := InsertAt(ks, i, k);
            StrictDesc(ks') && forall j :: 0 <= j < |ks'| ==> lo < K(ks'[j]) && (hi.Some? ==> K(ks'[j]) < hi.value)
  {
    InsertAtDesc(ks, i, k);
    assert i > 0 ==> HiOf(ks, i, hi) == Some(K(ks[i - 1]));
  }

  lemma PlacedBounds(ks: seq<Entry>, i: nat, k: Entry, lo: int, hi: Option<nat>, j: nat)
    requires i <= |ks| && j <= |ks| + 1
    ensures var ks' := InsertAt(ks, i, k);
            LoOf(ks', j, lo) == (if j < i then LoOf(ks, j, lo) else if j == i then K(k) else LoOf(ks, j - 1, lo)) &&
            HiOf(ks', j, hi) == (if j <= i then HiOf(ks, j, hi) else if j == i + 1 then Some(K(k))
              else HiOf(ks, j - 1, hi))
  {
  }

  /** A node one of whose children was split, with the right part and its key placed after it. */
  lemma PlacedOrdered(ks: seq<Entry>, cs: seq<Tree>, i: nat, k: Entry, r: Tree, lo: int, hi: Option<nat>)
    requires i <= |ks| && OrderedBut(ks, cs, i, lo, hi)
    requires UpOrdered(Split(cs[i], k, r), LoOf(ks, i, lo), HiOf(ks, i, hi))
    ensures Ordered(Node(InsertAt(ks, i, k), InsertAt(cs, i + 1, r)), lo, hi)
  {
    var ks', cs' := InsertAt(ks, i, k), InsertAt(cs, i + 1, r);
    PlacedKeys(ks, cs, i, k, r, lo, hi);
    forall j | 0 <= j < |cs'| ensures Ordered(cs'[j], LoOf(ks', j, lo), HiOf(ks', j, hi)) {
      PlacedBounds(ks, i, k, lo, hi, j);
      assert cs'[j] == if j <= i then cs[j] else if j == i + 1 then r else cs[j - 1];
    }
  }

  lemma OverflowInnerOrdered(b: Bucket, ks: seq<Entry>, cs: seq<Tree>, lo: int, hi: Option<nat>)
    requires |ks| <= b + 1 && |cs| == |ks| + 1 && forall i :: 0 <= i < |cs| ==> Shaped(b, cs[i])
    requires Ordered(Node(ks, cs), lo, hi)
    ensures UpOrdered(OverflowInner(b, ks, cs), lo, hi)
  {
    if |ks| == b + 1 {
      SplitOrdered(ks, cs, b / 2 + 1, lo, hi);
    }
  }

  /** The key promoted from child i goes back to slot i: nothing is misplaced in the page above a split. */
  lemma AddInnerOrdered(b: Bucket, ks: seq<Entry>, cs: seq<Tree>, i: nat, k: Entry, r: Tree, lo: int, hi: Option<nat>)
    requires Shaped(b, Node(ks, cs)) && Shaped(b, r) && i <= |ks|
    requires OrderedBut(ks, cs, i, lo, hi)
    requires UpOrdered(Split(cs[i], k, r), LoOf(ks, i, lo), HiOf(ks, i, hi))
    ensures InsertPos(ks, K(k)) == i
    ensures UpOrdered(AddInner(b, ks, cs, k, r), lo, hi)
  {
    SlotBetween(ks, i, K(k), lo, hi);
    AddInnerPlaces(b, ks, cs, i, k, r);
    PlacedOverflowOrdered(b, ks, cs, i, k, r, lo, hi);
  }

  lemma AddInnerPlaces(b: Bucket, ks: seq<Entry>, cs: seq<Tree>, i: nat, k: Entry, r: Tree)
    requires Shaped(b, Node(ks, cs)) && Shaped(b, r) && i <= |ks| && InsertPos(ks, K(k)) == i
    ensures AddInner(b, ks, cs, k, r) == OverflowInner(b, InsertAt(ks, i, k), InsertAt(cs, i + 1, r))
  {
  }

  lemma PlacedOverflowOrdered(b: Bucket, ks: seq<Entry>, cs: seq<Tree>, i: nat, k: Entry, r: Tree, lo: int,
                              hi: Option<nat>)
    requires Shaped(b, Node(ks, cs)) && Shaped(b, r) && i <= |ks| && OrderedBut(ks, cs, i, lo, hi)
    requires UpOrdered(Split(cs[i], k, r), LoOf(ks, i, lo), HiOf(ks, i, hi))
    ensures UpOrdered(OverflowInner(b, InsertAt(ks, i, k), InsertAt(cs, i + 1, r)), lo, hi)
  {
    PlacedOrdered(ks, cs, i, k, r, lo, hi);
    OverflowInnerOrdered(b, InsertAt(ks, i, k), InsertAt(cs, i + 1, r), lo, hi);
  }

  lemma SplitOrdered(ks: seq<Entry>, cs: seq<Tree>, m: nat, lo: int, hi: Option<nat>)
    requires Ordered(Node(ks, cs), lo, hi) && m < |ks|
    ensures UpOrdered(Split(Node(ks[..m], cs[..m + 1]), ks[m], Node(ks[m + 1..], cs[m + 1..])), lo, hi)
  {
    var kl, kr, cr := ks[..m], ks[m + 1..], cs[m + 1..];
    forall j | 0 <= j < m + 1
      ensures Ordered(cs[..m + 1][j], LoOf(kl, j, K(ks[m])), HiOf(kl, j, hi))
    {
      assert LoOf(kl, j, K(ks[m])) == LoOf(ks, j, lo) && HiOf(kl, j, hi) == HiOf(ks, j, hi);
    }
    forall j | 0 <= j < |cr|
      ensures Ordered(cr[j], LoOf(kr, j, lo), HiOf(kr, j, Some(K(ks[m]))))
    {
      assert cr[j] == cs[m + 1 + j];
      assert LoOf(kr, j, lo) == LoOf(ks, m + 1 + j, lo) && HiOf(kr, j, Some(K(ks[m]))) == HiOf(ks, m + 1 + j, hi);
    }
  }

  /** Inserting a fresh key keeps the order and the separators, through any chain of splits. */
  lemma {:induction false} InsertOrdered(b: Bucket, t: Tree, e: Entry, lo: int, hi: Option<nat>)
    requires Shaped(b, t) && Ordered(t, lo, hi) && Fresh(t, K(e))
    requires lo < K(e) && (hi.Some? ==> K(e) < hi.value)
    ensures UpOrdered(Insert(b, t, e), lo, hi)
  {
    match t
    case Leaf(es) => LeafInsertOrdered(b, es, e, lo, hi);
    case Node(ks, cs) =>
      var i := InsertPos(ks, K(e));
      FreshSlot(t, lo, hi, K(e));
      InsertOrdered(b, cs[i], e, LoOf(ks, i, lo), HiOf(ks, i, hi));
      NodeInsertOrdered(b, ks, cs, i, Insert(b, cs[i], e), lo, hi);
  }

  /** A node with what its child i became. */
  lemma NodeInsertOrdered(b: Bucket, ks: seq<Entry>, cs: seq<Tree>, i: nat, u: Up, lo: int, hi: Option<nat>)
    requires Shaped(b, Node(ks, cs)) && i < |cs| && UpShaped(b, u)
    requires Ordered(Node(ks, cs), lo, hi) && UpOrdered(u, LoOf(ks, i, lo), HiOf(ks, i, hi))
    ensures UpOrdered(if u.Done? then Done(Node(ks, cs[i := u.t])) else AddInner(b, ks, cs[i := u.l], u.k, u.r), lo, hi)
  {
    match u
    case Done(c) => ReplacedOrdered(ks, cs, i, c, lo, hi);
    case Split(l, k, r) => AddInnerOrdered(b, ks, cs[i := l], i, k, r, lo, hi);
  }

  lemma ReplacedOrdered(ks: seq<Entry>, cs: seq<Tree>, i: nat, c: Tree, lo: int, hi: Option<nat>)
    requires i < |cs| && Ordered(Node(ks, cs), lo, hi) && Ordered(c, LoOf(ks, i, lo), HiOf(ks, i, hi))
    ensures Ordered(Node(ks, cs[i := c]), lo, hi)
  {
  }

  // ---- Insertion puts the entry in its place among the leaves ----------------------------------------

  lemma {:induction false} InsertPosUnique(ks: seq<Entry>, k: nat, p: nat)
    requires p <= |ks| && (forall j :: 0 <= j < p ==> k <= K(ks[j])) && (p < |ks| ==> K(ks[p]) < k)
    ensures InsertPos(ks, k) == p
  {
    if p > 0 {
      InsertPosUnique(ks[1..], k, p - 1);
    }
  }

  lemma InsertPosConcat(a: seq<Entry>, m: seq<Entry>, c: seq<Entry>, k: nat)
    requires forall j :: 0 <= j < |a| ==> k <= K(a[j])
    requires forall j :: 0 <= j < |c| ==> K(c[j]) < k
    ensures InsertPos(a + m + c, k) == |a| + InsertPos(m, k)
  {
    InsertPosUnique(a + m + c, k, |a| + InsertPos(m, k));
  }

  lemma AddLeafInOrder(b: Bucket, es: seq<Entry>, e: Entry)
    requires |es| <= b
    ensures UpInOrder(AddLeaf(b, es, e)) == InsertAt(es, InsertPos(es, K(e)), e)
  {
    LeafOverflowInOrder(b, InsertAt(es, InsertPos(es, K(e)), e));
  }

  lemma LeafOverflowInOrder(b: Bucket, es: seq<Entry>)
    requires |es| <= b + 1
    ensures UpInOrder(OverflowLeaf(b, es)) == es
  {
    var m := b / 2 + 1;
    if |es| > b {
      SplitInOrder(Leaf(es[..m]), es[m], Leaf(es[m..]));
      assert es[..m] + es[m..] == es;
    }
  }

  lemma InOrdersInsert(cs: seq<Tree>, i: nat, r: Tree)
    requires i < |cs|
    ensures InOrders(InsertAt(cs, i + 1, r))
         == InOrders(cs[..i]) + (InOrder(cs[i]) + InOrder(r)) + InOrders(cs[i + 1..])
  {
    assert InsertAt(cs, i + 1, r) == cs[..i] + ([cs[i], r] + cs[i + 1..]);
    InOrdersConcat(cs[..i], [cs[i], r] + cs[i + 1..]);
    InOrdersConcat([cs[i], r], cs[i + 1..]);
    SplitInOrder(cs[i], Entry([], [], 0), r);
  }

  /** An inner page with one child more has its leaves, split or not. */
  lemma AddInnerInOrder(b: Bucket, ks: seq<Entry>, cs: seq<Tree>, k: Entry, r: Tree)
    requires Shaped(b, Node(ks, cs)) && Shaped(b, r)
    ensures UpInOrder(AddInner(b, ks, cs, k, r)) == InOrders(InsertAt(cs, InsertPos(ks, K(k)) + 1, r))
  {
    var u := AddInner(b, ks, cs, k, r);
    if u.Split? {
      var cs' := InsertAt(cs, InsertPos(ks, K(k)) + 1, r);
      var m := b / 2 + 2;
      SplitInOrder(u.l, u.k, u.r);
      assert cs' == cs'[..m] + cs'[m..];
      InOrdersConcat(cs'[..m], cs'[m..]);
    }
  }

  lemma InsertAtConcat<T>(a: seq<T>, m: seq<T>, c: seq<T>, p: nat, x: T)
    requires p <= |m|
    ensures InsertAt(a + m + c, |a| + p, x) == a + InsertAt(m, p, x) + c
  {
  }

  lemma ReplacedInOrder(cs: seq<Tree>, i: nat, c: Tree)
    requires i < |cs|
    ensures InOrders(cs[i := c]) == InOrders(cs[..i]) + InOrder(c) + InOrders(cs[i + 1..])
  {
    InOrdersAt(cs[i := c], i);
    assert cs[i := c][..i] == cs[..i] && cs[i := c][i + 1..] == cs[i + 1..];
  }

  lemma SplitChildInOrder(b: Bucket, ks: seq<Entry>, cs: seq<Tree>, i: nat, l: Tree, k: Entry, r: Tree)
    requires i < |cs| && Shaped(b, Node(ks, cs[i := l])) && Shaped(b, r) && InsertPos(ks, K(k)) == i
    ensures UpInOrder(AddInner(b, ks, cs[i := l], k, r))
         == InOrders(cs[..i]) + UpInOrder(Split(l, k, r)) + InOrders(cs[i + 1..])
  {
    AddInnerInOrder(b, ks, cs[i := l], k, r);
    InOrdersInsert(cs[i := l], i, r);
    SplitInOrder(l, k, r);
    assert cs[i := l][..i] == cs[..i] && cs[i := l][i + 1..] == cs[i + 1..];
  }

  lemma PlacedBetween(a: seq<Entry>, m: seq<Entry>, c: seq<Entry>, e: Entry)
    requires forall j :: 0 <= j < |a| ==> K(e) <= K(a[j])
    requires forall j :: 0 <= j < |c| ==> K(c[j]) < K(e)
    ensures a + InsertAt(m, InsertPos(m, K(e)), e) + c == InsertAt(a + m + c, InsertPos(a + m + c, K(e)), e)
  {
    InsertPosConcat(a, m, c, K(e));
    InsertAtConcat(a, m, c, InsertPos(m, K(e)), e);
  }

  /** The leaves of an inner page after the insertion below it: only child i's have changed. */
  lemma NodeInsertInOrder(b: Bucket, t: Tree, e: Entry, i: nat)
    requires Shaped(b, t) && t.Node? && i == InsertPos(t.ks, K(e))
    requires var u := Insert(b, t.cs[i], e); u.Split? ==> InsertPos(t.ks, K(u.k)) == i
    ensures var below := UpInOrder(Insert(b, t.cs[i], e));
            UpInOrder(Insert(b, t, e)) == InOrders(t.cs[..i]) + below + InOrders(t.cs[i + 1..])
  {
    var u := Insert(b, t.cs[i], e);
    if u.Done? {
      ReplacedInOrder(t.cs, i, u.t);
    } else {
      SplitChildInOrder(b, t.ks, t.cs, i, u.l, u.k, u.r);
    }
  }

  /** The key a child's split promotes belongs where the child stood. */
  lemma SplitSlot(b: Bucket, t: Tree, e: Entry, lo: int, hi: Option<nat>)
    requires Shaped(b, t) && Ordered(t, lo, hi) && Fresh(t, K(e)) && t.Node?
    requires lo < K(e) && (hi.Some? ==> K(e) < hi.value)
    ensures var i := InsertPos(t.ks, K(e));
            var u := Insert(b, t.cs[i], e);
            u.Split? ==> InsertPos(t.ks, K(u.k)) == i
  {
    var i := InsertPos(t.ks, K(e));
    var u := Insert(b, t.cs[i], e);
    FreshSlot(t, lo, hi, K(e));
    InsertOrdered(b, t.cs[i], e, LoOf(t.ks, i, lo), HiOf(t.ks, i, hi));
    if u.Split? {
      SlotBetween(t.ks, i, K(u.k), lo, hi);
    }
  }

  /** A key between the neighbours of a slot goes to that slot. */
  lemma SlotBetween(ks: seq<Entry>, i: nat, k: nat, lo: int, hi: Option<nat>)
    requires StrictDesc(ks) && i <= |ks|
    requires LoOf(ks, i, lo) < k && (HiOf(ks, i, hi).Some? ==> k < HiOf(ks, i, hi).value)
    ensures InsertPos(ks, k) == i
  {
    InsertPosUnique(ks, k, i);
  }

  /** The leaves after an insertion are the leaves before it with the new entry, and nothing else, in its place. */
  lemma {:induction false} InsertInOrder(b: Bucket, t: Tree, e: Entry, lo: int, hi: Option<nat>)
    requires Shaped(b, t) && Ordered(t, lo, hi) && Fresh(t, K(e))
    requires lo < K(e) && (hi.Some? ==> K(e) < hi.value)
    ensures UpInOrder(Insert(b, t, e)) == InsertAt(InOrder(t), InsertPos(InOrder(t), K(e)), e)
  {
    match t
    case Leaf(es) =>
      AddLeafInOrder(b, es, e);
    case Node(ks, cs) =>
      var i := InsertPos(ks, K(e));
      var a, m, c := InOrders(cs[..i]), InOrder(cs[i]), InOrders(cs[i + 1..]);
      FreshSlot(t, lo, hi, K(e));
      ChildBetween(t, lo, hi, i);
      InsertInOrder(b, cs[i], e, LoOf(ks, i, lo), HiOf(ks, i, hi));
      SplitSlot(b, t, e, lo, hi);
      NodeInsertInOrder(b, t, e, i);
      PlacedBetween(a, m, c, e);
  }
}
