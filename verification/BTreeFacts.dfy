/** The main results about the abstract tree: insertion keeps it well formed exactly for fresh keys, it reads as a
    map, its separators are the first keys of its leaves, and its height is logarithmic. */
module BTreeFacts {
  import opened Ids
  import opened BTree
  import opened BTreeProofs

  // ---- Height and room ---------------------------------------------------------------------------

  lemma OverflowInnerBalanced(b: Bucket, ks: seq<Entry>, cs: seq<Tree>, n: nat, root: bool)
    requires |ks| <= b + 1 && |cs| == |ks| + 1 && forall i :: 0 <= i < |cs| ==> Shaped(b, cs[i])
    requires Balanced(b, Node(ks, cs), n, root)
    ensures UpBalanced(b, OverflowInner(b, ks, cs), n, root)
  {
  }

  lemma AddInnerBalanced(b: Bucket, ks: seq<Entry>, cs: seq<Tree>, k: Entry, r: Tree, n: nat, root: bool)
    requires Shaped(b, Node(ks, cs)) && Shaped(b, r)
    requires Balanced(b, Node(ks, cs), n, root) && Balanced(b, r, n - 1, false)
    ensures UpBalanced(b, AddInner(b, ks, cs, k, r), n, root)
  {
    var p := InsertPos(ks, K(k));
    OverflowInnerBalanced(b, InsertAt(ks, p, k), InsertAt(cs, p + 1, r), n, root);
  }

  lemma {:induction false} InsertBalanced(b: Bucket, t: Tree, e: Entry, n: nat, root: bool)
    requires Shaped(b, t) && Balanced(b, t, n, root)
    ensures UpBalanced(b, Insert(b, t, e), n, root)
  {
    if t.Node? {
      var i := InsertPos(t.ks, K(e));
      InsertBalanced(b, t.cs[i], e, n - 1, false);
      var u := Insert(b, t.cs[i], e);
      if u.Split? {
        AddInnerBalanced(b, t.ks, t.cs[i := u.l], u.k, u.r, n, root);
      }
    }
  }

  // ---- Insertion, any key ------------------------------------------------------------------------

  lemma ReplacedConserves(cs: seq<Tree>, i: nat, c: Tree, m: multiset<Entry>)
    requires i < |cs| && multiset(InOrder(c)) == multiset(InOrder(cs[i])) + m
    ensures multiset(InOrders(cs[i := c])) == multiset(InOrders(cs)) + m
  {
    InOrdersAt(cs, i);
    ReplacedInOrder(cs, i, c);
  }

  /** What an inner page gains when child i is split into l and r: what the two hold more than the child. */
  lemma SplitChildConserves(b: Bucket, ks: seq<Entry>, cs: seq<Tree>, i: nat, l: Tree, k: Entry, r: Tree, e: Entry)
    requires i < |cs| && Shaped(b, Node(ks, cs)) && Shaped(b, l) && Shaped(b, r)
    requires multiset(InOrder(l) + InOrder(r)) == multiset(InOrder(cs[i])) + multiset{e}
    ensures multiset(UpInOrder(AddInner(b, ks, cs[i := l], k, r))) == multiset(InOrders(cs)) + multiset{e}
  {
    AddInnerConserves(b, ks, cs[i := l], k, r);
    ReplacedInOrder(cs, i, l);
    InOrdersAt(cs, i);
    var a, c := InOrders(cs[..i]), InOrders(cs[i + 1..]);
    assert multiset(a + InOrder(l) + c) + multiset(InOrder(r)) ==
           multiset(a) + multiset(InOrder(l) + InOrder(r)) + multiset(c);
  }

  lemma NodeConserves(b: Bucket, t: Tree, e: Entry, i: nat, u: Up)
    requires Shaped(b, t) && t.Node? && i == InsertPos(t.ks, K(e)) && u == Insert(b, t.cs[i], e)
    requires multiset(UpInOrder(u)) == multiset(InOrder(t.cs[i])) + multiset{e}
    ensures multiset(UpInOrder(Insert(b, t, e))) == multiset(InOrder(t)) + multiset{e}
  {
    if u.Done? {
      ReplacedConserves(t.cs, i, u.t, multiset{e});
    } else {
      SplitInOrder(u.l, u.k, u.r);
      SplitChildConserves(b, t.ks, t.cs, i, u.l, u.k, u.r, e);
    }
  }

  /** Fresh or not, insertion loses no entry, makes up none, and stores the new one once. */
  lemma {:induction false} InsertConserves(b: Bucket, t: Tree, e: Entry)
    requires Shaped(b, t)
    ensures multiset(UpInOrder(Insert(b, t, e))) == multiset(InOrder(t)) + multiset{e}
  {
    match t
    case Leaf(es) =>
      AddLeafInOrder(b, es, e);
      InsertAtMultiset(es, InsertPos(es, K(e)), e);
    case Node(ks, cs) =>
      var i := InsertPos(ks, K(e));
      InsertConserves(b, cs[i], e);
      NodeConserves(b, t, e, i, Insert(b, cs[i], e));
  }

  lemma InsertAtMultiset(es: seq<Entry>, p: nat, e: Entry)
    requires p <= |es|
    ensures multiset(InsertAt(es, p, e)) == multiset(es) + multiset{e}
  {
    assert es == es[..p] + es[p..];
  }

  lemma AddInnerConserves(b: Bucket, ks: seq<Entry>, cs: seq<Tree>, k: Entry, r: Tree)
    requires Shaped(b, Node(ks, cs)) && Shaped(b, r)
    ensures multiset(UpInOrder(AddInner(b, ks, cs, k, r))) == multiset(InOrders(cs)) + multiset(InOrder(r))
  {
    var p := InsertPos(ks, K(k));
    AddInnerInOrder(b, ks, cs, k, r);
    InOrdersInsert(cs, p, r);
    InOrdersAt(cs, p);
  }

  lemma {:induction false} RunHoldsKeysOnce(es: seq<Entry>, x: Entry, y: Entry)
    requires StrictDesc(es)
    ensures multiset(es)[x] <= 1
    ensures x in es && y in es && K(x) == K(y) ==> x == y
  {
    if es != [] {
      RunHoldsKeysOnce(es[1..], x, y);
      assert es == [es[0]] + es[1..];
      assert forall z :: z in es[1..] ==> K(z) < K(es[0]);
      assert es[0] !in es[1..];
    }
  }

  lemma DuplicateIsDisordered(b: Bucket, t: Tree, e: Entry)
    requires Shaped(b, t) && !Fresh(t, K(e))
    ensures !Ordered(InsertRoot(b, t, e), -1, None)
  {
    var es, es' := InOrder(t), InOrder(InsertRoot(b, t, e));
    InsertConserves(b, t, e);
    var i :| 0 <= i < |es| && K(es[i]) == K(e);
    assert es[i] in multiset(es') && e in multiset(es');
    assert es[i] == e ==> multiset(es')[e] >= 2;
    if StrictDesc(es') {
      RunHoldsKeysOnce(es', es[i], e);
      assert false;
    }
    if Ordered(InsertRoot(b, t, e), -1, None) {
      OrderedLeaves(InsertRoot(b, t, e), -1, None);
    }
  }

  function NewHeight(b: Bucket, t: Tree, e: Entry, n: nat): nat
    requires Shaped(b, t)
  {
    if Insert(b, t, e).Split? then n + 1 else n
  }

  lemma FreshKeepsWellFormed(b: Bucket, t: Tree, n: nat, e: Entry)
    requires WellFormed(b, t, n) && Fresh(t, K(e))
    ensures WellFormed(b, InsertRoot(b, t, e), NewHeight(b, t, e, n))
  {
    InsertOrdered(b, t, e, -1, None);
    InsertBalanced(b, t, e, n, true);
    FinishKeeps(b, Insert(b, t, e), n);
  }

  lemma FinishKeeps(b: Bucket, u: Up, n: nat)
    requires UpShaped(b, u) && UpOrdered(u, -1, None) && UpBalanced(b, u, n, true)
    ensures WellFormed(b, Finish(u), if u.Split? then n + 1 else n)
  {
    if u.Split? {
      var t := Finish(u);
      assert t.cs[0] == u.l && t.cs[1] == u.r;
      forall i | 0 <= i < 2 ensures Ordered(t.cs[i], LoOf(t.ks, i, -1), HiOf(t.ks, i, None)) &&
        Balanced(b, t.cs[i], n, false) {
        assert i == 0 || i == 1;
      }
    }
  }

  /** An insertion keeps the tree well formed if and only if its key is not in the tree yet. Then the leaves are
      the old ones with the new entry in its place. */
  lemma InsertKeepsWellFormed(b: Bucket, t: Tree, n: nat, e: Entry)
    requires WellFormed(b, t, n)
    ensures WellFormed(b, InsertRoot(b, t, e), NewHeight(b, t, e, n)) <==> Fresh(t, K(e))
    ensures Fresh(t, K(e)) ==> InOrder(InsertRoot(b, t, e)) == InsertAt(InOrder(t), InsertPos(InOrder(t), K(e)), e)
  {
    if Fresh(t, K(e)) {
      FreshKeepsWellFormed(b, t, n, e);
      InsertInOrder(b, t, e, -1, None);
    } else {
      DuplicateIsDisordered(b, t, e);
    }
  }
}
