/** Reading the tree: what `find` returns, what the separators are, what `update` and a scan do, and how high
    the tree grows. */
module BTreeReading {
  import opened Ids
  import opened BTree
  import opened BTreeProofs
  import opened BTreeFacts

  // ---- The separators ------------------------------------------------------------------------------

  lemma {:induction false} WeaveMembers(ks: seq<Entry>, cs: seq<Tree>, x: Entry)
    requires |cs| == |ks| + 1
    ensures x in Weave(ks, cs) <==> x in ks || exists i :: 0 <= i < |cs| && x in Seps(cs[i])
  {
    if ks != [] {
      WeaveMembers(ks[1..], cs[1..], x);
      assert ks == [ks[0]] + ks[1..] && cs == [cs[0]] + cs[1..];
    }
  }

  ghost predicate Between(es: seq<Entry>, lo: int, hi: Option<nat>) {
    StrictDesc(es) && forall i :: 0 <= i < |es| ==> lo < K(es[i]) && (hi.Some? ==> K(es[i]) < hi.value)
  }

  lemma BetweenConcat(a: seq<Entry>, x: Entry, c: seq<Entry>, lo: int, hi: Option<nat>)
    requires Between(a, K(x), hi) && Between(c, lo, Some(K(x))) && lo < K(x) && (hi.Some? ==> K(x) < hi.value)
    ensures Between(a + [x] + c, lo, hi)
  {
  }

  /** No key separates twice: the separators of an ordered tree are strictly descending and inside its interval. */
  lemma {:induction false} SepsOrdered(t: Tree, lo: int, hi: Option<nat>)
    requires Ordered(t, lo, hi)
    ensures Between(Seps(t), lo, hi)
    decreases t, |t.ks| + 2
  {
    if t.Node? {
      WeaveOrdered(t, lo, hi, 0);
      assert t.cs[0..] == t.cs && t.ks[0..] == t.ks;
    }
  }

  lemma {:induction false} WeaveOrdered(t: Tree, lo: int, hi: Option<nat>, j: nat)
    requires Ordered(t, lo, hi) && t.Node? && j < |t.cs|
    ensures Between(Weave(t.ks[j..], t.cs[j..]), lo, HiOf(t.ks, j, hi))
    decreases t, |t.cs| - j
  {
    var ks, cs := t.ks, t.cs;
    SepsOrdered(cs[j], LoOf(ks, j, lo), HiOf(ks, j, hi));
    if j < |ks| {
      WeaveOrdered(t, lo, hi, j + 1);
      assert ks[j..][1..] == ks[j + 1..] && cs[j..][1..] == cs[j + 1..];
      BetweenConcat(Seps(cs[j]), ks[j], Weave(ks[j + 1..], cs[j + 1..]), lo, HiOf(ks, j, hi));
    }
  }

  /** The first key of every leaf, from left to right; `None` for an empty leaf. */
  function Firsts(t: Tree): seq<Option<nat>> {
    match t
    case Leaf(es) => [if es == [] then None else Some(K(es[0]))]
    case Node(_, cs) => FirstsOf(cs)
  }

  function FirstsOf(cs: seq<Tree>): seq<Option<nat>> {
    if cs == [] then [] else Firsts(cs[0]) + FirstsOf(cs[1..])
  }

  function KeysOf(es: seq<Entry>): (r: seq<Option<nat>>)
    ensures |r| == |es|
  {
    if es == [] then [] else [Some(K(es[0]))] + KeysOf(es[1..])
  }

  lemma {:induction false} KeysOfConcat(a: seq<Entry>, c: seq<Entry>)
    ensures KeysOf(a + c) == KeysOf(a) + KeysOf(c)
  {
    if a == [] {
      assert a + c == c;
    } else {
      assert (a + c)[1..] == a[1..] + c;
      KeysOfConcat(a[1..], c);
    }
  }

  ghost predicate HeadedBy(firsts: seq<Option<nat>>, hi: Option<nat>, seps: seq<Entry>) {
    |firsts| > 0 && firsts[1..] == KeysOf(seps) && (hi.Some? ==> firsts[0] == hi)
  }

  /** The separators are, one for one and in order, the first keys of all leaves but the leftmost. So there is one
      separator less than there are leaves, and each is the first key of the leftmost leaf to its right. */
  lemma {:induction false} SeparatorsAreFirstKeys(t: Tree, lo: int, hi: Option<nat>)
    requires Ordered(t, lo, hi)
    ensures |Firsts(t)| == |Seps(t)| + 1
    ensures Firsts(t)[1..] == KeysOf(Seps(t))
    ensures hi.Some? ==> Firsts(t)[0] == hi
    decreases t, |t.ks| + 2
  {
    if t.Node? {
      WeaveFirsts(t, lo, hi, 0);
      assert t.cs[0..] == t.cs && t.ks[0..] == t.ks;
    }
  }

  lemma {:induction false} WeaveFirsts(t: Tree, lo: int, hi: Option<nat>, j: nat)
    requires Ordered(t, lo, hi) && t.Node? && j < |t.cs|
    ensures HeadedBy(FirstsOf(t.cs[j..]), HiOf(t.ks, j, hi), Weave(t.ks[j..], t.cs[j..]))
    decreases t, |t.cs| - j
  {
    var ks, cs := t.ks, t.cs;
    SeparatorsAreFirstKeys(cs[j], LoOf(ks, j, lo), HiOf(ks, j, hi));
    assert cs[j..][1..] == cs[j + 1..];
    if j < |ks| {
      WeaveFirsts(t, lo, hi, j + 1);
      assert ks[j..][1..] == ks[j + 1..];
      HeadedConcat(Firsts(cs[j]), HiOf(ks, j, hi), Seps(cs[j]), ks[j], FirstsOf(cs[j + 1..]),
        Weave(ks[j + 1..], cs[j + 1..]));
    } else {
      assert cs[j + 1..] == [];
    }
  }

  lemma HeadedConcat(a: seq<Option<nat>>, hi: Option<nat>, s: seq<Entry>, k: Entry, c: seq<Option<nat>>, w: seq<Entry>)
    requires HeadedBy(a, hi, s) && HeadedBy(c, Some(K(k)), w)
    ensures HeadedBy(a + c, hi, s + [k] + w)
  {
    KeysOfConcat(s + [k], w);
    KeysOfConcat(s, [k]);
    assert c == [Some(K(k))] + KeysOf(w);
    assert (a + c)[1..] == a[1..] + c;
  }

  // ---- find ----------------------------------------------------------------------------------------

  lemma {:induction false} FindUnique(es: seq<Entry>, x: Entry)
    requires StrictDesc(es) && x in es
    ensures Find(es, K(x)) == Some(x)
  {
    var r := Find(es, K(x)).value;
    var i :| 0 <= i < |es| && es[i] == x;
    var j :| 0 <= j < |es| && es[j] == r;
    assert i == j;
  }

  lemma FindSame(es: seq<Entry>, part: seq<Entry>, k: nat)
    requires StrictDesc(es) && StrictDesc(part)
    requires forall x :: x in part ==> x in es
    requires forall x :: x in es && K(x) == k ==> x in part
    ensures Find(es, k) == Find(part, k)
  {
    var r := Find(es, k);
    if r.Some? {
      FindUnique(part, r.value);
    }
  }

  /** A key strictly inside the interval of child i: what the tree knows of it, the child knows. */
  lemma SepsBelow(t: Tree, lo: int, hi: Option<nat>, i: nat, k: nat)
    requires Ordered(t, lo, hi) && t.Node? && i < |t.cs|
    requires (i < |t.ks| ==> K(t.ks[i]) < k) && (i > 0 ==> k < K(t.ks[i - 1]))
    ensures Find(Seps(t), k) == Find(Seps(t.cs[i]), k)
  {
    var ks, cs := t.ks, t.cs;
    SepsOrdered(t, lo, hi);
    SepsOrdered(cs[i], LoOf(ks, i, lo), HiOf(ks, i, hi));
    forall x | x in Seps(cs[i]) ensures x in Seps(t) { WeaveMembers(ks, cs, x); }
    forall x | x in Seps(t) && K(x) == k ensures x in Seps(cs[i]) { SepBelow(t, lo, hi, i, x); }
    FindSame(Seps(t), Seps(cs[i]), k);
  }

  lemma SepBelow(t: Tree, lo: int, hi: Option<nat>, i: nat, x: Entry)
    requires Ordered(t, lo, hi) && t.Node? && i < |t.cs| && x in Seps(t)
    requires (i < |t.ks| ==> K(t.ks[i]) < K(x)) && (i > 0 ==> K(x) < K(t.ks[i - 1]))
    ensures x in Seps(t.cs[i])
  {
    var ks, cs := t.ks, t.cs;
    WeaveMembers(ks, cs, x);
    Slots(ks, i, K(x));
    var j :| 0 <= j < |cs| && x in Seps(cs[j]);
    SepOfChild(t, lo, hi, j, x);
  }

  lemma SepOfChild(t: Tree, lo: int, hi: Option<nat>, j: nat, x: Entry)
    requires Ordered(t, lo, hi) && t.Node? && j < |t.cs| && x in Seps(t.cs[j])
    ensures (j < |t.ks| ==> K(t.ks[j]) < K(x)) && (j > 0 ==> K(x) < K(t.ks[j - 1]))
  {
    SepsOrdered(t.cs[j], LoOf(t.ks, j, lo), HiOf(t.ks, j, hi));
  }

  /** A key between two neighbours of a run: everything before is larger, everything after is smaller. */
  lemma Slots(ks: seq<Entry>, i: nat, k: nat)
    requires StrictDesc(ks) && i <= |ks|
    requires (i < |ks| ==> K(ks[i]) < k) && (i > 0 ==> k < K(ks[i - 1]))
    ensures forall j :: 0 <= j < |ks| ==> if j < i then k < K(ks[j]) else K(ks[j]) < k
  {
    forall j | 0 <= j < |ks| ensures if j < i then k < K(ks[j]) else K(ks[j]) < k {
      assert j < i - 1 ==> K(ks[i - 1]) < K(ks[j]);
      assert i < j ==> K(ks[j]) < K(ks[i]);
    }
  }

  lemma LeavesBelow(t: Tree, lo: int, hi: Option<nat>, i: nat, k: nat)
    requires Ordered(t, lo, hi) && t.Node? && i < |t.cs|
    requires (i < |t.ks| ==> K(t.ks[i]) < k) && (i > 0 ==> k < K(t.ks[i - 1]))
    ensures Find(InOrder(t), k) == Find(InOrder(t.cs[i]), k)
  {
    ChildBetween(t, lo, hi, i);
    OrderedLeaves(t, lo, hi);
    OrderedLeaves(t.cs[i], LoOf(t.ks, i, lo), HiOf(t.ks, i, hi));
    FindSame(InOrder(t), InOrder(t.cs[i]), k);
  }

  /** `find` returns the separator with the key if there is one, and the leaf entry with it otherwise. */
  lemma {:induction false} LookupReads(b: Bucket, t: Tree, k: nat, lo: int, hi: Option<nat>)
    requires Shaped(b, t) && Ordered(t, lo, hi)
    ensures Lookup(b, t, k) == var s := Find(Seps(t), k); if s.Some? then s else Find(InOrder(t), k)
  {
    var i := FirstAtMost(t.ks, k);
    if i < |t.ks| && K(t.ks[i]) == k {
      LookupHit(t, lo, hi, i);
    } else if t.Node? {
      LookupReads(b, t.cs[i], k, LoOf(t.ks, i, lo), HiOf(t.ks, i, hi));
      SepsBelow(t, lo, hi, i, k);
      LeavesBelow(t, lo, hi, i, k);
    } else {
      Slots(t.ks, i, k);
    }
  }

  lemma LookupHit(t: Tree, lo: int, hi: Option<nat>, i: nat)
    requires Ordered(t, lo, hi) && i < |t.ks|
    ensures Find(if t.Leaf? then t.ks else Seps(t), K(t.ks[i])) == Some(t.ks[i])
  {
    if t.Leaf? {
      FindUnique(t.ks, t.ks[i]);
    } else {
      SepsOrdered(t, lo, hi);
      WeaveMembers(t.ks, t.cs, t.ks[i]);
      FindUnique(Seps(t), t.ks[i]);
    }
  }

  // ---- update --------------------------------------------------------------------------------------

  lemma RepositionedBetween(a: seq<Entry>, m: seq<Entry>, c: seq<Entry>, k: nat, pos: int)
    requires forall j :: 0 <= j < |a| ==> k < K(a[j])
    requires forall j :: 0 <= j < |c| ==> K(c[j]) < k
    ensures Repositioned(a + m + c, k, pos) == a + Repositioned(m, k, pos) + c
  {
    FirstAtMostUnique(a + m + c, k, |a| + FirstAtMost(m, k));
  }

  lemma {:induction false} FirstAtMostUnique(ks: seq<Entry>, k: nat, p: nat)
    requires p <= |ks| && (forall j :: 0 <= j < p ==> k < K(ks[j])) && (p < |ks| ==> K(ks[p]) <= k)
    ensures FirstAtMost(ks, k) == p
  {
    if p > 0 {
      FirstAtMostUnique(ks[1..], k, p - 1);
    }
  }

  /** `update` changes the position of the leaf entry with the key, and no other leaf entry. */
  lemma {:induction false} UpdateLeaves(b: Bucket, t: Tree, k: nat, pos: int, lo: int, hi: Option<nat>)
    requires Shaped(b, t) && Ordered(t, lo, hi)
    ensures InOrder(Update(b, t, k, pos)) == Repositioned(InOrder(t), k, pos)
  {
    if t.Node? {
      var i := InsertPos(t.ks, k);
      UpdateLeaves(b, t.cs[i], k, pos, LoOf(t.ks, i, lo), HiOf(t.ks, i, hi));
      ChildBetween(t, lo, hi, i);
      RepositionedBetween(InOrders(t.cs[..i]), InOrder(t.cs[i]), InOrders(t.cs[i + 1..]), k, pos);
      ReplacedInOrder(t.cs, i, Update(b, t.cs[i], k, pos));
    }
  }

  lemma RepositionedEach(es: seq<Entry>, k: nat, pos: int, j: nat)
    requires StrictDesc(es) && j < |es|
    ensures Repositioned(es, k, pos)[j] ==
            if K(es[j]) == k then Entry(es[j].key, es[j].documentId, pos) else es[j]
  {
    if K(es[j]) == k {
      FirstAtMostUnique(es, k, j);
    }
  }

  /** So an update writes the position given into the leaf entry with the key, whose key and document stay, and every
      other leaf entry stays in its place. */
  lemma UpdateChangesPosition(b: Bucket, t: Tree, k: nat, pos: int, lo: int, hi: Option<nat>, j: nat)
    requires Shaped(b, t) && Ordered(t, lo, hi) && j < |InOrder(t)|
    ensures var e, r := InOrder(t)[j], InOrder(Update(b, t, k, pos));
            |r| == |InOrder(t)| && r[j] == if K(e) == k then Entry(e.key, e.documentId, pos) else e
  {
    OrderedLeaves(t, lo, hi);
    UpdateLeaves(b, t, k, pos, lo, hi);
    RepositionedEach(InOrder(t), k, pos, j);
  }

  lemma {:induction false} WeaveSame(ks: seq<Entry>, cs: seq<Tree>, i: nat, c: Tree)
    requires i < |cs| && Seps(c) == Seps(cs[i])
    ensures Weave(ks, cs[i := c]) == Weave(ks, cs)
    decreases cs
  {
    if i > 0 && ks != [] {
      assert cs[i := c][1..] == cs[1..][i - 1 := c];
      WeaveSame(ks[1..], cs[1..], i - 1, c);
    }
  }

  /** ... and it leaves every separator as it is. */
  lemma {:induction false} UpdateKeepsSeps(b: Bucket, t: Tree, k: nat, pos: int)
    requires Shaped(b, t)
    ensures Seps(Update(b, t, k, pos)) == Seps(t)
  {
    if t.Node? {
      var i := InsertPos(t.ks, k);
      UpdateKeepsSeps(b, t.cs[i], k, pos);
      WeaveSame(t.ks, t.cs, i, Update(b, t.cs[i], k, pos));
    }
  }

  lemma {:induction false} UpdateKeepsOrder(b: Bucket, t: Tree, k: nat, pos: int, lo: int, hi: Option<nat>)
    requires Shaped(b, t) && Ordered(t, lo, hi)
    ensures Ordered(Update(b, t, k, pos), lo, hi)
  {
    if t.Node? {
      var i := InsertPos(t.ks, k);
      UpdateKeepsOrder(b, t.cs[i], k, pos, LoOf(t.ks, i, lo), HiOf(t.ks, i, hi));
    }
  }

  lemma {:induction false} UpdateKeepsBalance(b: Bucket, t: Tree, k: nat, pos: int, n: nat, root: bool)
    requires Shaped(b, t) && Balanced(b, t, n, root)
    ensures Balanced(b, Update(b, t, k, pos), n, root)
  {
    if t.Node? {
      UpdateKeepsBalance(b, t.cs[InsertPos(t.ks, k)], k, pos, n - 1, false);
    }
  }

  // ---- Insertion and the separators ------------------------------------------------------------------

  lemma OverflowSeps(b: Bucket, ks: seq<Entry>, cs: seq<Tree>, x: Entry)
    requires |ks| <= b + 1 && |cs| == |ks| + 1 && forall i :: 0 <= i < |cs| ==> Shaped(b, cs[i])
    requires x in Seps(Finish(OverflowInner(b, ks, cs)))
    ensures x in ks || exists i :: 0 <= i < |cs| && x in Seps(cs[i])
  {
    var u := OverflowInner(b, ks, cs);
    if u.Done? {
      WeaveMembers(ks, cs, x);
    } else {
      SplitSeps(u.l, u.k, u.r, x);
      WeaveMembers(u.l.ks, u.l.cs, x);
      WeaveMembers(u.r.ks, u.r.cs, x);
    }
  }

  lemma SplitSeps(l: Tree, k: Entry, r: Tree, x: Entry)
    ensures x in Seps(Finish(Split(l, k, r))) <==> x == k || x in Seps(l) || x in Seps(r)
  {
    WeaveMembers([k], [l, r], x);
    assert [l, r][0] == l && [l, r][1] == r;
  }

  ghost predicate InSeps(cs: seq<Tree>, x: Entry) {
    exists i :: 0 <= i < |cs| && x in Seps(cs[i])
  }

  lemma InsertedSeps(cs: seq<Tree>, i: nat, l: Tree, p: nat, r: Tree, x: Entry)
    requires i < |cs| && p <= |cs| && InSeps(InsertAt(cs[i := l], p, r), x)
    ensures InSeps(cs, x) || x in Seps(l) || x in Seps(r)
  {
    var cs' := InsertAt(cs[i := l], p, r);
    var j :| 0 <= j < |cs'| && x in Seps(cs'[j]);
    assert cs'[j] == r || cs'[j] == l || cs'[j] in cs;
  }

  /** What stands in an inner page after the split of child i was placed in it. */
  lemma PlacedSeps(b: Bucket, t: Tree, i: nat, l: Tree, k: Entry, r: Tree, x: Entry)
    requires Shaped(b, t) && t.Node? && i < |t.cs| && Shaped(b, l) && Shaped(b, r)
    requires x in Seps(Finish(AddInner(b, t.ks, t.cs[i := l], k, r)))
    ensures x in Seps(t) || x in Seps(Finish(Split(l, k, r)))
  {
    var p := InsertPos(t.ks, K(k));
    var ks', cs' := InsertAt(t.ks, p, k), InsertAt(t.cs[i := l], p + 1, r);
    OverflowSeps(b, ks', cs', x);
    WeaveMembers(t.ks, t.cs, x);
    SplitSeps(l, k, r, x);
    if x !in ks' {
      InsertedSeps(t.cs, i, l, p + 1, r, x);
    }
  }

  /** Insertion adds at most copies of leaf entries to the separators: it makes none stale. */
  lemma {:induction false} InsertSeps(b: Bucket, t: Tree, e: Entry, x: Entry)
    requires Shaped(b, t)
    ensures x in Seps(Finish(Insert(b, t, e))) ==> x in Seps(t) || x in UpInOrder(Insert(b, t, e))
  {
    match t
    case Leaf(es) => LeafSeps(b, es, e, x);
    case Node(ks, cs) =>
      var i := InsertPos(ks, K(e));
      InsertSeps(b, cs[i], e, x);
      NodeSeps(b, t, e, i, x);
  }

  lemma LeafSeps(b: Bucket, es: seq<Entry>, e: Entry, x: Entry)
    requires |es| <= b
    ensures x in Seps(Finish(AddLeaf(b, es, e))) ==> x in UpInOrder(AddLeaf(b, es, e))
  {
    var u := AddLeaf(b, es, e);
    if u.Split? {
      SplitSeps(u.l, u.k, u.r, x);
      SplitInOrder(u.l, u.k, u.r);
      assert u.r.ks[0] == u.k;
    }
  }

  lemma LeavesMoveUp(b: Bucket, t: Tree, e: Entry, i: nat, x: Entry)
    requires Shaped(b, t) && t.Node? && i == InsertPos(t.ks, K(e)) && x in UpInOrder(Insert(b, t.cs[i], e))
    ensures x in UpInOrder(Insert(b, t, e))
  {
    var u := Insert(b, t.cs[i], e);
    if u.Done? {
      ReplacedInOrder(t.cs, i, u.t);
    } else {
      SplitInOrder(u.l, u.k, u.r);
      ReplacedInOrder(t.cs, i, u.l);
      AddInnerConserves(b, t.ks, t.cs[i := u.l], u.k, u.r);
      assert x in multiset(UpInOrder(AddInner(b, t.ks, t.cs[i := u.l], u.k, u.r)));
    }
  }

  lemma NodeSeps(b: Bucket, t: Tree, e: Entry, i: nat, x: Entry)
    requires Shaped(b, t) && t.Node? && i == InsertPos(t.ks, K(e))
    requires var u := Insert(b, t.cs[i], e); x in Seps(Finish(u)) ==> x in Seps(t.cs[i]) || x in UpInOrder(u)
    ensures x in Seps(Finish(Insert(b, t, e))) ==> x in Seps(t) || x in UpInOrder(Insert(b, t, e))
  {
    var u := Insert(b, t.cs[i], e);
    WeaveMembers(t.ks, t.cs, x);
    if x in Seps(Finish(Insert(b, t, e))) && x !in Seps(t) {
      if u.Done? {
        WeaveMembers(t.ks, t.cs[i := u.t], x);
      } else {
        PlacedSeps(b, t, i, u.l, u.k, u.r, x);
      }
      LeavesMoveUp(b, t, e, i, x);
    }
  }

  // ---- Insertion loses no separator ------------------------------------------------------------------

  lemma OverflowKeepsSeps(b: Bucket, ks: seq<Entry>, cs: seq<Tree>, x: Entry)
    requires |ks| <= b + 1 && |cs| == |ks| + 1 && forall i :: 0 <= i < |cs| ==> Shaped(b, cs[i])
    requires x in ks || InSeps(cs, x)
    ensures x in Seps(Finish(OverflowInner(b, ks, cs)))
  {
    var u, m := OverflowInner(b, ks, cs), b / 2 + 1;
    if u.Done? {
      WeaveMembers(ks, cs, x);
    } else {
      SplitSeps(u.l, u.k, u.r, x);
      WeaveMembers(u.l.ks, u.l.cs, x);
      WeaveMembers(u.r.ks, u.r.cs, x);
      HalvedMembers(ks, cs, m, x);
    }
  }

  lemma HalvedMembers(ks: seq<Entry>, cs: seq<Tree>, m: nat, x: Entry)
    requires m < |ks| && |cs| == |ks| + 1 && (x in ks || InSeps(cs, x))
    ensures x in ks[..m] || x == ks[m] || x in ks[m + 1..] || InSeps(cs[..m + 1], x) || InSeps(cs[m + 1..], x)
  {
    if x in ks {
      assert ks == ks[..m] + [ks[m]] + ks[m + 1..];
    } else {
      var i :| 0 <= i < |cs| && x in Seps(cs[i]);
      assert if i <= m then cs[..m + 1][i] == cs[i] else cs[m + 1..][i - m - 1] == cs[i];
    }
  }

  lemma InSepsOf(cs: seq<Tree>, c: Tree, x: Entry)
    requires c in cs && x in Seps(c)
    ensures InSeps(cs, x)
  {
    var j :| 0 <= j < |cs| && cs[j] == c;
  }

  lemma InsertedKeepsSeps(cs: seq<Tree>, i: nat, l: Tree, p: nat, r: Tree, x: Entry)
    requires i < |cs| && p <= |cs| && InSeps(cs, x) && (x in Seps(cs[i]) ==> x in Seps(l) || x in Seps(r))
    ensures InSeps(InsertAt(cs[i := l], p, r), x)
  {
    var j :| 0 <= j < |cs| && x in Seps(cs[j]);
    var c := if j != i then cs[j] else if x in Seps(l) then l else r;
    assert c == r || cs[i := l][j] == c;
    InsertedMember(cs[i := l], p, r, c);
    InSepsOf(InsertAt(cs[i := l], p, r), c, x);
  }

  lemma PlacedKeepsSeps(b: Bucket, t: Tree, i: nat, l: Tree, k: Entry, r: Tree, x: Entry)
    requires Shaped(b, t) && t.Node? && i < |t.cs| && Shaped(b, l) && Shaped(b, r)
    requires x in Seps(t.cs[i]) ==> x in Seps(Finish(Split(l, k, r)))
    ensures x in Seps(t) ==> x in Seps(Finish(AddInner(b, t.ks, t.cs[i := l], k, r)))
  {
    if x in Seps(t) {
      var p := InsertPos(t.ks, K(k));
      var ks', cs' := InsertAt(t.ks, p, k), InsertAt(t.cs[i := l], p + 1, r);
      WeaveMembers(t.ks, t.cs, x);
      SplitSeps(l, k, r, x);
      if x in t.ks || x == k {
        InsertedMember(t.ks, p, k, x);
      } else {
        InsertedKeepsSeps(t.cs, i, l, p + 1, r, x);
      }
      OverflowKeepsSeps(b, ks', cs', x);
    }
  }

  lemma InsertedMember<T>(ks: seq<T>, p: nat, k: T, x: T)
    requires p <= |ks| && (x in ks || x == k)
    ensures x in InsertAt(ks, p, k)
  {
    if x == k {
      assert InsertAt(ks, p, k)[p] == k;
    } else {
      var j :| 0 <= j < |ks| && ks[j] == x;
      assert InsertAt(ks, p, k)[if j < p then j else j + 1] == x;
    }
  }

  /** Whatever the key, a separator stays a separator. */
  lemma {:induction false} InsertKeepsSeps(b: Bucket, t: Tree, e: Entry, x: Entry)
    requires Shaped(b, t)
    ensures x in Seps(t) ==> x in Seps(Finish(Insert(b, t, e)))
  {
    if t.Node? {
      var i := InsertPos(t.ks, K(e));
      InsertKeepsSeps(b, t.cs[i], e, x);
      var u := Insert(b, t.cs[i], e);
      if u.Done? {
        ReplacedKeepsSeps(t.ks, t.cs, i, u.t, x);
      } else {
        PlacedKeepsSeps(b, t, i, u.l, u.k, u.r, x);
      }
    }
  }

  lemma ReplacedKeepsSeps(ks: seq<Entry>, cs: seq<Tree>, i: nat, c: Tree, x: Entry)
    requires |cs| == |ks| + 1 && i < |cs| && (x in Seps(cs[i]) ==> x in Seps(c))
    ensures x in Weave(ks, cs) ==> x in Weave(ks, cs[i := c])
  {
    WeaveMembers(ks, cs, x);
    WeaveMembers(ks, cs[i := c], x);
    if x in Weave(ks, cs) && x !in ks {
      var j :| 0 <= j < |cs| && x in Seps(cs[j]);
      assert x in Seps(cs[i := c][j]);
    }
  }
}
