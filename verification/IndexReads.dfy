/** Walking down the linked pages, and rewriting an element in place. */
module IndexReads {
  import opened Ids
  import opened BTree
  import opened BTreePaths
  import opened IndexPages
  import opened IndexLinks
  import opened IndexSteps

  lemma PageInTree(b: Bucket, h: Heap, ht: Heights, p: Ref)
    requires LinksDown(b, h, ht) && p in h
    ensures PageOk(b, h[p]) && h[p].size == |Keys(b, h[p])|
    ensures ht[p] == 0 <==> forall i :: 0 <= i <= h[p].size ==> h[p].pointers[i] == NIL
    ensures ht[p] == 0 ==> TreeOf(b, h, ht, p) == Leaf(Keys(b, h[p]))
    ensures ht[p] > 0 ==> TreeOf(b, h, ht, p) == Node(Keys(b, h[p]), Children(b, h, ht, p))
  {
    assert PageOk(b, h[p]) && SlotsOk(h, ht, p);
    if ht[p] > 0 {
      assert ChildOk(h, ht, p, h[p].pointers[0]);
    }
  }

  lemma ChildAt(b: Bucket, h: Heap, ht: Heights, p: Ref, i: nat)
    requires LinksDown(b, h, ht) && p in h && ht[p] > 0 && i <= h[p].size
    ensures PageOk(b, h[p])
    ensures var q := h[p].pointers[i];
            q != NIL && q in h && ht[q] + 1 == ht[p] && h[q].parent == p &&
              Children(b, h, ht, p)[i] == TreeOf(b, h, ht, q)
  {
    assert PageOk(b, h[p]) && SlotsOk(h, ht, p) && ChildOk(h, ht, p, h[p].pointers[i]);
    assert Children(b, h, ht, p)[i] == ChildTree(b, h, ht, p, i);
  }

  /** One step down: the child q and its path d, in which the search for k goes on. */
  lemma ChildPath(b: Bucket, h: Heap, ht: Heights, head: Ref, p: Ref, k: nat, c: Path) returns (q: Ref, d: Path)
    requires Linked(b, h, ht, head, NIL) && p in h && ht[p] > 0 && PathTo(b, h, ht, head, p, c) && PathShaped(b, c)
    ensures PageOk(b, h[p]) && q == h[p].pointers[InsertPos(Keys(b, h[p]), k)]
    ensures q in h && ht[q] + 1 == ht[p] && PathTo(b, h, ht, head, q, d) && PathShaped(b, d)
    ensures Descend(b, TreeOf(b, h, ht, p), k, c) == Descend(b, TreeOf(b, h, ht, q), k, d)
  {
    var ks, cs := Keys(b, h[p]), Children(b, h, ht, p);
    var i := InsertPos(ks, k);
    ChildAt(b, h, ht, p, i);
    PageInTree(b, h, ht, p);
    q, d := h[p].pointers[i], Below(ks, cs[..i], cs[i + 1..], c);
  }

  // ---- Rewriting one element of a leaf -------------------------------------------------------------

  /** The heap after the leaf's elements became ks; its size and everything else stay. */
  ghost predicate Rewritten(b: Bucket, h: Heap, ht: Heights, h': Heap, page: Ref, ks: seq<Entry>)
    requires LinksDown(b, h, ht)
  {
    page in h && ht[page] == 0 && |ks| == h[page].size && |ks| <= b &&
      h' == h[page := PageOf(b, ks, [], h[page].parent)]
  }

  lemma RewrittenLinks(b: Bucket, h: Heap, ht: Heights, head: Ref, h': Heap, page: Ref, ks: seq<Entry>)
    requires Linked(b, h, ht, head, NIL) && Rewritten(b, h, ht, h', page, ks)
    ensures Linked(b, h', ht, head, NIL) && h'[page].pointers == h[page].pointers
  {
    PageIsPageOf(b, h, ht, page);
    PageOfKeys(b, ks, [], h[page].parent);
    forall p | p in h' ensures PageOk(b, h'[p]) && SlotsOk(h', ht, p) {
      assert PageOk(b, h[p]) && SlotsOk(h, ht, p);
      forall i | 0 <= i < |h[p].pointers| && ht[p] > 0 && i <= h[p].size ensures ChildOk(h', ht, p, h[p].pointers[i]) {
        assert ChildOk(h, ht, p, h[p].pointers[i]);
      }
    }
    forall p | p in h' && p != head ensures Hangs(h', p) {
      assert Hangs(h, p);
    }
  }

  /** Rewriting a leaf puts the new leaf in the old one's place in the tree. */
  lemma RewriteStep(b: Bucket, h: Heap, ht: Heights, head: Ref, h': Heap, page: Ref, ks: seq<Entry>, c: Path)
    requires Linked(b, h, ht, head, NIL) && Rewritten(b, h, ht, h', page, ks) && PathTo(b, h, ht, head, page, c)
    ensures Linked(b, h', ht, head, NIL) && PathShaped(b, c)
    ensures TreeOf(b, h', ht, head) == Ascend(b, c, Done(Leaf(ks)))
  {
    RewrittenLinks(b, h, ht, head, h', page, ks);
    assert Rest(h, ht, h', ht, page);
    RestOnlyBelow(b, h, ht, h', ht, page);
    SamePath(b, h, ht, h', ht, head, page, c);
    Plug(b, h', ht, head, page, c);
    PageTree(b, h', ht, page, ks, [], h[page].parent);
  }

  lemma RewrittenAt(b: Bucket, h: Heap, ht: Heights, page: Ref, slot: nat, e: Entry)
    requires LinksDown(b, h, ht) && page in h && ht[page] == 0 && slot < h[page].size
    ensures PageOk(b, h[page])
    ensures Rewritten(b, h, ht, h[page := h[page].(elements := h[page].elements[slot := Some(e)])], page,
            Keys(b, h[page])[slot := e])
  {
    PageIsPageOf(b, h, ht, page);
    var ks := Keys(b, h[page]);
    assert Slots(b, ks)[slot := Some(e)] == Slots(b, ks[slot := e]);
  }

  // ---- Scanning ------------------------------------------------------------------------------------

  lemma {:induction false} FilterSnoc(es: seq<Entry>, e: Entry, wanted: Entry -> bool)
    ensures Filter(es + [e], wanted) == Filter(es, wanted) + if wanted(e) then [e] else []
  {
    if es != [] {
      assert (es + [e])[1..] == es[1..] + [e];
      FilterSnoc(es[1..], e, wanted);
    }
  }

  lemma {:induction false} ScansSnoc(cs: seq<Tree>, c: Tree, wanted: Entry -> bool)
    ensures Scans(cs + [c], wanted) == Scan(c, wanted) + Scans(cs, wanted)
  {
    if cs == [] {
      assert [c][1..] == [];
    } else {
      assert (cs + [c])[1..] == cs[1..] + [c];
      ScansSnoc(cs[1..], c, wanted);
    }
  }

  lemma NextScan(cs: seq<Tree>, n: nat, wanted: Entry -> bool, rest: seq<Entry>)
    requires n < |cs|
    ensures Scans(cs[..n + 1], wanted) + rest == Scan(cs[n], wanted) + (Scans(cs[..n], wanted) + rest)
  {
    assert cs[..n + 1] == cs[..n] + [cs[n]];
    ScansSnoc(cs[..n], cs[n], wanted);
  }
}
