/** The array work inside pages: placing an element, and halving a full leaf or inner page. */
module PageWork {
  import opened Ids
  import opened BTree
  import opened IndexPages
  import opened IndexSteps

  lemma SlotsOpened(b: Bucket, ks: seq<Entry>, pos: nat, e: Entry)
    requires |ks| < b && pos <= |ks|
    ensures OpenedAt(Slots(b, ks), pos, b, None)[pos := Some(e)] == Slots(b, InsertAt(ks, pos, e))
  {
  }

  lemma PointersOpened(b: Bucket, ps: seq<Ref>, pos: nat, q: Ref)
    requires |ps| <= b && pos <= b
    ensures pos <= |ps| ==> OpenedAt(Pointers(b, ps), pos, b + 1, NIL)[pos := q] == Pointers(b, InsertAt(ps, pos, q))
    ensures ps == [] && q == NIL ==> OpenedAt(Pointers(b, ps), pos, b + 1, NIL)[pos := q] == Pointers(b, ps)
  {
    if pos <= |ps| {
      PointerOpened(b, ps, pos, q);
    }
    if ps == [] && q == NIL {
      EmptyOpened(b, pos);
    }
  }

  lemma EmptyOpened(b: Bucket, pos: nat)
    requires pos <= b
    ensures OpenedAt(Pointers(b, []), pos, b + 1, NIL)[pos := NIL] == Pointers(b, [])
  {
    var s, wider := Pointers(b, []), OpenedAt(Pointers(b, []), pos, b + 1, NIL);
    forall i | 0 <= i <= b ensures wider[pos := NIL][i] == s[i] {
    }
  }

  lemma PointerOpened(b: Bucket, ps: seq<Ref>, pos: nat, q: Ref)
    requires |ps| <= b && pos <= |ps|
    ensures OpenedAt(Pointers(b, ps), pos, b + 1, NIL)[pos := q] == Pointers(b, InsertAt(ps, pos, q))
  {
    var s, wider, t := Pointers(b, ps), OpenedAt(Pointers(b, ps), pos, b + 1, NIL), InsertAt(ps, pos, q);
    forall i | 0 <= i <= b ensures wider[pos := q][i] == Pointers(b, t)[i] {
      if i < pos {
        assert wider[i] == s[i];
      } else if i > pos {
        assert wider[i] == s[i - 1];
      }
    }
  }

  /** An element, and in an inner page the page right of it, put in their place in a page with room. */
  method PlaceElement(b: Bucket, page: IndexPage, index: Entry, right: Ref, ghost ks: seq<Entry>, ghost ps: seq<Ref>)
    requires |ks| < b && (if ps == [] then right == NIL else |ps| == |ks| + 1) && page.size == |ks|
    requires page.elements[..] == Slots(b, ks) && page.pointers[..] == Pointers(b, ps)
    modifies page`size, page.elements, page.pointers
    ensures page.size == |ks| + 1
    ensures page.elements[..] == Slots(b, InsertAt(ks, InsertPos(ks, K(index)), index))
    ensures page.pointers[..] == Pointers(b, if ps == [] then [] else InsertAt(ps, InsertPos(ks, K(index)) + 1, right))
  {
    var pos := FindInsertPositionArray(page.elements, index, page.size, b, ks);
    SlotsOpened(b, ks, pos, index);
    PointersOpened(b, ps, pos + 1, right);
    ShiftRightArray(page.elements, pos, 1, b, None);
    ShiftRightArray(page.pointers, pos + 1, 1, b + 1, NIL);
    page.elements[pos] := Some(index);
    page.pointers[pos + 1] := right;
    page.size := page.size + 1;
  }

  /** Empties the slots behind the elements that stayed, and the pointers right of them. */
  method ClearTail(b: Bucket, page: IndexPage)
    requires 0 <= page.size <= b == page.elements.Length && page.pointers.Length == b + 1
    modifies page.elements, page.pointers
    ensures page.elements[..] == old(page.elements[..page.size]) + seq(b - page.size, _ => None)
    ensures page.size < b ==> page.pointers[..] == old(page.pointers[..page.size + 1]) + seq(b - page.size, _ => NIL)
  {
    for x := page.size to b
      invariant forall k :: 0 <= k < b ==>
                page.elements[k] == if page.size <= k < x then None else old(page.elements[k])
      invariant forall k :: 0 <= k < b + 1 ==>
                page.pointers[k] == if page.size < k <= x then NIL else old(page.pointers[k])
    {
      page.elements[x] := None;
      page.pointers[x + 1] := NIL;
    }
    page.pointers[b] := NIL;
  }

  /** The elements of a full page with the new one among them, in a temporary array. */
  method MergedElements(b: Bucket, page: IndexPage, index: Entry, ghost ks: seq<Entry>)
    returns (tmpelements: array<Option<Entry>>, posToInsert: nat)
    requires |ks| == b == page.size && page.elements[..] == Slots(b, ks)
    ensures fresh(tmpelements) && tmpelements.Length == b + 1 && posToInsert == InsertPos(ks, K(index))
    ensures forall i :: 0 <= i < b + 1 ==> tmpelements[i] == Some(InsertAt(ks, posToInsert, index)[i])
  {
    tmpelements := new Option<Entry>[b + 1](_ => None);
    InitializeArray(tmpelements, b, None);
    CopyArray(page.elements, tmpelements, 0, b - 1, 0);
    ghost var copied := tmpelements[..];
    assert copied[..b] == Slots(b, ks);
    posToInsert := FindInsertPositionArray(tmpelements, index, page.size, b, ks);
    InsertArray(tmpelements, Some(index), posToInsert, b + 1, None);
    OpenedSlots(b, copied, ks, posToInsert, index);
  }

  lemma OpenedSlots(b: Bucket, s: seq<Option<Entry>>, ks: seq<Entry>, p: nat, x: Entry)
    requires |s| == b + 1 && |ks| == b && s[..b] == Slots(b, ks) && p <= b
    ensures var t := s[..p] + [Some(x)] + s[p..b] + s[b + 1..];
            |t| == b + 1 && forall i :: 0 <= i < b + 1 ==> t[i] == Some(InsertAt(ks, p, x)[i])
  {
    assert forall i :: 0 <= i < b ==> s[i] == s[..b][i] == Some(ks[i]);
  }

  /** The elements dealt out: the first (b+1)/2 stay in the page, the others go to the new one. */
  method DealElements(b: Bucket, tmpelements: array<Option<Entry>>, page: IndexPage, rightPage: IndexPage,
                      ghost all: seq<Entry>)
    requires page.elements != rightPage.elements && tmpelements != page.elements && tmpelements != rightPage.elements
    requires |all| == b + 1 == tmpelements.Length && forall i :: 0 <= i < b + 1 ==> tmpelements[i] == Some(all[i])
    requires page.elements.Length == rightPage.elements.Length == b
    requires rightPage.elements[..] == seq(b, _ => None)
    modifies page.elements, rightPage.elements
    ensures page.elements[..] == Slots(b, all[..b / 2 + 1]) && rightPage.elements[..] == Slots(b, all[b / 2 + 1..])
  {
    InitializeArray(page.elements, b, None);
    var midPoint := b / 2;
    CopyArray(tmpelements, page.elements, 0, midPoint, 0);
    CopyArray(tmpelements, rightPage.elements, midPoint + 1, b, 0);
  }

  /** A full leaf, with one element more, is halved; the right half goes to a new page. */
  method HalveLeaf(b: Bucket, page: IndexPage, index: Entry, ghost ks: seq<Entry>) returns (rightPage: IndexPage)
    requires |ks| == b == page.size && page.elements[..] == Slots(b, ks) && page.pointers[..] == Pointers(b, [])
    modifies page`size, page.elements, page.pointers
    ensures fresh(rightPage) && fresh(rightPage.elements) && fresh(rightPage.pointers) && rightPage.parentElement == NIL
    ensures var s := HalvesOf(b, InsertAt(ks, InsertPos(ks, K(index)), index), []);
            page.size == |s.lks| && page.elements[..] == Slots(b, s.lks) && page.pointers[..] == Pointers(b, []) &&
            rightPage.size == |s.rks| && rightPage.elements[..] == Slots(b, s.rks) &&
              rightPage.pointers[..] == Pointers(b, [])
  {
    var tmpelements, posToInsert := MergedElements(b, page, index, ks);
    ghost var all := InsertAt(ks, posToInsert, index);
    rightPage := new IndexPage(b);
    DealElements(b, tmpelements, page, rightPage, all);
    page.size := b / 2 + 1;
    ghost var left := page.elements[..];
    assert left == Slots(b, all[..b / 2 + 1]);
    ClearTail(b, page);
    assert page.elements[..] == left;
    rightPage.size := b / 2 + 1;
  }

  /** The pointers of a full inner page with the new one among them, in a temporary array. */
  method MergedPointers(b: Bucket, page: IndexPage, right: Ref, posToInsert: nat, ghost ps: seq<Ref>)
    returns (tmppointers: array<Ref>)
    requires |ps| == b + 1 && page.pointers[..] == Pointers(b, ps) && posToInsert <= b
    ensures fresh(tmppointers) && tmppointers.Length == b + 2 && tmppointers[..] == InsertAt(ps, posToInsert + 1, right)
  {
    tmppointers := new Ref[b + 2](_ => NIL);
    InitializeArray(tmppointers, b + 1, NIL);
    CopyArray(page.pointers, tmppointers, 0, b, 0);
    ghost var copied := tmppointers[..];
    assert copied[..b + 1] == ps;
    InsertArray(tmppointers, right, posToInsert + 1, b + 2, NIL);
    Opened(copied, ps, posToInsert + 1, right);
  }

  lemma Opened<T>(s: seq<T>, t: seq<T>, p: nat, x: T)
    requires |s| == |t| + 1 && s[..|t|] == t && p <= |t|
    ensures s[..p] + [x] + s[p..|t|] + s[|s|..] == InsertAt(t, p, x)
  {
    assert s[p..|t|] == t[p..] && s[..p] == t[..p];
  }

  lemma Closed<T>(s: seq<T>, n: nat, nil: T)
    requires |s| == n + 1 && n > 1 && s[n] == nil
    ensures ShiftedLeft(s, 0, 1, n, nil) == s[1..] + [nil]
  {
    assert ShiftedLeft(s, 0, 1, n, nil) == ClosedAt(s, 0, n, nil);
  }

  /** The pointers dealt out: the new page's first slot stays empty, before the element that is to be promoted. */
  method DealPointers(b: Bucket, tmppointers: array<Ref>, page: IndexPage, newRightPage: IndexPage, ghost all: seq<Ref>)
    requires page.pointers != newRightPage.pointers && tmppointers != page.pointers &&
             tmppointers != newRightPage.pointers
    requires |all| == b + 2 == tmppointers.Length && tmppointers[..] == all
    requires page.pointers.Length == newRightPage.pointers.Length == b + 1
    requires newRightPage.pointers[..] == seq(b + 1, _ => NIL)
    modifies page.pointers, newRightPage.pointers
    ensures page.pointers[..] == Pointers(b, all[..b / 2 + 2])
    ensures newRightPage.pointers[..] == [NIL] + Pointers(b, all[b / 2 + 2..])[..b]
  {
    InitializeArray(page.pointers, b + 1, NIL);
    var midPoint := b / 2;
    assert page.pointers[..] == seq(b + 1, _ => NIL);
    CopyArray(tmppointers, page.pointers, 0, midPoint + 1, 0);
    CopyArray(tmppointers, newRightPage.pointers, midPoint + 2, b + 1, 1);
    assert newRightPage.pointers[..] == [NIL] + all[b / 2 + 2..] + seq(b + 1, _ => NIL)[b + 1 - b / 2..];
    Dealt(b, all, page.pointers[..], newRightPage.pointers[..]);
  }

  lemma Dealt(b: Bucket, all: seq<Ref>, left: seq<Ref>, right: seq<Ref>)
    requires |all| == b + 2
    requires left == all[..b / 2 + 2] + seq(b + 1, _ => NIL)[b / 2 + 2..]
    requires right == [NIL] + all[b / 2 + 2..] + seq(b + 1, _ => NIL)[b + 1 - b / 2..]
    ensures left == Pointers(b, all[..b / 2 + 2]) && right == [NIL] + Pointers(b, all[b / 2 + 2..])[..b]
  {
  }

  /** A full inner page, with one element and one child more, is halved. The new page keeps the element that is to
      be promoted in front of its own until the page above has taken it. */
  method HalveInner(b: Bucket, page: IndexPage, index: Entry, right: Ref, ghost ks: seq<Entry>, ghost ps: seq<Ref>)
    returns (newRightPage: IndexPage)
    requires |ks| == b == page.size && page.elements[..] == Slots(b, ks)
    requires |ps| == b + 1 && page.pointers[..] == Pointers(b, ps)
    modifies page`size, page.elements, page.pointers
    ensures fresh(newRightPage) && fresh(newRightPage.elements) && fresh(newRightPage.pointers)
    ensures newRightPage.size == b / 2 + 1
    ensures newRightPage.elements.Length == b && newRightPage.pointers.Length == b + 1
    ensures newRightPage.elements[0] == Some(InsertAt(ks, InsertPos(ks, K(index)), index)[b / 2 + 1])
    ensures var p := InsertPos(ks, K(index));
            var s := HalvesOf(b, InsertAt(ks, p, index), InsertAt(ps, p + 1, right));
            page.size == |s.lks| && page.elements[..] == Slots(b, s.lks) && page.pointers[..] == Pointers(b, s.lps) &&
            newRightPage.View(true) == PageOf(b, s.rks, s.rps, NIL) &&
            newRightPage.pointers[..] == [NIL] + Pointers(b, s.rps)[..b]
  {
    var tmpelements, posToInsert := MergedElements(b, page, index, ks);
    var tmppointers := MergedPointers(b, page, right, posToInsert, ps);
    ghost var allKeys, allPages := InsertAt(ks, posToInsert, index), InsertAt(ps, posToInsert + 1, right);
    newRightPage := new IndexPage(b);
    DealElements(b, tmpelements, page, newRightPage, allKeys);
    DealPointers(b, tmppointers, page, newRightPage, allPages);
    page.size := b / 2 + 1;
    ghost var leftKeys, leftPages := page.elements[..], page.pointers[..];
    ClearTail(b, page);
    TailWasClear(b, page, leftKeys, leftPages, allKeys[..b / 2 + 1], allPages[..b / 2 + 2]);
    newRightPage.size := b / 2 + 1;
    PromotedView(b, newRightPage, allKeys[b / 2 + 1..], allPages[b / 2 + 2..]);
  }

  lemma PointerMembers(b: Bucket, ps: seq<Ref>, q: Ref)
    requires |ps| <= b && q != NIL
    ensures q in Pointers(b, ps) <==> q in ps
    ensures q in [NIL] + Pointers(b, ps)[..b] <==> q in ps
  {
    if q in ps {
      var i :| 0 <= i < |ps| && ps[i] == q;
      assert Pointers(b, ps)[i] == q && ([NIL] + Pointers(b, ps)[..b])[i + 1] == q;
    }
  }

  lemma TailWasClear(b: Bucket, page: IndexPage, elements: seq<Option<Entry>>, pointers: seq<Ref>, ks: seq<Entry>,
                     ps: seq<Ref>)
    requires |ks| == b / 2 + 1 && |ps| == b / 2 + 2 && page.size == |ks|
    requires elements == Slots(b, ks) && pointers == Pointers(b, ps)
    requires page.elements[..] == elements[..page.size] + seq(b - page.size, _ => None)
    requires page.pointers[..] == pointers[..page.size + 1] + seq(b - page.size, _ => NIL)
    ensures page.elements[..] == elements && page.pointers[..] == pointers
  {
  }

  lemma PromotedView(b: Bucket, page: IndexPage, ks: seq<Entry>, ps: seq<Ref>)
    requires page.elements.Length == b && page.pointers.Length == b + 1 && page.parentElement == NIL
    requires |ks| == b / 2 + 1 == |ps| && page.size == |ks|
    requires page.elements[..] == Slots(b, ks) && page.pointers[..] == [NIL] + Pointers(b, ps)[..b]
    ensures page.View(true) == PageOf(b, ks[1..], ps, NIL)
  {
  }

  /** The promoted element and the empty pointer before it leave the new page, and the rest moves up. */
  method DropPromoted(b: Bucket, newRightPage: IndexPage)
    requires newRightPage.elements.Length == b && newRightPage.pointers.Length == b + 1
    requires newRightPage.elements[b - 1] == None && newRightPage.pointers[b] == NIL
    modifies newRightPage`size, newRightPage.elements, newRightPage.pointers
    ensures newRightPage.View(false) == old(newRightPage.View(true))
  {
    ghost var es, ps := newRightPage.elements[..], newRightPage.pointers[..];
    ShiftLeftArray(newRightPage.elements, 0, 1, b - 1, None);
    ShiftLeftArray(newRightPage.pointers, 0, 1, b, NIL);
    newRightPage.size := newRightPage.size - 1;
    Closed(es, b - 1, None);
    Closed(ps, b, NIL);
  }

  // ---- Parents -------------------------------------------------------------------------------------

  /** Every number but NIL names a page. */
  ghost predicate Numbers(ps: seq<Ref>, pages: seq<IndexPage>) {
    forall q :: q in ps && q != NIL ==> 0 <= q < |pages|
  }

  ghost predicate Apart(p: IndexPage, q: IndexPage) {
    p != q && p.elements != q.elements && p.pointers != q.pointers
  }

  ghost predicate AllApart(pages: seq<IndexPage>) {
    forall p, q {:trigger Apart(pages[p], pages[q])} :: 0 <= p < |pages| && 0 <= q < |pages| && p != q ==>
      Apart(pages[p], pages[q])
  }

  /** `refreshParentRelationship`: every page in a slot of `page` gets it as its parent. */
  method RefreshParentRelationship(b: Bucket, pages: seq<IndexPage>, page: Ref)
    requires 0 <= page < |pages| && pages[page].pointers.Length == b + 1
    requires AllApart(pages) && Numbers(pages[page].pointers[..], pages)
    modifies pages`parentElement
    ensures forall q :: 0 <= q < |pages| ==>
              pages[q].parentElement == if q in pages[page].pointers[..] then page else old(pages[q].parentElement)
  {
    var pointers := pages[page].pointers;
    for x := 0 to b + 1
      invariant forall q :: 0 <= q < |pages| ==>
        pages[q].parentElement == if q in pointers[..x] then page else old(pages[q].parentElement)
    {
      assert pointers[..x + 1] == pointers[..x] + [pointers[x]];
      if pointers[x] != NIL {
        assert pointers[x] in pointers[..];
        var child := pages[pointers[x]];
        assert forall q :: 0 <= q < |pages| && q != pointers[x] ==> Apart(pages[q], child);
        child.parentElement := page;
      }
    }
    assert pointers[..b + 1] == pointers[..];
  }

  /** Both halves of an inner page become the parents of their children. */
  method HangChildren(b: Bucket, pages: seq<IndexPage>, page: Ref, newRightPage: Ref, ghost lps: seq<Ref>,
                      ghost rps: seq<Ref>)
    requires 0 <= page < |pages| && 0 <= newRightPage < |pages| && AllApart(pages) && |lps| <= b && |rps| <= b
    requires Numbers(lps, pages) && Numbers(rps, pages)
    requires pages[page].pointers[..] == Pointers(b, lps)
    requires pages[newRightPage].pointers[..] == [NIL] + Pointers(b, rps)[..b]
    modifies pages`parentElement
    ensures forall q :: 0 <= q < |pages| ==>
              pages[q].parentElement ==
                (if q in rps then newRightPage else if q in lps then page else old(pages[q].parentElement))
  {
    forall q: Ref | q != NIL
      ensures (q in pages[page].pointers[..] <==> q in lps) && (q in pages[newRightPage].pointers[..] <==> q in rps)
    {
      PointerMembers(b, lps, q);
      PointerMembers(b, rps, q);
    }
    RefreshParentRelationship(b, pages, page);
    RefreshParentRelationship(b, pages, newRightPage);
  }

  /** A page with one element between two others. */
  method NewRoot(b: Bucket, element: Entry, left: Ref, right: Ref) returns (rootPage: IndexPage)
    ensures fresh(rootPage) && fresh(rootPage.elements) && fresh(rootPage.pointers)
    ensures rootPage.elements.Length == b && rootPage.pointers.Length == b + 1
    ensures rootPage.View(false) == PageOf(b, [element], [left, right], NIL)
  {
    rootPage := new IndexPage(b);
    rootPage.pointers[0] := left;
    rootPage.pointers[1] := right;
    rootPage.elements[0] := Some(element);
    rootPage.size := 1;
  }
}
