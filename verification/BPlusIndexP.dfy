/** The B+ tree index: numbered pages, kept in place as the source does, proved against the abstract tree. */
module BPlusIndexPs {
  import opened Ids
  import opened BTree
  import BTreeProofs
  import opened BTreePaths
  import opened IndexPages
  import opened IndexLinks
  import BTreeReading
  import opened IndexReads
  import opened IndexSteps
  import opened PageWork

  /** Where an element stands; the source hands out a pointer to it. */
  datatype Place = Place(page: Ref, slot: nat)

  /** Only pages below level n are still to lose a promoted element, and there is room for it in their arrays. */
  ghost predicate PromotedBelow(b: Bucket, promoted: set<Ref>, h: Heap, ht: Heights, n: nat) {
    forall p :: p in promoted ==> p in h && p in ht && ht[p] < n && h[p].size <= b / 2
  }

  /** Other pages keep their sizes and levels, so they stay as they are with what they are still to lose. */
  lemma PromotedStays(b: Bucket, promoted: set<Ref>, h: Heap, ht: Heights, h': Heap, ht': Heights, page: Ref, n: nat)
    requires PromotedBelow(b, promoted, h, ht, n) && page !in promoted
    requires forall p :: p in h && p in ht && p != page ==>
                 p in h' && p in ht' && ht'[p] == ht[p] && h'[p].size == h[p].size
    ensures PromotedBelow(b, promoted, h', ht', n)
  {
  }

  /** Page and newPage are the halves of what t becomes, newPage the orphan. */
  ghost predicate Divided(b: Bucket, h: Heap, ht: Heights, head: Ref, page: Ref, newPage: Ref, k: Entry, u: Up,
                          c: Path) {
    Linked(b, h, ht, head, newPage) && page in h && newPage in h && ht[newPage] == ht[page] &&
    PathTo(b, h, ht, head, page, c) && PathShaped(b, c) &&
      u == Split(TreeOf(b, h, ht, page), k, TreeOf(b, h, ht, newPage))
  }

  lemma HalvedIsDivided(b: Bucket, promoted: set<Ref>, h: Heap, ht: Heights, head: Ref, h': Heap, ht': Heights,
                        page: Ref, newPage: Ref, e: Entry, right: Ref, c: Path)
    requires Halved(b, h, ht, head, h', ht', page, newPage, e, right) && PathTo(b, h, ht, head, page, c)
    requires PromotedBelow(b, promoted, h, ht, ht[page])
    ensures Divided(b, h', ht', head, page, newPage, NewKeys(b, h, ht, page, e)[b / 2 + 1],
                    AddTo(b, TreeOf(b, h, ht, page), e, RightTree(b, h, ht, right)), c)
    ensures PromotedBelow(b, promoted, h', ht', ht[page]) && (right != NIL ==> h'[newPage].size == b / 2)
  {
    HalveStep(b, h, ht, head, h', ht', page, newPage, e, right, c);
    PromotedStays(b, promoted, h, ht, h', ht', page, ht[page]);
  }

  /** The halves of a full inner page hold pages of the heap other than itself. */
  lemma HalvesMembers(b: Bucket, h: Heap, ht: Heights, head: Ref, page: Ref, e: Entry, right: Ref, ks: seq<Entry>,
                      ps: seq<Ref>, s: Halves)
    requires Pending(b, h, ht, head, page, right) && right != NIL && h[page].size == b
    requires ks == Keys(b, h[page]) && ps == Kids(b, h, ht, page)
    requires s == HalvesOf(b, NewKeys(b, h, ht, page, e), NewKids(b, h, ht, page, e, right))
    ensures |ks| == b && |ps| == b + 1 && h[page] == PageOf(b, ks, ps, h[page].parent)
    ensures var p := InsertPos(ks, K(e)); (s == HalvesOf(b, InsertAt(ks, p, e), InsertAt(ps, p + 1, right)))
    ensures forall q :: q in s.lps || q in s.rps ==> q in h && q != page
  {
    PageIsPageOf(b, h, ht, page);
    NewKidsMembers(b, h, ht, head, page, e, right);
  }

  /** The page above a page: one level higher, and the parent of everything in its slots. */
  lemma PageAbove(b: Bucket, h: Heap, ht: Heights, head: Ref, p: Ref)
    requires Linked(b, h, ht, head, NIL) && p in h && p != head
    ensures h[p].parent in h && ht[h[p].parent] == ht[p] + 1
    ensures forall x :: x in h[h[p].parent].pointers && x != NIL ==> x in h && h[x].parent == h[p].parent
  {
    var q := h[p].parent;
    assert Hangs(h, p) && SlotsOk(h, ht, q);
    forall x | x in h[q].pointers && x != NIL ensures ChildOk(h, ht, q, x) {
      var i :| 0 <= i < |h[q].pointers| && h[q].pointers[i] == x;
    }
    assert ChildOk(h, ht, q, p);
  }

  lemma RoomToDrop(b: Bucket, h: Heap, ht: Heights, p: Ref)
    requires LinksDown(b, h, ht) && p in h && h[p].size <= b / 2
    ensures PageOk(b, h[p]) && h[p].pointers[b - 1] == NIL
  {
    assert SlotsOk(h, ht, p);
  }

  class BPlusIndexP {
    const b: Bucket
    var head: Ref
    var pages: seq<IndexPage>

    /** The objects of the index. */
    ghost var repr: set<object>

    /** The level of every page; the leaves are on level 0. */
    ghost var ht: Heights

    /** The pages in the middle of a split, which still hold the element that goes up. */
    ghost var promoted: set<Ref>

    /** The pages and their arrays are the index's own, all different. */
    ghost predicate Separate()
      reads this
    {
      this in repr && AllApart(pages) &&
      forall p {:trigger pages[p]} :: 0 <= p < |pages| ==>
        pages[p] in repr && pages[p].elements in repr && pages[p].pointers in repr &&
        pages[p].elements.Length == b && pages[p].pointers.Length == b + 1
    }

    ghost function Heap(): Heap
      requires Separate()
      reads this, repr
    {
      map p | 0 <= p < |pages| :: pages[p].View(p in promoted)
    }

    /** The pages are as h says. */
    ghost predicate Holds(h: Heap)
      reads this, repr
    {
      Separate() && (forall p :: p in h <==> 0 <= p < |pages|) && (forall p :: p in promoted ==> 0 <= p < |pages|) &&
      forall p {:trigger h[p]} :: 0 <= p < |pages| ==> pages[p].View(p in promoted) == h[p]
    }

    /** The pages are as h says, and linked, except that `orphan` hangs nowhere yet. */
    ghost predicate Good(h: Heap, orphan: Ref, n: nat)
      reads this, repr
    {
      Holds(h) && Linked(b, h, ht, head, orphan) && PromotedBelow(b, promoted, h, ht, n)
    }

    ghost predicate Valid()
      reads this, repr
    {
      Separate() && Good(Heap(), NIL, 0)
    }

    /** The tree the index stands for. */
    ghost function Tree(): (t: Tree)
      requires Valid()
      reads this, repr
      ensures Shaped(b, t)
    {
      TreeOf(b, Heap(), ht, head)
    }

    constructor (b: Bucket)
      ensures Valid() && fresh(repr) && this.b == b && Tree() == Leaf([])
    {
      this.b := b;
      var page := new IndexPage(b);
      head := 0;
      pages := [page];
      repr := {this, page, page.elements, page.pointers};
      ht := map[0 := 0];
      promoted := {};
      new;
      assert Heap()[0] == PageOf(b, [], [], NIL);
    }

    /** What a change leaves alone: the old pages keep their levels. */
    twostate predicate Grows()
      reads this
    {
      fresh(repr - old(repr)) && promoted == old(promoted) &&
      forall p :: p in old(ht) ==> p in ht && ht[p] == old(ht)[p]
    }

    // ---- One page ----------------------------------------------------------------------------------

    /** `addElement` on a page with room. */
    method AddToPage(page: Ref, index: Entry, right: Ref, ghost ks: seq<Entry>, ghost ps: seq<Ref>)
      requires Separate() && 0 <= page < |pages| && page != right && NIL <= right < |pages|
      requires |ks| < b && (if ps == [] then right == NIL else |ps| == |ks| + 1)
      requires pages[page].View(false) == PageOf(b, ks, ps, pages[page].parentElement)
      modifies {pages[page]}`size, pages[page].elements, pages[page].pointers, pages`parentElement
      ensures var p := InsertPos(ks, K(index));
              pages[page].View(false) ==
                PageOf(b, InsertAt(ks, p, index), if ps == [] then []
                  else InsertAt(ps, p + 1, right), old(pages[page].parentElement))
      ensures forall q :: 0 <= q < |pages| && q != page ==>
                pages[q].View(q in promoted) ==
                  old(pages[q].View(q in promoted)).(parent := if q == right then page else old(pages[q].parentElement))
    {
      assert forall q :: 0 <= q < |pages| && q != page ==> Apart(pages[q], pages[page]);
      var target := pages[page];
      PlaceElement(b, target, index, right, ks, ps);
      if right != NIL {
        assert forall q :: 0 <= q < |pages| && q != right ==> Apart(pages[q], pages[right]);
        var rightPointer := pages[right];
        rightPointer.parentElement := page;
      }
    }

    /** A new page becomes one of the index's, on level n. */
    method Admit(newPage: IndexPage, ghost n: nat, ghost up: bool) returns (number: Ref)
      requires Separate() && newPage !in repr && newPage.elements !in repr && newPage.pointers !in repr
      requires newPage.elements.Length == b && newPage.pointers.Length == b + 1
      modifies this`pages, this`repr, this`ht, this`promoted
      ensures Separate() && number == |old(pages)| && pages == old(pages) + [newPage] && ht == old(ht)[number := n]
      ensures promoted == old(promoted) + if up then {number} else {}
      ensures repr == old(repr) + {newPage, newPage.elements, newPage.pointers}
    {
      number := |pages|;
      pages := pages + [newPage];
      repr := repr + {newPage, newPage.elements, newPage.pointers};
      ht := ht[number := n];
      promoted := promoted + if up then {number} else {};
    }

    /** The first half of `splitAddLeaf`: the right half of the leaf has its own page, which hangs nowhere yet. */
    method SplitLeaf(page: Ref, index: Entry, ghost ks: seq<Entry>) returns (rightPage: Ref)
      requires Separate() && 0 <= page < |pages| && |ks| == b
      requires pages[page].View(false) == PageOf(b, ks, [], pages[page].parentElement)
      modifies this`pages, this`repr, this`ht, this`promoted, {pages[page]}`size, pages[page].elements,
               pages[page].pointers
      ensures Separate() && rightPage == |old(pages)| && old(pages) <= pages && |pages| == |old(pages)| + 1
      ensures ht == old(ht)[rightPage := 0] && promoted == old(promoted) && fresh(repr - old(repr))
      ensures var all := InsertAt(ks, InsertPos(ks, K(index)), index);
              var s := HalvesOf(b, all, []);
              pages[page].View(false) == PageOf(b, s.lks, s.lps, old(pages[page].parentElement)) &&
              pages[rightPage].View(false) == PageOf(b, s.rks, s.rps, NIL) &&
                pages[rightPage].elements[0] == Some(all[b / 2 + 1])
      ensures forall q :: 0 <= q < |old(pages)| && q != page ==>
              pages[q].View(q in promoted) == old(pages[q].View(q in promoted))
    {
      assert forall q :: 0 <= q < |pages| && q != page ==> Apart(pages[q], pages[page]);
      var newPage := HalveLeaf(b, pages[page], index, ks);
      rightPage := Admit(newPage, 0, false);
      assert newPage.elements[..][0] == newPage.elements[0];
    }

    /** The first half of `splitAddInner`: the right half of the page has its own page. */
    method SplitInner(page: Ref, index: Entry, right: Ref, ghost ks: seq<Entry>, ghost ps: seq<Ref>, ghost n: nat)
      returns (newRightPage: Ref)
      requires Separate() && 0 <= page < |pages| && |ks| == b && |ps| == b + 1
      requires pages[page].View(false) == PageOf(b, ks, ps, pages[page].parentElement)
      modifies this`pages, this`repr, this`ht, this`promoted, {pages[page]}`size, pages[page].elements,
               pages[page].pointers
      ensures Separate() && newRightPage == |old(pages)| && old(pages) <= pages && |pages| == |old(pages)| + 1
      ensures fresh(pages[newRightPage]) && ht == old(ht)[newRightPage := n] &&
              promoted == old(promoted) + {newRightPage} && fresh(repr - old(repr))
      ensures var p := InsertPos(ks, K(index));
              var keys := InsertAt(ks, p, index);
              var s := HalvesOf(b, keys, InsertAt(ps, p + 1, right));
              pages[page].View(false) == PageOf(b, s.lks, s.lps, old(pages[page].parentElement)) &&
              pages[newRightPage].View(true) == PageOf(b, s.rks, s.rps, NIL) &&
              pages[newRightPage].pointers[..] == [NIL] + Pointers(b, s.rps)[..b] &&
              pages[newRightPage].elements[0] == Some(keys[b / 2 + 1])
      ensures forall q :: 0 <= q < |old(pages)| && q != page ==>
              pages[q].View(q in promoted) == old(pages[q].View(q in promoted))
    {
      assert forall q :: 0 <= q < |pages| && q != page ==> Apart(pages[q], pages[page]);
      var newPage := HalveInner(b, pages[page], index, right, ks, ps);
      newRightPage := Admit(newPage, n, true);
    }

    /** Every child has the page it went to as its parent. */
    method HangHalves(page: Ref, newRightPage: Ref, ghost lps: seq<Ref>, ghost rps: seq<Ref>)
      requires Separate() && 0 <= page < |pages| && 0 <= newRightPage < |pages| && |lps| <= b && |rps| <= b
      requires pages[page].pointers[..] == Pointers(b, lps)
      requires pages[newRightPage].pointers[..] == [NIL] + Pointers(b, rps)[..b]
      requires Numbers(lps, pages) && Numbers(rps, pages)
      modifies pages`parentElement
      ensures forall q :: 0 <= q < |pages| ==>
                pages[q].View(q in promoted) == old(pages[q].View(q in promoted)).(parent :=
                  if q in rps then newRightPage else if q in lps then page else old(pages[q].parentElement))
    {
      HangChildren(b, pages, page, newRightPage, lps, rps);
    }

    /** `createRoot`. */
    method CreateRoot(element: Entry, left: Ref, right: Ref)
      requires Separate() && 0 <= left < |pages| && 0 <= right < |pages| && left in ht && left != right
      modifies this`head, this`pages, this`repr, this`ht, this`promoted, {pages[left]}`parentElement,
               {pages[right]}`parentElement
      ensures Separate() && head == |old(pages)| && old(pages) <= pages && |pages| == |old(pages)| + 1
      ensures ht == old(ht)[head := old(ht)[left] + 1] && promoted == old(promoted) && fresh(repr - old(repr))
      ensures pages[head].View(false) == PageOf(b, [element], [left, right], NIL)
      ensures forall q :: 0 <= q < |old(pages)| ==>
                pages[q].View(q in promoted) == old(pages[q].View(q in promoted)).(parent :=
                  if q == left || q == right then head else old(pages[q].parentElement))
    {
      var rootPage := NewRoot(b, element, left, right);
      head := Admit(rootPage, ht[left] + 1, false);
      HangBelow(head, left, right);
    }

    method HangBelow(root: Ref, left: Ref, right: Ref)
      requires Separate() && 0 <= left < |pages| && 0 <= right < |pages| && left != right
      modifies {pages[left]}`parentElement, {pages[right]}`parentElement
      ensures forall q :: 0 <= q < |pages| ==>
                pages[q].View(q in promoted) == old(pages[q].View(q in promoted)).(parent :=
                  if q == left || q == right then root else old(pages[q].parentElement))
    {
      assert forall q :: 0 <= q < |pages| && q != left ==> Apart(pages[q], pages[left]);
      assert forall q :: 0 <= q < |pages| && q != right ==> Apart(pages[q], pages[right]);
      var leftPage, rightPage := pages[left], pages[right];
      leftPage.parentElement := root;
      rightPage.parentElement := root;
    }

    // ---- Snapshots ---------------------------------------------------------------------------------

    /** `AddToPage` between two snapshots. */
    method PlaceHeld(page: Ref, index: Entry, right: Ref, ghost ks: seq<Entry>, ghost ps: seq<Ref>, ghost h: Heap)
      returns (ghost h': Heap)
      requires Holds(h) && page in h && page !in promoted && page != right && (right == NIL || right in h)
      requires |ks| < b && (if ps == [] then right == NIL else |ps| == |ks| + 1) &&
               h[page] == PageOf(b, ks, ps, h[page].parent)
      modifies repr
      ensures unchanged(this)
      ensures Holds(h')
      ensures var p := InsertPos(ks, K(index));
              IsPlaced(h, h', page, right,
                       PageOf(b, InsertAt(ks, p, index), if ps == [] then []
                         else InsertAt(ps, p + 1, right), h[page].parent))
    {
      AddToPage(page, index, right, ks, ps);
      h' := Heap();
      assert h'.Keys == h.Keys;
    }

    /** `SplitLeaf` between two snapshots. */
    method HalveHeldLeaf(page: Ref, index: Entry, ghost ks: seq<Entry>, ghost h: Heap)
      returns (rightPage: Ref, ghost h': Heap)
      requires Holds(h) && page in h && page !in promoted && page in ht && ht[page] == 0
      requires |ks| == b && h[page] == PageOf(b, ks, [], h[page].parent)
      modifies repr
      ensures unchanged(`head) && unchanged(`promoted)
      ensures Holds(h') && 0 <= rightPage < |pages| && old(pages) <= pages && fresh(repr - old(repr))
      ensures var keys := InsertAt(ks, InsertPos(ks, K(index)), index);
              IsHalved(b, h, old(ht), h', ht, page, rightPage, NIL, HalvesOf(b, keys, [])) &&
              pages[rightPage].elements[0] == Some(keys[b / 2 + 1])
    {
      rightPage := SplitLeaf(page, index, ks);
      h' := Heap();
      assert h'.Keys == h.Keys + {rightPage};
    }

    /** `SplitInner` between two snapshots. */
    method SplitHeldInner(page: Ref, index: Entry, right: Ref, ghost ks: seq<Entry>, ghost ps: seq<Ref>,
                          ghost s: Halves, ghost h: Heap)
      returns (newRightPage: Ref, ghost h': Heap)
      requires Holds(h) && page in h && page !in promoted && page in ht
      requires |ks| == b && |ps| == b + 1 && h[page] == PageOf(b, ks, ps, h[page].parent)
      requires var p := InsertPos(ks, K(index)); (s == HalvesOf(b, InsertAt(ks, p, index), InsertAt(ps, p + 1, right)))
      modifies repr
      ensures unchanged(`head)
      ensures Holds(h') && newRightPage == |old(pages)| && 0 <= page < |pages| && old(pages) <= pages &&
              fresh(repr - old(repr))
      ensures promoted == old(promoted) + {newRightPage} && ht == old(ht)[newRightPage := old(ht)[page]]
      ensures h'.Keys == h.Keys + {newRightPage} && h'[page] == PageOf(b, s.lks, s.lps, h[page].parent)
      ensures h'[newRightPage] == PageOf(b, s.rks, s.rps, NIL) && forall q :: q in h && q != page ==> h'[q] == h[q]
      ensures |pages| == |old(pages)| + 1 && fresh(pages[newRightPage])
      ensures pages[newRightPage].pointers[..] == [NIL] + Pointers(b, s.rps)[..b]
      ensures pages[newRightPage].elements[0] == Some(InsertAt(ks, InsertPos(ks, K(index)), index)[b / 2 + 1])
    {
      newRightPage := SplitInner(page, index, right, ks, ps, ht[page]);
      h' := Heap();
      assert h'.Keys == h.Keys + {newRightPage};
    }

    /** `HangHalves` between two snapshots. */
    method HangHeld(page: Ref, newRightPage: Ref, ghost lps: seq<Ref>, ghost rps: seq<Ref>, ghost h: Heap)
      returns (ghost h': Heap)
      requires Holds(h) && page in h && newRightPage in h && |lps| <= b && |rps| <= b && page !in promoted
      requires h[page].pointers == Pointers(b, lps) && pages[newRightPage].pointers[..] == [NIL] + Pointers(b, rps)[..b]
      requires (forall q :: q in lps ==> q in h) && (forall q :: q in rps ==> q in h)
      modifies repr
      ensures unchanged(this) && unchanged(pages[newRightPage].elements)
      ensures Holds(h') && h'.Keys == h.Keys
      ensures forall q :: q in h ==>
                h'[q] == h[q].(parent := if q in rps then newRightPage else if q in lps then page else h[q].parent)
    {
      HangHalves(page, newRightPage, lps, rps);
      h' := Heap();
      assert h'.Keys == h.Keys;
    }

    /** A full inner page halved, with the parents of its children set, between two snapshots. */
    method HalveHeldInner(page: Ref, index: Entry, right: Ref, ghost ks: seq<Entry>, ghost ps: seq<Ref>,
                          ghost s: Halves, ghost h: Heap)
      returns (newRightPage: Ref, ghost h': Heap)
      requires Holds(h) && page in h && page !in promoted && page in ht
      requires |ks| == b && |ps| == b + 1 && h[page] == PageOf(b, ks, ps, h[page].parent)
      requires var p := InsertPos(ks, K(index)); (s == HalvesOf(b, InsertAt(ks, p, index), InsertAt(ps, p + 1, right)))
      requires forall q :: q in s.lps || q in s.rps ==> q in h && q != page
      modifies repr
      ensures unchanged(`head)
      ensures Holds(h') && 0 <= newRightPage < |pages| && old(pages) <= pages && fresh(repr - old(repr))
      ensures promoted == old(promoted) + {newRightPage} &&
              IsHalved(b, h, old(ht), h', ht, page, newRightPage, right, s)
      ensures pages[newRightPage].elements[0] == Some(InsertAt(ks, InsertPos(ks, K(index)), index)[b / 2 + 1])
    {
      ghost var h1;
      newRightPage, h1 := SplitHeldInner(page, index, right, ks, ps, s, h);
      h' := HangHeld(page, newRightPage, s.lps, s.rps, h1);
    }

    /** `CreateRoot` between two snapshots. */
    method RootHeld(element: Entry, left: Ref, right: Ref, ghost h: Heap) returns (ghost h': Heap)
      requires Holds(h) && left in h && right in h && left in ht && left != right
      modifies repr
      ensures unchanged(`promoted)
      ensures Holds(h') && old(pages) <= pages && fresh(repr - old(repr))
      ensures IsRooted(b, h, old(ht), left, right, h', ht, head, element)
    {
      CreateRoot(element, left, right);
      h' := Heap();
      assert h'.Keys == h.Keys + {head};
    }

    /** The promoted element leaves the new page; the page stands for what it stood for. */
    method DropHeld(newRightPage: Ref, ghost h: Heap)
      requires Holds(h) && newRightPage in h && newRightPage in promoted
      requires PageOk(b, h[newRightPage]) && h[newRightPage].size <= b / 2 && h[newRightPage].pointers[b - 1] == NIL
      modifies repr
      ensures unchanged(`head) && unchanged(`pages) && unchanged(`repr) && unchanged(`ht)
      ensures Holds(h) && promoted == old(promoted) - {newRightPage}
    {
      assert forall q :: 0 <= q < |pages| && q != newRightPage ==> Apart(pages[q], pages[newRightPage]);
      var page := pages[newRightPage];
      assert page.View(true) == h[newRightPage];
      assert h[newRightPage].elements[b - 2] == page.elements[b - 1];
      assert h[newRightPage].pointers[b - 1] == page.pointers[b];
      promoted := promoted - {newRightPage};
      DropPromoted(b, page);
      forall q | q in h && q != newRightPage ensures pages[q].View(q in promoted) == h[q] {
        assert old(pages[q].View(q in promoted)) == h[q];
      }
    }

    /** Setting again the parents that are already set changes nothing. */
    method RefreshHeld(page: Ref, ghost h: Heap)
      requires Holds(h) && page in h && page !in promoted
      requires forall q :: q in h[page].pointers && q != NIL ==> q in h && h[q].parent == page
      modifies repr
      ensures unchanged(this)
      ensures Holds(h)
    {
      assert pages[page].View(false) == h[page];
      RefreshParentRelationship(b, pages, page);
      forall q | q in h ensures pages[q].View(q in promoted) == h[q] {
        assert old(pages[q].View(q in promoted)) == h[q];
      }
    }

    // ---- Linked pages ------------------------------------------------------------------------------

    /** All is well but for `right`, which is to hang on `page` next to a new element. */
    ghost predicate Ready(h: Heap, page: Ref, right: Ref, c: Path)
      reads this, repr
    {
      page in h && page in ht && Good(h, right, ht[page]) && Pending(b, h, ht, head, page, right) &&
      PathTo(b, h, ht, head, page, c) && PathShaped(b, c)
    }

    method AddWithRoom(page: Ref, index: Entry, right: Ref, ghost c: Path, ghost h: Heap) returns (ghost h': Heap)
      requires Ready(h, page, right, c) && h[page].size < b
      modifies repr
      ensures Grows() && Good(h', NIL, old(ht)[page]) && head == old(head)
      ensures TreeOf(b, h', ht, head) ==
              Ascend(b, c, AddTo(b, TreeOf(b, h, old(ht), page), index, RightTree(b, h, old(ht), right)))
    {
      PageIsPageOf(b, h, ht, page);
      h' := PlaceHeld(page, index, right, Keys(b, h[page]), Kids(b, h, ht, page), h);
      PlaceStep(b, h, ht, head, h', page, index, right, c);
      PromotedStays(b, promoted, h, ht, h', ht, page, ht[page]);
    }

    /** The leaf halved; the new page is linked but for hanging nowhere. */
    method HalveLinkedLeaf(page: Ref, index: Entry, ghost u: Up, ghost c: Path, ghost h: Heap)
      returns (rightPage: Ref, ghost h': Heap)
      requires Ready(h, page, NIL, c) && h[page].size == b
      requires u == AddTo(b, TreeOf(b, h, ht, page), index, RightTree(b, h, ht, NIL))
      modifies repr
      ensures Grows() && head == old(head) && Holds(h') && rightPage in h' && pages[rightPage].elements[0].Some?
      ensures page in ht && PromotedBelow(b, promoted, h', ht, ht[page])
      ensures Divided(b, h', ht, head, page, rightPage, pages[rightPage].elements[0].value, u, c)
    {
      PageIsPageOf(b, h, ht, page);
      rightPage, h' := HalveHeldLeaf(page, index, Keys(b, h[page]), h);
      HalvedIsDivided(b, promoted, h, old(ht), head, h', ht, page, rightPage, index, NIL, c);
    }

    /** The inner page halved, without what lies around it. */
    method HalvePendingInner(page: Ref, index: Entry, right: Ref, ghost h: Heap)
      returns (newRightPage: Ref, ghost h': Heap)
      requires Holds(h) && page in h && page in ht && page !in promoted
      requires Pending(b, h, ht, head, page, right) && h[page].size == b && right != NIL
      modifies repr
      ensures unchanged(`head) && Holds(h') && 0 <= newRightPage < |pages| && old(pages) <= pages &&
              fresh(repr - old(repr))
      ensures promoted == old(promoted) + {newRightPage} &&
              Halved(b, h, old(ht), head, h', ht, page, newRightPage, index, right)
      ensures pages[newRightPage].elements[0] == Some(NewKeys(b, h, old(ht), page, index)[b / 2 + 1])
    {
      ghost var s := HalvesOf(b, NewKeys(b, h, ht, page, index), NewKids(b, h, ht, page, index, right));
      HalvesMembers(b, h, ht, head, page, index, right, Keys(b, h[page]), Kids(b, h, ht, page), s);
      newRightPage, h' := HalveHeldInner(page, index, right, Keys(b, h[page]), Kids(b, h, ht, page), s, h);
    }

    /** The inner page halved; the new page is linked but for hanging nowhere, and the element that goes up still
        stands in front of it. */
    method HalveLinkedInner(page: Ref, index: Entry, right: Ref, ghost c: Path, ghost h: Heap)
      returns (newRightPage: Ref, ghost h': Heap)
      requires Ready(h, page, right, c) && h[page].size == b && right != NIL
      modifies repr
      ensures fresh(repr - old(repr)) && promoted == old(promoted) + {newRightPage} && newRightPage !in h
      ensures ht == old(ht)[newRightPage := old(ht)[page]]
      ensures head == old(head) && Holds(h') && newRightPage in h' && pages[newRightPage].elements[0].Some?
      ensures page in ht && PromotedBelow(b, promoted, h', ht, ht[page] + 1)
      ensures Divided(b, h', ht, head, page, newRightPage, pages[newRightPage].elements[0].value,
                      AddTo(b, TreeOf(b, h, old(ht), page), index, RightTree(b, h, old(ht), right)), c)
    {
      newRightPage, h' := HalvePendingInner(page, index, right, h);
      HalvedIsDivided(b, old(promoted), h, old(ht), head, h', ht, page, newRightPage, index, right, c);
    }

    // ---- Adding ------------------------------------------------------------------------------------

    /** `addElement`: an element, and in an inner page the page right of it, come to `page`; what does not fit is
        split off and goes up. */
    method AddElement(page: Ref, index: Entry, right: Ref, ghost c: Path, ghost h: Heap) returns (ghost h': Heap)
      requires Ready(h, page, right, c)
      modifies repr
      ensures Grows() && Good(h', NIL, old(ht)[page]) && (head == old(head) || head !in h)
      ensures TreeOf(b, h', ht, head) ==
              Ascend(b, c, AddTo(b, TreeOf(b, h, old(ht), page), index, RightTree(b, h, old(ht), right)))
      decreases c, 3
    {
      var target := pages[page];
      assert PageOk(b, h[page]) && target.View(page in promoted) == h[page];
      if !target.IsFull(b) {
        h' := AddWithRoom(page, index, right, c, h);
      } else if right == NIL {
        h' := SplitAddLeaf(page, index, AddTo(b, TreeOf(b, h, ht, page), index, RightTree(b, h, ht, NIL)), c, h);
      } else {
        h' := SplitAddInner(page, index, right, AddTo(b, TreeOf(b, h, ht, page), index, RightTree(b, h, ht, right)),
          c, h);
      }
    }

    /** `splitAddLeaf`. */
    method SplitAddLeaf(page: Ref, index: Entry, ghost u: Up, ghost c: Path, ghost h: Heap) returns (ghost h': Heap)
      requires Ready(h, page, NIL, c) && h[page].size == b
      requires u == AddTo(b, TreeOf(b, h, ht, page), index, RightTree(b, h, ht, NIL))
      modifies repr
      ensures Grows() && Good(h', NIL, old(ht)[page]) && (head == old(head) || head !in h)
      ensures TreeOf(b, h', ht, head) == Ascend(b, c, u)
      decreases c, 2
    {
      ghost var h1;
      var rightPage;
      rightPage, h1 := HalveLinkedLeaf(page, index, u, c, h);
      h' := PromoteLeaf(page, rightPage, pages[rightPage].elements[0].value, u, c, h1);
    }

    method PromoteLeaf(page: Ref, rightPage: Ref, k: Entry, ghost u: Up, ghost c: Path, ghost h: Heap)
      returns (ghost h': Heap)
      requires Holds(h) && page !in promoted && Divided(b, h, ht, head, page, rightPage, k, u, c)
      requires PromotedBelow(b, promoted, h, ht, ht[page])
      modifies repr
      ensures Grows() && Good(h', NIL, old(ht)[page]) && (head == old(head) || head !in h)
      ensures TreeOf(b, h', ht, head) == Ascend(b, c, u)
      decreases c, 1
    {
      h' := Promote(page, rightPage, k, u, c, h, ht[page]);
      RefreshAbove(rightPage, h', ht[page]);
    }

    /** `splitAddInner`. */
    method SplitAddInner(page: Ref, index: Entry, right: Ref, ghost u: Up, ghost c: Path, ghost h: Heap)
      returns (ghost h': Heap)
      requires Ready(h, page, right, c) && h[page].size == b && right != NIL
      requires u == AddTo(b, TreeOf(b, h, ht, page), index, RightTree(b, h, ht, right))
      modifies repr
      ensures Grows() && Good(h', NIL, old(ht)[page]) && (head == old(head) || head !in h)
      ensures TreeOf(b, h', ht, head) == Ascend(b, c, u)
      decreases c, 2
    {
      var newRightPage;
      newRightPage, h' := SplitAndPromote(page, index, right, u, c, h);
      DropPromotedOf(newRightPage, h', ht[page]);
    }

    /** `splitAddInner` up to the shift that drops the promoted element. */
    method SplitAndPromote(page: Ref, index: Entry, right: Ref, ghost u: Up, ghost c: Path, ghost h: Heap)
      returns (newRightPage: Ref, ghost h': Heap)
      requires Ready(h, page, right, c) && h[page].size == b && right != NIL
      requires u == AddTo(b, TreeOf(b, h, ht, page), index, RightTree(b, h, ht, right))
      modifies repr
      ensures fresh(repr - old(repr)) && promoted == old(promoted) + {newRightPage}
      ensures newRightPage !in h && newRightPage in h' && newRightPage != head && newRightPage in ht &&
              ht[newRightPage] == old(ht)[page]
      ensures (head == old(head) || head !in h) && forall p :: p in old(ht) ==> p in ht && ht[p] == old(ht)[p]
      ensures Good(h', NIL, old(ht)[page] + 1)
      ensures TreeOf(b, h', ht, head) == Ascend(b, c, u)
      decreases c, 1
    {
      ghost var h1;
      newRightPage, h1 := HalveLinkedInner(page, index, right, c, h);
      h' := Promote(page, newRightPage, pages[newRightPage].elements[0].value, u, c, h1, ht[page] + 1);
    }

    /** The key between a halved page and its right half goes to the page above, or to a new root. */
    method Promote(page: Ref, newPage: Ref, k: Entry, ghost u: Up, ghost c: Path, ghost h: Heap, ghost n: nat)
      returns (ghost h': Heap)
      requires Holds(h) && PromotedBelow(b, promoted, h, ht, n) && page !in promoted
      requires Divided(b, h, ht, head, page, newPage, k, u, c) && n <= ht[page] + 1
      modifies repr
      ensures Grows() && Good(h', NIL, n) && (head == old(head) || head !in h) && newPage in h' && newPage != head
      ensures TreeOf(b, h', ht, head) == Ascend(b, c, u)
      decreases c, 0
    {
      var parentElement := pages[page].parentElement;
      assert pages[page].View(false) == h[page];
      if parentElement == NIL {
        h' := RootHeld(k, page, newPage, h);
        RootStep(b, h, old(ht), page, newPage, h', ht, head, k);
      } else {
        ParentTree(b, h, ht, parentElement, page, c.ks, c.left, c.right);
        h' := AddElement(parentElement, k, newPage, c.up, h);
      }
    }

    /** The page above the new page sets the parents of its children once more. */
    method RefreshAbove(newPage: Ref, ghost h: Heap, ghost n: nat)
      requires Good(h, NIL, n) && newPage in h && newPage != head && newPage !in promoted && n <= ht[newPage] + 1
      modifies repr
      ensures unchanged(this) && Holds(h)
    {
      PageAbove(b, h, ht, head, newPage);
      assert pages[newPage].View(false) == h[newPage];
      RefreshHeld(pages[newPage].parentElement, h);
    }

    /** The new page gives up the element that went up, and the page above sets its children's parents again. */
    method DropPromotedOf(newRightPage: Ref, ghost h: Heap, ghost n: nat)
      requires Good(h, NIL, n + 1) && newRightPage in h && newRightPage in promoted && newRightPage != head &&
               n <= ht[newRightPage]
      modifies repr
      ensures unchanged(`head) && unchanged(`pages) && unchanged(`repr) && unchanged(`ht)
      ensures promoted == old(promoted) - {newRightPage} && Holds(h)
    {
      RoomToDrop(b, h, ht, newRightPage);
      DropHeld(newRightPage, h);
      RefreshAbove(newRightPage, h, n + 1);
    }

    // ---- Finding -----------------------------------------------------------------------------------

    /** The page as its arrays hold it, when nothing is being split. */
    lemma RawAt(h: Heap, page: Ref)
      requires Good(h, NIL, 0) && page in h
      ensures 0 <= page < |pages| &&
              pages[page].size == h[page].size == |Keys(b, h[page])| <= b == pages[page].elements.Length
      ensures pages[page].elements[..] == h[page].elements && pages[page].pointers[..] == h[page].pointers
      ensures forall x :: 0 <= x < h[page].size ==> pages[page].elements[x] == Some(Keys(b, h[page])[x])
      ensures forall x :: 0 <= x <= b ==> pages[page].pointers[x] == h[page].pointers[x]
    {
      assert PageOk(b, h[page]) && pages[page].View(false) == h[page];
      assert forall x :: 0 <= x < b ==> pages[page].elements[x] == h[page].elements[x];
    }

    /** `findIndexPage`: the leaf for the key, and the path to it. */
    method FindIndexPage(start: Ref, key: Id, ghost c: Path, ghost h: Heap) returns (page: Ref, ghost c': Path)
      requires Good(h, NIL, 0) && start in h && PathTo(b, h, ht, head, start, c) && PathShaped(b, c)
      ensures page in h && ht[page] == 0 && PathTo(b, h, ht, head, page, c') && PathShaped(b, c')
      ensures Descend(b, TreeOf(b, h, ht, start), Rank(key), c) == Descent(c', Keys(b, h[page]))
      decreases ht[start]
    {
      var current := pages[start];
      var leaf := PageIsLeaf(start, h);
      if leaf {
        PageInTree(b, h, ht, start);
        return start, c;
      }
      RawAt(h, start);
      var x := TurnLeftAt(current, key, Keys(b, h[start]));
      ghost var q, d := ChildPath(b, h, ht, head, start, Rank(key), c);
      page, c' := FindIndexPage(current.pointers[x], key, d, h);
    }

    method PageIsLeaf(page: Ref, ghost h: Heap) returns (leaf: bool)
      requires Good(h, NIL, 0) && page in h
      ensures leaf <==> ht[page] == 0
    {
      RawAt(h, page);
      PageInTree(b, h, ht, page);
      leaf := pages[page].IsLeaf();
    }

    /** The loop of `findIndexPage`: the first element smaller than the key, or the end. */
    method TurnLeftAt(page: IndexPage, key: Id, ghost ks: seq<Entry>) returns (x: nat)
      requires 0 <= page.size == |ks| <= page.elements.Length
      requires forall i :: 0 <= i < |ks| ==> page.elements[i] == Some(ks[i])
      ensures x == InsertPos(ks, Rank(key))
    {
      x := 0;
      while x < page.size
        invariant x <= |ks| && forall i :: 0 <= i < x ==> Rank(key) <= K(ks[i])
      {
        var current := page.elements[x].value;
        var result := Compare(current.key, key);
        CompareIsRankOrder(current.key, key);
        if result < 0 {
          break;
        }
        x := x + 1;
      }
      BTreeProofs.InsertPosUnique(ks, Rank(key), x);
    }

    /** `findIndex`: the first element equal to the key on the way down, and where it stands. */
    method FindIndex(start: Ref, key: Id, ghost h: Heap) returns (place: Option<Place>)
      requires Good(h, NIL, 0) && start in h
      ensures place.None? ==> Lookup(b, TreeOf(b, h, ht, start), Rank(key)) == None
      ensures place.Some? ==> place.value.page in h && place.value.slot < h[place.value.page].size
      ensures place.Some? ==>
                Lookup(b, TreeOf(b, h, ht, start), Rank(key)) == Some(Keys(b, h[place.value.page])[place.value.slot])
      ensures place.Some? && ht[start] == 0 ==> place.value == Place(start, FirstAtMost(Keys(b, h[start]), Rank(key)))
      decreases ht[start]
    {
      var current := pages[start];
      RawAt(h, start);
      PageInTree(b, h, ht, start);
      var x, hit := StopAt(current, key, Keys(b, h[start]));
      if hit {
        return Some(Place(start, x));
      }
      if current.pointers[x] != NIL {
        ChildAt(b, h, ht, start, x);
        place := FindIndex(current.pointers[x], key, h);
      } else {
        return None;
      }
    }

    /** The loop of `findIndex`: the first element not larger than the key, or the end. */
    method StopAt(page: IndexPage, key: Id, ghost ks: seq<Entry>) returns (x: nat, hit: bool)
      requires 0 <= page.size == |ks| <= page.elements.Length
      requires forall i :: 0 <= i < |ks| ==> page.elements[i] == Some(ks[i])
      ensures x == FirstAtMost(ks, Rank(key)) && (hit <==> x < |ks| && K(ks[x]) == Rank(key))
    {
      x, hit := 0, false;
      while x < page.size
        invariant x <= |ks| && !hit && forall i :: 0 <= i < x ==> Rank(key) < K(ks[i])
      {
        var current := page.elements[x].value;
        var result := Compare(current.key, key);
        CompareIsRankOrder(current.key, key);
        if result < 0 {
          break;
        }
        if result == 0 {
          hit := true;
          break;
        }
        x := x + 1;
      }
      BTreeReading.FirstAtMostUnique(ks, Rank(key), x);
    }

    // ---- The operations ----------------------------------------------------------------------------

    /** `add`: whatever the key, the tree becomes what the abstract insertion makes of it. */
    method Add(key: Id, documentId: Id, filePos: int)
      requires Valid()
      modifies repr
      ensures Valid() && fresh(repr - old(repr))
      ensures Tree() == InsertRoot(b, old(Tree()), Entry(key, documentId, filePos))
    {
      var index := Entry(key, documentId, filePos);
      ghost var h := Heap();
      var pageFound;
      ghost var c;
      pageFound, c := FindIndexPage(head, key, Top, h);
      PageInTree(b, h, ht, pageFound);
      AscendIsInsert(b, TreeOf(b, h, ht, head), index, Top);
      ghost var h' := AddElement(pageFound, index, NIL, c, h);
      HeapIsHeld(h');
    }

    /** There is one snapshot of the pages. */
    lemma HeapIsHeld(h: Heap)
      requires Holds(h)
      ensures Heap() == h
    {
    }

    /** `find`: the element the search stops at, in a leaf or above. */
    method Find(key: Id) returns (result: Option<Entry>)
      requires Valid()
      ensures result == Lookup(b, Tree(), Rank(key))
    {
      ghost var h := Heap();
      var place := FindIndex(head, key, h);
      if place.None? {
        return None;
      }
      RawAt(h, place.value.page);
      result := pages[place.value.page].elements[place.value.slot];
    }

    /** `update`: the leaf entry with the key, if there is one, gets the new position. */
    method Update(key: Id, documentId: Id, filePos: int) returns (found: bool)
      requires Valid()
      modifies repr
      ensures Valid() && fresh(repr - old(repr))
      ensures Tree() == BTree.Update(b, old(Tree()), Rank(key), filePos)
      ensures found <==> Reaches(b, old(Tree()), Rank(key))
    {
      ghost var h := Heap();
      var pageFound;
      ghost var c;
      pageFound, c := FindIndexPage(head, key, Top, h);
      AscendIsUpdate(b, TreeOf(b, h, ht, head), Rank(key), filePos, Top);
      ghost var h';
      found, h' := UpdateLeaf(pageFound, key, filePos, c, h);
      HeapIsHeld(h');
    }

    method UpdateLeaf(pageFound: Ref, key: Id, filePos: int, ghost c: Path, ghost h: Heap)
      returns (found: bool, ghost h': Heap)
      requires Good(h, NIL, 0) && pageFound in h && ht[pageFound] == 0 && PathTo(b, h, ht, head, pageFound, c)
      modifies repr
      ensures unchanged(this) && Good(h', NIL, 0) && PathShaped(b, c)
      ensures TreeOf(b, h', ht, head) ==
              Ascend(b, c, Done(Leaf(Repositioned(Keys(b, h[pageFound]), Rank(key), filePos))))
      ensures found <==> Has(Keys(b, h[pageFound]), Rank(key))
    {
      PageInTree(b, h, ht, pageFound);
      var current := FindIndex(pageFound, key, h);
      found := current.Some?;
      ghost var ks := Keys(b, h[pageFound]);
      if found {
        h' := Reposition(current.value, filePos, h);
        RewriteStep(b, h, ht, head, h', pageFound, Repositioned(ks, Rank(key), filePos), c);
      } else {
        h' := h;
        Plug(b, h, ht, head, pageFound, c);
      }
    }

    /** The element at a place of a leaf gets a new position. */
    method Reposition(place: Place, filePos: int, ghost h: Heap) returns (ghost h': Heap)
      requires Good(h, NIL, 0) && place.page in h && ht[place.page] == 0 && place.slot < h[place.page].size
      modifies repr
      ensures unchanged(this) && Holds(h')
      ensures var ks := Keys(b, h[place.page]);
              Rewritten(b, h, ht, h', place.page, ks[place.slot := ks[place.slot].(posData := filePos)])
    {
      RawAt(h, place.page);
      var page := pages[place.page];
      var current := page.elements[place.slot].value;
      SetElement(place, current.(posData := filePos), h);
      ghost var e := current.(posData := filePos);
      h' := h[place.page := h[place.page].(elements := h[place.page].elements[place.slot := Some(e)])];
      RewrittenAt(b, h, ht, place.page, place.slot, current.(posData := filePos));
    }

    method SetElement(place: Place, e: Entry, ghost h: Heap)
      requires Holds(h) && place.page in h && place.slot < b && place.page !in promoted
      modifies repr
      ensures unchanged(this)
      ensures place.slot < |h[place.page].elements|
      ensures Holds(h[place.page := h[place.page].(elements := h[place.page].elements[place.slot := Some(e)])])
    {
      assert forall q :: 0 <= q < |pages| && q != place.page ==> Apart(pages[q], pages[place.page]);
      assert pages[place.page].View(false) == h[place.page];
      var page := pages[place.page];
      page.elements[place.slot] := Some(e);
      forall q | q in h && q != place.page ensures pages[q].View(q in promoted) == h[q] {
        assert old(pages[q].View(q in promoted)) == h[q];
      }
    }

    /** `find` with a filter: every match below the head, in leaves and above. */
    method FindAll(wanted: Entry -> bool) returns (result: seq<Entry>)
      requires Valid()
      ensures result == Scan(Tree(), wanted)
    {
      result := FindInPage(head, wanted, Heap());
    }

    /** `IndexPage::find`. */
    method FindInPage(page: Ref, wanted: Entry -> bool, ghost h: Heap) returns (result: seq<Entry>)
      requires Good(h, NIL, 0) && page in h
      ensures result == Scan(TreeOf(b, h, ht, page), wanted)
      decreases ht[page]
    {
      var current := pages[page];
      RawAt(h, page);
      PageInTree(b, h, ht, page);
      ghost var ks := Keys(b, h[page]);
      var matches := Matches(current, wanted, ks);
      result := matches;
      ghost var cs := if ht[page] == 0 then [] else Children(b, h, ht, page);
      ghost var n := 0;
      for x := 0 to current.size + 1
        invariant n == if ht[page] == 0 then 0 else x
        invariant result == Scans(cs[..n], wanted) + matches
      {
        var innerPage := current.pointers[x];
        if innerPage != NIL {
          ChildAt(b, h, ht, page, x);
          var inner := FindInPage(innerPage, wanted, h);
          NextScan(cs, n, wanted, matches);
          result := inner + result;
          n := n + 1;
        }
      }
      assert cs == cs[..n];
    }

    method Matches(page: IndexPage, wanted: Entry -> bool, ghost ks: seq<Entry>) returns (result: seq<Entry>)
      requires 0 <= page.size == |ks| <= page.elements.Length
      requires forall i :: 0 <= i < |ks| ==> page.elements[i] == Some(ks[i])
      ensures result == Filter(ks, wanted)
    {
      result := [];
      for x := 0 to page.size
        invariant result == Filter(ks[..x], wanted)
      {
        var element := page.elements[x].value;
        if wanted(element) {
          result := result + [element];
        }
        FilterSnoc(ks[..x], ks[x], wanted);
        assert ks[..x + 1] == ks[..x] + [ks[x]];
      }
      assert ks == ks[..|ks|];
    }
  }
}
