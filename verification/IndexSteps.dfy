/** The changes an insertion makes to the linked pages, one at a time: placing an element in a page with room,
    halving a full leaf or inner page, and putting a new root on top. */
module IndexSteps {
  import opened Ids
  import opened BTree
  import opened BTreePaths
  import opened IndexPages
  import opened IndexLinks

  function Slots(b: Bucket, ks: seq<Entry>): (s: seq<Option<Entry>>)
    requires |ks| <= b
  {
    seq(b, i requires 0 <= i < b => if i < |ks| then Some(ks[i]) else None)
  }

  function Pointers(b: Bucket, ps: seq<Ref>): (s: seq<Ref>)
    requires |ps| <= b + 1
  {
    seq(b + 1, i requires 0 <= i < b + 1 => if i < |ps| then ps[i] else NIL)
  }

  /** A page with the given elements and children. */
  function PageOf(b: Bucket, ks: seq<Entry>, ps: seq<Ref>, parent: Ref): PageV
    requires |ks| <= b && |ps| <= b + 1
  {
    PageV(|ks|, Slots(b, ks), Pointers(b, ps), parent)
  }

  lemma PageOfKeys(b: Bucket, ks: seq<Entry>, ps: seq<Ref>, parent: Ref)
    requires |ks| <= b && |ps| <= b + 1
    ensures PageOk(b, PageOf(b, ks, ps, parent)) && Keys(b, PageOf(b, ks, ps, parent)) == ks
  {
  }

  /** The children of a page; none for a leaf. */
  ghost function Kids(b: Bucket, h: Heap, ht: Heights, p: Ref): seq<Ref>
    requires LinksDown(b, h, ht) && p in h
  {
    assert PageOk(b, h[p]);
    if ht[p] == 0 then [] else h[p].pointers[..h[p].size + 1]
  }

  lemma PageIsPageOf(b: Bucket, h: Heap, ht: Heights, p: Ref)
    requires LinksDown(b, h, ht) && p in h
    ensures h[p] == PageOf(b, Keys(b, h[p]), Kids(b, h, ht, p), h[p].parent)
  {
    var v, w := h[p], PageOf(b, Keys(b, h[p]), Kids(b, h, ht, p), h[p].parent);
    assert v.elements == w.elements;
    assert v.pointers == w.pointers;
  }

  /** Pages that can be the children of p: different, one level lower, with p as their parent. */
  ghost predicate KidsOk(h: Heap, ht: Heights, p: Ref, ps: seq<Ref>)
    requires p in h && h.Keys == ht.Keys
  {
    (forall i :: 0 <= i < |ps| ==> ChildOk(h, ht, p, ps[i])) && (forall i, j :: 0 <= i < j < |ps| ==> ps[i] != ps[j])
  }

  lemma SlotsFromKids(b: Bucket, h: Heap, ht: Heights, p: Ref, ks: seq<Entry>, ps: seq<Ref>)
    requires p in h && h.Keys == ht.Keys && |ks| <= b && |ps| == (if ht[p] == 0 then 0 else |ks| + 1)
    requires KidsOk(h, ht, p, ps) && h[p].size == |ks| && h[p].pointers == Pointers(b, ps)
    ensures SlotsOk(h, ht, p)
  {
  }

  lemma KidsAreOk(b: Bucket, h: Heap, ht: Heights, p: Ref)
    requires LinksDown(b, h, ht) && p in h
    ensures SlotsOk(h, ht, p) && KidsOk(h, ht, p, Kids(b, h, ht, p))
  {
    assert SlotsOk(h, ht, p);
  }

  /** The trees below a list of pages. */
  ghost function Trees(b: Bucket, h: Heap, ht: Heights, ps: seq<Ref>): (ts: seq<Tree>)
    requires LinksDown(b, h, ht) && forall i :: 0 <= i < |ps| ==> ps[i] in h
    ensures |ts| == |ps| && forall i :: 0 <= i < |ts| ==> ts[i] == TreeOf(b, h, ht, ps[i])
  {
    seq(|ps|, i requires 0 <= i < |ps| => TreeOf(b, h, ht, ps[i]))
  }

  lemma TreeFromKids(b: Bucket, h: Heap, ht: Heights, p: Ref)
    requires LinksDown(b, h, ht) && p in h
    ensures SlotsOk(h, ht, p) && KidsOk(h, ht, p, Kids(b, h, ht, p))
    ensures ht[p] > 0 ==> TreeOf(b, h, ht, p) == Node(Keys(b, h[p]), Trees(b, h, ht, Kids(b, h, ht, p)))
  {
    KidsAreOk(b, h, ht, p);
    if ht[p] > 0 {
      var cs, ts := Children(b, h, ht, p), Trees(b, h, ht, Kids(b, h, ht, p));
      forall i | 0 <= i < |cs| ensures cs[i] == ts[i] {
        assert cs[i] == ChildTree(b, h, ht, p, i);
      }
    }
  }

  // ---- The page to which something is added --------------------------------------------------------

  /** `index` is to be added to `page`, and in an inner page `right` is to hang right of it. */
  ghost predicate Pending(b: Bucket, h: Heap, ht: Heights, head: Ref, page: Ref, right: Ref) {
    Linked(b, h, ht, head, right) && page in h && page != right &&
    (right == NIL <==> ht[page] == 0) && (right != NIL ==> ht[right] + 1 == ht[page])
  }

  ghost function RightTree(b: Bucket, h: Heap, ht: Heights, right: Ref): (t: Tree)
    requires LinksDown(b, h, ht) && (right != NIL ==> right in h)
    ensures Shaped(b, t)
  {
    if right == NIL then Leaf([]) else TreeOf(b, h, ht, right)
  }

  /** The elements and children of the page with the new ones in their places. */
  ghost function NewKeys(b: Bucket, h: Heap, ht: Heights, page: Ref, e: Entry): (ks: seq<Entry>)
    requires LinksDown(b, h, ht) && page in h
    ensures |ks| == h[page].size + 1
  {
    InsertAt(Keys(b, h[page]), InsertPos(Keys(b, h[page]), K(e)), e)
  }

  ghost function NewKids(b: Bucket, h: Heap, ht: Heights, page: Ref, e: Entry, right: Ref): (ps: seq<Ref>)
    requires LinksDown(b, h, ht) && page in h
    ensures |ps| == if ht[page] == 0 then 0 else h[page].size + 2
  {
    if ht[page] == 0 then [] else InsertAt(Kids(b, h, ht, page), InsertPos(Keys(b, h[page]), K(e)) + 1, right)
  }

  /** The old children and the new one: different pages one level lower. */
  ghost predicate NewKidsOk(h: Heap, ht: Heights, page: Ref, right: Ref, ps: seq<Ref>)
    requires page in h && h.Keys == ht.Keys
  {
    (forall i :: 0 <= i < |ps| ==> NewKidOk(h, ht, page, right, ps[i])) &&
    (forall i, j :: 0 <= i < j < |ps| ==> ps[i] != ps[j])
  }

  ghost predicate NewKidOk(h: Heap, ht: Heights, page: Ref, right: Ref, q: Ref)
    requires page in h && h.Keys == ht.Keys
  {
    q in h && ht[q] + 1 == ht[page] && (q == right || h[q].parent == page)
  }

  lemma InsertedKidsOk(h: Heap, ht: Heights, page: Ref, right: Ref, ps: seq<Ref>, p: nat)
    requires page in h && page != NIL && h.Keys == ht.Keys && KidsOk(h, ht, page, ps) && p <= |ps|
    requires right in h && ht[right] + 1 == ht[page] && h[right].parent == NIL
    ensures NewKidsOk(h, ht, page, right, InsertAt(ps, p, right))
  {
    var ps' := InsertAt(ps, p, right);
    forall i | 0 <= i < |ps'| ensures NewKidOk(h, ht, page, right, ps'[i]) {
      if i != p {
        assert ChildOk(h, ht, page, ps[if i < p then i else i - 1]);
      }
    }
    forall i, j | 0 <= i < j < |ps'| ensures ps'[i] != ps'[j] {
      assert i != p ==> ChildOk(h, ht, page, ps[if i < p then i else i - 1]);
      assert j != p ==> ChildOk(h, ht, page, ps[if j < p then j else j - 1]);
    }
  }

  lemma NewKidsAreOk(b: Bucket, h: Heap, ht: Heights, head: Ref, page: Ref, e: Entry, right: Ref)
    requires Pending(b, h, ht, head, page, right)
    ensures NewKidsOk(h, ht, page, right, NewKids(b, h, ht, page, e, right))
  {
    KidsAreOk(b, h, ht, page);
    if ht[page] > 0 {
      InsertedKidsOk(h, ht, page, right, Kids(b, h, ht, page), InsertPos(Keys(b, h[page]), K(e)) + 1);
    }
  }

  lemma NewKidsMembers(b: Bucket, h: Heap, ht: Heights, head: Ref, page: Ref, e: Entry, right: Ref)
    requires Pending(b, h, ht, head, page, right)
    ensures var all := NewKids(b, h, ht, page, e, right);
            (forall q :: q in all ==> q in h && q != page) &&
            forall i, j :: 0 <= i < j < |all| ==> all[i] != all[j]
  {
    var all := NewKids(b, h, ht, page, e, right);
    NewKidsAreOk(b, h, ht, head, page, e, right);
    forall q | q in all ensures q in h && q != page {
      var i :| 0 <= i < |all| && all[i] == q;
      assert NewKidOk(h, ht, page, right, all[i]);
    }
  }

  lemma InsertedTrees(b: Bucket, h: Heap, ht: Heights, ps: seq<Ref>, p: nat, right: Ref)
    requires LinksDown(b, h, ht) && p <= |ps| && right in h
    requires forall i :: 0 <= i < |ps| ==> ps[i] in h
    ensures forall i :: 0 <= i < |ps| + 1 ==> InsertAt(ps, p, right)[i] in h
    ensures Trees(b, h, ht, InsertAt(ps, p, right)) == InsertAt(Trees(b, h, ht, ps), p, TreeOf(b, h, ht, right))
  {
  }

  /** What AddTo makes of the page, in terms of its pages. */
  lemma AddToKids(b: Bucket, h: Heap, ht: Heights, head: Ref, page: Ref, e: Entry, right: Ref)
    requires Pending(b, h, ht, head, page, right)
    ensures NewKidsOk(h, ht, page, right, NewKids(b, h, ht, page, e, right))
    ensures AddTo(b, TreeOf(b, h, ht, page), e, RightTree(b, h, ht, right)) ==
            if ht[page] == 0 then OverflowLeaf(b, NewKeys(b, h, ht, page, e))
            else OverflowInner(b, NewKeys(b, h, ht, page, e), Trees(b, h, ht, NewKids(b, h, ht, page, e, right)))
  {
    NewKidsAreOk(b, h, ht, head, page, e, right);
    TreeFromKids(b, h, ht, page);
    if ht[page] > 0 {
      InsertedTrees(b, h, ht, Kids(b, h, ht, page), InsertPos(Keys(b, h[page]), K(e)) + 1, right);
    }
  }

  // ---- Halving a full page -------------------------------------------------------------------------

  /** What a page is divided into: in a leaf all elements stay, in an inner page one of them goes up. */
  datatype Halves = Halves(lks: seq<Entry>, lps: seq<Ref>, rks: seq<Entry>, rps: seq<Ref>)

  function HalvesOf(b: Bucket, ks: seq<Entry>, ps: seq<Ref>): (r: Halves)
    requires |ks| == b + 1 && (ps == [] || |ps| == b + 2)
    ensures |r.lks| == b / 2 + 1 && |r.rks| <= b / 2 + 1 && |r.lps| <= |r.lks| + 1 && |r.rps| <= |r.rks| + 1
    ensures ps == r.lps + r.rps
  {
    var m := b / 2 + 1;
    if ps == [] then Halves(ks[..m], [], ks[m..], [])
    else Halves(ks[..m], ps[..m + 1], ks[m + 1..], ps[m + 1..])
  }

  /** The heap after page was halved and newPage took the right half; newPage hangs nowhere yet. */
  ghost predicate IsHalved(b: Bucket, h: Heap, ht: Heights, h': Heap, ht': Heights, page: Ref,
                           newPage: Ref, right: Ref, s: Halves)
    requires |s.lks| <= b && |s.rks| <= b && |s.lps| <= b + 1 && |s.rps| <= b + 1
  {
    page in h && page in ht && newPage !in h && newPage != NIL &&
    h'.Keys == h.Keys + {newPage} && ht' == ht[newPage := ht[page]] &&
    h'[page] == PageOf(b, s.lks, s.lps, h[page].parent) &&
    h'[newPage] == PageOf(b, s.rks, s.rps, NIL) &&
    forall q :: q in h && q != page ==> h'[q] == h[q].(parent :=
      if q in s.rps then newPage else if q in s.lps then page else h[q].parent)
  }

  lemma OldKid(b: Bucket, h: Heap, ht: Heights, page: Ref, e: Entry, right: Ref, q: Ref)
    requires LinksDown(b, h, ht) && page in h && q != NIL && q in h[page].pointers
    ensures q in NewKids(b, h, ht, page, e, right)
  {
    var i :| 0 <= i < |h[page].pointers| && h[page].pointers[i] == q;
    assert SlotsOk(h, ht, page);
    assert ht[page] > 0 && Kids(b, h, ht, page)[i] == q;
    var p := InsertPos(Keys(b, h[page]), K(e)) + 1;
    assert NewKids(b, h, ht, page, e, right)[if i < p then i else i + 1] == q;
  }

  ghost predicate Halved(b: Bucket, h: Heap, ht: Heights, head: Ref, h': Heap, ht': Heights, page: Ref,
                         newPage: Ref, e: Entry, right: Ref)
  {
    Pending(b, h, ht, head, page, right) && h[page].size == b &&
    IsHalved(b, h, ht, h', ht', page, newPage, right,
             HalvesOf(b, NewKeys(b, h, ht, page, e), NewKids(b, h, ht, page, e, right)))
  }

  lemma HalvedKids(b: Bucket, h: Heap, ht: Heights, head: Ref, h': Heap, ht': Heights, page: Ref,
                   newPage: Ref, e: Entry, right: Ref)
    requires Halved(b, h, ht, head, h', ht', page, newPage, e, right)
    ensures var s := HalvesOf(b, NewKeys(b, h, ht, page, e), NewKids(b, h, ht, page, e, right));
            KidsOk(h', ht', page, s.lps) && KidsOk(h', ht', newPage, s.rps)
  {
    HalvedLeftKids(b, h, ht, head, h', ht', page, newPage, e, right);
    HalvedRightKids(b, h, ht, head, h', ht', page, newPage, e, right);
  }

  lemma HalvedLeftKids(b: Bucket, h: Heap, ht: Heights, head: Ref, h': Heap, ht': Heights, page: Ref,
                       newPage: Ref, e: Entry, right: Ref)
    requires Halved(b, h, ht, head, h', ht', page, newPage, e, right)
    ensures KidsOk(h', ht', page, HalvesOf(b, NewKeys(b, h, ht, page, e), NewKids(b, h, ht, page, e, right)).lps)
  {
    NewKidsAreOk(b, h, ht, head, page, e, right);
    var ps := NewKids(b, h, ht, page, e, right);
    var s := HalvesOf(b, NewKeys(b, h, ht, page, e), ps);
    forall i | 0 <= i < |s.lps| ensures ChildOk(h', ht', page, s.lps[i]) {
      assert ps[i] == s.lps[i];
      assert s.lps[i] !in s.rps;
    }
  }

  lemma HalvedRightKids(b: Bucket, h: Heap, ht: Heights, head: Ref, h': Heap, ht': Heights, page: Ref,
                        newPage: Ref, e: Entry, right: Ref)
    requires Halved(b, h, ht, head, h', ht', page, newPage, e, right)
    ensures KidsOk(h', ht', newPage, HalvesOf(b, NewKeys(b, h, ht, page, e), NewKids(b, h, ht, page, e, right)).rps)
  {
    NewKidsAreOk(b, h, ht, head, page, e, right);
    var ps := NewKids(b, h, ht, page, e, right);
    var s := HalvesOf(b, NewKeys(b, h, ht, page, e), ps);
    forall i | 0 <= i < |s.rps| ensures ChildOk(h', ht', newPage, s.rps[i]) {
      assert ps[|s.lps| + i] == s.rps[i];
    }
  }

  /** A page that is not the halved one keeps its children, and they keep it as their parent. */
  lemma HalvedOther(b: Bucket, h: Heap, ht: Heights, head: Ref, h': Heap, ht': Heights, page: Ref,
                    newPage: Ref, e: Entry, right: Ref, p: Ref)
    requires Halved(b, h, ht, head, h', ht', page, newPage, e, right) && p in h && p != page
    ensures SlotsOk(h', ht', p)
  {
    assert SlotsOk(h, ht, p);
    forall i | 0 <= i < |h[p].pointers| && ht[p] > 0 && i <= h[p].size
      ensures ChildOk(h', ht', p, h[p].pointers[i])
    {
      assert ChildOk(h, ht, p, h[p].pointers[i]);
      NotNewKid(b, h, ht, head, page, e, right, h[p].pointers[i]);
    }
  }

  /** A page with another parent is not among the children of this one. */
  lemma NotNewKid(b: Bucket, h: Heap, ht: Heights, head: Ref, page: Ref, e: Entry, right: Ref, q: Ref)
    requires Pending(b, h, ht, head, page, right) && q in h && q != right && h[q].parent != page
    ensures q !in NewKids(b, h, ht, page, e, right)
  {
    NewKidsAreOk(b, h, ht, head, page, e, right);
  }

  lemma HalvedLinksDown(b: Bucket, h: Heap, ht: Heights, head: Ref, h': Heap, ht': Heights, page: Ref,
                        newPage: Ref, e: Entry, right: Ref)
    requires Halved(b, h, ht, head, h', ht', page, newPage, e, right)
    ensures LinksDown(b, h', ht')
  {
    var s := HalvesOf(b, NewKeys(b, h, ht, page, e), NewKids(b, h, ht, page, e, right));
    HalvedKids(b, h, ht, head, h', ht', page, newPage, e, right);
    PageOfKeys(b, s.lks, s.lps, h[page].parent);
    PageOfKeys(b, s.rks, s.rps, NIL);
    SlotsFromKids(b, h', ht', page, s.lks, s.lps);
    SlotsFromKids(b, h', ht', newPage, s.rks, s.rps);
    forall p | p in h && p != page ensures PageOk(b, h'[p]) && SlotsOk(h', ht', p) {
      assert PageOk(b, h[p]);
      HalvedOther(b, h, ht, head, h', ht', page, newPage, e, right, p);
    }
  }

  lemma InPointers(b: Bucket, ks: seq<Entry>, ps: seq<Ref>, parent: Ref, q: Ref)
    requires |ks| <= b && |ps| <= b + 1 && q in ps
    ensures q in PageOf(b, ks, ps, parent).pointers
  {
    var i :| 0 <= i < |ps| && ps[i] == q;
    assert PageOf(b, ks, ps, parent).pointers[i] == q;
  }

  /** A page that is not the head hangs, after the halving, on the page it names. */
  lemma HalvedHangs(b: Bucket, h: Heap, ht: Heights, head: Ref, h': Heap, ht': Heights, page: Ref,
                    newPage: Ref, e: Entry, right: Ref, p: Ref)
    requires Halved(b, h, ht, head, h', ht', page, newPage, e, right) && p in h && p != head
    ensures Hangs(h', p)
  {
    var ps := NewKids(b, h, ht, page, e, right);
    var s := HalvesOf(b, NewKeys(b, h, ht, page, e), ps);
    if p == right {
      RightIsNewKid(b, h, ht, page, e, right);
    } else {
      assert Hangs(h, p);
      if h[p].parent == page { OldKid(b, h, ht, page, e, right, p); }
    }
    NewKidsAreOk(b, h, ht, head, page, e, right);
    if p in s.rps {
      InPointers(b, s.rks, s.rps, NIL, p);
    } else if p in s.lps {
      InPointers(b, s.lks, s.lps, h[page].parent, p);
    }
  }

  lemma HalvedLinksUp(b: Bucket, h: Heap, ht: Heights, head: Ref, h': Heap, ht': Heights, page: Ref,
                      newPage: Ref, e: Entry, right: Ref)
    requires Halved(b, h, ht, head, h', ht', page, newPage, e, right)
    ensures LinksUp(h', head, newPage)
  {
    HeadStays(b, h, ht, head, h', ht', page, newPage, e, right);
    forall p | p in h && p != head
      ensures Hangs(h', p)
    {
      HalvedHangs(b, h, ht, head, h', ht', page, newPage, e, right, p);
    }
  }

  lemma HeadStays(b: Bucket, h: Heap, ht: Heights, head: Ref, h': Heap, ht': Heights, page: Ref,
                  newPage: Ref, e: Entry, right: Ref)
    requires Halved(b, h, ht, head, h', ht', page, newPage, e, right)
    ensures head in h' && h'[head].parent == NIL && head != newPage && h'[newPage].parent == NIL
  {
    if head != page {
      NotNewKid(b, h, ht, head, page, e, right, head);
    }
  }

  lemma RightIsNewKid(b: Bucket, h: Heap, ht: Heights, page: Ref, e: Entry, right: Ref)
    requires LinksDown(b, h, ht) && page in h && ht[page] > 0
    ensures right in NewKids(b, h, ht, page, e, right)
  {
    var p := InsertPos(Keys(b, h[page]), K(e)) + 1;
    assert NewKids(b, h, ht, page, e, right)[p] == right;
  }

  lemma SameLevel(b: Bucket, h: Heap, ht: Heights, h': Heap, ht': Heights, p: Ref)
    requires LinksDown(b, h, ht) && LinksDown(b, h', ht') && p in h && SameBelow(h, ht, h', ht', ht[p])
    requires p in h' && ht'[p] == ht[p] && SameContent(h[p], h'[p])
    ensures TreeOf(b, h', ht', p) == TreeOf(b, h, ht, p)
  {
    if ht[p] > 0 {
      SameChildren(b, h, ht, h', ht', ht[p], p);
    }
  }

  /** Nothing but the halved page has changed on its level and below, save parents; and nothing at all above. */
  ghost predicate Rest(h: Heap, ht: Heights, h': Heap, ht': Heights, page: Ref)
    requires h.Keys == ht.Keys && h'.Keys == ht'.Keys && page in h
  {
    h.Keys <= h'.Keys && (forall p :: p in h ==> ht'[p] == ht[p] && (p != page ==> SameContent(h[p], h'[p]))) &&
    h'[page].parent == h[page].parent && forall p :: p in h && ht[p] > ht[page] ==> h'[p].parent == h[p].parent
  }

  lemma HalvedRest(b: Bucket, h: Heap, ht: Heights, head: Ref, h': Heap, ht': Heights, page: Ref,
                   newPage: Ref, e: Entry, right: Ref)
    requires Halved(b, h, ht, head, h', ht', page, newPage, e, right)
    ensures Rest(h, ht, h', ht', page)
  {
    NewKidsAreOk(b, h, ht, head, page, e, right);
    var s := HalvesOf(b, NewKeys(b, h, ht, page, e), NewKids(b, h, ht, page, e, right));
    forall p | p in h && ht[p] > ht[page] ensures h'[p].parent == h[p].parent {
      assert p !in s.lps + s.rps;
    }
  }

  lemma RestOnlyBelow(b: Bucket, h: Heap, ht: Heights, h': Heap, ht': Heights, page: Ref)
    requires LinksDown(b, h, ht) && LinksDown(b, h', ht') && page in h && Rest(h, ht, h', ht', page)
    ensures SameBelow(h, ht, h', ht', ht[page]) && OnlyBelow(b, h, ht, h', ht', ht[page], page)
  {
    forall p | p in h && ht[p] == ht[page] && p != page ensures TreeOf(b, h', ht', p) == TreeOf(b, h, ht, p) {
      SameLevel(b, h, ht, h', ht', p);
    }
  }

  lemma SameTrees(b: Bucket, h: Heap, ht: Heights, h': Heap, ht': Heights, n: nat, ps: seq<Ref>)
    requires LinksDown(b, h, ht) && LinksDown(b, h', ht') && SameBelow(h, ht, h', ht', n)
    requires forall i :: 0 <= i < |ps| ==> ps[i] in h && ht[ps[i]] < n
    ensures forall i :: 0 <= i < |ps| ==> ps[i] in h'
    ensures Trees(b, h', ht', ps) == Trees(b, h, ht, ps)
  {
    forall i | 0 <= i < |ps| ensures ps[i] in h' && TreeOf(b, h', ht', ps[i]) == TreeOf(b, h, ht, ps[i]) {
      SameTree(b, h, ht, h', ht', n, ps[i]);
    }
  }

  lemma PageTree(b: Bucket, h: Heap, ht: Heights, p: Ref, ks: seq<Entry>, ps: seq<Ref>, parent: Ref)
    requires LinksDown(b, h, ht) && p in h && |ks| <= b && |ps| == (if ht[p] == 0 then 0 else |ks| + 1)
    requires h[p] == PageOf(b, ks, ps, parent)
    ensures KidsOk(h, ht, p, ps)
    ensures TreeOf(b, h, ht, p) == if ht[p] == 0 then Leaf(ks) else Node(ks, Trees(b, h, ht, ps))
  {
    PageOfKeys(b, ks, ps, parent);
    assert Kids(b, h, ht, p) == ps;
    TreeFromKids(b, h, ht, p);
  }

  lemma NewTreesStay(b: Bucket, h: Heap, ht: Heights, h': Heap, ht': Heights, page: Ref, right: Ref, ps: seq<Ref>)
    requires LinksDown(b, h, ht) && LinksDown(b, h', ht') && page in h && SameBelow(h, ht, h', ht', ht[page])
    requires NewKidsOk(h, ht, page, right, ps)
    ensures forall i :: 0 <= i < |ps| ==> ps[i] in h && ps[i] in h'
    ensures Trees(b, h', ht', ps) == Trees(b, h, ht, ps)
  {
    forall i | 0 <= i < |ps| ensures ps[i] in h && ht[ps[i]] < ht[page] {
      assert NewKidOk(h, ht, page, right, ps[i]);
    }
    SameTrees(b, h, ht, h', ht', ht[page], ps);
  }

  /** The two halves stand for the two trees an overfull page is split into. */
  lemma HalvesAreSplit(b: Bucket, h: Heap, ht: Heights, page: Ref, newPage: Ref, ks: seq<Entry>,
                       ps: seq<Ref>, parent: Ref)
    requires LinksDown(b, h, ht) && page in h && newPage in h && ht[newPage] == ht[page]
    requires |ks| == b + 1 && |ps| == (if ht[page] == 0 then 0 else b + 2)
    requires forall i :: 0 <= i < |ps| ==> ps[i] in h
    requires h[page] == PageOf(b, HalvesOf(b, ks, ps).lks, HalvesOf(b, ks, ps).lps, parent)
    requires h[newPage] == PageOf(b, HalvesOf(b, ks, ps).rks, HalvesOf(b, ks, ps).rps, NIL)
    ensures Split(TreeOf(b, h, ht, page), ks[b / 2 + 1], TreeOf(b, h, ht, newPage)) ==
            if ht[page] == 0 then OverflowLeaf(b, ks) else OverflowInner(b, ks, Trees(b, h, ht, ps))
  {
    var s := HalvesOf(b, ks, ps);
    PageTree(b, h, ht, page, s.lks, s.lps, parent);
    PageTree(b, h, ht, newPage, s.rks, s.rps, NIL);
    if ht[page] > 0 {
      assert Trees(b, h, ht, s.lps) == Trees(b, h, ht, ps)[..b / 2 + 2];
      assert Trees(b, h, ht, s.rps) == Trees(b, h, ht, ps)[b / 2 + 2..];
    }
  }

  lemma HalvedTrees(b: Bucket, h: Heap, ht: Heights, head: Ref, h': Heap, ht': Heights, page: Ref,
                    newPage: Ref, e: Entry, right: Ref)
    requires Halved(b, h, ht, head, h', ht', page, newPage, e, right) && LinksDown(b, h', ht')
    requires SameBelow(h, ht, h', ht', ht[page])
    ensures AddTo(b, TreeOf(b, h, ht, page), e, RightTree(b, h, ht, right)) ==
            Split(TreeOf(b, h', ht', page), NewKeys(b, h, ht, page, e)[b / 2 + 1], TreeOf(b, h', ht', newPage))
  {
    var ks, ps := NewKeys(b, h, ht, page, e), NewKids(b, h, ht, page, e, right);
    AddToKids(b, h, ht, head, page, e, right);
    NewTreesStay(b, h, ht, h', ht', page, right, ps);
    HalvesAreSplit(b, h', ht', page, newPage, ks, ps, h[page].parent);
  }

  /** Halving a full page: the heap stays linked with the new page as the orphan, the surroundings stay the same,
      and the two halves are what AddTo splits the page into. */
  lemma HalveStep(b: Bucket, h: Heap, ht: Heights, head: Ref, h': Heap, ht': Heights, page: Ref,
                  newPage: Ref, e: Entry, right: Ref, c: Path)
    requires Halved(b, h, ht, head, h', ht', page, newPage, e, right) && PathTo(b, h, ht, head, page, c)
    ensures Linked(b, h', ht', head, newPage) && PathTo(b, h', ht', head, page, c) && PathShaped(b, c)
    ensures AddTo(b, TreeOf(b, h, ht, page), e, RightTree(b, h, ht, right)) ==
            Split(TreeOf(b, h', ht', page), NewKeys(b, h, ht, page, e)[b / 2 + 1], TreeOf(b, h', ht', newPage))
  {
    HalvedLinksDown(b, h, ht, head, h', ht', page, newPage, e, right);
    HalvedLinksUp(b, h, ht, head, h', ht', page, newPage, e, right);
    HalvedRest(b, h, ht, head, h', ht', page, newPage, e, right);
    RestOnlyBelow(b, h, ht, h', ht', page);
    HalvedTrees(b, h, ht, head, h', ht', page, newPage, e, right);
    SamePath(b, h, ht, h', ht', head, page, c);
    PathIsShaped(b, h, ht, head, page, c);
  }

  // ---- Placing in a page with room -----------------------------------------------------------------

  /** The heap after page became v and `right`, if given, got it as its parent. */
  ghost predicate IsPlaced(h: Heap, h': Heap, page: Ref, right: Ref, v: PageV)
  {
    page in h && h'.Keys == h.Keys && h'[page] == v &&
    forall q :: q in h && q != page ==> h'[q] == h[q].(parent := if q == right then page else h[q].parent)
  }

  /** The heap after the element, and right of it the page `right`, took their place in page. */
  ghost predicate Placed(b: Bucket, h: Heap, ht: Heights, head: Ref, h': Heap, page: Ref, e: Entry,
                         right: Ref)
  {
    Pending(b, h, ht, head, page, right) && h[page].size < b &&
    IsPlaced(h, h', page, right,
      PageOf(b, NewKeys(b, h, ht, page, e), NewKids(b, h, ht, page, e, right), h[page].parent))
  }

  lemma PlacedLinksDown(b: Bucket, h: Heap, ht: Heights, head: Ref, h': Heap, page: Ref, e: Entry, right: Ref)
    requires Placed(b, h, ht, head, h', page, e, right)
    ensures LinksDown(b, h', ht)
  {
    var ks, ps := NewKeys(b, h, ht, page, e), NewKids(b, h, ht, page, e, right);
    NewKidsAreOk(b, h, ht, head, page, e, right);
    PageOfKeys(b, ks, ps, h[page].parent);
    forall i | 0 <= i < |ps| ensures ChildOk(h', ht, page, ps[i]) {
      assert NewKidOk(h, ht, page, right, ps[i]);
    }
    SlotsFromKids(b, h', ht, page, ks, ps);
    forall p | p in h && p != page ensures PageOk(b, h'[p]) && SlotsOk(h', ht, p) {
      assert SlotsOk(h, ht, p);
      forall i | 0 <= i < |h[p].pointers| && ht[p] > 0 && i <= h[p].size
        ensures ChildOk(h', ht, p, h[p].pointers[i])
      {
        assert ChildOk(h, ht, p, h[p].pointers[i]);
      }
    }
  }

  lemma PlacedHangs(b: Bucket, h: Heap, ht: Heights, head: Ref, h': Heap, page: Ref, e: Entry,
                    right: Ref, p: Ref)
    requires Placed(b, h, ht, head, h', page, e, right) && p in h && p != head
    ensures Hangs(h', p)
  {
    var ks, ps := NewKeys(b, h, ht, page, e), NewKids(b, h, ht, page, e, right);
    if p == right {
      RightIsNewKid(b, h, ht, page, e, right);
      InPointers(b, ks, ps, h[page].parent, p);
    } else {
      assert Hangs(h, p);
      if h[p].parent == page {
        OldKid(b, h, ht, page, e, right, p);
        InPointers(b, ks, ps, h[page].parent, p);
      }
    }
  }

  lemma PlacedLinksUp(b: Bucket, h: Heap, ht: Heights, head: Ref, h': Heap, page: Ref, e: Entry, right: Ref)
    requires Placed(b, h, ht, head, h', page, e, right)
    ensures LinksUp(h', head, NIL)
  {
    forall p | p in h && p != head
      ensures Hangs(h', p)
    {
      PlacedHangs(b, h, ht, head, h', page, e, right, p);
    }
  }

  lemma PlacedTree(b: Bucket, h: Heap, ht: Heights, head: Ref, h': Heap, page: Ref, e: Entry, right: Ref)
    requires Placed(b, h, ht, head, h', page, e, right) && LinksDown(b, h', ht)
    ensures OnlyBelow(b, h, ht, h', ht, ht[page], page)
    ensures AddTo(b, TreeOf(b, h, ht, page), e, RightTree(b, h, ht, right)) == Done(TreeOf(b, h', ht, page))
  {
    var ks, ps := NewKeys(b, h, ht, page, e), NewKids(b, h, ht, page, e, right);
    AddToKids(b, h, ht, head, page, e, right);
    PageTree(b, h', ht, page, ks, ps, h[page].parent);
    assert Rest(h, ht, h', ht, page);
    RestOnlyBelow(b, h, ht, h', ht, page);
    NewTreesStay(b, h, ht, h', ht, page, right, ps);
  }

  /** Placing an element in a page with room completes the insertion. */
  lemma PlaceStep(b: Bucket, h: Heap, ht: Heights, head: Ref, h': Heap, page: Ref, e: Entry,
                  right: Ref, c: Path)
    requires Placed(b, h, ht, head, h', page, e, right) && PathTo(b, h, ht, head, page, c)
    ensures Linked(b, h', ht, head, NIL) && PathShaped(b, c)
    ensures TreeOf(b, h', ht, head) == Ascend(b, c, AddTo(b, TreeOf(b, h, ht, page), e, RightTree(b, h, ht, right)))
  {
    PlacedLinksDown(b, h, ht, head, h', page, e, right);
    PlacedLinksUp(b, h, ht, head, h', page, e, right);
    PlacedTree(b, h, ht, head, h', page, e, right);
    SamePath(b, h, ht, h', ht, head, page, c);
    Plug(b, h', ht, head, page, c);
  }

  // ---- A new root ----------------------------------------------------------------------------------

  ghost predicate IsRooted(b: Bucket, h: Heap, ht: Heights, left: Ref, right: Ref, h': Heap, ht': Heights,
                           root: Ref, k: Entry)
  {
    left in ht && root !in h && root != NIL && h'.Keys == h.Keys + {root} && ht' == ht[root := ht[left] + 1] &&
    h'[root] == PageOf(b, [k], [left, right], NIL) &&
    forall q :: q in h ==> h'[q] == h[q].(parent := if q == left || q == right then root else h[q].parent)
  }

  ghost predicate Rooted(b: Bucket, h: Heap, ht: Heights, left: Ref, right: Ref, h': Heap, ht': Heights,
                         root: Ref, k: Entry)
  {
    Linked(b, h, ht, left, right) && right != NIL && ht[right] == ht[left] &&
      IsRooted(b, h, ht, left, right, h', ht', root, k)
  }

  lemma RootedLinksDown(b: Bucket, h: Heap, ht: Heights, left: Ref, right: Ref, h': Heap, ht': Heights,
                        root: Ref, k: Entry)
    requires Rooted(b, h, ht, left, right, h', ht', root, k)
    ensures LinksDown(b, h', ht')
  {
    PageOfKeys(b, [k], [left, right], NIL);
    SlotsFromKids(b, h', ht', root, [k], [left, right]);
    forall p | p in h ensures PageOk(b, h'[p]) && SlotsOk(h', ht', p) {
      assert SlotsOk(h, ht, p);
      forall i | 0 <= i < |h[p].pointers| && ht[p] > 0 && i <= h[p].size
        ensures ChildOk(h', ht', p, h[p].pointers[i])
      {
        assert ChildOk(h, ht, p, h[p].pointers[i]);
      }
    }
  }

  lemma RootedLinksUp(b: Bucket, h: Heap, ht: Heights, left: Ref, right: Ref, h': Heap, ht': Heights,
                      root: Ref, k: Entry)
    requires Rooted(b, h, ht, left, right, h', ht', root, k)
    ensures LinksUp(h', root, NIL)
  {
    InPointers(b, [k], [left, right], NIL, left);
    InPointers(b, [k], [left, right], NIL, right);
    forall p | p in h ensures Hangs(h', p) {
      assert p == left || p == right || Hangs(h, p);
    }
  }

  lemma RootedTree(b: Bucket, h: Heap, ht: Heights, h': Heap, ht': Heights, root: Ref, left: Ref,
                   right: Ref, k: Entry)
    requires LinksDown(b, h, ht) && LinksDown(b, h', ht') && left in h && right in h && ht[right] == ht[left]
    requires root in h' && ht'[root] > 0 && h'[root] == PageOf(b, [k], [left, right], NIL)
    requires SameBelow(h, ht, h', ht', ht[left] + 1)
    ensures TreeOf(b, h', ht', root) == Node([k], [TreeOf(b, h, ht, left), TreeOf(b, h, ht, right)])
  {
    PageTree(b, h', ht', root, [k], [left, right], NIL);
    SameTree(b, h, ht, h', ht', ht[left] + 1, left);
    SameTree(b, h, ht, h', ht', ht[left] + 1, right);
    assert Trees(b, h', ht', [left, right]) == [TreeOf(b, h', ht', left), TreeOf(b, h', ht', right)];
  }

  /** The old head and the page split off it, below a new head. */
  lemma RootStep(b: Bucket, h: Heap, ht: Heights, left: Ref, right: Ref, h': Heap, ht': Heights,
                 root: Ref, k: Entry)
    requires Rooted(b, h, ht, left, right, h', ht', root, k)
    ensures Linked(b, h', ht', root, NIL)
    ensures TreeOf(b, h', ht', root) == Finish(Split(TreeOf(b, h, ht, left), k, TreeOf(b, h, ht, right)))
  {
    RootedLinksDown(b, h, ht, left, right, h', ht', root, k);
    RootedLinksUp(b, h, ht, left, right, h', ht', root, k);
    RootedTree(b, h, ht, h', ht', root, left, right, k);
  }
}
