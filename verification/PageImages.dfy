/** The image of one index page in a buffer: what `persistPage` writes and what `loadPage` makes of it.

    A page is seen here as its image sees it: an element holds its key document, and a pointer is the place another
    page has in the buffers, if it has one yet (`bufferIndex` is -1 until a page is persisted). */
module PageImages {
  import opened Ids
  import opened ByteStreams
  import opened Documents
  import opened Selections
  import opened BsonStreams

  datatype Element =
    | NoElement
    | Element(key: Doc, documentId: Id, posData: int, indexPos: int)

  datatype Pointer =
    | NoPage
    | PageAt(bufferIndex: int, bufferPos: int)

  datatype Content = Content(size: int, elements: seq<Element>, pointers: seq<Pointer>, left: Pointer, right: Pointer)

  // ---- The image -------------------------------------------------------------------------------------

  function RawElement(flag: int, key: Doc, documentId: Id, posData: int, indexPos: int): Bytes {
    Int(flag) + Encode(key) + Chars(documentId) + Long(posData) + Long(indexPos)
  }

  /** An empty slot is written as an element of zeros behind the flag 0. */
  function Shown(e: Element): (r: Element)
    ensures r.Element?
  {
    if e.Element? then e else Element(Doc([]), [], 0, 0)
  }

  function Flag(b: bool): int {
    if b then 1 else 0
  }

  function ElementBytes(e: Element): Bytes {
    RawElement(Flag(e.Element?), Shown(e).key, Shown(e).documentId, Shown(e).posData, Shown(e).indexPos)
  }

  /** A page that is in no buffer yet cannot be pointed to. */
  function Kept(p: Pointer): Pointer {
    if p.PageAt? && p.bufferIndex > -1 then p else NoPage
  }

  function PointerBytes(p: Pointer): (bs: Bytes)
    ensures |bs| == 12
  {
    if Kept(p).PageAt? then Int(1) + Int(p.bufferIndex) + Int(p.bufferPos) else Int(0) + Int(0) + Int(0)
  }

  function ElementImages(es: seq<Element>): (r: seq<Bytes>)
    ensures |r| == |es|
  {
    if es == [] then [] else [ElementBytes(es[0])] + ElementImages(es[1..])
  }

  function PointerImages(ps: seq<Pointer>): (r: seq<Bytes>)
    ensures |r| == |ps|
  {
    if ps == [] then [] else [PointerBytes(ps[0])] + PointerImages(ps[1..])
  }

  lemma {:induction false} ElementImageAt(es: seq<Element>, i: nat)
    requires i < |es|
    ensures ElementImages(es)[i] == ElementBytes(es[i])
  {
    if i > 0 {
      ElementImageAt(es[1..], i - 1);
    }
  }

  lemma {:induction false} PointerImageAt(ps: seq<Pointer>, i: nat)
    requires i < |ps|
    ensures PointerImages(ps)[i] == PointerBytes(ps[i])
  {
    if i > 0 {
      PointerImageAt(ps[1..], i - 1);
    }
  }

  /** The first n slots: every element with the pointer to its left. */
  function SlotsBytes(es: seq<Bytes>, ps: seq<Bytes>, n: nat): Bytes
    requires n <= |es| && n <= |ps|
  {
    if n == 0 then [] else SlotsBytes(es, ps, n - 1) + (es[n - 1] + ps[n - 1])
  }

  function Slots(c: Content, n: nat): Bytes
    requires n <= |c.elements| && n <= |c.pointers|
  {
    SlotsBytes(ElementImages(c.elements), PointerImages(c.pointers), n)
  }

  /** The last pointer and the siblings. */
  function Ends(last: Pointer, left: Pointer, right: Pointer): (bs: Bytes)
    ensures |bs| == 36
  {
    PointerBytes(last) + PointerBytes(left) + PointerBytes(right)
  }

  function Image(c: Content): Bytes
    requires |c.pointers| == |c.elements| + 1
  {
    Int(|c.elements|) + Int(c.size) + Slots(c, |c.elements|) + Ends(c.pointers[|c.elements|], c.left, c.right)
  }

  /** In a buffer the image stands behind its length, which is written twice. */
  function Framed(c: Content): Bytes
    requires |c.pointers| == |c.elements| + 1
  {
    Int(|Image(c)|) + Int(|Image(c)|) + Image(c)
  }

  // ---- What the widths hold --------------------------------------------------------------------------

  predicate ElementFits(e: Element) {
    e.Element? ==>
      DocFits(e.key) && InMemory(e.key) && Fits(|e.documentId|, 4) && Fits(e.posData, 8) && Fits(e.indexPos, 8)
  }

  predicate PointerFits(p: Pointer) {
    p.PageAt? ==> Fits(p.bufferIndex, 4) && Fits(p.bufferPos, 4)
  }

  predicate ElementsFit(es: seq<Element>) {
    forall e :: e in es ==> ElementFits(e)
  }

  predicate PointersFit(ps: seq<Pointer>) {
    forall p :: p in ps ==> PointerFits(p)
  }

  predicate ContentFits(c: Content) {
    |c.pointers| == |c.elements| + 1 && Fits(|c.elements|, 4) && Fits(c.size, 4) &&
    ElementsFit(c.elements) && PointersFit(c.pointers) && PointerFits(c.left) && PointerFits(c.right)
  }

  function KeptAll(ps: seq<Pointer>): (r: seq<Pointer>)
    ensures |r| == |ps| && forall i :: 0 <= i < |r| ==> r[i] == Kept(ps[i])
  {
    if ps == [] then [] else [Kept(ps[0])] + KeptAll(ps[1..])
  }

  /** What a page is after it was written and loaded. */
  function Restored(c: Content): Content {
    Content(c.size, c.elements, KeptAll(c.pointers), Kept(c.left), Kept(c.right))
  }

  /** Buffers are numbered from 0. */
  predicate InBuffer(p: Pointer) {
    p.PageAt? && p.bufferIndex >= 0
  }

  /** The pointers to pages that had a place in a buffer are as they were, and all others are empty. */
  ghost predicate PointersLoaded(loaded: Content, c: Content) {
    |loaded.pointers| == |c.pointers| &&
    (forall i :: 0 <= i < |c.pointers| ==>
       loaded.pointers[i] == if InBuffer(c.pointers[i]) then c.pointers[i] else NoPage) &&
    loaded.left == (if InBuffer(c.left) then c.left else NoPage) &&
    loaded.right == (if InBuffer(c.right) then c.right else NoPage)
  }

  lemma RestoredPointers(c: Content)
    ensures PointersLoaded(Restored(c), c)
  {
  }

  // ---- An image tells what it can hold ---------------------------------------------------------------

  lemma RawAt(flag: int, key: Doc, id: Id, posData: int, indexPos: int, s: Bytes, p: nat)
    ensures At(s, p, RawElement(flag, key, id, posData, indexPos)) <==>
            At(s, p, Int(flag)) && At(s, p + 4, Encode(key)) && At(s, p + 4 + |Encode(key)|, Chars(id)) &&
            At(s, p + 4 + |Encode(key)| + |Chars(id)|, Long(posData)) &&
            At(s, p + 12 + |Encode(key)| + |Chars(id)|, Long(indexPos))
    ensures |RawElement(flag, key, id, posData, indexPos)| == 20 + |Encode(key)| + |Chars(id)|
  {
    AtSplit(s, p, Int(flag) + Encode(key) + Chars(id) + Long(posData), Long(indexPos));
    AtSplit(s, p, Int(flag) + Encode(key) + Chars(id), Long(posData));
    AtSplit(s, p, Int(flag) + Encode(key), Chars(id));
    AtSplit(s, p, Int(flag), Encode(key));
  }

  lemma SameInt(i: int, j: int, s: Bytes, p: nat)
    requires Fits(i, 4) && Fits(j, 4) && At(s, p, Int(i)) && At(s, p, Int(j))
    ensures i == j
  {
    SignedReads(i, 4);
    SignedReads(j, 4);
  }

  lemma SameRaw(flag: int, key: Doc, id: Id, pos: int, index: int,
                flag': int, key': Doc, id': Id, pos': int, index': int, s: Bytes, p: nat)
    requires Fits(flag, 4) && DocFits(key) && Fits(|id|, 4) && Fits(pos, 8) && Fits(index, 8)
    requires Fits(flag', 4) && DocFits(key') && Fits(|id'|, 4) && Fits(pos', 8) && Fits(index', 8)
    requires At(s, p, RawElement(flag, key, id, pos, index)) && At(s, p, RawElement(flag', key', id', pos', index'))
    ensures flag == flag' && key == key' && id == id' && pos == pos' && index == index'
  {
    RawAt(flag, key, id, pos, index, s, p);
    RawAt(flag', key', id', pos', index', s, p);
    SameInt(flag, flag', s, p);
    SameDoc(key, key', s, p + 4);
    SameChars(id, id', s, p + 4 + |Encode(key)|);
    SameLong(pos, pos', s, p + 4 + |Encode(key)| + |Chars(id)|);
    SameLong(index, index', s, p + 12 + |Encode(key)| + |Chars(id)|);
  }

  lemma SameElement(a: Element, b: Element, s: Bytes, p: nat)
    requires ElementFits(a) && ElementFits(b) && At(s, p, ElementBytes(a)) && At(s, p, ElementBytes(b))
    ensures a == b
  {
    var x, y := Shown(a), Shown(b);
    SameRaw(Flag(a.Element?), x.key, x.documentId, x.posData, x.indexPos,
            Flag(b.Element?), y.key, y.documentId, y.posData, y.indexPos, s, p);
  }

  lemma ThreeAt(i: int, j: int, k: int, s: Bytes, p: nat)
    ensures At(s, p, Int(i) + Int(j) + Int(k)) <==> At(s, p, Int(i)) && At(s, p + 4, Int(j)) && At(s, p + 8, Int(k))
  {
    AtSplit(s, p, Int(i) + Int(j), Int(k));
    AtSplit(s, p, Int(i), Int(j));
  }

  lemma SamePointer(a: Pointer, b: Pointer, s: Bytes, p: nat)
    requires PointerFits(a) && PointerFits(b) && At(s, p, PointerBytes(a)) && At(s, p, PointerBytes(b))
    ensures Kept(a) == Kept(b)
  {
    var x := if Kept(a).PageAt? then (1, a.bufferIndex, a.bufferPos) else (0, 0, 0);
    var y := if Kept(b).PageAt? then (1, b.bufferIndex, b.bufferPos) else (0, 0, 0);
    ThreeAt(x.0, x.1, x.2, s, p);
    ThreeAt(y.0, y.1, y.2, s, p);
    SameInt(x.0, y.0, s, p);
    SameInt(x.1, y.1, s, p + 4);
    SameInt(x.2, y.2, s, p + 8);
  }

  lemma SlotAt(es: seq<Bytes>, ps: seq<Bytes>, n: nat, s: Bytes, p: nat)
    requires 0 < n <= |es| && n <= |ps| && At(s, p, SlotsBytes(es, ps, n))
    ensures var q := p + |SlotsBytes(es, ps, n - 1)|;
            && At(s, p, SlotsBytes(es, ps, n - 1)) && At(s, q, es[n - 1]) && At(s, q + |es[n - 1]|, ps[n - 1])
            && q + |es[n - 1]| + |ps[n - 1]| == p + |SlotsBytes(es, ps, n)|
  {
    AtSplit(s, p, SlotsBytes(es, ps, n - 1), es[n - 1] + ps[n - 1]);
    AtSplit(s, p + |SlotsBytes(es, ps, n - 1)|, es[n - 1], ps[n - 1]);
  }

  lemma {:induction false} EarlierSlotsAt(es: seq<Bytes>, ps: seq<Bytes>, n: nat, m: nat, s: Bytes, p: nat)
    requires n <= m <= |es| && m <= |ps| && At(s, p, SlotsBytes(es, ps, m))
    ensures At(s, p, SlotsBytes(es, ps, n))
  {
    if n < m {
      SlotAt(es, ps, m, s, p);
      EarlierSlotsAt(es, ps, n, m - 1, s, p);
    }
  }

  /** What stands in slot n of an image. */
  lemma SlotOfAllAt(es: seq<Bytes>, ps: seq<Bytes>, n: nat, s: Bytes, p: nat)
    requires n < |es| <= |ps| && At(s, p, SlotsBytes(es, ps, |es|))
    ensures var q := p + |SlotsBytes(es, ps, n)|;
            && At(s, q, es[n]) && At(s, q + |es[n]|, ps[n]) && p + |SlotsBytes(es, ps, n + 1)| == q + |es[n]| + |ps[n]|
  {
    EarlierSlotsAt(es, ps, n + 1, |es|, s, p);
    SlotAt(es, ps, n + 1, s, p);
  }

  /** Where one of es and the one of fs with the same number can both be read, they are the same. */
  ghost predicate Framing(es: seq<Bytes>, fs: seq<Bytes>, s: Bytes)
    requires |es| == |fs|
  {
    forall i, q: nat :: 0 <= i < |es| && At(s, q, es[i]) && At(s, q, fs[i]) ==> es[i] == fs[i]
  }

  lemma {:induction false} SameSlots(es: seq<Bytes>, ps: seq<Bytes>, fs: seq<Bytes>, qs: seq<Bytes>, n: nat,
                                     s: Bytes, p: nat)
    requires n <= |es| == |fs| <= |ps| == |qs| && Framing(es, fs, s) && Framing(ps, qs, s)
    requires At(s, p, SlotsBytes(es, ps, |es|)) && At(s, p, SlotsBytes(fs, qs, |fs|))
    ensures |SlotsBytes(es, ps, n)| == |SlotsBytes(fs, qs, n)|
    ensures es[..n] == fs[..n] && ps[..n] == qs[..n]
  {
    if n > 0 {
      SameSlots(es, ps, fs, qs, n - 1, s, p);
      SlotOfAllAt(es, ps, n - 1, s, p);
      SlotOfAllAt(fs, qs, n - 1, s, p);
      assert es[n - 1] == fs[n - 1] && ps[n - 1] == qs[n - 1];
      SameFurther(es, fs, n - 1);
      SameFurther(ps, qs, n - 1);
    }
  }

  lemma SameFurther(es: seq<Bytes>, fs: seq<Bytes>, n: nat)
    requires n < |es| && n < |fs| && es[..n] == fs[..n] && es[n] == fs[n]
    ensures es[..n + 1] == fs[..n + 1]
  {
    assert es[..n + 1] == es[..n] + [es[n]] && fs[..n + 1] == fs[..n] + [fs[n]];
  }

  lemma ElementsFraming(es: seq<Element>, fs: seq<Element>, s: Bytes)
    requires |es| == |fs| && ElementsFit(es) && ElementsFit(fs)
    ensures Framing(ElementImages(es), ElementImages(fs), s)
  {
    var xs, ys := ElementImages(es), ElementImages(fs);
    forall i, q: nat | 0 <= i < |xs| && At(s, q, xs[i]) && At(s, q, ys[i]) ensures xs[i] == ys[i] {
      ElementImageAt(es, i);
      ElementImageAt(fs, i);
      SameElement(es[i], fs[i], s, q);
    }
  }

  lemma PointersFraming(ps: seq<Pointer>, qs: seq<Pointer>, s: Bytes)
    requires |ps| == |qs| && PointersFit(ps) && PointersFit(qs)
    ensures Framing(PointerImages(ps), PointerImages(qs), s)
  {
    var xs, ys := PointerImages(ps), PointerImages(qs);
    forall i, q: nat | 0 <= i < |xs| && At(s, q, xs[i]) && At(s, q, ys[i]) ensures xs[i] == ys[i] {
      PointerImageAt(ps, i);
      PointerImageAt(qs, i);
      SameLengthSame(s, q, xs[i], ys[i]);
    }
  }

  lemma ImagesTellElements(es: seq<Element>, fs: seq<Element>)
    requires |es| == |fs| && ElementsFit(es) && ElementsFit(fs) && ElementImages(es) == ElementImages(fs)
    ensures es == fs
  {
    forall i | 0 <= i < |es| ensures es[i] == fs[i] {
      ElementImageAt(es, i);
      ElementImageAt(fs, i);
      SameElement(es[i], fs[i], ElementBytes(es[i]), 0);
    }
  }

  lemma ImagesTellPointers(ps: seq<Pointer>, qs: seq<Pointer>, n: nat)
    requires n <= |ps| == |qs| && PointersFit(ps) && PointersFit(qs) && PointerImages(ps)[..n] == PointerImages(qs)[..n]
    ensures KeptAll(ps)[..n] == KeptAll(qs)[..n]
  {
    forall i | 0 <= i < n ensures Kept(ps[i]) == Kept(qs[i]) {
      PointerImageAt(ps, i);
      PointerImageAt(qs, i);
      assert PointerImages(ps)[i] == PointerImages(ps)[..n][i] && PointerImages(qs)[i] == PointerImages(qs)[..n][i];
      SamePointer(ps[i], qs[i], PointerBytes(ps[i]), 0);
    }
  }

  lemma FourAt(w: Bytes, x: Bytes, y: Bytes, z: Bytes, s: Bytes, p: nat)
    ensures At(s, p, w + x + y + z) <==>
            At(s, p, w) && At(s, p + |w|, x) && At(s, p + |w| + |x|, y) && At(s, p + |w| + |x| + |y|, z)
  {
    AtSplit(s, p, w + x + y, z);
    AtSplit(s, p, w + x, y);
    AtSplit(s, p, w, x);
  }

  /** Where the parts of an image stand. */
  lemma ImageAt(c: Content, s: Bytes, p: nat)
    requires |c.pointers| == |c.elements| + 1
    ensures At(s, p, Image(c)) <==>
            At(s, p, Int(|c.elements|)) && At(s, p + 4, Int(c.size)) && At(s, p + 8, Slots(c, |c.elements|)) &&
            At(s, p + 8 + |Slots(c, |c.elements|)|, Ends(c.pointers[|c.elements|], c.left, c.right))
  {
    FourAt(Int(|c.elements|), Int(c.size), Slots(c, |c.elements|), Ends(c.pointers[|c.elements|], c.left, c.right), s,
      p);
  }

  lemma EndsAt(last: Pointer, left: Pointer, right: Pointer, s: Bytes, q: nat)
    ensures At(s, q, Ends(last, left, right)) <==>
            At(s, q, PointerBytes(last)) && At(s, q + 12, PointerBytes(left)) && At(s, q + 24, PointerBytes(right))
  {
    AtSplit(s, q, PointerBytes(last) + PointerBytes(left), PointerBytes(right));
    AtSplit(s, q, PointerBytes(last), PointerBytes(left));
  }

  /** A pointer in a stream: 1, the buffer and the place in it on four bytes each, or three zeros. */
  predicate PointerStands(s: Bytes, q: nat, p: Pointer) {
    q + 12 <= |s| &&
    var a, b, c := FromSigned(s[q..q + 4]), FromSigned(s[q + 4..q + 8]), FromSigned(s[q + 8..q + 12]);
    if InBuffer(p) then a == 1 && b == p.bufferIndex && c == p.bufferPos else a == b == c == 0
  }

  lemma ThreeInts(i: int, j: int, k: int, s: Bytes, q: nat)
    requires Fits(i, 4) && Fits(j, 4) && Fits(k, 4) && At(s, q, Int(i) + Int(j) + Int(k))
    ensures q + 12 <= |s| && FromSigned(s[q..q + 4]) == i
    ensures FromSigned(s[q + 4..q + 8]) == j && FromSigned(s[q + 8..q + 12]) == k
  {
    AtSplit(s, q, Int(i) + Int(j), Int(k));
    AtSplit(s, q, Int(i), Int(j));
    NumberAt(i, 4, s, q);
    NumberAt(j, 4, s, q + 4);
    NumberAt(k, 4, s, q + 8);
  }

  lemma PointerBytesStand(p: Pointer, s: Bytes, q: nat)
    requires PointerFits(p) && At(s, q, PointerBytes(p))
    ensures PointerStands(s, q, p)
  {
    if InBuffer(p) {
      ThreeInts(1, p.bufferIndex, p.bufferPos, s, q);
    } else {
      ThreeInts(0, 0, 0, s, q);
    }
  }

  /** Where an image stands, it begins with the number of slots and the number of elements in them, and it ends with the
      pointer behind the last slot, the left sibling and the right sibling. */
  lemma ImageStands(c: Content, s: Bytes, p: nat)
    requires ContentFits(c) && At(s, p, Image(c))
    ensures FromSigned(s[p..p + 4]) == |c.elements| && FromSigned(s[p + 4..p + 8]) == c.size
    ensures var end := p + |Image(c)|;
            PointerStands(s, end - 36, c.pointers[|c.elements|]) && PointerStands(s, end - 24, c.left) &&
            PointerStands(s, end - 12, c.right)
  {
    var q := p + 8 + |Slots(c, |c.elements|)|;
    ImageAt(c, s, p);
    NumberAt(|c.elements|, 4, s, p);
    NumberAt(c.size, 4, s, p + 4);
    EndsAt(c.pointers[|c.elements|], c.left, c.right, s, q);
    PointerBytesStand(c.pointers[|c.elements|], s, q);
    PointerBytesStand(c.left, s, q + 12);
    PointerBytesStand(c.right, s, q + 24);
  }

  lemma {:induction false} ImagesOfKept(ps: seq<Pointer>)
    ensures PointerImages(KeptAll(ps)) == PointerImages(ps)
  {
    if ps != [] {
      ImagesOfKept(ps[1..]);
      assert KeptAll(ps)[1..] == KeptAll(ps[1..]);
      assert PointerBytes(Kept(ps[0])) == PointerBytes(ps[0]);
    }
  }

  lemma ImageOfRestored(c: Content)
    requires |c.pointers| == |c.elements| + 1
    ensures Image(Restored(c)) == Image(c)
  {
    ImagesOfKept(c.pointers);
  }

  /** Two pages have the same image exactly when they are restored to the same page: the size, every element and
      every pointer to a page that is in a buffer is told by the image, and nothing else is. */
  lemma ImageTellsRestored(a: Content, b: Content)
    requires ContentFits(a) && ContentFits(b)
    ensures Image(a) == Image(b) <==> Restored(a) == Restored(b)
  {
    if Restored(a) == Restored(b) {
      ImageOfRestored(a);
      ImageOfRestored(b);
    }
    if Image(a) == Image(b) {
      SameImage(a, b, Image(a), 0);
    }
  }

  lemma SameImage(a: Content, b: Content, s: Bytes, p: nat)
    requires ContentFits(a) && ContentFits(b) && At(s, p, Image(a)) && At(s, p, Image(b))
    ensures Restored(a) == Restored(b)
  {
    SameHeads(a, b, s, p);
    ImageAt(a, s, p);
    ImageAt(b, s, p);
    SameParts(a, b, s, p + 8);
  }

  lemma SameHeads(a: Content, b: Content, s: Bytes, p: nat)
    requires ContentFits(a) && ContentFits(b) && At(s, p, Image(a)) && At(s, p, Image(b))
    ensures |a.elements| == |b.elements| && a.size == b.size
  {
    ImageAt(a, s, p);
    ImageAt(b, s, p);
    SameInt(|a.elements|, |b.elements|, s, p);
    SameInt(a.size, b.size, s, p + 4);
  }

  lemma SameParts(a: Content, b: Content, s: Bytes, p: nat)
    requires ContentFits(a) && ContentFits(b) && |a.elements| == |b.elements| && a.size == b.size
    requires At(s, p, Slots(a, |a.elements|)) && At(s, p, Slots(b, |b.elements|))
    requires At(s, p + |Slots(a, |a.elements|)|, Ends(a.pointers[|a.elements|], a.left, a.right))
    requires At(s, p + |Slots(b, |b.elements|)|, Ends(b.pointers[|b.elements|], b.left, b.right))
    ensures Restored(a) == Restored(b)
  {
    SameImages(a, b, s, p);
    SameEnds(a, b, s, p + |Slots(a, |a.elements|)|);
    SameKept(a.pointers, b.pointers, |a.elements|);
  }

  lemma OneMore<T>(xs: seq<T>, ys: seq<T>, n: nat)
    requires n < |xs| == |ys| && xs[..n] == ys[..n]
    ensures xs[n := ys[n]][..n + 1] == ys[..n + 1]
  {
    assert ys[..n + 1] == ys[..n] + [ys[n]];
  }

  lemma LastToo<T>(xs: seq<T>, ys: seq<T>, n: nat)
    requires |xs| == |ys| == n + 1 && xs[..n] == ys[..n] && xs[n] == ys[n]
    ensures xs == ys
  {
    assert xs == xs[..n] + [xs[n]] && ys == ys[..n] + [ys[n]];
  }

  lemma SameKept(ps: seq<Pointer>, qs: seq<Pointer>, n: nat)
    requires |ps| == |qs| == n + 1 && KeptAll(ps)[..n] == KeptAll(qs)[..n] && Kept(ps[n]) == Kept(qs[n])
    ensures KeptAll(ps) == KeptAll(qs)
  {
    LastToo(KeptAll(ps), KeptAll(qs), n);
  }

  lemma SameImages(a: Content, b: Content, s: Bytes, p: nat)
    requires ContentFits(a) && ContentFits(b) && |a.elements| == |b.elements|
    requires At(s, p, Slots(a, |a.elements|)) && At(s, p, Slots(b, |b.elements|))
    ensures |Slots(a, |a.elements|)| == |Slots(b, |b.elements|)| && a.elements == b.elements
    ensures KeptAll(a.pointers)[..|a.elements|] == KeptAll(b.pointers)[..|b.elements|]
  {
    var n := |a.elements|;
    var es, fs := ElementImages(a.elements), ElementImages(b.elements);
    ElementsFraming(a.elements, b.elements, s);
    PointersFraming(a.pointers, b.pointers, s);
    SameSlots(es, PointerImages(a.pointers), fs, PointerImages(b.pointers), n, s, p);
    assert es[..n] == es && fs[..n] == fs;
    ImagesTellElements(a.elements, b.elements);
    ImagesTellPointers(a.pointers, b.pointers, n);
  }

  lemma SameEnds(a: Content, b: Content, s: Bytes, q: nat)
    requires ContentFits(a) && ContentFits(b) && |a.elements| == |b.elements|
    requires At(s, q, Ends(a.pointers[|a.elements|], a.left, a.right))
    requires At(s, q, Ends(b.pointers[|b.elements|], b.left, b.right))
    ensures Kept(a.pointers[|a.elements|]) == Kept(b.pointers[|b.elements|])
    ensures Kept(a.left) == Kept(b.left) && Kept(a.right) == Kept(b.right)
  {
    var n := |a.elements|;
    EndsAt(a.pointers[n], a.left, a.right, s, q);
    EndsAt(b.pointers[n], b.left, b.right, s, q);
    SamePointer(a.pointers[n], b.pointers[n], s, q);
    SamePointer(a.left, b.left, s, q + 12);
    SamePointer(a.right, b.right, s, q + 24);
  }

  // ---- Writing and loading ---------------------------------------------------------------------------

  /** `persistIndexElement`. */
  method PersistIndexElement(stream: ByteStream, index: Element)
    requires stream.pos <= |stream.data| && ElementFits(index)
    modifies stream
    ensures Written(old(stream.data), old(stream.pos), stream, ElementBytes(index))
  {
    if index.Element? {
      WriteRaw(stream, 1, index.key, index.documentId, index.posData, index.indexPos);
    } else {
      WriteRaw(stream, 0, Doc([]), [], 0, 0);
    }
  }

  method WriteRaw(stream: ByteStream, flag: int, key: Doc, documentId: Id, posData: int, indexPos: int)
    requires stream.pos <= |stream.data| && Loaded(key) == key
    modifies stream
    ensures Written(old(stream.data), old(stream.pos), stream, RawElement(flag, key, documentId, posData, indexPos))
  {
    ghost var data, pos := stream.data, stream.pos;
    WriteFlagAndKey(stream, flag, key);
    WritePlace(stream, documentId, posData, indexPos);
    OverwriteTwice(data, pos, Int(flag) + Encode(key), Chars(documentId) + Long(posData) + Long(indexPos));
    Regrouped(Int(flag) + Encode(key), Chars(documentId), Long(posData), Long(indexPos));
  }

  lemma Regrouped(head: Bytes, x: Bytes, y: Bytes, z: Bytes)
    ensures head + (x + y + z) == head + x + y + z
  {
  }

  method WriteFlagAndKey(stream: ByteStream, flag: int, key: Doc)
    requires stream.pos <= |stream.data| && Loaded(key) == key
    modifies stream
    ensures Written(old(stream.data), old(stream.pos), stream, Int(flag) + Encode(key))
  {
    stream.WriteInt(flag);
    WriteBSON(stream, key);
    OverwriteTwice(old(stream.data), old(stream.pos), Int(flag), Encode(key));
  }

  method WritePlace(stream: ByteStream, documentId: Id, posData: int, indexPos: int)
    requires stream.pos <= |stream.data|
    modifies stream
    ensures Written(old(stream.data), old(stream.pos), stream, Chars(documentId) + Long(posData) + Long(indexPos))
  {
    ghost var data, pos := stream.data, stream.pos;
    stream.WriteChars(documentId);
    stream.WriteLong(posData);
    OverwriteTwice(data, pos, Chars(documentId), Long(posData));
    stream.WriteLong(indexPos);
    OverwriteTwice(data, pos, Chars(documentId) + Long(posData), Long(indexPos));
  }

  /** `retrieveIndexElement`. */
  method RetrieveIndexElement(stream: ByteStream, ghost e: Element) returns (index: Element)
    requires ElementFits(e) && At(stream.data, stream.pos, ElementBytes(e))
    modifies stream`pos
    ensures index == e && stream.pos == old(stream.pos) + |ElementBytes(e)|
  {
    var i, read := ReadRaw(stream, Flag(e.Element?), Shown(e));
    index := if i == 1 then read else NoElement;
  }

  method ReadRaw(stream: ByteStream, ghost flag: int, ghost e: Element) returns (i: int, read: Element)
    requires Fits(flag, 4) && e.Element? && ElementFits(e)
    requires At(stream.data, stream.pos, RawElement(flag, e.key, e.documentId, e.posData, e.indexPos))
    modifies stream`pos
    ensures i == flag && read == e
    ensures stream.pos == old(stream.pos) + |RawElement(flag, e.key, e.documentId, e.posData, e.indexPos)|
  {
    RawAt(flag, e.key, e.documentId, e.posData, e.indexPos, stream.data, stream.pos);
    i := stream.ReadInt(flag);
    var key := ReadBSON(stream, ALL, e.key);
    SelectAll(e.key.fs);
    var documentId := stream.ReadChars(e.documentId);
    var posData := stream.ReadLong(e.posData);
    var indexPos := stream.ReadLong(e.indexPos);
    read := Element(key, documentId, posData, indexPos);
  }

  /** `persistPointer`. */
  method PersistPointer(stream: ByteStream, pointer: Pointer)
    requires stream.pos <= |stream.data|
    modifies stream
    ensures Written(old(stream.data), old(stream.pos), stream, PointerBytes(pointer))
  {
    if pointer.PageAt? && pointer.bufferIndex > -1 {
      WriteThree(stream, 1, pointer.bufferIndex, pointer.bufferPos);
    } else {
      WriteThree(stream, 0, 0, 0);
    }
  }

  method WriteThree(stream: ByteStream, i: int, j: int, k: int)
    requires stream.pos <= |stream.data|
    modifies stream
    ensures Written(old(stream.data), old(stream.pos), stream, Int(i) + Int(j) + Int(k))
  {
    ghost var data, pos := stream.data, stream.pos;
    stream.WriteInt(i);
    stream.WriteInt(j);
    OverwriteTwice(data, pos, Int(i), Int(j));
    stream.WriteInt(k);
    OverwriteTwice(data, pos, Int(i) + Int(j), Int(k));
  }

  /** `retrievePointer`: a page that was in no buffer is not pointed to any more. */
  method RetrievePointer(stream: ByteStream, ghost p: Pointer) returns (pointer: Pointer)
    requires PointerFits(p) && At(stream.data, stream.pos, PointerBytes(p))
    modifies stream`pos
    ensures pointer == Kept(p) && stream.pos == old(stream.pos) + 12
  {
    ghost var x := if Kept(p).PageAt? then (1, p.bufferIndex, p.bufferPos) else (0, 0, 0);
    ThreeAt(x.0, x.1, x.2, stream.data, stream.pos);
    var flag := stream.ReadInt(x.0);
    var bufferIndex := stream.ReadInt(x.1);
    var bufferPos := stream.ReadInt(x.2);
    pointer := if flag == 1 then PageAt(bufferIndex, bufferPos) else NoPage;
  }

  lemma BehindDone(head: Bytes, done: Bytes, x: Bytes, y: Bytes)
    ensures head + done + x + y == head + (done + (x + y)) == head + (done + x + y)
  {
  }

  lemma WrittenLast(data: Bytes, x: Bytes)
    ensures Overwrite(data, |data|, x) == data + x
  {
  }

  method AppendElement(stream: ByteStream, index: Element)
    requires stream.pos == |stream.data| && ElementFits(index)
    modifies stream
    ensures stream.data == old(stream.data) + ElementBytes(index) && stream.pos == |stream.data|
  {
    WrittenLast(stream.data, ElementBytes(index));
    PersistIndexElement(stream, index);
  }

  method AppendPointer(stream: ByteStream, pointer: Pointer)
    requires stream.pos == |stream.data|
    modifies stream
    ensures stream.data == old(stream.data) + PointerBytes(pointer) && stream.pos == |stream.data|
  {
    WrittenLast(stream.data, PointerBytes(pointer));
    PersistPointer(stream, pointer);
  }

  method AppendEnds(stream: ByteStream, last: Pointer, left: Pointer, right: Pointer)
    requires stream.pos == |stream.data|
    modifies stream
    ensures stream.data == old(stream.data) + Ends(last, left, right) && stream.pos == |stream.data|
  {
    AppendPointer(stream, last);
    AppendPointer(stream, left);
    AppendPointer(stream, right);
    BehindDone(old(stream.data), PointerBytes(last), PointerBytes(left), PointerBytes(right));
  }

  method RetrieveEnds(stream: ByteStream, ghost last: Pointer, ghost left: Pointer, ghost right: Pointer)
    returns (last': Pointer, left': Pointer, right': Pointer)
    requires PointerFits(last) && PointerFits(left) && PointerFits(right)
    requires At(stream.data, stream.pos, Ends(last, left, right))
    modifies stream`pos
    ensures last' == Kept(last) && left' == Kept(left) && right' == Kept(right)
  {
    EndsAt(last, left, right, stream.data, stream.pos);
    last' := RetrievePointer(stream, last);
    left' := RetrievePointer(stream, left);
    right' := RetrievePointer(stream, right);
  }

  method RetrieveSlot(stream: ByteStream, ghost es: seq<Element>, ghost ps: seq<Pointer>, ghost n: nat)
    returns (index: Element, pointer: Pointer)
    requires n < |es| <= |ps| && ElementsFit(es) && PointersFit(ps)
    requires At(stream.data, stream.pos, ElementImages(es)[n])
    requires At(stream.data, stream.pos + |ElementImages(es)[n]|, PointerImages(ps)[n])
    modifies stream`pos
    ensures index == es[n] && pointer == Kept(ps[n])
    ensures stream.pos == old(stream.pos) + |ElementImages(es)[n]| + |PointerImages(ps)[n]|
  {
    ElementImageAt(es, n);
    PointerImageAt(ps, n);
    index := RetrieveIndexElement(stream, es[n]);
    pointer := RetrievePointer(stream, ps[n]);
  }

  /** `IndexPage`, with what its image holds. */
  class StoredPage {
    var size: int
    const elements: array<Element>
    const pointers: array<Pointer>
    var leftSibling: Pointer
    var rightSibling: Pointer

    ghost predicate Valid()
      reads this
    {
      pointers.Length == elements.Length + 1
    }

    ghost function Contents(): (c: Content)
      requires Valid()
      reads this, elements, pointers
      ensures |c.pointers| == |c.elements| + 1 == elements.Length + 1
    {
      Content(size, elements[..], pointers[..], leftSibling, rightSibling)
    }

    constructor (bucketMaxElements: nat)
      ensures Valid() && fresh(elements) && fresh(pointers) && elements.Length == bucketMaxElements
      ensures size == 0 && leftSibling == NoPage && rightSibling == NoPage
      ensures (forall i :: 0 <= i < elements.Length ==> elements[i] == NoElement)
      ensures (forall i :: 0 <= i < pointers.Length ==> pointers[i] == NoPage)
    {
      elements := new Element[bucketMaxElements](_ => NoElement);
      pointers := new Pointer[bucketMaxElements + 1](_ => NoPage);
      size, leftSibling, rightSibling := 0, NoPage, NoPage;
    }

    /** The image, first made in a stream of its own. */
    method WriteImage() returns (helperStream: ByteStream)
      requires Valid() && ContentFits(Contents())
      ensures fresh(helperStream) && helperStream.data == Image(Contents())
    {
      helperStream := new ByteStream();
      helperStream.WriteInt(elements.Length);
      helperStream.WriteInt(size);
      WriteSlots(helperStream, Int(elements.Length) + Int(size));
      AppendEnds(helperStream, pointers[elements.Length], leftSibling, rightSibling);
    }

    method WriteSlots(helperStream: ByteStream, ghost head: Bytes)
      requires Valid() && ContentFits(Contents())
      requires helperStream.data == head && helperStream.pos == |head|
      modifies helperStream
      ensures helperStream.data == head + Slots(Contents(), elements.Length)
      ensures helperStream.pos == |helperStream.data|
    {
      ghost var c := Contents();
      assert head + [] == head;
      for x := 0 to elements.Length
        invariant helperStream.data == head + Slots(c, x)
        invariant helperStream.pos == |helperStream.data|
      {
        ElementImageAt(c.elements, x);
        PointerImageAt(c.pointers, x);
        AppendElement(helperStream, elements[x]);
        AppendPointer(helperStream, pointers[x]);
        BehindDone(head, Slots(c, x), ElementImages(c.elements)[x], PointerImages(c.pointers)[x]);
      }
    }

    /** `persistPage` from where the buffer was sought to: the length, and the image behind its length. */
    method PersistPage(buffer: ByteStream)
      requires Valid() && ContentFits(Contents()) && buffer.pos <= |buffer.data|
      modifies buffer
      ensures Written(old(buffer.data), old(buffer.pos), buffer, Framed(Contents()))
      ensures At(buffer.data, old(buffer.pos), Framed(Contents()))
    {
      var helperStream := WriteImage();
      buffer.WriteInt(|helperStream.data|);
      buffer.WriteInt(|helperStream.data|);
      ghost var n := Int(|helperStream.data|);
      OverwriteTwice(old(buffer.data), old(buffer.pos), n, n);
      buffer.Write(helperStream.data);
      OverwriteTwice(old(buffer.data), old(buffer.pos), n + n, helperStream.data);
    }

    /** `loadPage`: where a page was persisted, this page becomes that one again. */
    method LoadPage(buffer: ByteStream, ghost c: Content)
      requires Valid() && ContentFits(c) && |c.elements| == elements.Length
      requires At(buffer.data, buffer.pos, Framed(c)) && Fits(|Image(c)|, 4)
      modifies this, elements, pointers, buffer`pos
      ensures Valid() && Contents() == Restored(c) && PointersLoaded(Contents(), c)
      ensures Contents().size == c.size && Contents().elements == c.elements
      ensures buffer.pos == old(buffer.pos) + |Framed(c)|
    {
      ghost var n := |Image(c)|;
      AtSplit(buffer.data, buffer.pos, Int(n) + Int(n), Image(c));
      AtSplit(buffer.data, buffer.pos, Int(n), Int(n));
      var bsize := buffer.ReadInt(n);
      var length := buffer.ReadInt(n);
      var data := buffer.Read(length);
      var helperStream := new ByteStream();
      helperStream.Write(data[..bsize]);
      helperStream.Seek(0);
      LoadImage(helperStream, c);
      RestoredPointers(c);
    }

    method LoadImage(helperStream: ByteStream, ghost c: Content)
      requires Valid() && ContentFits(c) && |c.elements| == elements.Length
      requires At(helperStream.data, helperStream.pos, Image(c))
      modifies this, elements, pointers, helperStream`pos
      ensures Valid() && Contents() == Restored(c)
    {
      LoadSize(helperStream, c);
      LoadSlots(helperStream, c.elements, c.pointers);
      LoadEnds(helperStream, c);
    }

    /** The number of slots is not needed; then comes the size. */
    method LoadSize(helperStream: ByteStream, ghost c: Content)
      requires Valid() && ContentFits(c) && |c.elements| == elements.Length
      requires At(helperStream.data, helperStream.pos, Image(c))
      modifies this`size, helperStream`pos
      ensures size == c.size && helperStream.pos == old(helperStream.pos) + 8
      ensures var p := helperStream.pos;
              At(helperStream.data, p, Slots(c, |c.elements|)) &&
              At(helperStream.data, p + |Slots(c, |c.elements|)|, Ends(c.pointers[|c.elements|], c.left, c.right))
    {
      ImageAt(c, helperStream.data, helperStream.pos);
      var _ := helperStream.ReadInt(|c.elements|);
      var n := helperStream.ReadInt(c.size);
      size := n;
    }

    method LoadEnds(helperStream: ByteStream, ghost c: Content)
      requires Valid() && ContentFits(c) && |c.elements| == elements.Length
      requires At(helperStream.data, helperStream.pos, Ends(c.pointers[|c.elements|], c.left, c.right))
      requires size == c.size && elements[..] == c.elements
      requires pointers[..|c.elements|] == KeptAll(c.pointers)[..|c.elements|]
      modifies this`leftSibling, this`rightSibling, pointers, helperStream`pos
      ensures Contents() == Restored(c)
    {
      var last, left, right := RetrieveEnds(helperStream, c.pointers[|c.elements|], c.left, c.right);
      SetEnds(last, left, right);
      LastToo(pointers[..], KeptAll(c.pointers), elements.Length);
    }

    method SetEnds(last: Pointer, left: Pointer, right: Pointer)
      requires Valid()
      modifies this`leftSibling, this`rightSibling, pointers
      ensures Contents() == old(Contents()).(pointers := old(pointers[..])[elements.Length := last], left := left,
              right := right)
    {
      pointers[elements.Length] := last;
      leftSibling, rightSibling := left, right;
    }

    method LoadSlots(helperStream: ByteStream, ghost es: seq<Element>, ghost ps: seq<Pointer>)
      requires Valid() && |es| == elements.Length == |ps| - 1 && ElementsFit(es) && PointersFit(ps)
      requires At(helperStream.data, helperStream.pos, SlotsBytes(ElementImages(es), PointerImages(ps), |es|))
      modifies elements, pointers, helperStream`pos
      ensures elements[..] == es && pointers[..|es|] == KeptAll(ps)[..|es|]
      ensures helperStream.pos == old(helperStream.pos) + |SlotsBytes(ElementImages(es), PointerImages(ps), |es|)|
    {
      ghost var p, xs, ys := helperStream.pos, ElementImages(es), PointerImages(ps);
      for x := 0 to elements.Length
        invariant helperStream.pos == p + |SlotsBytes(xs, ys, x)|
        invariant elements[..x] == es[..x] && pointers[..x] == KeptAll(ps)[..x]
      {
        LoadSlot(helperStream, es, ps, x, p);
      }
      assert elements[..elements.Length] == elements[..] && es[..|es|] == es;
    }

    method LoadSlot(helperStream: ByteStream, ghost es: seq<Element>, ghost ps: seq<Pointer>, x: nat, ghost p: nat)
      requires Valid() && x < |es| == elements.Length == |ps| - 1 && ElementsFit(es) && PointersFit(ps)
      requires elements[..x] == es[..x] && pointers[..x] == KeptAll(ps)[..x]
      requires At(helperStream.data, p, SlotsBytes(ElementImages(es), PointerImages(ps), |es|))
      requires helperStream.pos == p + |SlotsBytes(ElementImages(es), PointerImages(ps), x)|
      modifies elements, pointers, helperStream`pos
      ensures elements[..x + 1] == es[..x + 1] && pointers[..x + 1] == KeptAll(ps)[..x + 1]
      ensures helperStream.pos == p + |SlotsBytes(ElementImages(es), PointerImages(ps), x + 1)|
    {
      SlotOfAllAt(ElementImages(es), PointerImages(ps), x, helperStream.data, p);
      var index, pointer := RetrieveSlot(helperStream, es, ps, x);
      ghost var before, beforePointers := elements[..], pointers[..];
      elements[x] := index;
      pointers[x] := pointer;
      assert elements[..] == before[x := es[x]] && pointers[..] == beforePointers[x := KeptAll(ps)[x]];
      OneMore(before, es, x);
      OneMore(beforePointers, KeptAll(ps), x);
    }
  }
}
