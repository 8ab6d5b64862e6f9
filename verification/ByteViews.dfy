/** The byte view: positions of keys and values in a buffer that holds an encoded document, and reading by them. */
module ByteViews {
  import opened Ids
  import opened ByteStreams
  import opened Documents
  import opened Selections
  import opened Paths

  /** A field: where its key and its value stand. Documents and arrays inside have views of their own. */
  datatype Item = Item(key: nat, keySize: nat, tag: int, value: Slot)

  datatype Slot = Pos(p: nat) | Inner(obj: View) | InnerArray(arr: ArrayView)

  datatype View = View(items: seq<Item>, bufferLength: nat)

  datatype ArrayView = ArrayView(elements: seq<View>, bufferLength: nat)

  /** The view shows document w. */
  ghost predicate Shows(buffer: Bytes, v: View, w: Doc)
    decreases w, 1
  {
    v.bufferLength == |Encode(w)| && ItemsShow(buffer, v.items, w.fs)
  }

  ghost predicate ItemsShow(buffer: Bytes, items: seq<Item>, fs: seq<Field>)
    decreases fs, 0
  {
    |items| == |fs| && forall i :: 0 <= i < |fs| ==> ItemShows(buffer, items[i], fs[i])
  }

  ghost predicate ItemShows(buffer: Bytes, item: Item, f: Field)
    decreases f
  {
    At(buffer, item.key, f.key) && item.keySize == |f.key| && item.tag == Tag(f.value) &&
      SlotShows(buffer, item.value, f.value)
  }

  ghost predicate SlotShows(buffer: Bytes, slot: Slot, v: Value)
    decreases v
  {
    match v
    case DocV(d) => slot.Inner? && Shows(buffer, slot.obj, d)
    case ArrayV(ds) => slot.InnerArray? && ArrayShows(buffer, slot.arr, ds)
    case _ => slot.Pos? && At(buffer, slot.p, Payload(v))
  }

  ghost predicate ArrayShows(buffer: Bytes, a: ArrayView, ds: seq<Doc>)
    decreases ds, 1
  {
    a.bufferLength == |EncodeArray(ds)| && |a.elements| == |ds| &&
    forall i :: 0 <= i < |ds| ==> Shows(buffer, a.elements[i], ds[i])
  }

  // ---- Building --------------------------------------------------------------------------------------

  method ReadInt32(buffer: Bytes, p: nat, ghost i: int) returns (r: int)
    requires Fits(i, 4) && At(buffer, p, Int(i))
    ensures r == i
  {
    SignedReads(i, 4);
    r := FromSigned(buffer[p..p + 4]);
  }

  method ReadInt64(buffer: Bytes, p: nat, ghost i: int) returns (r: int)
    requires Fits(i, 8) && At(buffer, p, Long(i))
    ensures r == i
  {
    SignedReads(i, 8);
    r := FromSigned(buffer[p..p + 8]);
  }

  /** `BSONBufferedObj::initialize`: the view of the document that stands at `start`. Its length is the document's. */
  method Initialize(buffer: Bytes, start: nat, ghost w: Doc) returns (v: View)
    requires DocFits(w) && At(buffer, start, Encode(w))
    ensures Shows(buffer, v, w)
    decreases w, 2
  {
    AtSplit(buffer, start, Long(|w.fs|), FieldsBytes(w.fs));
    var elements := ReadInt64(buffer, start, |w.fs|);
    var items, length := InitializeItems(buffer, start + 8, elements, w.fs);
    v := View(items, 8 + length);
  }

  method InitializeItems(buffer: Bytes, start: nat, elements: int, ghost fs: seq<Field>)
    returns (items: seq<Item>, length: nat)
    requires elements == |fs| && At(buffer, start, FieldsBytes(fs)) && forall i :: 0 <= i < |fs| ==> FieldFits(fs[i])
    ensures ItemsShow(buffer, items, fs) && length == |FieldsBytes(fs)|
    decreases fs
  {
    items, length := [], 0;
    assert fs[0..] == fs;
    for x := 0 to elements
      invariant |items| == x && forall i :: 0 <= i < x ==> ItemShows(buffer, items[i], fs[i])
      invariant At(buffer, start + length, FieldsBytes(fs[x..])) && length + |FieldsBytes(fs[x..])| == |FieldsBytes(fs)|
    {
      assert fs[x..][1..] == fs[x + 1..];
      AtSplit(buffer, start + length, FieldBytes(fs[x]), FieldsBytes(fs[x + 1..]));
      var item, size := InitializeItem(buffer, start + length, fs[x]);
      items := items + [item];
      length := length + size;
    }
  }

  method InitializeItem(buffer: Bytes, start: nat, ghost f: Field) returns (item: Item, size: nat)
    requires FieldFits(f) && At(buffer, start, FieldBytes(f))
    ensures ItemShows(buffer, item, f) && size == |FieldBytes(f)|
    decreases f
  {
    FieldAt(f, buffer, start);
    AtSplit(buffer, start, Int(|f.key|), f.key);
    var keySize := ReadInt32(buffer, start, |f.key|);
    var current := start + 4 + keySize;
    var tag := ReadInt64(buffer, current, Tag(f.value));
    current := current + 8;
    var slot, length := InitializeValue(buffer, current, tag, f.value);
    item := Item(start + 4, keySize, tag, slot);
    size := 4 + keySize + 8 + length;
  }

  method InitializeValue(buffer: Bytes, current: nat, tag: int, ghost v: Value) returns (slot: Slot, length: nat)
    requires ValueFits(v) && tag == Tag(v) && At(buffer, current, Payload(v))
    ensures SlotShows(buffer, slot, v) && length == |Payload(v)|
    decreases v
  {
    slot := Pos(current);
    if tag == BOOL_TYPE {
      length := 1;
    } else if tag == INT_TYPE {
      length := 4;
    } else if tag == LONG_TYPE || tag == LONG64_TYPE {
      length := 8;
    } else if tag == DOUBLE_TYPE {
      length := 8;
    } else if tag == PTRCHAR_TYPE || tag == STRING_TYPE {
      AtSplit(buffer, current, Int(|v.s|), v.s);
      var len := ReadInt32(buffer, current, |v.s|);
      length := 4 + len;
    } else if tag == BSON_TYPE {
      var inner := Initialize(buffer, current, v.d);
      length := inner.bufferLength;
      slot := Inner(inner);
    } else {
      var innerArray := InitializeArray(buffer, current, v.ds);
      length := innerArray.bufferLength;
      slot := InnerArray(innerArray);
    }
  }

  /** `BSONBufferedArrayObj::initialize`. */
  method InitializeArray(buffer: Bytes, start: nat, ghost ds: seq<Doc>) returns (a: ArrayView)
    requires ValueFits(ArrayV(ds)) && At(buffer, start, EncodeArray(ds))
    ensures ArrayShows(buffer, a, ds)
    decreases ds, 1
  {
    AtSplit(buffer, start, Long(|ds|), DocsBytes(ds));
    var count := ReadInt64(buffer, start, |ds|);
    var elements, length := InitializeDocs(buffer, start + 8, count, ds);
    a := ArrayView(elements, 8 + length);
  }

  method InitializeDocs(buffer: Bytes, start: nat, count: int, ghost ds: seq<Doc>)
    returns (elements: seq<View>, length: nat)
    requires count == |ds| && At(buffer, start, DocsBytes(ds)) && forall i :: 0 <= i < |ds| ==> DocFits(ds[i])
    ensures |elements| == |ds| && forall i :: 0 <= i < |ds| ==> Shows(buffer, elements[i], ds[i])
    ensures length == |DocsBytes(ds)|
    decreases ds, 0
  {
    elements, length := [], 0;
    assert ds[0..] == ds;
    for x := 0 to count
      invariant |elements| == x && forall i :: 0 <= i < x ==> Shows(buffer, elements[i], ds[i])
      invariant At(buffer, start + length, DocsBytes(ds[x..])) && length + |DocsBytes(ds[x..])| == |DocsBytes(ds)|
    {
      assert ds[x..][1..] == ds[x + 1..];
      AtSplit(buffer, start + length, Encode(ds[x]), DocsBytes(ds[x + 1..]));
      var obj := Initialize(buffer, start + length, ds[x]);
      elements := elements + [obj];
      length := length + obj.bufferLength;
    }
  }

  // ---- Reading ---------------------------------------------------------------------------------------

  /** `getValue`: the item with exactly the key, or the number of items. */
  method GetValue(buffer: Bytes, v: View, key: Id, ghost w: Doc) returns (i: nat)
    requires Shows(buffer, v, w)
    ensures i == Get(w.fs, key)
  {
    i := 0;
    while i < |v.items|
      invariant i <= |w.fs| && forall j :: 0 <= j < i ==> w.fs[j].key != key
    {
      var item := v.items[i];
      assert ItemShows(buffer, item, w.fs[i]);
      if |key| == item.keySize && buffer[item.key..item.key + item.keySize] == key {
        break;
      }
      i := i + 1;
    }
    GetUnique(w.fs, key, i);
  }

  /** `getType`: the type of the first item whose key is a prefix of the key; None stands for the exception. */
  method GetType(buffer: Bytes, v: View, key: Id, ghost w: Doc) returns (found: bool, tag: int)
    requires Shows(buffer, v, w)
    ensures found <==> FirstPrefix(w.fs, key) < |w.fs|
    ensures found ==> tag == var t := Tag(w.fs[FirstPrefix(w.fs, key)].value);
            if t == STRING_TYPE then PTRCHAR_TYPE else t
  {
    var i := 0;
    found, tag := false, 0;
    while i < |v.items|
      invariant i <= |w.fs| && !found && forall j :: 0 <= j < i ==> !(w.fs[j].key <= key)
    {
      var item := v.items[i];
      assert ItemShows(buffer, item, w.fs[i]);
      if buffer[item.key..item.key + item.keySize] <= key {
        found := true;
        tag := item.tag;
        if tag == STRING_TYPE {
          tag := PTRCHAR_TYPE;
        }
        break;
      }
      i := i + 1;
    }
    FirstPrefixUnique(w.fs, key, i);
  }

  lemma {:induction false} FirstPrefixUnique(fs: seq<Field>, key: Id, i: nat)
    requires i <= |fs| && (i < |fs| ==> fs[i].key <= key) && forall j :: 0 <= j < i ==> !(fs[j].key <= key)
    ensures FirstPrefix(fs, key) == i
  {
    if i > 0 {
      FirstPrefixUnique(fs[1..], key, i - 1);
    }
  }

  /** What `getContent` hands out: a type, and where the value is. */
  datatype BufferedContent = NullContent | BufferedContent(element: Slot, tag: int)

  /** `getContent`. */
  method GetContent(buffer: Bytes, v: View, key: Id, ghost w: Doc) returns (c: BufferedContent)
    requires Shows(buffer, v, w)
    ensures c.NullContent? <==> Get(w.fs, key) == |w.fs|
    ensures c.BufferedContent? ==> SlotShows(buffer, c.element, w.fs[Get(w.fs, key)].value)
    ensures c.BufferedContent? ==>
              (Kind(c.tag) == Kind(Tag(w.fs[Get(w.fs, key)].value)) <==> TypeRight(w, key)) && c.tag != STRING_TYPE
  {
    var i := GetValue(buffer, v, key, w);
    if i == |v.items| {
      return NullContent;
    }
    assert w.fs[i].key <= key;
    assert ItemShows(buffer, v.items[i], w.fs[i]);
    var found, tag := GetType(buffer, v, key, w);
    return BufferedContent(v.items[i].value, tag);
  }

  /** `getXpath`. Going on where the type says document and the bytes do not is left undefined by the source. */
  method GetXpath(buffer: Bytes, v: View, xpath: Id, ghost w: Doc) returns (c: BufferedContent)
    requires Shows(buffer, v, w) && DocFits(w)
    ensures Reads(buffer, c, ViewXpath(w, xpath))
    decreases w
  {
    var posDot := Span(xpath, {DOT});
    var path, rest := xpath[..posDot], if posDot < |xpath| then xpath[posDot + 1..] else [];
    c := GetContent(buffer, v, path, w);
    ghost var i := Get(w.fs, path);
    if c.BufferedContent? && c.tag == BSON_TYPE && |xpath| > 0 {
      if c.element.Inner? {
        assert FieldFits(w.fs[i]) && ValueFits(w.fs[i].value) && w.fs[i].value.DocV?;
        c := GetXpath(buffer, c.element.obj, rest, w.fs[i].value.d);
      }
    }
  }

  /** The content stands for what was found. */
  ghost predicate Reads(buffer: Bytes, c: BufferedContent, f: Found) {
    match f
    case Nothing => c.NullContent?
    case Holds(v) =>
      c.BufferedContent? && exists u: Value ::
        LoadedValue(u) == v && SlotShows(buffer, c.element, u) && ValueFits(u) && Kind(c.tag) == Kind(Tag(u))
    case Garbled =>
      c.BufferedContent? && exists u: Value :: SlotShows(buffer, c.element, u) && Kind(c.tag) != Kind(Tag(u))
  }

  /** What was read, unless it was read as another type. */
  datatype Selection<T> = Misread | Taken(v: T)

  /** The bytes at a place, read as a type. */
  method ReadAs(buffer: Bytes, p: nat, tag: int, ghost u: Value) returns (r: Selection<Value>)
    requires !u.DocV? && !u.ArrayV? ==> At(buffer, p, Payload(u))
    ensures !u.DocV? && !u.ArrayV? && ValueFits(u) && Kind(tag) == Kind(Tag(u)) ==> r == Taken(LoadedValue(u))
  {
    r := Misread;
    if tag == BOOL_TYPE && p + 1 <= |buffer| {
      r := Taken(BoolV(buffer[p..p + 1][0] != 0));
    } else if tag == INT_TYPE && p + 4 <= |buffer| {
      if u.IntV? && ValueFits(u) {
        SignedReads(u.i, 4);
      }
      r := Taken(IntV(FromSigned(buffer[p..p + 4])));
    } else if (tag == LONG_TYPE || tag == LONG64_TYPE) && p + 8 <= |buffer| {
      if (u.LongV? || u.OldLong?) && ValueFits(u) {
        SignedReads(u.l, 8);
      }
      r := Taken(LongV(FromSigned(buffer[p..p + 8])));
    } else if tag == DOUBLE_TYPE && p + 8 <= |buffer| {
      r := Taken(DoubleV(buffer[p..p + 8]));
    } else if (tag == PTRCHAR_TYPE || tag == STRING_TYPE) && p + 4 <= |buffer| {
      r := ReadString(buffer, p, u);
    }
  }

  method ReadString(buffer: Bytes, p: nat, ghost u: Value) returns (r: Selection<Value>)
    requires p + 4 <= |buffer|
    requires u.StringV? || u.OldString? ==> At(buffer, p, Chars(u.s))
    ensures (u.StringV? || u.OldString?) && ValueFits(u) ==> r == Taken(StringV(u.s))
  {
    if (u.StringV? || u.OldString?) && ValueFits(u) {
      AtSplit(buffer, p, Int(|u.s|), u.s);
      SignedReads(|u.s|, 4);
    }
    var len := FromSigned(buffer[p..p + 4]);
    r := Misread;
    if 0 <= len && p + 4 + len <= |buffer| {
      var s := buffer[p + 4..p + 4 + len];
      if 0 !in s {
        r := Taken(StringV(s));
      }
    }
  }
}
