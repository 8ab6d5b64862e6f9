/** Documents as values, and the bytes the store writes them as.

    An in-memory document is a sequence of fields in the order of a `std::map`: by key, byte by byte. The tags
    PTRCHAR_TYPE and LONG64_TYPE are still read, but no longer written; `OldString` and `OldLong` stand for them. */
module Documents {
  import opened Ids
  import opened ByteStreams

  datatype Value =
    | BoolV(b: bool)
    | IntV(i: int)
    | LongV(l: int)
    | DoubleV(bits: Bytes)
    | StringV(s: Id)
    | OldString(s: Id)
    | OldLong(l: int)
    | DocV(d: Doc)
    | ArrayV(ds: seq<Doc>)

  datatype Field = Field(key: Id, value: Value)

  datatype Doc = Doc(fs: seq<Field>)

  // ---- The wire format -------------------------------------------------------------------------------

  const INT_TYPE := 0
  const DOUBLE_TYPE := 1
  const LONG_TYPE := 2
  const PTRCHAR_TYPE := 3
  const STRING_TYPE := 4
  const BSON_TYPE := 5
  const BSONARRAY_TYPE := 6
  const LONG64_TYPE := 9
  const BOOL_TYPE := 10

  function Tag(v: Value): int {
    match v
    case BoolV(_) => BOOL_TYPE
    case IntV(_) => INT_TYPE
    case LongV(_) => LONG_TYPE
    case DoubleV(_) => DOUBLE_TYPE
    case StringV(_) => STRING_TYPE
    case OldString(_) => PTRCHAR_TYPE
    case OldLong(_) => LONG64_TYPE
    case DocV(_) => BSON_TYPE
    case ArrayV(_) => BSONARRAY_TYPE
  }

  function Payload(v: Value): Bytes
    decreases v
  {
    match v
    case BoolV(b) => [if b then 1 else 0]
    case IntV(i) => Int(i)
    case LongV(l) => Long(l)
    case DoubleV(bits) => bits
    case StringV(s) => Chars(s)
    case OldString(s) => Chars(s)
    case OldLong(l) => Long(l)
    case DocV(d) => Encode(d)
    case ArrayV(ds) => EncodeArray(ds)
  }

  function FieldBytes(f: Field): Bytes
    decreases f
  {
    Chars(f.key) + Long(Tag(f.value)) + Payload(f.value)
  }

  function FieldsBytes(fs: seq<Field>): Bytes
    decreases fs, 0
  {
    if fs == [] then [] else FieldBytes(fs[0]) + FieldsBytes(fs[1..])
  }

  /** A document: the number of its fields, and every field with its key, its type and its value. */
  function Encode(d: Doc): Bytes
    decreases d, 1
  {
    Long(|d.fs|) + FieldsBytes(d.fs)
  }

  function DocsBytes(ds: seq<Doc>): Bytes
    decreases ds, 2
  {
    if ds == [] then [] else Encode(ds[0]) + DocsBytes(ds[1..])
  }

  function EncodeArray(ds: seq<Doc>): Bytes
    decreases ds, 3
  {
    Long(|ds|) + DocsBytes(ds)
  }

  // ---- What the widths of the wire format hold -------------------------------------------------------

  predicate ValueFits(v: Value)
    decreases v
  {
    match v
    case BoolV(_) => true
    case IntV(i) => Fits(i, 4)
    case LongV(l) => Fits(l, 8)
    case DoubleV(bits) => |bits| == 8
    case StringV(s) => Fits(|s|, 4)
    case OldString(s) => Fits(|s|, 4)
    case OldLong(l) => Fits(l, 8)
    case DocV(d) => DocFits(d)
    case ArrayV(ds) => Fits(|ds|, 4) && forall i :: 0 <= i < |ds| ==> DocFits(ds[i])
  }

  predicate DocFits(d: Doc)
    decreases d
  {
    Fits(|d.fs|, 4) && forall i :: 0 <= i < |d.fs| ==> FieldFits(d.fs[i])
  }

  predicate FieldFits(f: Field)
    decreases f
  {
    Fits(|f.key|, 4) && ValueFits(f.value)
  }

  // ---- Where a field's bytes stand -------------------------------------------------------------------

  /** The number of a type, and it is small. */
  lemma TagNumber(v: Value)
    ensures Tag(v) == match v
                      case IntV(_) => 0
                      case DoubleV(_) => 1
                      case LongV(_) => 2
                      case OldString(_) => 3
                      case StringV(_) => 4
                      case DocV(_) => 5
                      case ArrayV(_) => 6
                      case OldLong(_) => 9
                      case BoolV(_) => 10
    ensures 0 <= Tag(v) < 128 && FromSigned(Long(Tag(v))) == Tag(v)
  {
    SignedReads(Tag(v), 8);
  }

  lemma CharsAt(t: Id, s: Bytes, p: nat)
    requires Fits(|t|, 4) && At(s, p, Chars(t))
    ensures p + 4 + |t| <= |s| && FromSigned(s[p..p + 4]) == |t| && s[p + 4..p + 4 + |t|] == t
  {
    AtSplit(s, p, Int(|t|), t);
    SignedReads(|t|, 4);
  }

  lemma NumberAt(i: int, width: nat, s: Bytes, p: nat)
    requires Fits(i, width) && At(s, p, Signed(i, width))
    ensures p + width <= |s| && FromSigned(s[p..p + width]) == i
  {
    SignedReads(i, width);
  }

  /** The value of a type without parts stands at q. */
  predicate Stands(s: Bytes, q: nat, v: Value) {
    match v
    case BoolV(b) => q < |s| && s[q] == if b then 1 else 0
    case IntV(i) => q + 4 <= |s| && FromSigned(s[q..q + 4]) == i
    case LongV(l) => q + 8 <= |s| && FromSigned(s[q..q + 8]) == l
    case OldLong(l) => q + 8 <= |s| && FromSigned(s[q..q + 8]) == l
    case DoubleV(bits) => q + 8 <= |s| && s[q..q + 8] == bits
    case StringV(t) => q + 4 + |t| <= |s| && FromSigned(s[q..q + 4]) == |t| && s[q + 4..q + 4 + |t|] == t
    case OldString(t) => q + 4 + |t| <= |s| && FromSigned(s[q..q + 4]) == |t| && s[q + 4..q + 4 + |t|] == t
    case DocV(d) => q + 8 <= |s| && FromSigned(s[q..q + 8]) == |d.fs| && At(s, q + 8, FieldsBytes(d.fs))
    case ArrayV(ds) => q + 8 <= |s| && FromSigned(s[q..q + 8]) == |ds| && At(s, q + 8, DocsBytes(ds))
  }

  lemma FitsWider(n: nat)
    requires Fits(n, 4)
    ensures Fits(n, 8)
  {
    assert Base(4) == 256 * Base(3) && Base(5) == 256 * Base(4) && Base(6) == 256 * Base(5);
    assert Base(7) == 256 * Base(6) && Base(8) == 256 * Base(7);
  }

  lemma CountAt(n: nat, rest: Bytes, s: Bytes, q: nat)
    requires Fits(n, 4) && At(s, q, Long(n) + rest)
    ensures q + 8 <= |s| && FromSigned(s[q..q + 8]) == n && At(s, q + 8, rest)
  {
    AtSplit(s, q, Long(n), rest);
    FitsWider(n);
    NumberAt(n, 8, s, q);
  }

  lemma DocAt(d: Doc, s: Bytes, q: nat)
    requires DocFits(d) && At(s, q, Encode(d))
    ensures q + 8 <= |s| && FromSigned(s[q..q + 8]) == |d.fs| && At(s, q + 8, FieldsBytes(d.fs))
  {
    CountAt(|d.fs|, FieldsBytes(d.fs), s, q);
  }

  lemma ArrayAt(ds: seq<Doc>, s: Bytes, q: nat)
    requires Fits(|ds|, 4) && At(s, q, EncodeArray(ds))
    ensures q + 8 <= |s| && FromSigned(s[q..q + 8]) == |ds| && At(s, q + 8, DocsBytes(ds))
  {
    CountAt(|ds|, DocsBytes(ds), s, q);
  }

  lemma PayloadStands(v: Value, s: Bytes, q: nat)
    requires ValueFits(v) && At(s, q, Payload(v))
    ensures Stands(s, q, v)
  {
    match v
    case BoolV(b) => assert s[q..q + 1][0] == s[q];
    case IntV(i) => NumberAt(i, 4, s, q);
    case LongV(l) => NumberAt(l, 8, s, q);
    case OldLong(l) => NumberAt(l, 8, s, q);
    case DoubleV(_) =>
    case StringV(t) => CharsAt(t, s, q);
    case OldString(t) => CharsAt(t, s, q);
    case DocV(d) => DocAt(d, s, q);
    case ArrayV(ds) => ArrayAt(ds, s, q);
  }

  lemma KeyStands(f: Field, s: Bytes, p: nat)
    requires FieldFits(f) && At(s, p, FieldBytes(f))
    ensures var q := p + 4 + |f.key|;
            q <= |s| && FromSigned(s[p..p + 4]) == |f.key| && s[p + 4..q] == f.key &&
            At(s, q, Long(Tag(f.value))) && At(s, q + 8, Payload(f.value))
  {
    FieldAt(f, s, p);
    CharsAt(f.key, s, p);
  }

  /** A field in a stream: the length of its key on four bytes, the key, the number of its type on eight bytes, and
      the value. */
  lemma FieldStands(f: Field, s: Bytes, p: nat)
    requires FieldFits(f) && At(s, p, FieldBytes(f))
    ensures var q := p + 4 + |f.key|;
            q + 8 <= |s| && FromSigned(s[p..p + 4]) == |f.key| && s[p + 4..q] == f.key &&
            FromSigned(s[q..q + 8]) == Tag(f.value) && Stands(s, q + 8, f.value)
  {
    KeyStands(f, s, p);
    TagNumber(f.value);
    PayloadStands(f.value, s, p + 4 + |f.key| + 8);
  }

  // ---- Framing ---------------------------------------------------------------------------------------

  lemma {:induction false} SameValue(v: Value, w: Value, s: Bytes, p: nat)
    requires ValueFits(v) && ValueFits(w) && Tag(v) == Tag(w) && At(s, p, Payload(v)) && At(s, p, Payload(w))
    ensures v == w
    decreases v
  {
    match v
    case BoolV(_) =>
    case IntV(i) => SignedReads(i, 4); SignedReads(w.i, 4);
    case LongV(l) => SignedReads(l, 8); SignedReads(w.l, 8);
    case DoubleV(_) =>
    case StringV(a) => SameChars(a, w.s, s, p);
    case OldString(a) => SameChars(a, w.s, s, p);
    case OldLong(l) => SignedReads(l, 8); SignedReads(w.l, 8);
    case DocV(d) => SameDoc(d, w.d, s, p);
    case ArrayV(ds) => SameArray(ds, w.ds, s, p);
  }

  lemma SameLong(i: int, j: int, s: Bytes, p: nat)
    requires Fits(i, 8) && Fits(j, 8) && At(s, p, Long(i)) && At(s, p, Long(j))
    ensures i == j
  {
    SignedReads(i, 8);
    SignedReads(j, 8);
  }

  lemma SameChars(a: Id, c: Id, s: Bytes, p: nat)
    requires Fits(|a|, 4) && Fits(|c|, 4) && At(s, p, Chars(a)) && At(s, p, Chars(c))
    ensures a == c
  {
    AtSplit(s, p, Int(|a|), a);
    AtSplit(s, p, Int(|c|), c);
    SignedReads(|a|, 4);
    SignedReads(|c|, 4);
  }

  lemma {:induction false} SameFields(fs: seq<Field>, gs: seq<Field>, s: Bytes, p: nat)
    requires |fs| == |gs| && (forall i :: 0 <= i < |fs| ==> FieldFits(fs[i]) && FieldFits(gs[i]))
    requires At(s, p, FieldsBytes(fs)) && At(s, p, FieldsBytes(gs))
    ensures fs == gs
    decreases fs, 0
  {
    if fs != [] {
      AtSplit(s, p, FieldBytes(fs[0]), FieldsBytes(fs[1..]));
      AtSplit(s, p, FieldBytes(gs[0]), FieldsBytes(gs[1..]));
      SameField(fs[0], gs[0], s, p);
      SameFields(fs[1..], gs[1..], s, p + |FieldBytes(fs[0])|);
      assert fs == [fs[0]] + fs[1..] && gs == [gs[0]] + gs[1..];
    }
  }

  lemma FieldAt(f: Field, s: Bytes, p: nat)
    ensures At(s, p, FieldBytes(f)) <==>
            At(s, p, Chars(f.key)) && At(s, p + |Chars(f.key)|, Long(Tag(f.value))) &&
            At(s, p + |Chars(f.key)| + 8, Payload(f.value))
  {
    AtSplit(s, p, Chars(f.key) + Long(Tag(f.value)), Payload(f.value));
    AtSplit(s, p, Chars(f.key), Long(Tag(f.value)));
  }

  lemma {:induction false} SameField(f: Field, g: Field, s: Bytes, p: nat)
    requires FieldFits(f) && FieldFits(g)
    requires At(s, p, FieldBytes(f)) && At(s, p, FieldBytes(g))
    ensures f == g
    decreases f
  {
    FieldAt(f, s, p);
    FieldAt(g, s, p);
    SameChars(f.key, g.key, s, p);
    SameTag(f.value, g.value, s, p + |Chars(f.key)|);
    SameValue(f.value, g.value, s, p + |Chars(f.key)| + 8);
  }

  lemma SameTag(v: Value, w: Value, s: Bytes, q: nat)
    requires At(s, q, Long(Tag(v))) && At(s, q, Long(Tag(w)))
    ensures Tag(v) == Tag(w)
  {
    TagNumber(v);
    TagNumber(w);
    SameLengthSame(s, q, Long(Tag(v)), Long(Tag(w)));
  }

  /** No two documents can be read at one place of a stream: the encoding is injective and frames itself. */
  lemma {:induction false} SameDoc(d: Doc, e: Doc, s: Bytes, p: nat)
    requires DocFits(d) && DocFits(e) && At(s, p, Encode(d)) && At(s, p, Encode(e))
    ensures d == e
    decreases d, 1
  {
    AtSplit(s, p, Long(|d.fs|), FieldsBytes(d.fs));
    AtSplit(s, p, Long(|e.fs|), FieldsBytes(e.fs));
    SameLong(|d.fs|, |e.fs|, s, p);
    SameFields(d.fs, e.fs, s, p + 8);
  }

  lemma {:induction false} SameDocs(ds: seq<Doc>, es: seq<Doc>, s: Bytes, p: nat)
    requires |ds| == |es| && (forall i :: 0 <= i < |ds| ==> DocFits(ds[i]) && DocFits(es[i]))
    requires At(s, p, DocsBytes(ds)) && At(s, p, DocsBytes(es))
    ensures ds == es
    decreases ds, 2
  {
    if ds != [] {
      AtSplit(s, p, Encode(ds[0]), DocsBytes(ds[1..]));
      AtSplit(s, p, Encode(es[0]), DocsBytes(es[1..]));
      SameDoc(ds[0], es[0], s, p);
      SameDocs(ds[1..], es[1..], s, p + |Encode(ds[0])|);
      assert ds == [ds[0]] + ds[1..] && es == [es[0]] + es[1..];
    }
  }

  lemma {:induction false} SameArray(ds: seq<Doc>, es: seq<Doc>, s: Bytes, p: nat)
    requires ValueFits(ArrayV(ds)) && ValueFits(ArrayV(es)) && At(s, p, EncodeArray(ds)) && At(s, p, EncodeArray(es))
    ensures ds == es
    decreases ds, 3
  {
    AtSplit(s, p, Long(|ds|), DocsBytes(ds));
    AtSplit(s, p, Long(|es|), DocsBytes(es));
    SameLong(|ds|, |es|, s, p);
    SameDocs(ds, es, s, p + 8);
  }

  // ---- In memory -------------------------------------------------------------------------------------

  /** The order of `std::string`: byte by byte, a prefix first. */
  predicate KeyLess(a: Id, b: Id) {
    b != [] && (a == [] || a[0] < b[0] || (a[0] == b[0] && KeyLess(a[1..], b[1..])))
  }

  lemma {:induction false} KeyOrder(a: Id, b: Id)
    ensures KeyLess(a, b) || a == b || KeyLess(b, a)
    ensures !(KeyLess(a, b) && KeyLess(b, a)) && !KeyLess(a, a)
  {
    if a != [] && b != [] {
      KeyOrder(a[1..], b[1..]);
      KeyOrder(a[1..], a[1..]);
      assert a == [a[0]] + a[1..] && b == [b[0]] + b[1..];
    } else if a != [] {
      KeyOrder(a[1..], a[1..]);
    }
  }

  /** One key stands before another if it is a part of its beginning, or if it has the smaller byte where they first
      differ. */
  lemma {:induction false} KeyLessMeans(a: Id, b: Id, n: nat)
    requires n <= |a| && n <= |b| && a[..n] == b[..n]
    ensures n == |a| < |b| ==> KeyLess(a, b) && !KeyLess(b, a)
    ensures n < |a| && n < |b| && a[n] < b[n] ==> KeyLess(a, b) && !KeyLess(b, a)
  {
    if n > 0 {
      assert a[0] == a[..n][0] == b[..n][0] == b[0];
      assert a[1..][..n - 1] == a[..n][1..] == b[..n][1..] == b[1..][..n - 1];
      KeyLessMeans(a[1..], b[1..], n - 1);
    }
  }

  lemma {:induction false} KeyLessTransitive(a: Id, b: Id, c: Id)
    requires KeyLess(a, b) && KeyLess(b, c)
    ensures KeyLess(a, c)
  {
    if a != [] && a[0] == b[0] == c[0] {
      KeyLessTransitive(a[1..], b[1..], c[1..]);
    }
  }

  /** The fields stand in the order of their keys, in every document inside as well. */
  predicate Ordered(d: Doc)
    decreases d
  {
    (forall i, j :: 0 <= i < j < |d.fs| ==> KeyLess(d.fs[i].key, d.fs[j].key)) &&
    forall i :: 0 <= i < |d.fs| ==> ValueOrdered(d.fs[i].value)
  }

  predicate ValueOrdered(v: Value)
    decreases v
  {
    match v
    case DocV(d) => Ordered(d)
    case ArrayV(ds) => forall i :: 0 <= i < |ds| ==> Ordered(ds[i])
    case _ => true
  }

  /** What a value that was read is in memory. */
  function LoadedValue(v: Value): Value
    decreases v
  {
    match v
    case OldString(s) => StringV(s)
    case OldLong(l) => LongV(l)
    case DocV(d) => DocV(Loaded(d))
    case ArrayV(ds) => ArrayV(LoadedDocs(ds))
    case _ => v
  }

  function Loaded(d: Doc): Doc
    decreases d
  {
    Doc(LoadedFields(d.fs))
  }

  function LoadedFields(fs: seq<Field>): (r: seq<Field>)
    ensures |r| == |fs| && forall i :: 0 <= i < |r| ==> r[i].key == fs[i].key
    decreases fs
  {
    if fs == [] then [] else [Field(fs[0].key, LoadedValue(fs[0].value))] + LoadedFields(fs[1..])
  }

  function LoadedDocs(ds: seq<Doc>): (r: seq<Doc>)
    ensures |r| == |ds|
    decreases ds
  {
    if ds == [] then [] else [Loaded(ds[0])] + LoadedDocs(ds[1..])
  }

  /** A document as the program holds it: in order, and without the old kinds of values. */
  predicate InMemory(d: Doc) {
    Ordered(d) && Loaded(d) == d
  }

  /** `find` in the map of fields. */
  function Get(fs: seq<Field>, key: Id): (i: nat)
    ensures i <= |fs| && (i < |fs| ==> fs[i].key == key) && forall j :: 0 <= j < i ==> fs[j].key != key
  {
    if fs == [] || fs[0].key == key then 0 else 1 + Get(fs[1..], key)
  }

  lemma {:induction false} GetUnique(fs: seq<Field>, key: Id, i: nat)
    requires i <= |fs| && (i < |fs| ==> fs[i].key == key) && forall j :: 0 <= j < i ==> fs[j].key != key
    ensures Get(fs, key) == i
  {
    if i > 0 {
      GetUnique(fs[1..], key, i - 1);
    }
  }

  /** `add`: the field at its place in the order, instead of the one with that key if there is one. */
  function Put(fs: seq<Field>, f: Field): (r: seq<Field>)
  {
    if fs == [] || KeyLess(f.key, fs[0].key) then [f] + fs
    else if fs[0].key == f.key then [f] + fs[1..]
    else [fs[0]] + Put(fs[1..], f)
  }

  predicate KeysAscend(fs: seq<Field>) {
    forall i, j :: 0 <= i < j < |fs| ==> KeyLess(fs[i].key, fs[j].key)
  }

  /** `add` keeps the keys in order and changes what is found under its key only. */
  lemma {:induction false} PutIsMapUpdate(fs: seq<Field>, f: Field)
    requires KeysAscend(fs)
    ensures KeysAscend(Put(fs, f))
    ensures forall g :: g in Put(fs, f) <==> g == f || (g in fs && g.key != f.key)
    ensures |Put(fs, f)| == |fs| + if Get(fs, f.key) < |fs| then 0 else 1
  {
    KeyOrder(f.key, f.key);
    if fs == [] {
    } else if KeyLess(f.key, fs[0].key) {
      Before(fs, f);
    } else if fs[0].key == f.key {
      NotAgain(fs);
    } else {
      PutIsMapUpdate(fs[1..], f);
      KeyOrder(f.key, fs[0].key);
      PutBehind(fs, f);
    }
  }

  lemma Before(fs: seq<Field>, f: Field)
    requires fs != [] && KeysAscend(fs) && KeyLess(f.key, fs[0].key)
    ensures KeysAscend([f] + fs) && forall g :: g in fs ==> g.key != f.key
    ensures Get(fs, f.key) == |fs|
  {
    forall i | 0 <= i < |fs| ensures KeyLess(f.key, fs[i].key) && fs[i].key != f.key {
      if i > 0 {
        KeyLessTransitive(f.key, fs[0].key, fs[i].key);
      }
      KeyOrder(f.key, f.key);
    }
  }

  lemma NotAgain(fs: seq<Field>)
    requires fs != [] && KeysAscend(fs)
    ensures forall g :: g in fs[1..] ==> g.key != fs[0].key
  {
    forall i | 1 <= i < |fs| ensures fs[i].key != fs[0].key {
      assert KeyLess(fs[0].key, fs[i].key);
      KeyOrder(fs[0].key, fs[0].key);
    }
  }

  lemma PutBehind(fs: seq<Field>, f: Field)
    requires fs != [] && KeysAscend(fs) && KeyLess(fs[0].key, f.key) && KeysAscend(Put(fs[1..], f))
    requires forall g :: g in Put(fs[1..], f) <==> g == f || (g in fs[1..] && g.key != f.key)
    ensures KeysAscend([fs[0]] + Put(fs[1..], f)) && fs[0].key != f.key
  {
    KeyOrder(f.key, f.key);
    var r := Put(fs[1..], f);
    forall i | 0 <= i < |r| ensures KeyLess(fs[0].key, r[i].key) {
      assert r[i] in r;
    }
  }

  lemma {:induction false} PutLast(fs: seq<Field>, f: Field)
    requires forall i :: 0 <= i < |fs| ==> KeyLess(fs[i].key, f.key)
    ensures Put(fs, f) == fs + [f]
  {
    if fs != [] {
      KeyOrder(fs[0].key, f.key);
      PutLast(fs[1..], f);
    }
  }
}
