/** Writing documents to a stream and reading them back, with the projection pushed into the reader. */
module BsonStreams {
  import opened Ids
  import opened ByteStreams
  import opened Documents
  import opened Selections
  import opened SelectStrings

  // ---- Writing ---------------------------------------------------------------------------------------

  /** The type a value has in memory: strings are PTRCHAR_TYPE there. */
  function MemoryType(v: Value): int {
    if v.StringV? then PTRCHAR_TYPE else Tag(v)
  }

  lemma {:induction false} FieldsBytesSnoc(fs: seq<Field>, f: Field)
    ensures FieldsBytes(fs + [f]) == FieldsBytes(fs) + FieldBytes(f)
  {
    if fs == [] {
      assert fs + [f] == [f] && [f][1..] == [];
    } else {
      assert (fs + [f])[1..] == fs[1..] + [f];
      FieldsBytesSnoc(fs[1..], f);
    }
  }

  lemma {:induction false} DocsBytesSnoc(ds: seq<Doc>, d: Doc)
    ensures DocsBytes(ds + [d]) == DocsBytes(ds) + Encode(d)
  {
    if ds == [] {
      assert ds + [d] == [d] && [d][1..] == [];
    } else {
      assert (ds + [d])[1..] == ds[1..] + [d];
      DocsBytesSnoc(ds[1..], d);
    }
  }

  lemma {:induction false} LoadedFieldAt(fs: seq<Field>, i: nat)
    requires i < |fs|
    ensures LoadedFields(fs)[i].value == LoadedValue(fs[i].value)
  {
    if i > 0 {
      LoadedFieldAt(fs[1..], i - 1);
    }
  }

  lemma {:induction false} LoadedDocAt(ds: seq<Doc>, i: nat)
    requires i < |ds|
    ensures LoadedDocs(ds)[i] == Loaded(ds[i])
  {
    if i > 0 {
      LoadedDocAt(ds[1..], i - 1);
    }
  }

  /** What was written before, and x behind it. */
  ghost predicate Written(data: Bytes, pos: nat, out: ByteStream, x: Bytes)
    reads out
  {
    pos <= |data| && out.data == Overwrite(data, pos, x) && out.pos == pos + |x| <= |out.data|
  }

  lemma NextWritten(head: Bytes, fs: seq<Field>, x: nat)
    requires x < |fs|
    ensures head + FieldsBytes(fs[..x + 1]) == head + FieldsBytes(fs[..x]) + FieldBytes(fs[x])
  {
    FieldsBytesSnoc(fs[..x], fs[x]);
    assert fs[..x + 1] == fs[..x] + [fs[x]];
    assert head + (FieldsBytes(fs[..x]) + FieldBytes(fs[x])) == head + FieldsBytes(fs[..x]) + FieldBytes(fs[x]);
  }

  /** `writeBSON`. */
  method WriteBSON(out: ByteStream, bson: Doc)
    requires out.pos <= |out.data| && Loaded(bson) == bson
    modifies out
    ensures Written(old(out.data), old(out.pos), out, Encode(bson))
    decreases bson, 2
  {
    ghost var data, pos := out.data, out.pos;
    out.WriteLong(|bson.fs|);
    for x := 0 to |bson.fs|
      invariant Written(data, pos, out, Long(|bson.fs|) + FieldsBytes(bson.fs[..x]))
    {
      LoadedFieldAt(bson.fs, x);
      WriteField(out, bson.fs[x]);
      NextWritten(Long(|bson.fs|), bson.fs, x);
      OverwriteTwice(data, pos, Long(|bson.fs|) + FieldsBytes(bson.fs[..x]), FieldBytes(bson.fs[x]));
    }
    assert bson.fs[..|bson.fs|] == bson.fs;
  }

  method WriteField(out: ByteStream, f: Field)
    requires out.pos <= |out.data| && LoadedValue(f.value) == f.value
    modifies out
    ensures Written(old(out.data), old(out.pos), out, FieldBytes(f))
    decreases f
  {
    WriteHead(out, f.key, MemoryType(f.value));
    WriteValue(out, f.value);
    OverwriteTwice(old(out.data), old(out.pos), Chars(f.key) + Long(Tag(f.value)), Payload(f.value));
  }

  /** The key and the type; a PTRCHAR_TYPE is written as a STRING_TYPE. */
  method WriteHead(out: ByteStream, key: Id, tag: int)
    requires out.pos <= |out.data|
    modifies out
    ensures Written(old(out.data), old(out.pos), out, Chars(key) +
            Long(if tag == PTRCHAR_TYPE then STRING_TYPE else tag))
  {
    out.WriteChars(key);
    out.WriteLong(if tag != PTRCHAR_TYPE then tag else STRING_TYPE);
    OverwriteTwice(old(out.data), old(out.pos), Chars(key), Long(if tag == PTRCHAR_TYPE then STRING_TYPE else tag));
  }

  method WriteValue(out: ByteStream, v: Value)
    requires out.pos <= |out.data| && LoadedValue(v) == v
    modifies out
    ensures Written(old(out.data), old(out.pos), out, Payload(v))
    decreases v
  {
    match v
    case DocV(d) => WriteBSON(out, d);
    case BoolV(b) => out.Write([if b then 1 else 0]);
    case IntV(i) => out.WriteInt(i);
    case LongV(l) => out.WriteLong(l);
    case DoubleV(bits) => out.Write(bits);
    case StringV(s) => out.WriteChars(s);
    case ArrayV(ds) => WriteBSONArray(out, ds);
  }

  /** `writeBSONArray`. */
  method WriteBSONArray(out: ByteStream, ds: seq<Doc>)
    requires out.pos <= |out.data| && LoadedDocs(ds) == ds
    modifies out
    ensures Written(old(out.data), old(out.pos), out, EncodeArray(ds))
    decreases ds
  {
    ghost var data, pos := out.data, out.pos;
    out.WriteLong(|ds|);
    for x := 0 to |ds|
      invariant Written(data, pos, out, Long(|ds|) + DocsBytes(ds[..x]))
    {
      LoadedDocAt(ds, x);
      WriteBSON(out, ds[x]);
      OverwriteTwice(data, pos, Long(|ds|) + DocsBytes(ds[..x]), Encode(ds[x]));
      DocsBytesSnoc(ds[..x], ds[x]);
      assert ds[..x + 1] == ds[..x] + [ds[x]];
      assert Long(|ds|) + DocsBytes(ds[..x]) + Encode(ds[x]) == Long(|ds|) + (DocsBytes(ds[..x]) + Encode(ds[x]));
    }
    assert ds[..|ds|] == ds;
  }

  // ---- Reading ---------------------------------------------------------------------------------------

  /** The fields that were taken over stand before the next one. */
  lemma TakenBefore(fs: seq<Field>, x: nat, sel: Id)
    requires KeysAscend(fs) && x < |fs|
    ensures forall i :: 0 <= i < |SelectFields(LoadedFields(fs[..x]), sel)| ==>
              KeyLess(SelectFields(LoadedFields(fs[..x]), sel)[i].key, fs[x].key)
  {
    var ls := LoadedFields(fs[..x]);
    var r := SelectFields(ls, sel);
    SelectKeys(ls, sel);
    forall i | 0 <= i < |r| ensures KeyLess(r[i].key, fs[x].key) {
      assert r[i] in r;
      var f :| f in ls && f.key == r[i].key;
      var j :| 0 <= j < |ls| && ls[j] == f;
      assert fs[..x][j].key == f.key;
    }
  }

  lemma {:induction false} LoadedFieldsSnoc(fs: seq<Field>, f: Field)
    ensures LoadedFields(fs + [f]) == LoadedFields(fs) + [Field(f.key, LoadedValue(f.value))]
  {
    if fs == [] {
      assert fs + [f] == [f] && [f][1..] == [];
    } else {
      assert (fs + [f])[1..] == fs[1..] + [f];
      LoadedFieldsSnoc(fs[1..], f);
    }
  }

  lemma {:induction false} LoadedDocsSnoc(ds: seq<Doc>, d: Doc)
    ensures LoadedDocs(ds + [d]) == LoadedDocs(ds) + [Loaded(d)]
  {
    if ds == [] {
      assert ds + [d] == [d] && [d][1..] == [];
    } else {
      assert (ds + [d])[1..] == ds[1..] + [d];
      LoadedDocsSnoc(ds[1..], d);
    }
  }

  /** One field more: what is read and what it adds. */
  lemma NextField(fs: seq<Field>, x: nat, sel: Id, data: Bytes, p: nat)
    requires x < |fs| && At(data, p, FieldsBytes(fs[x..]))
    ensures At(data, p, FieldBytes(fs[x])) && At(data, p + |FieldBytes(fs[x])|, FieldsBytes(fs[x + 1..]))
    ensures |FieldsBytes(fs[x..])| == |FieldBytes(fs[x])| + |FieldsBytes(fs[x + 1..])|
    ensures SelectFields(LoadedFields(fs[..x + 1]), sel) ==
            SelectFields(LoadedFields(fs[..x]), sel) + Selected(Field(fs[x].key, LoadedValue(fs[x].value)), sel)
  {
    assert fs[x..][1..] == fs[x + 1..];
    AtSplit(data, p, FieldBytes(fs[x]), FieldsBytes(fs[x + 1..]));
    assert fs[..x + 1] == fs[..x] + [fs[x]];
    LoadedFieldsSnoc(fs[..x], fs[x]);
    SelectFieldsSnoc(LoadedFields(fs[..x]), Field(fs[x].key, LoadedValue(fs[x].value)), sel);
  }

  /** `readBSON(select)`: where a document w was written, its projection is read, and the stream is left behind
      all of w whatever was skipped. */
  method ReadBSON(input: ByteStream, sel: Id, ghost w: Doc) returns (obj: Doc)
    requires DocFits(w) && Ordered(w) && At(input.data, input.pos, Encode(w))
    modifies input`pos
    ensures obj == Select(Loaded(w), sel)
    ensures input.pos == old(input.pos) + |Encode(w)|
    decreases w, 3
  {
    var selectAll := sel == ALL;
    var columns: set<Id> := {};
    if !selectAll {
      columns := BsonSplitSelect(sel);
    }
    AtSplit(input.data, input.pos, Long(|w.fs|), FieldsBytes(w.fs));
    var elements := input.ReadLong(|w.fs|);
    var fields := ReadFields(input, sel, columns, elements, w.fs);
    obj := Doc(fields);
  }

  method ReadFields(input: ByteStream, sel: Id, columns: set<Id>, elements: int, ghost fs: seq<Field>)
    returns (fields: seq<Field>)
    requires elements == |fs| && At(input.data, input.pos, FieldsBytes(fs)) && KeysAscend(fs)
    requires forall i :: 0 <= i < |fs| ==> FieldFits(fs[i]) && ValueOrdered(fs[i].value)
    requires sel != ALL ==> columns == Columns(sel)
    modifies input`pos
    ensures fields == SelectFields(LoadedFields(fs), sel)
    ensures input.pos == old(input.pos) + |FieldsBytes(fs)|
    decreases fs, 1
  {
    fields := [];
    assert fs[0..] == fs;
    for x := 0 to elements
      invariant At(input.data, input.pos, FieldsBytes(fs[x..]))
      invariant input.pos + |FieldsBytes(fs[x..])| == old(input.pos) + |FieldsBytes(fs)|
      invariant fields == SelectFields(LoadedFields(fs[..x]), sel)
    {
      fields := ReadNextField(input, sel, columns, fields, fs, x);
    }
    assert fs[..|fs|] == fs;
  }

  method ReadNextField(input: ByteStream, sel: Id, columns: set<Id>, fields: seq<Field>, ghost fs: seq<Field>,
                       ghost x: nat)
    returns (fields': seq<Field>)
    requires x < |fs| && At(input.data, input.pos, FieldsBytes(fs[x..])) && KeysAscend(fs)
    requires FieldFits(fs[x]) && ValueOrdered(fs[x].value)
    requires sel != ALL ==> columns == Columns(sel)
    requires fields == SelectFields(LoadedFields(fs[..x]), sel)
    modifies input`pos
    ensures fields' == SelectFields(LoadedFields(fs[..x + 1]), sel)
    ensures At(input.data, input.pos, FieldsBytes(fs[x + 1..]))
    ensures input.pos + |FieldsBytes(fs[x + 1..])| == old(input.pos) + |FieldsBytes(fs[x..])|
    decreases fs, 0
  {
    NextField(fs, x, sel, input.data, input.pos);
    TakenBefore(fs, x, sel);
    fields' := ReadField(input, sel, columns, fields, fs[x]);
  }

  method ReadField(input: ByteStream, sel: Id, columns: set<Id>, fields: seq<Field>, ghost f: Field)
    returns (fields': seq<Field>)
    requires FieldFits(f) && ValueOrdered(f.value) && At(input.data, input.pos, FieldBytes(f))
    requires sel != ALL ==> columns == Columns(sel)
    requires forall i :: 0 <= i < |fields| ==> KeyLess(fields[i].key, f.key)
    modifies input`pos
    ensures fields' == fields + Selected(Field(f.key, LoadedValue(f.value)), sel)
    ensures input.pos == old(input.pos) + |FieldBytes(f)|
    decreases f
  {
    FieldAt(f, input.data, input.pos);
    var key := input.ReadChars(f.key);
    var tag := input.ReadLong(Tag(f.value));
    var included := sel == ALL || key in columns;
    var value := ReadValue(input, sel, key, tag, included, f.value);
    if included {
      PutLast(fields, Field(key, value));
      fields' := Put(fields, Field(key, value));
    } else {
      fields' := fields;
    }
  }

  /** The value of a field: read where it is wanted, skipped where it is not. Documents and arrays inside are
      read in any case, and dropped. */
  method ReadValue(input: ByteStream, sel: Id, key: Id, tag: int, included: bool, ghost v: Value) returns (value: Value)
    requires ValueFits(v) && ValueOrdered(v) && tag == Tag(v) && At(input.data, input.pos, Payload(v))
    modifies input`pos
    ensures included ==> value == SelectValue(LoadedValue(v), key, sel)
    ensures input.pos == old(input.pos) + |Payload(v)|
    decreases v
  {
    value := BoolV(false);
    if tag == BSON_TYPE {
      var sub := SubSelection(sel, key);
      var inner := ReadBSON(input, sub, v.d);
      SelectInner(LoadedValue(v), key, sel);
      value := DocV(inner);
    } else if tag == BSONARRAY_TYPE {
      var sub := SubSelection(sel, key);
      var array_ := ReadBSONInnerArray(input, sub, v.ds);
      SelectInner(LoadedValue(v), key, sel);
      value := ArrayV(array_);
    } else {
      value := ReadScalar(input, tag, included, v);
    }
  }

  method ReadScalar(input: ByteStream, tag: int, included: bool, ghost v: Value) returns (value: Value)
    requires ValueFits(v) && tag == Tag(v) && At(input.data, input.pos, Payload(v)) && !v.DocV? && !v.ArrayV?
    modifies input`pos
    ensures included ==> value == LoadedValue(v)
    ensures input.pos == old(input.pos) + |Payload(v)|
  {
    value := BoolV(false);
    if tag == BOOL_TYPE {
      if included {
        var x := input.Read(1);
        assert x == Payload(v);
        value := BoolV(x[0] != 0);
      } else {
        input.Seek(input.pos + 1);
      }
    } else if tag == INT_TYPE {
      if included {
        var i := input.ReadInt(v.i);
        value := IntV(i);
      } else {
        input.Seek(input.pos + 4);
      }
    } else if tag == LONG_TYPE {
      if included {
        var l := input.ReadLong(v.l);
        value := LongV(l);
      } else {
        input.Seek(input.pos + 8);
      }
    } else if tag == LONG64_TYPE {
      if included {
        var l := input.ReadLong(v.l);
        value := LongV(l);
      } else {
        input.Seek(input.pos + 8);
      }
    } else if tag == DOUBLE_TYPE {
      if included {
        var bits := input.Read(8);
        assert bits == Payload(v);
        value := DoubleV(bits);
      } else {
        input.Seek(input.pos + 8);
      }
    } else {
      if included {
        var s := input.ReadChars(v.s);
        value := StringV(s);
      } else {
        input.SkipChars(v.s);
      }
    }
  }

  method SubSelection(sel: Id, key: Id) returns (sub: Id)
    ensures sub == Inner(sel, key)
  {
    sub := ALL;
    if sel != ALL {
      var buffer, length := BsonSubSelect(sel, key);
      sub := buffer[..length];
    }
  }

  /** `readBSONInnerArray(select)`. */
  method ReadBSONInnerArray(input: ByteStream, sel: Id, ghost ds: seq<Doc>) returns (result: seq<Doc>)
    requires ValueFits(ArrayV(ds)) && ValueOrdered(ArrayV(ds)) && At(input.data, input.pos, EncodeArray(ds))
    modifies input`pos
    ensures result == SelectDocs(LoadedDocs(ds), sel)
    ensures input.pos == old(input.pos) + |EncodeArray(ds)|
    decreases ds
  {
    AtSplit(input.data, input.pos, Long(|ds|), DocsBytes(ds));
    var elements := input.ReadLong(|ds|);
    result := [];
    assert ds[0..] == ds;
    for x := 0 to elements
      invariant At(input.data, input.pos, DocsBytes(ds[x..]))
      invariant input.pos + |DocsBytes(ds[x..])| == old(input.pos) + |EncodeArray(ds)|
      invariant result == SelectDocs(LoadedDocs(ds[..x]), sel)
    {
      assert ds[x..][1..] == ds[x + 1..];
      AtSplit(input.data, input.pos, Encode(ds[x]), DocsBytes(ds[x + 1..]));
      var obj := ReadBSON(input, sel, ds[x]);
      assert ds[..x + 1] == ds[..x] + [ds[x]];
      LoadedDocsSnoc(ds[..x], ds[x]);
      SelectDocsSnoc(LoadedDocs(ds[..x]), Loaded(ds[x]), sel);
      result := result + [obj];
    }
    assert ds[..|ds|] == ds;
  }
}
