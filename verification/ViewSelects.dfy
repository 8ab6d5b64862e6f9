/** Projection over the byte view. */
module ViewSelects {
  import opened Ids
  import opened ByteStreams
  import opened Documents
  import opened Selections
  import opened SelectStrings
  import opened BsonStreams
  import opened Paths
  import opened ByteViews

  /** Every key of the document, and of the documents inside, is found with its own type. */
  predicate Clear(w: Doc)
    decreases w
  {
    forall i :: 0 <= i < |w.fs| ==> TypeRight(w, w.fs[i].key) && ClearValue(w.fs[i].value)
  }

  predicate ClearValue(v: Value)
    decreases v
  {
    match v
    case DocV(d) => Clear(d)
    case ArrayV(ds) => forall i :: 0 <= i < |ds| ==> Clear(ds[i])
    case _ => true
  }

  /** Documents whose keys are no prefixes of each other are clear. */
  lemma {:induction false} NoPrefixesAnywhereClear(w: Doc)
    requires NoPrefixesAnywhere(w)
    ensures Clear(w)
    decreases w
  {
    forall i | 0 <= i < |w.fs| ensures TypeRight(w, w.fs[i].key) && ClearValue(w.fs[i].value) {
      var v, key := w.fs[i].value, w.fs[i].key;
      assert w.fs[FirstPrefix(w.fs, key)].key == key && Get(w.fs, key) == FirstPrefix(w.fs, key);
      if v.DocV? {
        NoPrefixesAnywhereClear(v.d);
      } else if v.ArrayV? {
        forall j | 0 <= j < |v.ds| ensures Clear(v.ds[j]) {
          NoPrefixesAnywhereClear(v.ds[j]);
        }
      }
    }
  }

  /** No such pairs in any document, those in arrays included. */
  predicate NoPrefixesAnywhere(w: Doc)
    decreases w
  {
    NoPrefixPairs(w.fs) &&
    forall i :: 0 <= i < |w.fs| ==> NoPrefixesInValue(w.fs[i].value)
  }

  predicate NoPrefixesInValue(v: Value)
    decreases v
  {
    match v
    case DocV(d) => NoPrefixesAnywhere(d)
    case ArrayV(ds) => forall i :: 0 <= i < |ds| ==> NoPrefixesAnywhere(ds[i])
    case _ => true
  }

  // ---- Selecting -------------------------------------------------------------------------------------

  /** `BSONBufferedObj::select`: what selecting from the decoded document gives, for clear documents. */
  method SelectView(buffer: Bytes, v: View, sel: Id, ghost w: Doc) returns (r: Selection<Doc>)
    requires Shows(buffer, v, w) && DocFits(w) && Ordered(w)
    ensures Clear(w) ==> r == Taken(Select(Loaded(w), sel))
    decreases w, 2
  {
    var columns := BsonSplitSelect(sel);
    var fields: seq<Field> := [];
    for x := 0 to |v.items|
      invariant Clear(w) ==> fields == SelectFields(LoadedFields(w.fs[..x]), sel)
    {
      NextSelected(w.fs, x, sel);
      var more := SelectNext(buffer, v, columns, fields, sel, w, x);
      if more.Misread? {
        return Misread;
      }
      fields := more.v;
    }
    assert w.fs[..|w.fs|] == w.fs;
    r := Taken(Doc(fields));
  }

  method SelectNext(buffer: Bytes, v: View, columns: set<Id>, fields: seq<Field>, sel: Id, ghost w: Doc, x: nat)
    returns (r: Selection<seq<Field>>)
    requires Shows(buffer, v, w) && DocFits(w) && Ordered(w) && x < |v.items| && x < |w.fs| && columns == Columns(sel)
    requires Clear(w) ==> fields == SelectFields(LoadedFields(w.fs[..x]), sel)
    ensures Clear(w) ==> r == Taken(fields + Selected(Field(w.fs[x].key, LoadedValue(w.fs[x].value)), sel))
    decreases w, 1
  {
    var key := KeyAt(buffer, v.items[x], w.fs[x]);
    var included := sel == ALL || key in columns;
    assert included == Included(key, sel);
    SelectedOrNot(fields, Field(key, LoadedValue(w.fs[x].value)), sel);
    if included {
      assert ItemShows(buffer, v.items[x], w.fs[x]) && FieldFits(w.fs[x]) && ValueOrdered(w.fs[x].value);
      var value := SelectItem(buffer, v, v.items[x].value, key, sel, w, x);
      if value.Misread? {
        return Misread;
      }
      r := Taken(Put(fields, Field(key, value.v)));
      if Clear(w) {
        PutNext(w.fs, x, sel, value.v);
      }
    } else {
      r := Taken(fields);
    }
  }

  method KeyAt(buffer: Bytes, item: Item, ghost f: Field) returns (key: Id)
    requires ItemShows(buffer, item, f)
    ensures key == f.key
  {
    key := buffer[item.key..item.key + item.keySize];
  }

  lemma SelectedOrNot(fields: seq<Field>, f: Field, sel: Id)
    ensures fields + Selected(f, sel) ==
            if Included(f.key, sel) then fields + [Field(f.key, SelectValue(f.value, f.key, sel))] else fields
  {
  }

  lemma PutNext(fs: seq<Field>, x: nat, sel: Id, v: Value)
    requires KeysAscend(fs) && x < |fs|
    ensures var fields := SelectFields(LoadedFields(fs[..x]), sel);
            Put(fields, Field(fs[x].key, v)) == fields + [Field(fs[x].key, v)]
  {
    TakenBefore(fs, x, sel);
    PutLast(SelectFields(LoadedFields(fs[..x]), sel), Field(fs[x].key, v));
  }

  lemma NextSelected(fs: seq<Field>, x: nat, sel: Id)
    requires x < |fs|
    ensures SelectFields(LoadedFields(fs[..x + 1]), sel) ==
            SelectFields(LoadedFields(fs[..x]), sel) + Selected(Field(fs[x].key, LoadedValue(fs[x].value)), sel)
  {
    assert fs[..x + 1] == fs[..x] + [fs[x]];
    LoadedFieldsSnoc(fs[..x], fs[x]);
    SelectFieldsSnoc(LoadedFields(fs[..x]), Field(fs[x].key, LoadedValue(fs[x].value)), sel);
  }

  method SelectItem(buffer: Bytes, v: View, slot: Slot, key: Id, sel: Id, ghost w: Doc, ghost x: nat)
    returns (r: Selection<Value>)
    requires Shows(buffer, v, w) && DocFits(w) && Ordered(w) && x < |w.fs| && key == w.fs[x].key
    requires SlotShows(buffer, slot, w.fs[x].value) && ValueFits(w.fs[x].value) && ValueOrdered(w.fs[x].value)
    ensures Clear(w) ==> r == Taken(SelectValue(LoadedValue(w.fs[x].value), key, sel))
    decreases w, 0
  {
    ghost var u := w.fs[x].value;
    GetOwn(w, x);
    var found, tag := GetType(buffer, v, key, w);
    assert Clear(w) ==> Kind(tag) == Kind(Tag(u)) && ClearValue(u);
    var sub := SubSelection(sel, key);
    SelectInner(LoadedValue(u), key, sel);
    r := Misread;
    if tag == BSON_TYPE {
      if slot.Inner? {
        var inner := SelectView(buffer, slot.obj, sub, u.d);
        if inner.Taken? {
          r := Taken(DocV(inner.v));
        }
      }
    } else if tag == BSONARRAY_TYPE {
      if slot.InnerArray? {
        var array_ := SelectArray(buffer, slot.arr, sub, u.ds);
        if array_.Taken? {
          r := Taken(ArrayV(array_.v));
        }
      }
    } else if slot.Pos? {
      r := ReadAs(buffer, slot.p, tag, u);
    }
  }

  lemma GetOwn(w: Doc, x: nat)
    requires Ordered(w) && x < |w.fs|
    ensures Get(w.fs, w.fs[x].key) == x && FirstPrefix(w.fs, w.fs[x].key) < |w.fs|
  {
    forall j | 0 <= j < x ensures w.fs[j].key != w.fs[x].key {
      KeyOrder(w.fs[j].key, w.fs[x].key);
    }
    GetUnique(w.fs, w.fs[x].key, x);
    assert w.fs[x].key <= w.fs[x].key;
  }

  /** `BSONBufferedArrayObj::select`. */
  method SelectArray(buffer: Bytes, a: ArrayView, sel: Id, ghost ds: seq<Doc>) returns (r: Selection<seq<Doc>>)
    requires ArrayShows(buffer, a, ds) && ValueFits(ArrayV(ds)) && ValueOrdered(ArrayV(ds))
    ensures ClearValue(ArrayV(ds)) ==> r == Taken(SelectDocs(LoadedDocs(ds), sel))
    decreases ds
  {
    var result: seq<Doc> := [];
    r := Misread;
    for x := 0 to |a.elements|
      invariant ClearValue(ArrayV(ds)) ==> result == SelectDocs(LoadedDocs(ds[..x]), sel)
    {
      var sub := SelectView(buffer, a.elements[x], sel, ds[x]);
      if sub.Misread? {
        return Misread;
      }
      assert ds[..x + 1] == ds[..x] + [ds[x]];
      LoadedDocsSnoc(ds[..x], ds[x]);
      SelectDocsSnoc(LoadedDocs(ds[..x]), Loaded(ds[x]), sel);
      result := result + [sub.v];
    }
    assert ds[..|ds|] == ds;
    r := Taken(result);
  }
}
