/** Evaluating filters directly on the byte view of a record. */
module ByteFilters {
  import opened Ids
  import opened ByteStreams
  import opened Documents
  import opened Paths
  import opened ByteViews
  import opened Filters

  /** `SimpleExpression::eval` on a buffered content: the bytes at its place, read as the type it claims. */
  method EvalContent(buffer: Bytes, c: BufferedContent, ghost f: Found) returns (o: Outcome)
    requires ByteViews.Reads(buffer, c, f)
    ensures !f.Garbled? ==> o == EvalFound(f)
  {
    if c.NullContent? {
      return Val(RNull);
    }
    ghost var u :| SlotShows(buffer, c.element, u) &&
      (f.Holds? ==> LoadedValue(u) == f.v && ValueFits(u) && Kind(c.tag) == Kind(Tag(u)));
    if c.tag == BSON_TYPE || c.tag == BSONARRAY_TYPE {
      return Thrown;
    }
    if !c.element.Pos? {
      return Undefined;
    }
    var value := ReadAs(buffer, c.element.p, c.tag, u);
    o := if value.Misread? then Undefined else EvalFound(Holds(value.v));
  }

  /** `eval` on the byte view: as long as no path of the filter reads one type as another, what the filter says of
      the view,
      and where none of them ends at a document either, what it says of the decoded document. */
  method EvalView(fl: Floats, buffer: Bytes, v: View, e: Expr, ghost w: Doc) returns (o: Outcome)
    requires Shows(buffer, v, w) && DocFits(w)
    ensures (forall p :: p in Filters.Reads(e) ==> ViewXpath(w, p) != Garbled) ==> o == Eval(fl, e, ViewSubject(w))
    ensures (forall p :: p in Filters.Reads(e) ==>
               TypesRight(w, p) && (OpenEnded(p) || !AtDocument(DocXpath(Loaded(w), p)))) ==>
              o == Eval(fl, e, DocSubject(Loaded(w)))
  {
    o := EvalOn(fl, buffer, v, e, w);
    if forall p :: p in Filters.Reads(e) ==> TypesRight(w, p) && (OpenEnded(p) || !AtDocument(DocXpath(Loaded(w), p))) {
      forall p | p in Filters.Reads(e) ensures ViewXpath(w, p) != Garbled {
        ViewFindsTheSame(w, p);
      }
      FilterOnBytes(fl, e, w);
    }
  }

  method EvalOn(fl: Floats, buffer: Bytes, v: View, e: Expr, ghost w: Doc) returns (o: Outcome)
    requires Shows(buffer, v, w) && DocFits(w)
    ensures (forall p :: p in Filters.Reads(e) ==> ViewXpath(w, p) != Garbled) ==> o == Eval(fl, e, ViewSubject(w))
  {
    match e
    case Constant(value) => o := Val(value);
    case Simple(xpath) =>
      var content := GetXpath(buffer, v, xpath, w);
      o := EvalContent(buffer, content, ViewXpath(w, xpath));
    case Not(inner) =>
      var r := EvalOn(fl, buffer, v, inner, w);
      o := EvalNot(r);
    case Exists(field) =>
      if field.Simple? {
        var i := GetValue(buffer, v, field.xpath, w);
        o := Val(RBool(i < |v.items|));
      } else {
        o := Thrown;
      }
    case Binary(oper, left, right) =>
      var valLeft := EvalOn(fl, buffer, v, left, w);
      var valRight := EvalOn(fl, buffer, v, right, w);
      o := EvalBinary(fl, oper, valLeft, valRight);
  }
}
