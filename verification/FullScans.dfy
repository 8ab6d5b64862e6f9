/** Scanning the data file: hopping from record to record by their lengths, and taking what a filter accepts. */
module FullScans {
  import opened Ids
  import opened ByteStreams
  import opened Documents
  import opened Selections
  import opened BsonStreams
  import opened Paths
  import opened ByteViews
  import opened ViewSelects
  import opened Filters
  import opened ByteFilters
  import opened Records
  import opened Stores

  /** The documents the filter accepts. */
  function Accepted(fl: Floats, e: Expr, ds: seq<Doc>): seq<Doc> {
    if ds == [] then []
    else Accepted(fl, e, ds[..|ds| - 1]) +
         if Accepts(Eval(fl, e, DocSubject(ds[|ds| - 1]))) then [ds[|ds| - 1]] else []
  }

  function Firsts<T>(s: seq<T>, max: int): seq<T> {
    if max <= 0 then [] else if max < |s| then s[..max] else s
  }

  /** The documents of the store that the filter accepts, projected, and at most max of them. */
  function Answers(fl: Floats, log: seq<Doc>, sel: Id, e: Expr, max: int): seq<Doc>
    requires forall r :: 0 <= r < |log| ==> HasStatus(log[r])
  {
    Firsts(SelectDocs(Accepted(fl, e, Live(log)), sel), max)
  }

  /** The byte view of the document answers to the filter and to projections as the document does. */
  ghost predicate Answerable(fl: Floats, e: Expr, d: Doc) {
    Clear(d) &&
    (forall p :: p in Filters.Reads(e) ==>
       TypesRight(d, p) && (OpenEnded(p) || !AtDocument(DocXpath(Loaded(d), p)))) &&
    Eval(fl, e, DocSubject(d)).Val?
  }

  ghost predicate AllAnswerable(fl: Floats, e: Expr, log: seq<Doc>)
    requires AllStored(log)
  {
    forall r {:trigger log[r]} :: 0 <= r < |log| && Status(log[r]) == ACTIVE ==> Answerable(fl, e, log[r])
  }

  /** A result, or what broke the scan off. */
  datatype ScanResult = Results(docs: seq<Doc>) | Broken

  /** What AND accepts of a run of documents is what its right side accepts of what its left side accepts, in order. */
  lemma {:induction false} AcceptedByParts(fl: Floats, l: Expr, r: Expr, ds: seq<Doc>)
    ensures Accepted(fl, Binary(FO_AND, l, r), ds) == Accepted(fl, r, Accepted(fl, l, ds))
  {
    if ds != [] {
      var n := |ds| - 1;
      AcceptedByParts(fl, l, r, ds[..n]);
      AndOrNotMean(fl, l, r, DocSubject(ds[n]));
      assert ds == ds[..n] + [ds[n]];
      AcceptedLast(fl, l, ds[..n], ds[n]);
      AcceptedLast(fl, Binary(FO_AND, l, r), ds[..n], ds[n]);
      AcceptedLast(fl, r, Accepted(fl, l, ds[..n]), ds[n]);
    }
  }

  lemma {:induction false} AcceptedSame(fl: Floats, e: Expr, g: Expr, ds: seq<Doc>)
    requires forall d :: d in ds ==> (Accepts(Eval(fl, e, DocSubject(d))) <==> Accepts(Eval(fl, g, DocSubject(d))))
    ensures Accepted(fl, e, ds) == Accepted(fl, g, ds)
  {
    if ds != [] {
      AcceptedSame(fl, e, g, ds[..|ds| - 1]);
      assert ds[|ds| - 1] in ds;
    }
  }

  /** Where both sides are true or false of all documents, what OR leaves is what both sides leave, in order. */
  lemma AcceptedByNeither(fl: Floats, l: Expr, r: Expr, ds: seq<Doc>)
    requires forall d :: d in ds ==> Truth(Eval(fl, l, DocSubject(d))) && Truth(Eval(fl, r, DocSubject(d)))
    ensures Accepted(fl, Not(Binary(FO_OR, l, r)), ds) == Accepted(fl, Not(r), Accepted(fl, Not(l), ds))
  {
    forall d | d in ds
      ensures Accepts(Eval(fl, Not(Binary(FO_OR, l, r)), DocSubject(d))) <==>
              Accepts(Eval(fl, Binary(FO_AND, Not(l), Not(r)), DocSubject(d)))
    {
      NotOrIsAndNot(fl, l, r, DocSubject(d));
    }
    AcceptedSame(fl, Not(Binary(FO_OR, l, r)), Binary(FO_AND, Not(l), Not(r)), ds);
    AcceptedByParts(fl, Not(l), Not(r), ds);
  }

  lemma NotOrIsAndNot(fl: Floats, l: Expr, r: Expr, s: Subject)
    requires Truth(Eval(fl, l, s)) && Truth(Eval(fl, r, s))
    ensures Accepts(Eval(fl, Not(Binary(FO_OR, l, r)), s)) <==> Accepts(Eval(fl, Binary(FO_AND, Not(l), Not(r)), s))
  {
    AndOrNotMean(fl, l, r, s);
    AndOrNotMean(fl, r, l, s);
    AndOrNotMean(fl, Not(l), Not(r), s);
    AndOrNotMean(fl, Binary(FO_OR, l, r), l, s);
  }

  /** A filter that is true or false of all documents and its NOT share them out. */
  lemma {:induction false} AcceptedOrNot(fl: Floats, e: Expr, ds: seq<Doc>)
    requires forall d :: d in ds ==> Truth(Eval(fl, e, DocSubject(d)))
    ensures multiset(Accepted(fl, e, ds)) + multiset(Accepted(fl, Not(e), ds)) == multiset(ds)
  {
    if ds != [] {
      var n := |ds| - 1;
      AcceptedOrNot(fl, e, ds[..n]);
      assert ds == ds[..n] + [ds[n]] && ds[n] in ds;
      EitherTakes(fl, e, ds[..n], ds[n]);
    }
  }

  lemma EitherTakes(fl: Floats, e: Expr, ds: seq<Doc>, d: Doc)
    requires Truth(Eval(fl, e, DocSubject(d)))
    ensures multiset(Accepted(fl, e, ds + [d])) + multiset(Accepted(fl, Not(e), ds + [d])) ==
            multiset(Accepted(fl, e, ds)) + multiset(Accepted(fl, Not(e), ds)) + multiset{d}
  {
    AcceptedLast(fl, e, ds, d);
    AcceptedLast(fl, Not(e), ds, d);
    AndOrNotMean(fl, e, e, DocSubject(d));
    OneMore(Accepted(fl, e, ds), d);
    OneMore(Accepted(fl, Not(e), ds), d);
  }

  lemma OneMore(ds: seq<Doc>, d: Doc)
    ensures multiset(ds + [d]) == multiset(ds) + multiset{d}
  {
  }

  /** The answers from the first r records. */
  function AnswersUpTo(fl: Floats, log: seq<Doc>, r: nat, sel: Id, e: Expr): seq<Doc>
    requires (forall q :: 0 <= q < |log| ==> HasStatus(log[q])) && r <= |log|
  {
    SelectDocs(Accepted(fl, e, Live(log[..r])), sel)
  }

  lemma AcceptedLast(fl: Floats, e: Expr, ds: seq<Doc>, d: Doc)
    ensures Accepted(fl, e, ds + [d]) ==
            if Accepts(Eval(fl, e, DocSubject(d))) then Accepted(fl, e, ds) + [d] else Accepted(fl, e, ds)
  {
    assert (ds + [d])[..|ds|] == ds;
  }

  lemma NextAnswer(fl: Floats, log: seq<Doc>, r: nat, sel: Id, e: Expr)
    requires AllStored(log) && r < |log|
    ensures AnswersUpTo(fl, log, r + 1, sel, e) == AnswersUpTo(fl, log, r, sel, e) +
            if Status(log[r]) == ACTIVE && Accepts(Eval(fl, e, DocSubject(log[r]))) then [Select(log[r], sel)] else []
  {
    assert log[..r + 1][..r] == log[..r] && AllStored(log[..r + 1]);
    LiveLast(log[..r + 1]);
    var ds := Live(log[..r]);
    if Status(log[r]) == ACTIVE {
      AcceptedLast(fl, e, ds, log[r]);
      if Accepts(Eval(fl, e, DocSubject(log[r]))) {
        SelectDocsSnoc(Accepted(fl, e, ds), log[r], sel);
      }
    }
  }

  lemma {:induction false} AnswersGrow(fl: Floats, log: seq<Doc>, r: nat, sel: Id, e: Expr)
    requires AllStored(log) && r <= |log|
    ensures AnswersUpTo(fl, log, r, sel, e) <= AnswersUpTo(fl, log, |log|, sel, e)
    decreases |log| - r
  {
    if r < |log| {
      NextAnswer(fl, log, r, sel, e);
      AnswersGrow(fl, log, r + 1, sel, e);
    }
  }

  /** `getInt("_status")`. */
  method ReadStatus(buffer: Bytes, v: View, ghost d: Doc) returns (status: int)
    requires Shows(buffer, v, d) && Stored(d)
    ensures status == Status(d)
  {
    var i := GetValue(buffer, v, STATUS, d);
    assert ItemShows(buffer, v.items[i], d.fs[i]) && FieldFits(d.fs[i]);
    assert d.fs[i].value.IntV? && ValueFits(d.fs[i].value) && SlotShows(buffer, v.items[i].value, d.fs[i].value);
    status := ReadInt32(buffer, v.items[i].value.p, d.fs[i].value.i);
  }

  /** One record: what it adds to the results. */
  method ScanRecord(fl: Floats, buffer: Bytes, v: View, sel: Id, e: Expr, ghost d: Doc) returns (r: ScanResult)
    requires Shows(buffer, v, d) && Stored(d)
    ensures r.Results? ==> |r.docs| <= 1
    ensures (Status(d) == ACTIVE ==> Answerable(fl, e, d)) ==>
              r == Results(if Status(d) == ACTIVE && Accepts(Eval(fl, e, DocSubject(d))) then [Select(d, sel)] else [])
  {
    var status := ReadStatus(buffer, v, d);
    r := Results([]);
    if status == ACTIVE {
      var expresult := EvalView(fl, buffer, v, e, d);
      if !expresult.Val? {
        return Broken;
      }
      if Accepts(expresult) {
        var objSubselect := SelectView(buffer, v, sel, d);
        if objSubselect.Misread? {
          return Broken;
        }
        r := Results([objSubselect.v]);
      }
    }
  }

  /** The record at a position, and the position behind it. */
  method ScanNext(fl: Floats, buffer: Bytes, pos: nat, sel: Id, e: Expr, ghost log: seq<Doc>, ghost n: nat)
    returns (more: ScanResult, next: nat)
    requires AllStored(log) && buffer == DocsBytes(log) && n < |log| && pos == Offset(log, n)
    ensures next == Offset(log, n + 1) && (more.Results? ==> |more.docs| <= 1)
    ensures AllAnswerable(fl, e, log) ==>
              more.Results? && AnswersUpTo(fl, log, n + 1, sel, e) == AnswersUpTo(fl, log, n, sel, e) + more.docs
  {
    RecordInLog(log, n);
    var obj := Initialize(buffer, pos, log[n]);
    next := pos + obj.bufferLength;
    NextAnswer(fl, log, n, sel, e);
    more := ScanRecord(fl, buffer, obj, sel, e, log[n]);
  }

  /** `findFullScan`: on a file of records that answer as their documents do, the accepted documents of the store
      in the order they were written last. The hops visit every record once, at its beginning. */
  method FindFullScan(fl: Floats, buffer: Bytes, sel: Id, e: Expr, maxResults: int, ghost log: seq<Doc>)
    returns (r: ScanResult)
    requires AllStored(log) && buffer == DocsBytes(log)
    ensures AllAnswerable(fl, e, log) ==> r == Results(Answers(fl, log, sel, e, maxResults))
  {
    var result: seq<Doc>, pos: nat := [], 0;
    ghost var n := 0;
    NoAnswers(fl, log, sel, e);
    while pos < |buffer| && |result| < maxResults
      invariant n <= |log| && pos == Offset(log, n)
      invariant AllAnswerable(fl, e, log) ==> result == AnswersUpTo(fl, log, n, sel, e)
      invariant |result| == 0 || |result| <= maxResults
      decreases |log| - n
    {
      MoreRecords(log, n);
      var more, next := ScanNext(fl, buffer, pos, sel, e, log, n);
      if more.Broken? {
        return Broken;
      }
      result, pos := result + more.docs, next;
      n := n + 1;
    }
    MoreRecords(log, n);
    if AllAnswerable(fl, e, log) {
      ScanEnds(fl, log, n, sel, e, maxResults);
    }
    r := Results(result);
  }

  /** Where the scan ends, at the end of the file or at the limit. */
  lemma ScanEnds(fl: Floats, log: seq<Doc>, n: nat, sel: Id, e: Expr, max: int)
    requires AllStored(log) && n <= |log|
    requires var r := AnswersUpTo(fl, log, n, sel, e); (|r| == 0 || |r| <= max) && (n == |log| || |r| >= max)
    ensures AnswersUpTo(fl, log, n, sel, e) == Answers(fl, log, sel, e, max)
  {
    AnswersGrow(fl, log, n, sel, e);
    assert log[..|log|] == log;
  }

  lemma NoAnswers(fl: Floats, log: seq<Doc>, sel: Id, e: Expr)
    requires AllStored(log)
    ensures Offset(log, 0) == 0 && AnswersUpTo(fl, log, 0, sel, e) == []
  {
  }

  lemma MoreRecords(log: seq<Doc>, n: nat)
    requires n <= |log|
    ensures n < |log| <==> Offset(log, n) < |DocsBytes(log)|
  {
    assert log[..|log|] == log;
    if n < |log| {
      OffsetsAscend(log, n, |log|);
    }
  }

  /** A filter that is always true, and room enough for all: a scan for everything gives the documents of the store. */
  lemma ScanForAll(fl: Floats, log: seq<Doc>, max: int)
    requires AllStored(log) && |Live(log)| <= max
    ensures Answers(fl, log, ALL, Constant(RBool(true)), max) == Live(log)
  {
    AllAccepted(fl, Live(log));
    SelectAllDocs(Live(log));
  }

  lemma {:induction false} AllAccepted(fl: Floats, ds: seq<Doc>)
    ensures Accepted(fl, Constant(RBool(true)), ds) == ds
  {
    if ds != [] {
      AllAccepted(fl, ds[..|ds| - 1]);
    }
  }
}
