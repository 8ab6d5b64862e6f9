/** What `find` answers through the index: the documents it should, and for every separator and every removed
    document the filter accepts one more. */
module IndexAnswers {
  import opened Ids
  import opened Documents
  import opened Selections
  import opened BsonStreams
  import opened Filters
  import opened Records
  import opened BTree
  import opened BTreeProofs
  import opened BTreeReading
  import opened BTreeRuns
  import opened Stores
  import opened FullScans

  /** The document the index keeps as the key of an entry, and whether the filter accepts it. */
  function KeyAccepted(fl: Floats, e: Expr): Entry -> bool {
    (x: Entry) => Accepts(Eval(fl, e, DocSubject(Doc([Field(ID, StringV(x.key))]))))
  }

  /** d is the projection of the record the entry points at. */
  ghost predicate RecordOf(log: seq<Doc>, x: Entry, sel: Id, d: Doc) {
    AllStored(log) && exists r: nat :: PointsAt(log, x, r) && d == Select(log[r], sel)
  }

  lemma {:induction false} FilterMembers(es: seq<Entry>, wanted: Entry -> bool, x: Entry)
    ensures x in Filter(es, wanted) <==> x in es && wanted(x)
  {
    if es != [] {
      FilterMembers(es[1..], wanted, x);
    }
  }

  /** Whatever a scan of the index reports points at a record. */
  lemma ScanPoints(b: Bucket, log: seq<Doc>, t: Tree, n: nat, wanted: Entry -> bool)
    requires Sound(b, log, t, n)
    ensures forall x :: x in Scan(t, wanted) ==> Points(log, x) && wanted(x)
  {
    ScanAccount(b, t, wanted);
    forall x | x in Scan(t, wanted) ensures Points(log, x) && wanted(x) {
      assert x in multiset(Scan(t, wanted));
      FilterMembers(InOrder(t), wanted, x);
      FilterMembers(Seps(t), wanted, x);
    }
  }

  ghost predicate RecordsOf(log: seq<Doc>, es: seq<Entry>, sel: Id, ds: seq<Doc>) {
    |ds| == |es| && forall i :: 0 <= i < |es| ==> RecordOf(log, es[i], sel, ds[i])
  }

  /** A filter that mentions nothing but `_id` accepts the records it is answered with; in a scan of the index every
      matching leaf entry gives one of them, and every matching separator one more. */
  lemma IndexAnswersMatch(fl: Floats, log: seq<Doc>, x: Entry, sel: Id, d: Doc, e: Expr)
    requires Filters.Reads(e) + Asks(e) <= {ID} && KeyAccepted(fl, e)(x) && RecordOf(log, x, sel, d)
    ensures exists r: nat :: PointsAt(log, x, r) && d == Select(log[r], sel) && Accepts(Eval(fl, e, DocSubject(log[r])))
  {
    var r: nat :| PointsAt(log, x, r) && d == Select(log[r], sel);
    KeyDocumentSuffices(fl, e, log[r], x.key);
  }

  // ---- Sequences and what they hold ------------------------------------------------------------------

  function Mapped<A, B>(s: seq<A>, f: A -> B): (r: seq<B>)
    ensures |r| == |s| && forall i :: 0 <= i < |s| ==> r[i] == f(s[i])
  {
    if s == [] then [] else [f(s[0])] + Mapped(s[1..], f)
  }

  lemma MappedConcat<A, B>(s: seq<A>, t: seq<A>, f: A -> B)
    ensures Mapped(s + t, f) == Mapped(s, f) + Mapped(t, f)
  {
  }

  lemma {:induction false} MappedSameMembers<A, B>(s: seq<A>, t: seq<A>, f: A -> B)
    requires multiset(s) == multiset(t)
    ensures multiset(Mapped(s, f)) == multiset(Mapped(t, f))
  {
    if s == [] {
      assert |multiset(t)| == |t| == 0;
    } else {
      assert s[0] in multiset(t);
      var i :| 0 <= i < |t| && t[i] == s[0];
      WithoutOne(s, t, i);
      MappedSameMembers(s[1..], t[..i] + t[i + 1..], f);
      MappedAround(s, 0, f);
      MappedAround(t, i, f);
      assert s[..0] + s[1..] == s[1..];
    }
  }

  lemma TakenOut<T>(t: seq<T>, i: nat)
    requires i < |t|
    ensures multiset(t) == multiset{t[i]} + multiset(t[..i] + t[i + 1..])
  {
    assert t == t[..i] + [t[i]] + t[i + 1..];
  }

  lemma WithoutOne<T>(s: seq<T>, t: seq<T>, i: nat)
    requires s != [] && i < |t| && t[i] == s[0] && multiset(s) == multiset(t)
    ensures multiset(s[1..]) == multiset(t[..i] + t[i + 1..])
  {
    TakenOut(s, 0);
    TakenOut(t, i);
    assert s[..0] + s[1..] == s[1..];
    assert multiset(s[1..]) == multiset(s) - multiset{s[0]};
    assert multiset(t[..i] + t[i + 1..]) == multiset(t) - multiset{s[0]};
  }

  lemma MappedAround<A, B>(t: seq<A>, i: nat, f: A -> B)
    requires i < |t|
    ensures multiset(Mapped(t, f)) == multiset{f(t[i])} + multiset(Mapped(t[..i] + t[i + 1..], f))
  {
    TakenOut(Mapped(t, f), i);
    MappedParts(t, i, f);
  }

  lemma MappedParts<A, B>(t: seq<A>, i: nat, f: A -> B)
    requires i < |t|
    ensures Mapped(t[..i] + t[i + 1..], f) == Mapped(t, f)[..i] + Mapped(t, f)[i + 1..]
  {
    MappedConcat(t[..i], t[i + 1..], f);
    assert Mapped(t[..i], f) == Mapped(t, f)[..i];
    assert Mapped(t[i + 1..], f) == Mapped(t, f)[i + 1..];
  }

  ghost predicate Distinct<T>(s: seq<T>) {
    forall i, j :: 0 <= i < j < |s| ==> s[i] != s[j]
  }

  lemma {:induction false} CountedOnce<T>(s: seq<T>, x: T)
    requires Distinct(s)
    ensures multiset(s)[x] == if x in s then 1 else 0
  {
    if s != [] {
      assert s == [s[0]] + s[1..];
      CountedOnce(s[1..], x);
    }
  }

  lemma SameMembersSameCounts<T>(s: seq<T>, t: seq<T>)
    requires Distinct(s) && Distinct(t) && forall x :: x in s <==> x in t
    ensures multiset(s) == multiset(t)
  {
    forall x | x in multiset(s) || x in multiset(t) ensures multiset(s)[x] == multiset(t)[x] {
      CountedOnce(s, x);
      CountedOnce(t, x);
    }
  }

  // ---- The records behind entries --------------------------------------------------------------------

  /** The record an entry points at. */
  ghost function RecordAt(log: seq<Doc>, x: Entry): Doc {
    if AllStored(log) && Points(log, x) then log[Stores.Target(log, x)] else Doc([])
  }

  lemma PointsAtOne(log: seq<Doc>, x: Entry, r: nat)
    requires AllStored(log) && PointsAt(log, x, r)
    ensures RecordAt(log, x) == log[r]
  {
    OffsetIsUnique(log, Stores.Target(log, x), r);
  }

  lemma ResultIsMapped(log: seq<Doc>, es: seq<Entry>, sel: Id, ds: seq<Doc>)
    requires RecordsOf(log, es, sel, ds)
    ensures ds == Mapped(es, x => Select(RecordAt(log, x), sel))
  {
    forall i | 0 <= i < |es| ensures ds[i] == Select(RecordAt(log, es[i]), sel) {
      assert RecordOf(log, es[i], sel, ds[i]);
      var r: nat :| PointsAt(log, es[i], r) && ds[i] == Select(log[r], sel);
      PointsAtOne(log, es[i], r);
    }
  }

  lemma SelectDocsIsMapped(ds: seq<Doc>, sel: Id)
    ensures SelectDocs(ds, sel) == Mapped(ds, d => Select(d, sel))
  {
    if ds != [] {
      SelectDocsIsMapped(ds[1..], sel);
      if sel == ALL {
        SelectAll(ds[0].fs);
      }
    }
  }

  // ---- The entries the filter accepts, and the documents ---------------------------------------------

  ghost function LiveEntry(log: seq<Doc>, wanted: Entry -> bool): Entry -> bool {
    x => wanted(x) && HasStatus(RecordAt(log, x)) && Status(RecordAt(log, x)) == ACTIVE
  }

  ghost function DeadEntry(log: seq<Doc>, wanted: Entry -> bool): Entry -> bool {
    x => wanted(x) && !LiveEntry(log, wanted)(x)
  }

  lemma {:induction false} LiveOrDead(es: seq<Entry>, log: seq<Doc>, wanted: Entry -> bool)
    ensures multiset(Filter(es, wanted)) ==
            multiset(Filter(es, LiveEntry(log, wanted))) + multiset(Filter(es, DeadEntry(log, wanted)))
  {
    if es != [] {
      LiveOrDead(es[1..], log, wanted);
    }
  }

  /** No identifier has two live records. */
  ghost predicate OneLive(log: seq<Doc>) {
    AllStored(log) && forall q, r :: 0 <= q < r < |log| && Status(log[q]) == Status(log[r]) == ACTIVE ==>
      Ident(log[q]) != Ident(log[r])
  }

  lemma ExactHasOneLive(log: seq<Doc>, t: Tree)
    requires AllStored(log) && Exact(log, t)
    ensures OneLive(log)
  {
    forall q, r | 0 <= q < r < |log| && Status(log[q]) == Status(log[r]) == ACTIVE
      ensures Ident(log[q]) != Ident(log[r]) {
      OffsetIsUnique(log, q, r);
    }
  }

  lemma {:induction false} LiveDistinct(log: seq<Doc>)
    requires OneLive(log)
    ensures Distinct(Live(log))
  {
    if log != [] {
      var n := |log| - 1;
      LiveDistinct(log[..n]);
      if Status(log[n]) == ACTIVE {
        LiveRecord(log[..n], log[n]);
      }
    }
  }

  ghost predicate ActiveIn(log: seq<Doc>, d: Doc)
    requires AllStored(log)
  {
    exists r :: 0 <= r < |log| && log[r] == d && Status(log[r]) == ACTIVE
  }

  lemma RecordSnoc(log: seq<Doc>, d: Doc)
    requires AllStored(log) && log != [] && AllStored(log[..|log| - 1])
    ensures ActiveIn(log, d) <==>
            ActiveIn(log[..|log| - 1], d) || (log[|log| - 1] == d && Status(log[|log| - 1]) == ACTIVE)
  {
    var n := |log| - 1;
    if ActiveIn(log[..n], d) {
      var r :| 0 <= r < n && log[..n][r] == d && Status(log[..n][r]) == ACTIVE;
      assert log[r] == d;
    }
    if r :| 0 <= r < n && log[r] == d && Status(log[r]) == ACTIVE {
      assert log[..n][r] == d;
    }
  }

  lemma {:induction false} LiveRecord(log: seq<Doc>, d: Doc)
    requires AllStored(log)
    ensures d in Live(log) <==> ActiveIn(log, d)
  {
    if log != [] {
      LiveLast(log);
      LiveRecord(log[..|log| - 1], d);
      RecordSnoc(log, d);
    }
  }

  lemma {:induction false} AcceptedMembers(fl: Floats, e: Expr, ds: seq<Doc>, d: Doc)
    ensures d in Accepted(fl, e, ds) <==> d in ds && Accepts(Eval(fl, e, DocSubject(d)))
  {
    if ds != [] {
      AcceptedMembers(fl, e, ds[..|ds| - 1], d);
      assert ds == ds[..|ds| - 1] + [ds[|ds| - 1]];
    }
  }

  lemma {:induction false} AcceptedDistinct(fl: Floats, e: Expr, ds: seq<Doc>)
    requires Distinct(ds)
    ensures Distinct(Accepted(fl, e, ds))
  {
    if ds != [] {
      var n := |ds| - 1;
      AcceptedDistinct(fl, e, ds[..n]);
      AcceptedMembers(fl, e, ds[..n], ds[n]);
    }
  }

  /** The filter says of an entry's key what it says of its record. */
  lemma KeySays(log: seq<Doc>, fl: Floats, e: Expr, x: Entry)
    requires AllStored(log) && Points(log, x) && Filters.Reads(e) + Asks(e) <= {ID}
    ensures KeyAccepted(fl, e)(x) <==> Accepts(Eval(fl, e, DocSubject(RecordAt(log, x))))
  {
    KeyDocumentSuffices(fl, e, RecordAt(log, x), x.key);
  }

  /** A live record has a leaf entry that points at it. */
  lemma LiveHasEntry(log: seq<Doc>, t: Tree, r: nat)
    requires AllStored(log) && Exact(log, t) && r < |log| && Status(log[r]) == ACTIVE
    ensures exists x :: x in InOrder(t) && PointsAt(log, x, r)
  {
    var x := Find(InOrder(t), Rank(Ident(log[r]))).value;
    CompareIsRankOrder(x.key, Ident(log[r]));
    assert x in InOrder(t) && PointsAt(log, x, r);
  }

  lemma MappedMember<A, B>(s: seq<A>, f: A -> B, y: B)
    ensures y in Mapped(s, f) <==> exists x :: x in s && f(x) == y
  {
    if y in Mapped(s, f) {
      var i :| 0 <= i < |s| && Mapped(s, f)[i] == y;
      assert s[i] in s;
    }
    if x :| x in s && f(x) == y {
      var i :| 0 <= i < |s| && s[i] == x;
      assert Mapped(s, f)[i] == y;
    }
  }

  lemma EntryIsAccepted(b: Bucket, fl: Floats, log: seq<Doc>, t: Tree, n: nat, e: Expr, x: Entry)
    requires Sound(b, log, t, n) && Filters.Reads(e) + Asks(e) <= {ID}
    requires x in Filter(InOrder(t), LiveEntry(log, KeyAccepted(fl, e)))
    ensures RecordAt(log, x) in Accepted(fl, e, Live(log))
  {
    FilterMembers(InOrder(t), LiveEntry(log, KeyAccepted(fl, e)), x);
    KeySays(log, fl, e, x);
    AcceptedMembers(fl, e, Live(log), RecordAt(log, x));
    LiveRecord(log, RecordAt(log, x));
  }

  lemma AcceptedHasEntry(b: Bucket, fl: Floats, log: seq<Doc>, t: Tree, n: nat, e: Expr, d: Doc) returns (x: Entry)
    requires Sound(b, log, t, n) && Exact(log, t) && Filters.Reads(e) + Asks(e) <= {ID} &&
             d in Accepted(fl, e, Live(log))
    ensures x in Filter(InOrder(t), LiveEntry(log, KeyAccepted(fl, e))) && RecordAt(log, x) == d
  {
    AcceptedMembers(fl, e, Live(log), d);
    LiveRecord(log, d);
    var r :| 0 <= r < |log| && log[r] == d && Status(log[r]) == ACTIVE;
    LiveHasEntry(log, t, r);
    x :| x in InOrder(t) && PointsAt(log, x, r);
    PointsAtOne(log, x, r);
    KeySays(log, fl, e, x);
    FilterMembers(InOrder(t), LiveEntry(log, KeyAccepted(fl, e)), x);
  }

  /** The records of accepted live entries are the accepted live documents. */
  lemma SameDocuments(b: Bucket, fl: Floats, log: seq<Doc>, t: Tree, n: nat, e: Expr, d: Doc)
    requires Sound(b, log, t, n) && Exact(log, t) && Filters.Reads(e) + Asks(e) <= {ID}
    ensures d in Mapped(Filter(InOrder(t), LiveEntry(log, KeyAccepted(fl, e))), x => RecordAt(log, x)) <==>
            d in Accepted(fl, e, Live(log))
  {
    var es := Filter(InOrder(t), LiveEntry(log, KeyAccepted(fl, e)));
    var f := x => RecordAt(log, x);
    MappedMember(es, f, d);
    if d in Mapped(es, f) {
      var x :| x in es && f(x) == d;
      EntryIsAccepted(b, fl, log, t, n, e, x);
    }
    if d in Accepted(fl, e, Live(log)) {
      var x := AcceptedHasEntry(b, fl, log, t, n, e, d);
      assert f(x) == d;
    }
  }

  lemma RecordsDistinct(log: seq<Doc>, es: seq<Entry>)
    requires AllStored(log) && StrictDesc(es) && forall x :: x in es ==> Points(log, x)
    ensures Distinct(Mapped(es, x => RecordAt(log, x)))
  {
    var ds := Mapped(es, x => RecordAt(log, x));
    forall i, j | 0 <= i < j < |ds| ensures ds[i] != ds[j] {
      assert es[i] in es && es[j] in es;
      assert Ident(ds[i]) == es[i].key && Ident(ds[j]) == es[j].key;
    }
  }

  lemma {:induction false} FilterDesc(es: seq<Entry>, wanted: Entry -> bool)
    requires StrictDesc(es)
    ensures StrictDesc(Filter(es, wanted))
  {
    if es != [] {
      FilterDesc(es[1..], wanted);
      var rest := Filter(es[1..], wanted);
      forall j | 0 <= j < |rest| ensures K(rest[j]) < K(es[0]) {
        FilterMembers(es[1..], wanted, rest[j]);
        var m :| 0 <= m < |es[1..]| && es[1..][m] == rest[j];
        assert es[m + 1] == rest[j];
      }
    }
  }

  /** The accepted live documents are found exactly once each. */
  lemma LiveAnswers(b: Bucket, fl: Floats, log: seq<Doc>, t: Tree, n: nat, e: Expr)
    requires Sound(b, log, t, n) && Exact(log, t) && Filters.Reads(e) + Asks(e) <= {ID}
    ensures multiset(Mapped(Filter(InOrder(t), LiveEntry(log, KeyAccepted(fl, e))), x => RecordAt(log, x))) ==
            multiset(Accepted(fl, e, Live(log)))
  {
    var live := LiveEntry(log, KeyAccepted(fl, e));
    var es := Filter(InOrder(t), live);
    OrderedLeaves(t, -1, None);
    FilterDesc(InOrder(t), live);
    forall x | x in es ensures Points(log, x) {
      FilterMembers(InOrder(t), live, x);
    }
    RecordsDistinct(log, es);
    ExactHasOneLive(log, t);
    LiveDistinct(log);
    AcceptedDistinct(fl, e, Live(log));
    forall d ensures d in Mapped(es, x => RecordAt(log, x)) <==> d in Accepted(fl, e, Live(log)) {
      SameDocuments(b, fl, log, t, n, e, d);
    }
    SameMembersSameCounts(Mapped(es, x => RecordAt(log, x)), Accepted(fl, e, Live(log)));
  }

  // ---- The answers -----------------------------------------------------------------------------------

  lemma MappedTwice<A, B, C>(s: seq<A>, f: A -> B, g: B -> C, h: A -> C)
    requires forall x :: x in s ==> h(x) == g(f(x))
    ensures Mapped(Mapped(s, f), g) == Mapped(s, h)
  {
  }

  lemma MappedSum<A, B>(s: seq<A>, t: seq<A>, u: seq<A>, f: A -> B)
    requires multiset(s) == multiset(t) + multiset(u)
    ensures multiset(Mapped(s, f)) == multiset(Mapped(t, f)) + multiset(Mapped(u, f))
  {
    MappedSameMembers(s, t + u, f);
    MappedConcat(t, u, f);
  }

  /** The projected documents that a scan of the documents themselves would give. */
  function Right(fl: Floats, e: Expr, log: seq<Doc>, sel: Id): seq<Doc>
    requires forall r :: 0 <= r < |log| ==> HasStatus(log[r])
  {
    SelectDocs(Accepted(fl, e, Live(log)), sel)
  }

  lemma ProjectedSame(log: seq<Doc>, es: seq<Entry>, ds: seq<Doc>, sel: Id)
    requires multiset(Mapped(es, x => RecordAt(log, x))) == multiset(ds)
    ensures multiset(Mapped(es, x => Select(RecordAt(log, x), sel))) == multiset(SelectDocs(ds, sel))
  {
    var f, g := x => RecordAt(log, x), d => Select(d, sel);
    MappedSameMembers(Mapped(es, f), ds, g);
    SelectDocsIsMapped(ds, sel);
    MappedTwice(es, f, g, x => Select(RecordAt(log, x), sel));
  }

  lemma LiveProjections(b: Bucket, fl: Floats, log: seq<Doc>, t: Tree, n: nat, e: Expr, sel: Id)
    requires Sound(b, log, t, n) && Exact(log, t) && Filters.Reads(e) + Asks(e) <= {ID}
    ensures multiset(Mapped(Filter(InOrder(t), LiveEntry(log, KeyAccepted(fl, e))),
            x => Select(RecordAt(log, x), sel))) ==
            multiset(Right(fl, e, log, sel))
  {
    var es := Filter(InOrder(t), LiveEntry(log, KeyAccepted(fl, e)));
    LiveAnswers(b, fl, log, t, n, e);
    ProjectedSame(log, es, Accepted(fl, e, Live(log)), sel);
  }

  /** What `find` by `_id` answers: the right documents, and besides, the record behind every accepted leaf entry that
      points at no live one, and behind every accepted separator. */
  lemma IndexAccount(b: Bucket, fl: Floats, log: seq<Doc>, t: Tree, n: nat, e: Expr, sel: Id, result: seq<Doc>)
    requires Sound(b, log, t, n) && Exact(log, t) && Filters.Reads(e) + Asks(e) <= {ID}
    requires RecordsOf(log, Scan(t, KeyAccepted(fl, e)), sel, result)
    ensures var f := x => Select(RecordAt(log, x), sel);
            multiset(result) ==
            multiset(Right(fl, e, log, sel)) +
            multiset(Mapped(Filter(InOrder(t), DeadEntry(log, KeyAccepted(fl, e))), f)) +
            multiset(Mapped(Filter(Seps(t), KeyAccepted(fl, e)), f))
  {
    var wanted, f := KeyAccepted(fl, e), x => Select(RecordAt(log, x), sel);
    ResultIsMapped(log, Scan(t, wanted), sel, result);
    ScanAccount(b, t, wanted);
    MappedSum(Scan(t, wanted), Filter(InOrder(t), wanted), Filter(Seps(t), wanted), f);
    LiveOrDead(InOrder(t), log, wanted);
    MappedSum(Filter(InOrder(t), wanted), Filter(InOrder(t), LiveEntry(log, wanted)),
      Filter(InOrder(t), DeadEntry(log, wanted)), f);
    LiveProjections(b, fl, log, t, n, e, sel);
  }

  /** `find` by `_id` answers as the documents do if and only if the filter accepts no separator and no entry of a
      document that is not live any more. */
  lemma IndexAnswersRightly(b: Bucket, fl: Floats, log: seq<Doc>, t: Tree, n: nat, e: Expr, sel: Id, result: seq<Doc>)
    requires Sound(b, log, t, n) && Exact(log, t) && Filters.Reads(e) + Asks(e) <= {ID}
    requires RecordsOf(log, Scan(t, KeyAccepted(fl, e)), sel, result)
    ensures multiset(result) == multiset(Right(fl, e, log, sel)) <==>
            (forall x :: x in Seps(t) ==> !KeyAccepted(fl, e)(x)) &&
            forall x :: x in InOrder(t) && KeyAccepted(fl, e)(x) ==> LiveEntry(log, KeyAccepted(fl, e))(x)
  {
    var wanted, f := KeyAccepted(fl, e), x => Select(RecordAt(log, x), sel);
    IndexAccount(b, fl, log, t, n, e, sel, result);
    var dead, seps := Mapped(Filter(InOrder(t), DeadEntry(log, wanted)), f), Mapped(Filter(Seps(t), wanted), f);
    NothingMore(multiset(Right(fl, e, log, sel)), dead, seps);
    NoneFiltered(InOrder(t), DeadEntry(log, wanted));
    NoneFiltered(Seps(t), wanted);
  }

  lemma NothingMore<T>(m: multiset<T>, s: seq<T>, t: seq<T>)
    ensures m + multiset(s) + multiset(t) == m <==> s == [] && t == []
  {
    assert |m + multiset(s) + multiset(t)| == |m| + |s| + |t|;
  }

  lemma NoneFiltered(es: seq<Entry>, wanted: Entry -> bool)
    ensures Filter(es, wanted) == [] <==> forall x :: x in es ==> !wanted(x)
  {
    forall x ensures x in Filter(es, wanted) <==> x in es && wanted(x) {
      FilterMembers(es, wanted, x);
    }
    if Filter(es, wanted) != [] {
      assert Filter(es, wanted)[0] in Filter(es, wanted);
    }
  }
}
