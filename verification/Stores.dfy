/** The store as values: the records in the data file and the tree of the index, and what every operation keeps. */
module Stores {
  import opened Ids
  import opened ByteStreams
  import opened Documents
  import opened BsonStreams
  import opened Records
  import opened BTree
  import opened BTreeProofs
  import opened BTreeFacts
  import opened BTreeReading
  import opened BTreeRuns

  ghost predicate AllStored(log: seq<Doc>) {
    forall r {:trigger log[r]} :: 0 <= r < |log| ==> Stored(log[r])
  }

  /** The entry holds the offset of record r and its identifier. */
  ghost predicate PointsAt(log: seq<Doc>, e: Entry, r: nat)
    requires AllStored(log)
  {
    r < |log| && Offset(log, r) == e.posData && Ident(log[r]) == e.key
  }

  ghost predicate Points(log: seq<Doc>, e: Entry)
    requires AllStored(log)
  {
    exists r: nat :: PointsAt(log, e, r)
  }

  /** The record an entry points at. */
  ghost function Target(log: seq<Doc>, e: Entry): (r: nat)
    requires AllStored(log) && Points(log, e)
    ensures PointsAt(log, e, r)
  {
    var r: nat :| PointsAt(log, e, r);
    r
  }

  /** What holds after any run, stale separators or not: entries point at records with their identifiers. */
  ghost predicate Sound(b: Bucket, log: seq<Doc>, t: Tree, n: nat) {
    AllStored(log) && WellFormed(b, t, n) &&
    (forall e :: e in InOrder(t) ==> Points(log, e)) && forall e :: e in Seps(t) ==> Points(log, e)
  }

  /** A record is the current one of its identifier exactly if it is not marked as updated. */
  ghost predicate Exact(log: seq<Doc>, t: Tree)
    requires AllStored(log)
  {
    forall r {:trigger log[r]} :: 0 <= r < |log| ==>
      (Status(log[r]) != UPDATED <==> LeafPosition(t, Ident(log[r])) == Some(Offset(log, r)))
  }

  /** The documents the store holds, in the order they were written last. */
  function Live(log: seq<Doc>): seq<Doc>
    requires forall r :: 0 <= r < |log| ==> HasStatus(log[r])
  {
    if log == [] then []
    else Live(log[..|log| - 1]) + if Status(log[|log| - 1]) == ACTIVE then [log[|log| - 1]] else []
  }

  /** The documents with another identifier. */
  function Others(ds: seq<Doc>, id: Id): (r: seq<Doc>)
    requires forall i :: 0 <= i < |ds| ==> Identified(ds[i])
    ensures forall i :: 0 <= i < |r| ==> r[i] in ds && Identified(r[i])
  {
    if ds == [] then []
    else Others(ds[..|ds| - 1], id) + if Ident(ds[|ds| - 1]) != id then [ds[|ds| - 1]] else []
  }

  // ---- Finding through the index ---------------------------------------------------------------------

  lemma FirstLeafKey(t: Tree, lo: int, k: nat)
    requires BTree.Ordered(t, lo, Some(k))
    ensures InOrder(t) != [] && K(InOrder(t)[0]) == k
  {
    OrderedLeaves(t, lo, Some(k));
  }

  /** Every separator has the key of a leaf entry. */
  lemma {:induction false} SeparatorInLeaves(t: Tree, lo: int, hi: Option<nat>, x: Entry)
    requires BTree.Ordered(t, lo, hi) && x in Seps(t)
    ensures exists y :: y in InOrder(t) && K(y) == K(x)
  {
    WeaveMembers(t.ks, t.cs, x);
    if x in t.ks {
      var i :| 0 <= i < |t.ks| && t.ks[i] == x;
      FirstLeafKey(t.cs[i + 1], LoOf(t.ks, i + 1, lo), K(x));
      InOrdersAt(t.cs, i + 1);
      assert InOrder(t.cs[i + 1])[0] in InOrder(t);
    } else {
      var i :| 0 <= i < |t.cs| && x in Seps(t.cs[i]);
      SeparatorInLeaves(t.cs[i], LoOf(t.ks, i, lo), HiOf(t.ks, i, hi), x);
      var y :| y in InOrder(t.cs[i]) && K(y) == K(x);
      InOrdersAt(t.cs, i);
      assert y in InOrder(t);
    }
  }

  /** What the index answers points at a record with the identifier asked for, which the leaves hold as well. */
  lemma FoundPoints(b: Bucket, log: seq<Doc>, t: Tree, n: nat, id: Id)
    requires Sound(b, log, t, n)
    ensures var found := Lookup(b, t, Rank(id));
            (found.Some? ==> found.value.key == id && Points(log, found.value)) &&
            (found.Some? <==> LeafPosition(t, id).Some?)
  {
    LookupReads(b, t, Rank(id), -1, None);
    var found := Lookup(b, t, Rank(id));
    var s := Find(Seps(t), Rank(id));
    if s.Some? {
      SeparatorInLeaves(t, -1, None, s.value);
      var y :| y in InOrder(t) && K(y) == K(s.value);
    }
    if found.Some? {
      CompareIsRankOrder(found.value.key, id);
    }
  }

  lemma LeafPoints(b: Bucket, log: seq<Doc>, t: Tree, n: nat, id: Id) returns (r: nat)
    requires Sound(b, log, t, n) && LeafPosition(t, id).Some?
    ensures r < |log| && Offset(log, r) == LeafPosition(t, id).value && Ident(log[r]) == id
  {
    var e := Find(InOrder(t), Rank(id)).value;
    CompareIsRankOrder(e.key, id);
    r := Target(log, e);
  }

  // ---- Appending a record ----------------------------------------------------------------------------

  lemma StillPoints(log: seq<Doc>, d: Doc, e: Entry)
    requires AllStored(log) && Stored(d) && Points(log, e)
    ensures AllStored(log + [d]) && Points(log + [d], e)
  {
    var r := Target(log, e);
    OffsetsBefore(log, d, r);
    assert PointsAt(log + [d], e, r);
  }

  lemma LastPoints(log: seq<Doc>, d: Doc, e: Entry)
    requires AllStored(log) && Stored(d) && e.key == Ident(d) && e.posData == |DocsBytes(log)|
    ensures AllStored(log + [d]) && Points(log + [d], e)
  {
    OffsetsBefore(log, d, |log|);
    assert PointsAt(log + [d], e, |log|);
  }

  // ---- insert ----------------------------------------------------------------------------------------

  function NewEntry(log: seq<Doc>, d: Doc): Entry
    requires Identified(d)
  {
    Entry(Ident(d), Ident(d), |DocsBytes(log)|)
  }

  lemma InsertKeepsSound(b: Bucket, log: seq<Doc>, t: Tree, n: nat, d: Doc)
    requires Sound(b, log, t, n) && Stored(d) && LeafPosition(t, Ident(d)) == None
    ensures Sound(b, log + [d], InsertRoot(b, t, NewEntry(log, d)), NewHeight(b, t, NewEntry(log, d), n))
  {
    var e := NewEntry(log, d);
    var t' := InsertRoot(b, t, e);
    AddReads(b, t, n, e, e.key);
    InsertConserves(b, t, e);
    forall x | x in InOrder(t') ensures Points(log + [d], x) {
      assert x in multiset(InOrder(t)) + multiset{e};
      if x == e {
        LastPoints(log, d, e);
      } else {
        StillPoints(log, d, x);
      }
    }
    forall x | x in Seps(t') ensures Points(log + [d], x) {
      InsertSeps(b, t, e, x);
      if x in Seps(t) {
        StillPoints(log, d, x);
      }
    }
  }

  /** After the insertion of a new identifier the store holds one document more. */
  lemma InsertKeepsExact(b: Bucket, log: seq<Doc>, t: Tree, n: nat, d: Doc)
    requires Sound(b, log, t, n) && Exact(log, t) && Stored(d) && Status(d) == ACTIVE &&
             LeafPosition(t, Ident(d)) == None
    ensures AllStored(log + [d]) && Exact(log + [d], InsertRoot(b, t, NewEntry(log, d)))
    ensures Live(log + [d]) == Live(log) + [d]
  {
    var e := NewEntry(log, d);
    var log', t' := log + [d], InsertRoot(b, t, e);
    forall r | 0 <= r < |log'|
      ensures Stored(log'[r])
      ensures Status(log'[r]) != UPDATED <==> LeafPosition(t', Ident(log'[r])) == Some(Offset(log', r))
    {
      OffsetsBefore(log, d, r);
      AddReads(b, t, n, e, Ident(log'[r]));
      if r < |log| {
        OffsetsBefore(log, d, |log|);
        OffsetsAscend(log', r, |log|);
      }
    }
    assert log'[..|log|] == log;
  }

  // ---- Marking a record ------------------------------------------------------------------------------

  lemma MarkKeepsPoints(log: seq<Doc>, r: nat, status: int, e: Entry)
    requires AllStored(log) && r < |log| && Fits(status, 4) && Points(log, e)
    ensures var log' := log[r := WithStatus(log[r], status)]; AllStored(log') && Points(log', e)
  {
    MarkKeepsStored(log, r, status);
    var q := Target(log, e);
    OffsetsStay(log, r, WithStatus(log[r], status), q);
    assert PointsAt(log[r := WithStatus(log[r], status)], e, q);
  }

  lemma MarkKeepsStored(log: seq<Doc>, r: nat, status: int)
    requires AllStored(log) && r < |log| && Fits(status, 4)
    ensures var d := WithStatus(log[r], status);
            Stored(d) && AllStored(log[r := d]) && Ident(d) == Ident(log[r]) && Status(d) == status &&
            |Encode(d)| == |Encode(log[r])|
  {
    StatusRewrite(log[r], status);
  }

  lemma MarkKeepsSound(b: Bucket, log: seq<Doc>, t: Tree, n: nat, r: nat, status: int)
    requires Sound(b, log, t, n) && r < |log| && Fits(status, 4)
    ensures Sound(b, log[r := WithStatus(log[r], status)], t, n)
  {
    MarkKeepsStored(log, r, status);
    forall e | e in InOrder(t) ensures Points(log[r := WithStatus(log[r], status)], e) {
      MarkKeepsPoints(log, r, status, e);
    }
    forall e | e in Seps(t) ensures Points(log[r := WithStatus(log[r], status)], e) {
      MarkKeepsPoints(log, r, status, e);
    }
  }

  lemma {:induction false} LiveIsIdentified(log: seq<Doc>)
    requires AllStored(log)
    ensures forall i :: 0 <= i < |Live(log)| ==> Identified(Live(log)[i]) && Live(log)[i] in log
  {
    if log != [] {
      LiveIsIdentified(log[..|log| - 1]);
    }
  }

  lemma {:induction false} OthersAll(ds: seq<Doc>, id: Id)
    requires forall i :: 0 <= i < |ds| ==> Identified(ds[i]) && Ident(ds[i]) != id
    ensures Others(ds, id) == ds
  {
    if ds != [] {
      OthersAll(ds[..|ds| - 1], id);
    }
  }

  /** Of all records with the identifier at most record r is live. */
  ghost predicate OnlyLive(log: seq<Doc>, r: nat, id: Id)
    requires AllStored(log)
  {
    forall q {:trigger log[q]} :: 0 <= q < |log| && q != r && Ident(log[q]) == id ==> Status(log[q]) != ACTIVE
  }

  lemma {:induction false} NoneLive(log: seq<Doc>, id: Id)
    requires AllStored(log) && OnlyLive(log, |log|, id)
    ensures forall i :: 0 <= i < |Live(log)| ==> Identified(Live(log)[i]) && Ident(Live(log)[i]) != id
  {
    if log != [] {
      assert AllStored(log[..|log| - 1]);
      NoneLive(log[..|log| - 1], id);
    }
  }

  ghost predicate AllIdentified(ds: seq<Doc>) {
    forall i :: 0 <= i < |ds| ==> Identified(ds[i])
  }

  /** Taking the only live record of an identifier out of the active ones takes its document out of the store. */
  lemma {:induction false} MarkedLive(log: seq<Doc>, r: nat, d: Doc)
    requires AllStored(log) && r < |log| && Stored(d) && Ident(d) == Ident(log[r]) && Status(d) != ACTIVE
    requires OnlyLive(log, r, Ident(d))
    ensures AllStored(log[r := d]) && AllIdentified(Live(log)) && Live(log[r := d]) == Others(Live(log), Ident(d))
  {
    LiveIsIdentified(log);
    if r == |log| - 1 {
      MarkedLast(log, d);
    } else {
      var before := log[..|log| - 1];
      assert AllStored(before) && OnlyLive(before, r, Ident(d));
      MarkedLive(before, r, d);
      assert log[r := d][..|log| - 1] == before[r := d];
      MarkedEarlier(log, log[r := d], Ident(d));
    }
  }

  lemma LiveLast(log: seq<Doc>)
    requires AllStored(log) && log != []
    ensures AllStored(log[..|log| - 1])
    ensures var before := log[..|log| - 1];
            Live(log) == if Status(log[|log| - 1]) == ACTIVE then Live(before) + [log[|log| - 1]] else Live(before)
  {
  }

  lemma MarkedLast(log: seq<Doc>, d: Doc)
    requires AllStored(log) && log != [] && Stored(d) && Status(d) != ACTIVE && Ident(d) == Ident(log[|log| - 1])
    requires OnlyLive(log, |log| - 1, Ident(d)) && AllIdentified(Live(log))
    ensures AllStored(log[|log| - 1 := d]) && Live(log[|log| - 1 := d]) == Others(Live(log), Ident(d))
  {
    var n := |log| - 1;
    var before := log[..n];
    assert AllStored(before) && OnlyLive(before, n, Ident(d));
    NoneLive(before, Ident(d));
    OthersAll(Live(before), Ident(d));
    assert log[n := d][..n] == before;
    LiveLast(log[n := d]);
    OthersButLast(log, Ident(d));
  }

  lemma OthersButLast(log: seq<Doc>, id: Id)
    requires AllStored(log) && log != [] && Ident(log[|log| - 1]) == id && AllIdentified(Live(log))
    ensures AllStored(log[..|log| - 1]) && AllIdentified(Live(log[..|log| - 1]))
    ensures Others(Live(log), id) == Others(Live(log[..|log| - 1]), id)
  {
    var n := |log| - 1;
    var ds := Live(log[..n]);
    LiveLast(log);
    assert forall i :: 0 <= i < |ds| ==> ds[i] == Live(log)[i];
    if Status(log[n]) == ACTIVE {
      OthersSnoc(ds, log[n], id);
    }
  }

  lemma MarkedEarlier(log: seq<Doc>, log': seq<Doc>, id: Id)
    requires AllStored(log) && AllStored(log') && |log'| == |log| > 0 && log'[|log| - 1] == log[|log| - 1]
    requires AllIdentified(Live(log)) && AllStored(log[..|log| - 1]) && AllStored(log'[..|log| - 1])
    requires AllIdentified(Live(log[..|log| - 1])) && Live(log'[..|log| - 1]) == Others(Live(log[..|log| - 1]), id)
    requires Ident(log[|log| - 1]) == id ==> Status(log[|log| - 1]) != ACTIVE
    ensures Live(log') == Others(Live(log), id)
  {
    LiveLast(log);
    LiveLast(log');
    if Status(log[|log| - 1]) == ACTIVE {
      OthersSnoc(Live(log[..|log| - 1]), log[|log| - 1], id);
    }
  }

  lemma OthersSnoc(ds: seq<Doc>, d: Doc, id: Id)
    requires Identified(d) && forall i :: 0 <= i < |ds| ==> Identified(ds[i])
    ensures Others(ds + [d], id) == Others(ds, id) + if Ident(d) != id then [d] else []
  {
    assert (ds + [d])[..|ds|] == ds;
  }

  // ---- update ----------------------------------------------------------------------------------------

  /** The records after an update: the one the index answered with marked, the new one behind all others. */
  function UpdatedLog(log: seq<Doc>, r: nat, d: Doc): seq<Doc>
    requires r < |log|
  {
    log[r := WithStatus(log[r], UPDATED)] + [d]
  }

  lemma UpdateKeepsSound(b: Bucket, log: seq<Doc>, t: Tree, n: nat, r: nat, d: Doc)
    requires Sound(b, log, t, n) && r < |log| && Stored(d)
    ensures Sound(b, UpdatedLog(log, r, d), Update(b, t, Rank(Ident(d)), |DocsBytes(log)|), n)
  {
    MarkKeepsSound(b, log, t, n, r, UPDATED);
    MarkKeepsLength(log, r, UPDATED);
    AppendKeepsSound(b, log[r := WithStatus(log[r], UPDATED)], t, n, d, |DocsBytes(log)|);
  }

  lemma MarkKeepsLength(log: seq<Doc>, r: nat, status: int)
    requires AllStored(log) && r < |log| && Fits(status, 4)
    ensures |DocsBytes(log[r := WithStatus(log[r], status)])| == |DocsBytes(log)|
  {
    StatusRewrite(log[r], status);
    RewriteInPlace(log, r, WithStatus(log[r], status));
    RecordInLog(log, r);
  }

  lemma AppendKeepsSound(b: Bucket, log: seq<Doc>, t: Tree, n: nat, d: Doc, pos: nat)
    requires Sound(b, log, t, n) && Stored(d) && pos == |DocsBytes(log)|
    ensures Sound(b, log + [d], Update(b, t, Rank(Ident(d)), pos), n)
  {
    var k := Rank(Ident(d));
    UpdateReads(b, t, n, Ident(d), pos, Ident(d));
    UpdateLeaves(b, t, k, pos, -1, None);
    UpdateKeepsSeps(b, t, k, pos);
    AllRepositionedPoint(log, InOrder(t), d, pos);
    AllStillPoint(log, Seps(t), d);
  }

  lemma AllStillPoint(log: seq<Doc>, es: seq<Entry>, d: Doc)
    requires AllStored(log) && Stored(d) && (forall e :: e in es ==> Points(log, e))
    ensures AllStored(log + [d]) && forall e :: e in es ==> Points(log + [d], e)
  {
    forall x | x in es ensures Points(log + [d], x) {
      StillPoints(log, d, x);
    }
  }

  lemma AllRepositionedPoint(log: seq<Doc>, es: seq<Entry>, d: Doc, pos: nat)
    requires AllStored(log) && Stored(d) && (forall e :: e in es ==> Points(log, e)) && pos == |DocsBytes(log)|
    ensures AllStored(log + [d]) && forall x :: x in Repositioned(es, Rank(Ident(d)), pos) ==> Points(log + [d], x)
  {
    forall x | x in Repositioned(es, Rank(Ident(d)), pos) ensures Points(log + [d], x) {
      RepositionedPoints(log, es, d, pos, x);
    }
  }

  lemma RepositionedPoints(log: seq<Doc>, es: seq<Entry>, d: Doc, pos: nat, x: Entry)
    requires AllStored(log) && Stored(d) && (forall e :: e in es ==> Points(log, e)) && pos == |DocsBytes(log)|
    requires x in Repositioned(es, Rank(Ident(d)), pos)
    ensures AllStored(log + [d]) && Points(log + [d], x)
  {
    RepositionedMember(es, Rank(Ident(d)), pos, x);
    if x in es {
      StillPoints(log, d, x);
    } else {
      CompareIsRankOrder(x.key, Ident(d));
      LastPoints(log, d, x);
    }
  }

  lemma RepositionedMember(es: seq<Entry>, k: nat, pos: int, x: Entry)
    requires x in Repositioned(es, k, pos)
    ensures x in es || (K(x) == k && x.posData == pos)
  {
    var i :| 0 <= i < |es| && Repositioned(es, k, pos)[i] == x;
  }

  /** The records after marking and appending, one by one. */
  lemma UpdatedAt(log: seq<Doc>, r: nat, d: Doc, q: nat)
    requires AllStored(log) && r < |log| && Stored(d) && q <= |log|
    ensures AllStored(UpdatedLog(log, r, d)) && Offset(UpdatedLog(log, r, d), q) == Offset(log, q)
    ensures q < |log| ==> Ident(UpdatedLog(log, r, d)[q]) == Ident(log[q])
    ensures q < |log| ==> Status(UpdatedLog(log, r, d)[q]) == if q == r then UPDATED else Status(log[q])
  {
    var log1 := log[r := WithStatus(log[r], UPDATED)];
    MarkKeepsStored(log, r, UPDATED);
    OffsetsStay(log, r, WithStatus(log[r], UPDATED), q);
    OffsetsBefore(log1, d, q);
  }

  /** An update keeps the store exact if and only if the record the index answers with is the one the leaves point
      at. Then the store holds the new document, as the last one, in place of the old. */
  lemma UpdateKeepsExact(b: Bucket, log: seq<Doc>, t: Tree, n: nat, r: nat, d: Doc)
    requires Sound(b, log, t, n) && Exact(log, t) && Stored(d) && Status(d) == ACTIVE
    requires FoundPosition(b, t, Ident(d)).Some? && PointsAt(log, Lookup(b, t, Rank(Ident(d))).value, r)
    ensures AllStored(UpdatedLog(log, r, d))
    ensures Exact(UpdatedLog(log, r, d), Update(b, t, Rank(Ident(d)), |DocsBytes(log)|)) <==>
            FoundPosition(b, t, Ident(d)) == LeafPosition(t, Ident(d))
    ensures FoundPosition(b, t, Ident(d)) == LeafPosition(t, Ident(d)) ==>
              AllIdentified(Live(log)) && Live(UpdatedLog(log, r, d)) == Others(Live(log), Ident(d)) + [d]
  {
    var id := Ident(d);
    FoundPoints(b, log, t, n, id);
    var p := LeafPoints(b, log, t, n, id);
    UpdatedAt(log, r, d, p);
    if FoundPosition(b, t, id) == LeafPosition(t, id) {
      CurrentUpdateKeepsExact(b, log, t, n, r, d);
    } else {
      UpdateReads(b, t, n, id, |DocsBytes(log)|, id);
      OffsetsBefore(log, d, p);
      OffsetsAscend(log, p, |log|);
      assert Status(UpdatedLog(log, r, d)[p]) == Status(log[p]) != UPDATED;
    }
  }

  lemma CurrentUpdateKeepsExact(b: Bucket, log: seq<Doc>, t: Tree, n: nat, r: nat, d: Doc)
    requires Sound(b, log, t, n) && Exact(log, t) && Stored(d) && Status(d) == ACTIVE
    requires r < |log| && Ident(log[r]) == Ident(d) && LeafPosition(t, Ident(d)) == Some(Offset(log, r))
    ensures AllStored(UpdatedLog(log, r, d))
    ensures Exact(UpdatedLog(log, r, d), Update(b, t, Rank(Ident(d)), |DocsBytes(log)|))
    ensures AllIdentified(Live(log)) && Live(UpdatedLog(log, r, d)) == Others(Live(log), Ident(d)) + [d]
  {
    var id, log', pos := Ident(d), UpdatedLog(log, r, d), |DocsBytes(log)|;
    var t' := Update(b, t, Rank(id), pos);
    UpdatedAt(log, r, d, |log|);
    OffsetsBefore(log, d, |log|);
    forall q | 0 <= q < |log'|
      ensures Status(log'[q]) != UPDATED <==> LeafPosition(t', Ident(log'[q])) == Some(Offset(log', q))
    {
      UpdatedAt(log, r, d, q);
      UpdateReads(b, t, n, id, pos, Ident(log'[q]));
      if q < |log| {
        OffsetsAscend(log, q, |log|);
        OffsetIsUnique(log, q, r);
      }
    }
    CurrentIsOnlyLive(log, t, r);
    MarkKeepsStored(log, r, UPDATED);
    MarkedLive(log, r, WithStatus(log[r], UPDATED));
    assert log'[..|log|] == log[r := WithStatus(log[r], UPDATED)];
  }

  lemma OffsetIsUnique(log: seq<Doc>, q: nat, r: nat)
    requires q < |log| && r < |log|
    ensures Offset(log, q) == Offset(log, r) <==> q == r
  {
    if q < r {
      OffsetsAscend(log, q, r);
    } else if r < q {
      OffsetsAscend(log, r, q);
    }
  }

  lemma CurrentIsOnlyLive(log: seq<Doc>, t: Tree, r: nat)
    requires AllStored(log) && Exact(log, t) && r < |log| && LeafPosition(t, Ident(log[r])) == Some(Offset(log, r))
    ensures OnlyLive(log, r, Ident(log[r]))
  {
    forall q | 0 <= q < |log| && q != r && Ident(log[q]) == Ident(log[r]) ensures Status(log[q]) != ACTIVE {
      OffsetIsUnique(log, q, r);
    }
  }

  // ---- remove ----------------------------------------------------------------------------------------

  /** Marking a record as deleted keeps the store exact if and only if it is the one the leaves point at. Then the
      store holds the document no longer. */
  lemma RemoveKeepsExact(b: Bucket, log: seq<Doc>, t: Tree, n: nat, r: nat, id: Id)
    requires Sound(b, log, t, n) && Exact(log, t)
    requires FoundPosition(b, t, id).Some? && PointsAt(log, Lookup(b, t, Rank(id)).value, r)
    ensures var log' := log[r := WithStatus(log[r], DELETED)];
            AllStored(log') && (Exact(log', t) <==> FoundPosition(b, t, id) == LeafPosition(t, id)) &&
            (FoundPosition(b, t, id) == LeafPosition(t, id) ==>
               AllIdentified(Live(log)) && Live(log') == Others(Live(log), id))
  {
    FoundPoints(b, log, t, n, id);
    MarkKeepsStored(log, r, DELETED);
    if FoundPosition(b, t, id) == LeafPosition(t, id) {
      CurrentIsOnlyLive(log, t, r);
      MarkedLive(log, r, WithStatus(log[r], DELETED));
      MarkedCurrentIsExact(log, t, r, WithStatus(log[r], DELETED));
    } else {
      OffsetsStay(log, r, WithStatus(log[r], DELETED), r);
      assert Status(log[r := WithStatus(log[r], DELETED)][r]) == DELETED;
    }
  }

  lemma MarkedCurrentIsExact(log: seq<Doc>, t: Tree, r: nat, d: Doc)
    requires AllStored(log) && Exact(log, t) && r < |log| && LeafPosition(t, Ident(log[r])) == Some(Offset(log, r))
    requires Stored(d) && Ident(d) == Ident(log[r]) && Status(d) != UPDATED && |Encode(d)| == |Encode(log[r])|
    ensures AllStored(log[r := d]) && Exact(log[r := d], t)
  {
    var log' := log[r := d];
    forall q {:trigger log'[q]} | 0 <= q < |log'|
      ensures Status(log'[q]) != UPDATED <==> LeafPosition(t, Ident(log'[q])) == Some(Offset(log', q))
    {
      OffsetsStay(log, r, d, q);
    }
  }
}
