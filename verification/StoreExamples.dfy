/** A run of the store that goes wrong: documents inserted until the first leaf splits, and then an update and a
    removal of the one whose identifier was promoted. */
module StoreExamples {
  import opened Ids
  import opened ByteStreams
  import opened Documents
  import opened Filters
  import opened Records
  import opened BTree
  import opened BTreeProofs
  import opened BTreeReading
  import opened BTreeRuns
  import opened Stores
  import opened StoreRuns
  import opened StoreFaults

  // ---- Up to the first split -------------------------------------------------------------------------

  /** New active records, the identifiers in descending order. */
  ghost predicate Descends(ds: seq<Doc>) {
    AllIdentified(ds) && (forall i :: 0 <= i < |ds| ==> Proper(InsertDoc(ds[i]))) &&
    forall i, j :: 0 <= i < j < |ds| ==> Rank(Ident(ds[j])) < Rank(Ident(ds[i]))
  }

  /** The store after the insertion of the documents, one after another. */
  ghost function Grown(b: Bucket, ds: seq<Doc>): (s: Store)
    requires AllIdentified(ds)
    ensures s.log == ds && Shaped(b, s.t)
  {
    if ds == [] then Store([], Leaf([]))
    else
      var before := ds[..|ds| - 1];
      Store(ds, InsertRoot(b, Grown(b, before).t, NewEntry(before, ds[|ds| - 1])))
  }

  ghost function Entries(ds: seq<Doc>): (es: seq<Entry>)
    requires AllIdentified(ds)
    ensures |es| == |ds| && forall i :: 0 <= i < |es| ==> es[i].key == Ident(ds[i])
  {
    if ds == [] then [] else Entries(ds[..|ds| - 1]) + [NewEntry(ds[..|ds| - 1], ds[|ds| - 1])]
  }

  lemma SmallestLast(b: Bucket, es: seq<Entry>, e: Entry)
    requires |es| <= b && forall i :: 0 <= i < |es| ==> K(e) < K(es[i])
    ensures Insert(b, Leaf(es), e) == OverflowLeaf(b, es + [e])
  {
    InsertPosUnique(es, K(e), |es|);
    assert InsertAt(es, |es|, e) == es + [e];
  }

  /** One document more in the store, and one entry more. */
  lemma OneMore(b: Bucket, before: seq<Doc>, d: Doc)
    requires AllIdentified(before) && Identified(d)
    ensures AllIdentified(before + [d])
    ensures Grown(b, before + [d]).t == InsertRoot(b, Grown(b, before).t, NewEntry(before, d))
    ensures Entries(before + [d]) == Entries(before) + [NewEntry(before, d)]
  {
    assert (before + [d])[..|before|] == before;
  }

  lemma LastIsSmallest(ds: seq<Doc>, n: nat)
    requires Descends(ds) && n == |ds| - 1
    ensures Descends(ds[..n]) && ds == ds[..n] + [ds[n]]
    ensures forall i :: 0 <= i < n ==> K(NewEntry(ds[..n], ds[n])) < K(Entries(ds[..n])[i])
  {
  }

  lemma MoreIsOverflow(b: Bucket, ds: seq<Doc>, n: nat)
    requires Descends(ds) && n == |ds| - 1 <= b && Grown(b, ds[..n]).t == Leaf(Entries(ds[..n]))
    ensures Grown(b, ds).t == Finish(OverflowLeaf(b, Entries(ds)))
  {
    LastIsSmallest(ds, n);
    OneMore(b, ds[..n], ds[n]);
    SmallestLast(b, Entries(ds[..n]), NewEntry(ds[..n], ds[n]));
  }

  lemma {:induction false} GrownIsLeaf(b: Bucket, ds: seq<Doc>)
    requires Descends(ds) && |ds| <= b
    ensures Grown(b, ds).t == Leaf(Entries(ds))
  {
    if ds != [] {
      LastIsSmallest(ds, |ds| - 1);
      GrownIsLeaf(b, ds[..|ds| - 1]);
      MoreIsOverflow(b, ds, |ds| - 1);
    }
  }

  lemma LeafSplits(b: Bucket, es: seq<Entry>)
    requires |es| == b + 1
    ensures Find(Seps(Finish(OverflowLeaf(b, es))), K(es[b / 2 + 1])).Some?
  {
    var m := b / 2 + 1;
    SplitSeps(Leaf(es[..m]), es[m], Leaf(es[m..]), es[m]);
  }

  lemma GrownIsSplit(b: Bucket, ds: seq<Doc>)
    requires Descends(ds) && |ds| == b + 1
    ensures Grown(b, ds).t == Finish(OverflowLeaf(b, Entries(ds)))
  {
    LastIsSmallest(ds, b);
    GrownIsLeaf(b, ds[..b]);
    MoreIsOverflow(b, ds, b);
  }

  lemma GrownSplits(b: Bucket, ds: seq<Doc>)
    requires Descends(ds) && |ds| == b + 1
    ensures Find(Seps(Grown(b, ds).t), Rank(Ident(ds[b / 2 + 1]))).Some?
  {
    GrownIsSplit(b, ds);
    LeafSplits(b, Entries(ds));
  }

  function Inserts(ds: seq<Doc>): (ops: seq<StoreOp>)
    ensures |ops| == |ds|
  {
    seq(|ds|, i requires 0 <= i < |ds| => InsertDoc(ds[i]))
  }

  ghost function States(b: Bucket, ds: seq<Doc>): (ss: seq<Store>)
    requires AllIdentified(ds)
    ensures |ss| == |ds| + 1
  {
    seq(|ds| + 1, i requires 0 <= i <= |ds| => Grown(b, ds[..i]))
  }

  lemma LeafIsNew(es: seq<Entry>, id: Id)
    requires forall i :: 0 <= i < |es| ==> es[i].key != id
    ensures LeafPosition(Leaf(es), id) == None
  {
    var r := Find(es, Rank(id));
    if r.Some? {
      CompareIsRankOrder(r.value.key, id);
    }
  }

  lemma NextIsNew(b: Bucket, ds: seq<Doc>, i: nat)
    requires Descends(ds) && i < |ds| <= b + 1
    ensures LeafPosition(Grown(b, ds[..i]).t, Ident(ds[i])) == None
  {
    GrownIsLeaf(b, ds[..i]);
    LeafIsNew(Entries(ds[..i]), Ident(ds[i]));
  }

  lemma GrownStep(b: Bucket, before: seq<Doc>, d: Doc)
    requires Descends(before) && Proper(InsertDoc(d)) && LeafPosition(Grown(b, before).t, Ident(d)) == None
    ensures AllIdentified(before + [d]) && Steps(b, Grown(b, before), InsertDoc(d), Grown(b, before + [d]))
  {
    OneMore(b, before, d);
  }

  lemma NextInsertSteps(b: Bucket, ds: seq<Doc>, i: nat)
    requires Descends(ds) && i < |ds| <= b + 1
    ensures Steps(b, Grown(b, ds[..i]), InsertDoc(ds[i]), Grown(b, ds[..i + 1]))
  {
    NextIsNew(b, ds, i);
    Prefixes(ds, i);
    GrownStep(b, ds[..i], ds[i]);
  }

  lemma Prefixes(ds: seq<Doc>, i: nat)
    requires Descends(ds) && i < |ds|
    ensures Descends(ds[..i]) && Descends(ds[..i + 1]) && ds[..i + 1] == ds[..i] + [ds[i]]
  {
  }

  lemma InsertsAreRun(b: Bucket, ds: seq<Doc>)
    requires Descends(ds) && |ds| <= b + 1
    ensures IsRun(b, States(b, ds), Inserts(ds))
  {
    var ss, ops := States(b, ds), Inserts(ds);
    assert ds[..0] == [];
    forall i {:trigger ops[i]} | 0 <= i < |ops| ensures Steps(b, ss[i], ops[i], ss[i + 1]) {
      NextInsertSteps(b, ds, i);
    }
  }

  // ---- One more operation ----------------------------------------------------------------------------

  lemma NextUpdate(b: Bucket, s: Store, n: nat, d: Doc) returns (s': Store)
    requires Sound(b, s.log, s.t, n) && Proper(UpdateDoc(d)) && Find(Seps(s.t), Rank(Ident(d))).Some?
    ensures Steps(b, s, UpdateDoc(d), s') && Sound(b, s'.log, s'.t, n) && Seps(s'.t) == Seps(s.t)
  {
    LookupReads(b, s.t, Rank(Ident(d)), -1, None);
    FoundPoints(b, s.log, s.t, n, Ident(d));
    var r := Stores.Target(s.log, Lookup(b, s.t, Rank(Ident(d))).value);
    s' := UpdateSteps(b, s, n, d, r);
    UpdateKeepsSeps(b, s.t, Rank(Ident(d)), |DocsBytes(s.log)|);
  }

  lemma NextRemove(b: Bucket, s: Store, n: nat, id: Id) returns (s': Store)
    requires Sound(b, s.log, s.t, n) && Find(Seps(s.t), Rank(id)).Some?
    ensures Steps(b, s, RemoveDoc(id), s')
  {
    LookupReads(b, s.t, Rank(id), -1, None);
    FoundPoints(b, s.log, s.t, n, id);
    var r := Stores.Target(s.log, Lookup(b, s.t, Rank(id)).value);
    s' := RemoveSteps(b, s, n, id, r);
  }

  lemma RunSnoc(b: Bucket, ss: seq<Store>, ops: seq<StoreOp>, op: StoreOp, s': Store)
    requires IsRun(b, ss, ops) && Steps(b, ss[|ops|], op, s')
    ensures IsRun(b, ss + [s'], ops + [op])
  {
    var ss', ops' := ss + [s'], ops + [op];
    forall i {:trigger ops'[i]} | 0 <= i < |ops'| ensures Steps(b, ss'[i], ops'[i], ss'[i + 1]) {
      if i < |ops| {
        assert ops[i] == ops'[i];
      }
    }
  }

  /** An update and then a removal of one document. */
  function Then(ops: seq<StoreOp>, d: Doc): seq<StoreOp>
    requires Identified(d)
  {
    ops + [UpdateDoc(d)] + [RemoveDoc(Ident(d))]
  }

  /** A run that ends with the removal of d and leaves d in the store. */
  ghost predicate Loses(b: Bucket, ss: seq<Store>, ops: seq<StoreOp>, d: Doc) {
    IsRun(b, ss, ops) && ops != [] && Identified(d) && ops[|ops| - 1] == RemoveDoc(Ident(d)) &&
    AllStored(ss[|ops|].log) && d in Live(ss[|ops|].log)
  }

  /** For any bucket and any documents, one more than a leaf holds, whose identifiers descend: there is such a run. */
  lemma RemovedDocumentStays(b: Bucket, ds: seq<Doc>) returns (ss: seq<Store>)
    requires Descends(ds) && |ds| == b + 1
    ensures Loses(b, ss, Then(Inserts(ds), ds[b / 2 + 1]), ds[b / 2 + 1])
  {
    GrownPromotes(b, ds);
    ss := UpdateAndRemove(b, States(b, ds), Inserts(ds), ds[b / 2 + 1]);
  }

  lemma GrownPromotes(b: Bucket, ds: seq<Doc>)
    requires Descends(ds) && |ds| == b + 1
    ensures Promotes(b, States(b, ds), Inserts(ds), ds[b / 2 + 1])
  {
    InsertsAreRun(b, ds);
    PromotedIsNext(b, ds);
  }

  lemma PromotedIsNext(b: Bucket, ds: seq<Doc>)
    requires Descends(ds) && |ds| == b + 1
    ensures UpdatesSeparatorNext(States(b, ds), Inserts(ds), ds[b / 2 + 1])
  {
    assert ds[..|ds|] == ds;
    GrownSplits(b, ds);
  }

  /** A run of insertions that made the identifier of d a separator. */
  ghost predicate Promotes(b: Bucket, ss: seq<Store>, ops: seq<StoreOp>, d: Doc) {
    IsRun(b, ss, ops) && OnlyInserts(ops) && UpdatesSeparatorNext(ss, ops, d)
  }

  lemma UpdateAndRemove(b: Bucket, ss: seq<Store>, ops: seq<StoreOp>, d: Doc) returns (ss': seq<Store>)
    requires Promotes(b, ss, ops, d)
    ensures Identified(d) && Loses(b, ss', Then(ops, d), d)
  {
    var n := RunIsSound(b, ss, ops, |ops|);
    var s1 := NextUpdate(b, ss[|ops|], n, d);
    var s2 := NextRemove(b, s1, n, Ident(d));
    RunSnoc(b, ss, ops, UpdateDoc(d), s1);
    RunSnoc(b, ss + [s1], ops + [UpdateDoc(d)], RemoveDoc(Ident(d)), s2);
    RemovalFails(b, ss, ops, n, d, s1, s2);
    ss' := ss + [s1] + [s2];
    assert ss'[|ops| + 2] == s2;
  }

  predicate OnlyInserts(ops: seq<StoreOp>) {
    forall i :: 0 <= i < |ops| ==> ops[i].InsertDoc?
  }

  ghost predicate UpdatesSeparatorNext(ss: seq<Store>, ops: seq<StoreOp>, d: Doc) {
    |ops| < |ss| && Proper(UpdateDoc(d)) && UpdatesSeparator(ss[|ops|], UpdateDoc(d), Ident(d))
  }

  /** After insertions only, the store is exact and the index current for every identifier. */
  lemma InsertsAreExact(b: Bucket, ss: seq<Store>, ops: seq<StoreOp>, n: nat, id: Id)
    requires IsRun(b, ss, ops) && OnlyInserts(ops) && Sound(b, ss[|ops|].log, ss[|ops|].t, n)
    ensures ExactStore(ss[|ops|]) && FoundPosition(b, ss[|ops|].t, id) == LeafPosition(ss[|ops|].t, id)
  {
    RunIsExactUnlessReused(b, ss, ops);
    OthersAreInSync(b, ss, ops, |ops|, id);
    SyncIsCurrent(b, ss[|ops|].t, n, id);
  }

  lemma RemovalFails(b: Bucket, ss: seq<Store>, ops: seq<StoreOp>, n: nat, d: Doc, s1: Store, s2: Store)
    requires IsRun(b, ss, ops) && OnlyInserts(ops) && Sound(b, ss[|ops|].log, ss[|ops|].t, n)
    requires UpdatesSeparatorNext(ss, ops, d)
    requires Steps(b, ss[|ops|], UpdateDoc(d), s1) && Steps(b, s1, RemoveDoc(Ident(d)), s2)
    ensures AllStored(s2.log) && d in Live(s2.log)
  {
    InsertsAreExact(b, ss, ops, n, Ident(d));
    LostRemoval(b, ss[|ops|], n, d, s1, s2);
  }

  lemma LastIsIn<T>(s: seq<T>, x: T)
    ensures x in s + [x]
  {
    assert (s + [x])[|s|] == x;
  }

  lemma UpdatedIsLive(b: Bucket, s: Store, d: Doc, s': Store)
    requires Steps(b, s, UpdateDoc(d), s')
    ensures AllStored(s'.log) && d in Live(s'.log)
  {
    var r: nat :| Updates(b, s, d, r, s');
    var log := s.log[r := WithStatus(s.log[r], UPDATED)];
    MarkKeepsStored(s.log, r, UPDATED);
    LiveAppended(log, d);
    LastIsIn(Live(log), d);
  }

  lemma LostRemoval(b: Bucket, s: Store, n: nat, d: Doc, s1: Store, s2: Store)
    requires Sound(b, s.log, s.t, n) && ExactStore(s) && Steps(b, s, UpdateDoc(d), s1)
    requires Current(b, s, UpdateDoc(d)) && UpdatesSeparator(s, UpdateDoc(d), Ident(d))
    requires Steps(b, s1, RemoveDoc(Ident(d)), s2)
    ensures AllStored(s2.log) && d in Live(s2.log)
  {
    var n' := SeparatorUpdated(b, s, n, d, s1);
    UpdatedIsLive(b, s, d, s1);
    StaleIsNotCurrent(b, s1.t, n', Ident(d));
    OldStaysUnremoved(b, s1, Ident(d), s2, n');
  }

  // ---- Documents for it ------------------------------------------------------------------------------

  /** A record with a one-byte identifier. */
  function Sample(c: byte): Doc
    requires c != 0
  {
    Doc([Field(ID, StringV([c])), Field(REVISION, StringV([])), Field(STATUS, IntV(ACTIVE))])
  }

  lemma SampleKeys()
    ensures KeyLess(ID, REVISION) && KeyLess(REVISION, STATUS) && KeyLess(ID, STATUS)
  {
    assert REVISION[1..][0] == 114 && STATUS[1..][0] == 115 && ID[1..][0] == 105;
  }

  lemma SmallFits(n: nat)
    requires n <= 100
    ensures Fits(n, 4)
  {
    assert Base(2) == 65536;
  }

  lemma SampleFits(c: byte)
    requires c != 0
    ensures DocFits(Sample(c))
  {
    var d := Sample(c);
    forall n: nat | n <= 100 ensures Fits(n, 4) {
      SmallFits(n);
    }
    assert FieldFits(d.fs[0]) && FieldFits(d.fs[1]) && FieldFits(d.fs[2]);
  }

  lemma SampleInMemory(c: byte)
    requires c != 0
    ensures InMemory(Sample(c))
  {
    SampleKeys();
    LoadedEach(Sample(c).fs);
  }

  lemma SampleIsStored(c: byte)
    requires c != 0
    ensures Stored(Sample(c)) && Status(Sample(c)) == ACTIVE && Ident(Sample(c)) == [c]
  {
    SampleFits(c);
    SampleInMemory(c);
    GetUnique(Sample(c).fs, ID, 0);
    GetUnique(Sample(c).fs, STATUS, 2);
  }

  lemma RankOfByte(c: byte)
    requires c != 0
    ensures Rank([c]) == c
  {
    assert [c][..0] == [];
  }

  function Samples(b: Bucket): (ds: seq<Doc>)
    requires b < 250
    ensures |ds| == b + 1
  {
    seq(b + 1, i requires 0 <= i <= b => Sample(255 - i))
  }

  /** There are such documents; so with the bucket size of the program a run of eight operations goes wrong. */
  lemma SamplesDescend(b: Bucket)
    requires b < 250
    ensures Descends(Samples(b))
  {
    var ds := Samples(b);
    forall i | 0 <= i < |ds| ensures Stored(ds[i]) && Status(ds[i]) == ACTIVE && Rank(Ident(ds[i])) == 255 - i {
      SampleIsStored(255 - i);
      RankOfByte(255 - i);
    }
  }
}
