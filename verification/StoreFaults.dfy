/** Where the store stops being the list of documents: exactly at the operations on identifiers that were updated
    while they stood among the separators. */
module StoreFaults {
  import opened Ids
  import opened ByteStreams
  import opened Documents
  import opened BsonStreams
  import opened Records
  import opened BTree
  import opened BTreeProofs
  import opened BTreeReading
  import opened BTreeRuns
  import opened Stores
  import opened StoreRuns

  // ---- Stale separators ------------------------------------------------------------------------------

  /** A separator points at an older record than the leaf. */
  ghost predicate StaleAt(t: Tree, id: Id) {
    var s := Find(Seps(t), Rank(id));
    s.Some? && LeafPosition(t, id).Some? && s.value.posData < LeafPosition(t, id).value
  }

  lemma StaleIsNotCurrent(b: Bucket, t: Tree, n: nat, id: Id)
    requires WellFormed(b, t, n) && StaleAt(t, id)
    ensures FoundPosition(b, t, id) != LeafPosition(t, id)
  {
    FindIsCurrentUnlessSeparatorIsStale(b, t, n, id);
  }

  /** The position of a record lies before the end of the file. */
  lemma PointsBeforeEnd(log: seq<Doc>, e: Entry)
    requires AllStored(log) && Points(log, e)
    ensures e.posData < |DocsBytes(log)|
  {
    var r := Stores.Target(log, e);
    assert log[..|log|] == log;
    OffsetsAscend(log, r, |log|);
  }

  lemma LeafBeforeEnd(b: Bucket, log: seq<Doc>, t: Tree, n: nat, id: Id)
    requires Sound(b, log, t, n) && LeafPosition(t, id).Some?
    ensures LeafPosition(t, id).value < |DocsBytes(log)|
  {
    PointsBeforeEnd(log, Find(InOrder(t), Rank(id)).value);
  }

  lemma InsertKeepsStale(b: Bucket, t: Tree, n: nat, e: Entry, id: Id)
    requires WellFormed(b, t, n) && LeafPosition(t, e.key) == None && StaleAt(t, id)
    ensures StaleAt(InsertRoot(b, t, e), id)
  {
    var s, t' := Find(Seps(t), Rank(id)).value, InsertRoot(b, t, e);
    AddReads(b, t, n, e, id);
    InsertKeepsSeps(b, t, e, s);
    SepsOrdered(t', -1, None);
    FindUnique(Seps(t'), s);
  }

  lemma UpdateKeepsStale(b: Bucket, s: Store, n: nat, of: Id, id: Id)
    requires Sound(b, s.log, s.t, n) && StaleAt(s.t, id)
    ensures StaleAt(Update(b, s.t, Rank(of), |DocsBytes(s.log)|), id)
  {
    UpdateReads(b, s.t, n, of, |DocsBytes(s.log)|, id);
    UpdateKeepsSeps(b, s.t, Rank(of), |DocsBytes(s.log)|);
    LeafBeforeEnd(b, s.log, s.t, n, id);
  }

  lemma StepKeepsStale(b: Bucket, s: Store, op: StoreOp, s': Store, n: nat, id: Id)
    requires Sound(b, s.log, s.t, n) && Steps(b, s, op, s') && StaleAt(s.t, id)
    ensures StaleAt(s'.t, id)
  {
    match op
    case InsertDoc(d) => InsertKeepsStale(b, s.t, n, NewEntry(s.log, d), id);
    case UpdateDoc(d) => UpdateKeepsStale(b, s, n, Ident(d), id);
    case RemoveDoc(_) =>
  }

  lemma UpdateMakesStale(b: Bucket, s: Store, op: StoreOp, s': Store, n: nat, id: Id)
    requires Sound(b, s.log, s.t, n) && Steps(b, s, op, s') && UpdatesSeparator(s, op, id)
    ensures StaleAt(s'.t, id)
  {
    var sep := Find(Seps(s.t), Rank(id)).value;
    FoundPoints(b, s.log, s.t, n, id);
    PointsBeforeEnd(s.log, sep);
    UpdateReads(b, s.t, n, id, |DocsBytes(s.log)|, id);
    UpdateKeepsSeps(b, s.t, Rank(id), |DocsBytes(s.log)|);
  }

  lemma {:induction false} StaysStale(b: Bucket, ss: seq<Store>, ops: seq<StoreOp>, j: nat, i: nat, id: Id)
    requires IsRun(b, ss, ops) && j < i <= |ops| && UpdatesSeparator(ss[j], ops[j], id)
    ensures StaleAt(ss[i].t, id)
  {
    if j < i - 1 {
      StaysStale(b, ss, ops, j, i - 1, id);
    }
    StaleInRun(b, ss, ops, i - 1, id);
  }

  lemma StaleInRun(b: Bucket, ss: seq<Store>, ops: seq<StoreOp>, i: nat, id: Id)
    requires IsRun(b, ss, ops) && i < |ops| && (StaleAt(ss[i].t, id) || UpdatesSeparator(ss[i], ops[i], id))
    ensures StaleAt(ss[i + 1].t, id)
  {
    var n := RunIsSound(b, ss, ops, i);
    NextIsStale(b, ss[i], ops[i], ss[i + 1], n, id);
  }

  lemma NextIsStale(b: Bucket, s: Store, op: StoreOp, s': Store, n: nat, id: Id)
    requires Sound(b, s.log, s.t, n) && Steps(b, s, op, s') && (StaleAt(s.t, id) || UpdatesSeparator(s, op, id))
    ensures StaleAt(s'.t, id)
  {
    if StaleAt(s.t, id) {
      StepKeepsStale(b, s, op, s', n, id);
    } else {
      UpdateMakesStale(b, s, op, s', n, id);
    }
  }

  // ---- Which operations go wrong ---------------------------------------------------------------------

  /** In any run, right or wrong so far, the index is current for an update or a removal if and only if no earlier
      update of the identifier found it among the separators. */
  lemma CurrentUnlessUpdatedAsSeparator(b: Bucket, ss: seq<Store>, ops: seq<StoreOp>, i: nat)
    requires IsRun(b, ss, ops) && i < |ops| && Proper(ops[i]) && !ops[i].InsertDoc?
    ensures Current(b, ss[i], ops[i]) <==> !UpdatedAsSeparator(ss, ops, i, StoreRuns.Target(ops[i]))
  {
    var id := StoreRuns.Target(ops[i]);
    var n := RunIsSound(b, ss, ops, i);
    if UpdatedAsSeparator(ss, ops, i, id) {
      var j :| 0 <= j < i && UpdatesSeparator(ss[j], ops[j], id);
      StaysStale(b, ss, ops, j, i, id);
      StaleIsNotCurrent(b, ss[i].t, n, id);
    } else {
      OthersAreInSync(b, ss, ops, i, id);
      SyncIsCurrent(b, ss[i].t, n, id);
    }
  }

  ghost predicate ExactStore(s: Store) {
    AllStored(s.log) && Exact(s.log, s.t)
  }

  /** Operation i uses an identifier that was updated as a separator. */
  ghost predicate Reuses(ss: seq<Store>, ops: seq<StoreOp>, i: nat)
    requires i < |ops| < |ss|
  {
    Proper(ops[i]) && !ops[i].InsertDoc? && UpdatedAsSeparator(ss, ops, i, StoreRuns.Target(ops[i]))
  }

  /** The store is exact after every operation of a run if and only if no operation uses an identifier again that was
      updated as a separator. Then it holds the documents of the list all along. */
  lemma RunIsExactUnlessReused(b: Bucket, ss: seq<Store>, ops: seq<StoreOp>)
    requires IsRun(b, ss, ops)
    ensures (forall i :: 0 <= i <= |ops| ==> ExactStore(ss[i])) <==> forall i :: 0 <= i < |ops| ==> !Reuses(ss, ops, i)
    ensures (forall i :: 0 <= i < |ops| ==> !Reuses(ss, ops, i)) ==>
              forall i :: 0 <= i <= |ops| ==> IsList(ss[i], ops[..i])
  {
    if forall i :: 0 <= i < |ops| ==> !Reuses(ss, ops, i) {
      forall i | 0 <= i < |ops| ensures Current(b, ss[i], ops[i]) {
        UnusedIsCurrent(b, ss, ops, i);
      }
      forall i | 0 <= i <= |ops| ensures ExactStore(ss[i]) && IsList(ss[i], ops[..i]) {
        RunIsExact(b, ss, ops, i);
      }
    } else {
      var i :| 0 <= i < |ops| && Reuses(ss, ops, i);
      CurrentUnlessUpdatedAsSeparator(b, ss, ops, i);
      var n := RunIsSound(b, ss, ops, i);
      assert Steps(b, ss[i], ops[i], ss[i + 1]);
      if ExactStore(ss[i]) {
        StepIsExact(b, ss[i], ops[i], ss[i + 1], n);
      }
    }
  }

  lemma UnusedIsCurrent(b: Bucket, ss: seq<Store>, ops: seq<StoreOp>, i: nat)
    requires IsRun(b, ss, ops) && i < |ops| && !Reuses(ss, ops, i)
    ensures Current(b, ss[i], ops[i])
  {
    assert Steps(b, ss[i], ops[i], ss[i + 1]);
    if !ops[i].InsertDoc? {
      CurrentUnlessUpdatedAsSeparator(b, ss, ops, i);
    }
  }

  ghost predicate IsList(s: Store, ops: seq<StoreOp>) {
    AllStored(s.log) && (forall j :: 0 <= j < |ops| ==> Proper(ops[j])) && Live(s.log) == LiveRun(ops)
  }

  // ---- What they do instead --------------------------------------------------------------------------

  lemma {:induction false} LiveUnmarked(log: seq<Doc>, r: nat, d: Doc)
    requires AllStored(log) && r < |log| && Status(log[r]) != ACTIVE && Stored(d) && Status(d) != ACTIVE
    ensures AllStored(log[r := d]) && Live(log[r := d]) == Live(log)
  {
    var n := |log| - 1;
    if r < n {
      assert AllStored(log[..n]);
      LiveUnmarked(log[..n], r, d);
      assert log[r := d][..n] == log[..n][r := d];
    } else {
      assert log[r := d][..n] == log[..n];
    }
    SameLive(log, log[r := d]);
  }

  lemma SameLive(log: seq<Doc>, log': seq<Doc>)
    requires log != [] && log' != [] && AllStored(log) && AllStored(log')
    requires AllStored(log[..|log| - 1]) && AllStored(log'[..|log'| - 1])
    requires Live(log[..|log| - 1]) == Live(log'[..|log'| - 1])
    requires log[|log| - 1] == log'[|log'| - 1] ||
             (Status(log[|log| - 1]) != ACTIVE && Status(log'[|log'| - 1]) != ACTIVE)
    ensures Live(log) == Live(log')
  {
  }

  /** A record the index answers with, but the leaves do not point at, was superseded before. */
  lemma OtherIsSuperseded(b: Bucket, s: Store, n: nat, id: Id, r: nat)
    requires Sound(b, s.log, s.t, n) && ExactStore(s) && FoundPosition(b, s.t, id) != LeafPosition(s.t, id)
    requires FoundPosition(b, s.t, id).Some? && PointsAt(s.log, Lookup(b, s.t, Rank(id)).value, r)
    ensures Status(s.log[r]) == UPDATED
  {
    FoundPoints(b, s.log, s.t, n, id);
  }

  lemma MarkedOther(b: Bucket, s: Store, n: nat, id: Id, r: nat, status: int)
    requires Sound(b, s.log, s.t, n) && ExactStore(s) && FoundPosition(b, s.t, id) != LeafPosition(s.t, id)
    requires FoundPosition(b, s.t, id).Some? && PointsAt(s.log, Lookup(b, s.t, Rank(id)).value, r)
    requires Fits(status, 4) && status != ACTIVE
    ensures var log' := s.log[r := WithStatus(s.log[r], status)]; AllStored(log') && Live(log') == Live(s.log)
  {
    OtherIsSuperseded(b, s, n, id, r);
    MarkKeepsStored(s.log, r, status);
    LiveUnmarked(s.log, r, WithStatus(s.log[r], status));
  }

  lemma LiveAppended(log: seq<Doc>, d: Doc)
    requires AllStored(log) && Stored(d) && Status(d) == ACTIVE
    ensures AllStored(log + [d]) && Live(log + [d]) == Live(log) + [d]
  {
    assert (log + [d])[..|log|] == log;
    LiveLast(log + [d]);
  }

  /** An operation the index is not current for marks a record that is superseded already. So a removal removes
      nothing, and an update adds the new document and leaves the old one. */
  lemma NotCurrentKeepsTheOld(b: Bucket, s: Store, op: StoreOp, s': Store, n: nat)
    requires Sound(b, s.log, s.t, n) && ExactStore(s) && Steps(b, s, op, s') && !Current(b, s, op)
    ensures AllStored(s'.log) && Live(s'.log) == Live(s.log) + if op.UpdateDoc? then [op.d] else []
  {
    if op.UpdateDoc? {
      OldStaysBesideNew(b, s, op.d, s', n);
    } else {
      OldStaysUnremoved(b, s, op.id, s', n);
    }
  }

  lemma OldStaysBesideNew(b: Bucket, s: Store, d: Doc, s': Store, n: nat)
    requires Sound(b, s.log, s.t, n) && ExactStore(s) && Steps(b, s, UpdateDoc(d), s') && !Current(b, s, UpdateDoc(d))
    ensures AllStored(s'.log) && Live(s'.log) == Live(s.log) + [d]
  {
    var r: nat :| Updates(b, s, d, r, s');
    MarkedOther(b, s, n, Ident(d), r, UPDATED);
    LiveAppended(s.log[r := WithStatus(s.log[r], UPDATED)], d);
  }

  lemma OldStaysUnremoved(b: Bucket, s: Store, id: Id, s': Store, n: nat)
    requires Sound(b, s.log, s.t, n) && ExactStore(s) && Steps(b, s, RemoveDoc(id), s') && !Current(b, s, RemoveDoc(id))
    ensures AllStored(s'.log) && Live(s'.log) == Live(s.log)
  {
    FoundPoints(b, s.log, s.t, n, id);
    var r: nat :| Deletes(b, s, id, r, s');
    MarkedOther(b, s, n, id, r, DELETED);
  }

  lemma SeparatorUpdated(b: Bucket, s: Store, n: nat, d: Doc, s': Store) returns (n': nat)
    requires Sound(b, s.log, s.t, n) && ExactStore(s) && Steps(b, s, UpdateDoc(d), s')
    requires Current(b, s, UpdateDoc(d)) && UpdatesSeparator(s, UpdateDoc(d), Ident(d))
    ensures Sound(b, s'.log, s'.t, n') && ExactStore(s') && StaleAt(s'.t, Ident(d))
    ensures AllIdentified(Live(s.log)) && Live(s'.log) == Others(Live(s.log), Ident(d)) + [d]
  {
    n' := StepIsSound(b, s, UpdateDoc(d), s', n);
    StepIsExact(b, s, UpdateDoc(d), s', n);
    UpdateMakesStale(b, s, UpdateDoc(d), s', n, Ident(d));
  }

  /** A document whose identifier has become a separator is updated. The next removal of the identifier leaves the
      document in the store, and the next update leaves both versions there. */
  lemma SecondUseOfSeparator(b: Bucket, s: Store, n: nat, d: Doc, s': Store, op: StoreOp, s'': Store)
    requires Proper(UpdateDoc(d)) && Proper(op) && !op.InsertDoc? && StoreRuns.Target(op) == Ident(d)
    requires Sound(b, s.log, s.t, n) && ExactStore(s)
    requires Current(b, s, UpdateDoc(d)) && UpdatesSeparator(s, UpdateDoc(d), Ident(d))
    requires Steps(b, s, UpdateDoc(d), s') && Steps(b, s', op, s'')
    ensures AllIdentified(Live(s.log)) && AllStored(s''.log) && !ExactStore(s'')
    ensures Live(s''.log) == Others(Live(s.log), Ident(d)) + [d] + if op.UpdateDoc? then [op.d] else []
  {
    var n' := SeparatorUpdated(b, s, n, d, s');
    StaleIsNotCurrent(b, s'.t, n', Ident(d));
    NotCurrentKeepsTheOld(b, s', op, s'', n');
    StepIsExact(b, s', op, s'', n');
  }
}
