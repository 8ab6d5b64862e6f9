/** Whole runs of the store, and how long it is the list of documents it is meant to be. */
module StoreRuns {
  import opened Ids
  import opened ByteStreams
  import opened Documents
  import opened BsonStreams
  import opened Records
  import opened BTree
  import opened BTreeProofs
  import opened BTreeFacts
  import opened BTreeReading
  import opened BTreeRuns
  import opened Stores

  /** A document comes in with all required fields, and active. */
  datatype StoreOp = InsertDoc(d: Doc) | UpdateDoc(d: Doc) | RemoveDoc(id: Id)

  datatype Store = Store(log: seq<Doc>, t: Tree)

  predicate Proper(op: StoreOp) {
    op.RemoveDoc? || (Stored(op.d) && Status(op.d) == ACTIVE)
  }

  function Target(op: StoreOp): Id
    requires Proper(op)
  {
    if op.RemoveDoc? then op.id else Ident(op.d)
  }

  /** The record the index answers with is marked as updated, the document written behind all others. */
  ghost predicate Updates(b: Bucket, s: Store, d: Doc, r: nat, s': Store) {
    AllStored(s.log) && Shaped(b, s.t) && Identified(d) && FoundPosition(b, s.t, Ident(d)).Some? &&
    PointsAt(s.log, Lookup(b, s.t, Rank(Ident(d))).value, r) &&
    s' == Store(UpdatedLog(s.log, r, d), Update(b, s.t, Rank(Ident(d)), |DocsBytes(s.log)|))
  }

  /** The record the index answers with is marked as deleted. */
  ghost predicate Deletes(b: Bucket, s: Store, id: Id, r: nat, s': Store) {
    AllStored(s.log) && Shaped(b, s.t) && FoundPosition(b, s.t, id).Some? &&
    PointsAt(s.log, Lookup(b, s.t, Rank(id)).value, r) &&
    s' == Store(s.log[r := WithStatus(s.log[r], DELETED)], s.t)
  }

  /** One operation: what it does to the records and to the index. An insertion is of a new identifier, an update
      of one the index knows. */
  ghost predicate Steps(b: Bucket, s: Store, op: StoreOp, s': Store) {
    Proper(op) && AllStored(s.log) && Shaped(b, s.t) &&
    match op
    case InsertDoc(d) =>
      LeafPosition(s.t, Ident(d)) == None && s' == Store(s.log + [d], InsertRoot(b, s.t, NewEntry(s.log, d)))
    case UpdateDoc(d) => exists r: nat :: Updates(b, s, d, r, s')
    case RemoveDoc(id) =>
      if FoundPosition(b, s.t, id).None? then s' == s else exists r: nat :: Deletes(b, s, id, r, s')
  }

  /** What the operations on a known identifier do to the records there are: one record of the identifier is marked, by
      a removal with 2 and by an update with 3, and keeps all other fields; the other records stay. */
  lemma StepMarks(b: Bucket, s: Store, op: StoreOp, s': Store, n: nat) returns (k: nat)
    requires Steps(b, s, op, s') && Sound(b, s.log, s.t, n) && !op.InsertDoc? && FoundPosition(b, s.t, Target(op)).Some?
    ensures k < |s.log| && Ident(s.log[k]) == Target(op)
    ensures k < |s'.log| && s'.log == s.log[k := s'.log[k]] + if op.RemoveDoc? then [] else [op.d]
    ensures HasStatus(s'.log[k]) && Status(s'.log[k]) == if op.RemoveDoc? then 2 else 3
    ensures forall f: Field :: f.key != STATUS ==> (f in s'.log[k].fs <==> f in s.log[k].fs)
  {
    FoundPoints(b, s.log, s.t, n, Target(op));
    k := Marked(b, s, op, s');
    SmallFits();
    StatusRewrite(s.log[k], if op.RemoveDoc? then 2 else 3);
  }

  lemma Marked(b: Bucket, s: Store, op: StoreOp, s': Store) returns (k: nat)
    requires Steps(b, s, op, s') && !op.InsertDoc? && FoundPosition(b, s.t, Target(op)).Some?
    ensures k < |s.log| && Ident(s.log[k]) == Lookup(b, s.t, Rank(Target(op))).value.key
    ensures var log := s.log[k := WithStatus(s.log[k], if op.RemoveDoc? then 2 else 3)];
            s'.log == log + if op.RemoveDoc? then [] else [op.d]
  {
    match op
    case UpdateDoc(d) => k :| Updates(b, s, d, k, s');
    case RemoveDoc(id) => k :| Deletes(b, s, id, k, s');
  }

  lemma SmallFits()
    ensures Fits(2, 4) && Fits(3, 4)
  {
  }

  ghost predicate IsRun(b: Bucket, ss: seq<Store>, ops: seq<StoreOp>) {
    |ss| == |ops| + 1 && ss[0] == Store([], Leaf([])) && forall i {:trigger ops[i]} :: 0 <= i < |ops| ==>
      Steps(b, ss[i], ops[i], ss[i + 1])
  }

  /** The list of documents the operations describe. */
  function LiveRun(ops: seq<StoreOp>): (ds: seq<Doc>)
    requires forall i :: 0 <= i < |ops| ==> Proper(ops[i])
    ensures forall i :: 0 <= i < |ds| ==> Identified(ds[i])
  {
    if ops == [] then []
    else
      var before, op := LiveRun(ops[..|ops| - 1]), ops[|ops| - 1];
      assert Proper(op);
      match op
      case InsertDoc(d) => before + [d]
      case UpdateDoc(d) => Others(before, Ident(d)) + [d]
      case RemoveDoc(id) => Others(before, id)
  }

  lemma LiveRunSnoc(ops: seq<StoreOp>, i: nat)
    requires 0 < i <= |ops| && forall j :: 0 <= j < i ==> Proper(ops[j])
    ensures LiveRun(ops[..i]) == match ops[i - 1]
              case InsertDoc(d) => LiveRun(ops[..i - 1]) + [d]
              case UpdateDoc(d) => Others(LiveRun(ops[..i - 1]), Ident(d)) + [d]
              case RemoveDoc(id) => Others(LiveRun(ops[..i - 1]), id)
  {
    assert ops[..i][..i - 1] == ops[..i - 1];
  }

  /** The index answers for the operation's identifier with what its leaves hold. */
  ghost predicate Current(b: Bucket, s: Store, op: StoreOp) {
    Proper(op) && Shaped(b, s.t) &&
      (op.InsertDoc? || FoundPosition(b, s.t, Target(op)) == LeafPosition(s.t, Target(op)))
  }

  // ---- Every run -------------------------------------------------------------------------------------

  lemma StepIsSound(b: Bucket, s: Store, op: StoreOp, s': Store, n: nat) returns (n': nat)
    requires Sound(b, s.log, s.t, n) && Steps(b, s, op, s')
    ensures Sound(b, s'.log, s'.t, n')
  {
    n' := n;
    match op
    case InsertDoc(d) =>
      InsertKeepsSound(b, s.log, s.t, n, d);
      n' := NewHeight(b, s.t, NewEntry(s.log, d), n);
    case UpdateDoc(d) =>
      var r: nat :| Updates(b, s, d, r, s');
      UpdateKeepsSound(b, s.log, s.t, n, r, d);
    case RemoveDoc(id) =>
      if s' != s {
        var r: nat :| Deletes(b, s, id, r, s');
        MarkKeepsSound(b, s.log, s.t, n, r, DELETED);
      }
  }

  lemma {:induction false} RunIsSound(b: Bucket, ss: seq<Store>, ops: seq<StoreOp>, i: nat) returns (n: nat)
    requires IsRun(b, ss, ops) && i <= |ops|
    ensures Sound(b, ss[i].log, ss[i].t, n)
  {
    if i == 0 {
      n := 0;
    } else {
      n := RunIsSound(b, ss, ops, i - 1);
      assert Steps(b, ss[i - 1], ops[i - 1], ss[i - 1 + 1]);
      n := StepIsSound(b, ss[i - 1], ops[i - 1], ss[i], n);
    }
  }

  /** An insertion as a step of the store. */
  lemma InsertSteps(b: Bucket, s: Store, n: nat, d: Doc) returns (s': Store, n': nat)
    requires Sound(b, s.log, s.t, n) && Proper(InsertDoc(d)) && LeafPosition(s.t, Ident(d)) == None
    ensures s' == Store(s.log + [d], InsertRoot(b, s.t, NewEntry(s.log, d)))
    ensures Sound(b, s'.log, s'.t, n') && Steps(b, s, InsertDoc(d), s')
  {
    s' := Store(s.log + [d], InsertRoot(b, s.t, NewEntry(s.log, d)));
    InsertKeepsSound(b, s.log, s.t, n, d);
    n' := NewHeight(b, s.t, NewEntry(s.log, d), n);
  }

  /** An insertion of any identifier, which is a step of the store if it is a new one. */
  lemma InsertOutcome(b: Bucket, s: Store, n: nat, d: Doc) returns (s': Store, n': nat)
    requires Sound(b, s.log, s.t, n) && Proper(InsertDoc(d))
    ensures s' == Store(s.log + [d], InsertRoot(b, s.t, NewEntry(s.log, d)))
    ensures LeafPosition(s.t, Ident(d)) == None ==> Sound(b, s'.log, s'.t, n') && Steps(b, s, InsertDoc(d), s')
  {
    s', n' := Store(s.log + [d], InsertRoot(b, s.t, NewEntry(s.log, d))), n;
    if LeafPosition(s.t, Ident(d)) == None {
      s', n' := InsertSteps(b, s, n, d);
    }
  }

  /** An update as a step of the store, when r is the record the index answers with. */
  lemma UpdateSteps(b: Bucket, s: Store, n: nat, d: Doc, r: nat) returns (s': Store)
    requires Sound(b, s.log, s.t, n) && Proper(UpdateDoc(d)) && FoundPosition(b, s.t, Ident(d)).Some?
    requires PointsAt(s.log, Lookup(b, s.t, Rank(Ident(d))).value, r)
    ensures s' == Store(UpdatedLog(s.log, r, d), Update(b, s.t, Rank(Ident(d)), |DocsBytes(s.log)|))
    ensures Sound(b, s'.log, s'.t, n) && Updates(b, s, d, r, s')
  {
    s' := Store(UpdatedLog(s.log, r, d), Update(b, s.t, Rank(Ident(d)), |DocsBytes(s.log)|));
    UpdateKeepsSound(b, s.log, s.t, n, r, d);
  }

  lemma UpdatesIsStep(b: Bucket, s: Store, d: Doc, r: nat, s': Store)
    requires Proper(UpdateDoc(d)) && Updates(b, s, d, r, s')
    ensures Steps(b, s, UpdateDoc(d), s')
  {
  }

  lemma UpdateOutcome(b: Bucket, s: Store, n: nat, d: Doc) returns (r: nat, s': Store)
    requires Sound(b, s.log, s.t, n) && Proper(UpdateDoc(d)) && FoundPosition(b, s.t, Ident(d)).Some?
    ensures PointsAt(s.log, Lookup(b, s.t, Rank(Ident(d))).value, r)
    ensures s' == Store(UpdatedLog(s.log, r, d), Update(b, s.t, Rank(Ident(d)), |DocsBytes(s.log)|))
    ensures Sound(b, s'.log, s'.t, n) && Steps(b, s, UpdateDoc(d), s')
  {
    FoundPoints(b, s.log, s.t, n, Ident(d));
    r := Stores.Target(s.log, Lookup(b, s.t, Rank(Ident(d))).value);
    s' := UpdateSteps(b, s, n, d, r);
    UpdatesIsStep(b, s, d, r, s');
  }

  /** A removal as a step of the store. */
  lemma RemoveSteps(b: Bucket, s: Store, n: nat, id: Id, r: nat) returns (s': Store)
    requires Sound(b, s.log, s.t, n) && FoundPosition(b, s.t, id).Some?
    requires PointsAt(s.log, Lookup(b, s.t, Rank(id)).value, r)
    ensures s' == Store(s.log[r := WithStatus(s.log[r], DELETED)], s.t)
    ensures Sound(b, s'.log, s'.t, n) && Steps(b, s, RemoveDoc(id), s')
  {
    s' := Store(s.log[r := WithStatus(s.log[r], DELETED)], s.t);
    MarkKeepsSound(b, s.log, s.t, n, r, DELETED);
    assert Deletes(b, s, id, r, s');
  }

  /** One operation keeps the store exact if and only if the index is current for it, and then does to the documents
      what it says; but an operation that finds nothing changes nothing. */
  lemma StepIsExact(b: Bucket, s: Store, op: StoreOp, s': Store, n: nat)
    requires Sound(b, s.log, s.t, n) && Exact(s.log, s.t) && Steps(b, s, op, s')
    ensures AllStored(s'.log) && AllIdentified(Live(s.log)) && (Exact(s'.log, s'.t) <==> Current(b, s, op))
    ensures Current(b, s, op) ==> Live(s'.log) == match op
              case InsertDoc(d) => Live(s.log) + [d]
              case UpdateDoc(d) => Others(Live(s.log), Ident(d)) + [d]
              case RemoveDoc(id) => Others(Live(s.log), id)
  {
    var n' := StepIsSound(b, s, op, s', n);
    LiveIsIdentified(s.log);
    FoundPoints(b, s.log, s.t, n, Target(op));
    match op
    case InsertDoc(d) => InsertKeepsExact(b, s.log, s.t, n, d);
    case UpdateDoc(d) =>
      var r: nat :| Updates(b, s, d, r, s');
      UpdateKeepsExact(b, s.log, s.t, n, r, d);
    case RemoveDoc(id) =>
      if Lookup(b, s.t, Rank(id)).None? {
        UnknownIsNotLive(s.log, s.t, id);
      } else {
        var r: nat :| Deletes(b, s, id, r, s');
        RemoveKeepsExact(b, s.log, s.t, n, r, id);
      }
  }


  lemma UnknownIsNotLive(log: seq<Doc>, t: Tree, id: Id)
    requires AllStored(log) && Exact(log, t) && LeafPosition(t, id) == None
    ensures AllIdentified(Live(log)) && Others(Live(log), id) == Live(log)
  {
    LiveIsIdentified(log);
    NoneLive(log, id);
    OthersAll(Live(log), id);
  }

  /** A run whose operations all find the index current keeps the store exact: it holds the documents of the list,
      in the order they were written last. */
  lemma {:induction false} RunIsExact(b: Bucket, ss: seq<Store>, ops: seq<StoreOp>, i: nat)
    requires IsRun(b, ss, ops) && i <= |ops| && forall j :: 0 <= j < i ==> Current(b, ss[j], ops[j])
    ensures AllStored(ss[i].log) && Exact(ss[i].log, ss[i].t)
    ensures (forall j :: 0 <= j < i ==> Proper(ops[j])) && Live(ss[i].log) == LiveRun(ops[..i])
  {
    if i > 0 {
      RunIsExact(b, ss, ops, i - 1);
      var n := RunIsSound(b, ss, ops, i - 1);
      assert Steps(b, ss[i - 1], ops[i - 1], ss[i - 1 + 1]) && Current(b, ss[i - 1], ops[i - 1]);
      StepIsExact(b, ss[i - 1], ops[i - 1], ss[i], n);
      LiveRunSnoc(ops, i);
    }
  }

  // ---- Runs that never use an updated identifier again -----------------------------------------------

  /** No operation comes behind an update of the same identifier. */
  predicate Settled(ops: seq<StoreOp>) {
    (forall i :: 0 <= i < |ops| ==> Proper(ops[i])) &&
    forall i, j :: 0 <= i < j < |ops| && ops[i].UpdateDoc? ==> Target(ops[j]) != Target(ops[i])
  }

  /** The separators with this key are copies of leaf entries. */
  ghost predicate SyncAt(t: Tree, id: Id) {
    forall x :: x in Seps(t) && x.key == id ==> x in InOrder(t)
  }

  lemma SyncIsCurrent(b: Bucket, t: Tree, n: nat, id: Id)
    requires WellFormed(b, t, n) && SyncAt(t, id)
    ensures FoundPosition(b, t, id) == LeafPosition(t, id)
  {
    LookupReads(b, t, Rank(id), -1, None);
    OrderedLeaves(t, -1, None);
    var s := Find(Seps(t), Rank(id));
    if s.Some? {
      CompareIsRankOrder(s.value.key, id);
      FindUnique(InOrder(t), s.value);
    }
  }

  lemma InsertKeepsSyncAt(b: Bucket, t: Tree, e: Entry, id: Id)
    requires Shaped(b, t) && SyncAt(t, id)
    ensures SyncAt(InsertRoot(b, t, e), id)
  {
    InsertConserves(b, t, e);
    forall x | x in Seps(InsertRoot(b, t, e)) && x.key == id ensures x in InOrder(InsertRoot(b, t, e)) {
      InsertSeps(b, t, e, x);
      if x in Seps(t) {
        assert x in multiset(InOrder(t)) + multiset{e};
      }
    }
  }

  lemma UpdateKeepsSyncAt(b: Bucket, t: Tree, n: nat, of: Id, pos: int, id: Id)
    requires WellFormed(b, t, n) && SyncAt(t, id) && of != id
    ensures SyncAt(Update(b, t, Rank(of), pos), id)
  {
    UpdateLeaves(b, t, Rank(of), pos, -1, None);
    UpdateKeepsSeps(b, t, Rank(of), pos);
    forall x | x in Seps(t) && x.key == id ensures x in Repositioned(InOrder(t), Rank(of), pos) {
      var i :| 0 <= i < |InOrder(t)| && InOrder(t)[i] == x;
      CompareIsRankOrder(x.key, of);
      assert Repositioned(InOrder(t), Rank(of), pos)[i] == x;
    }
  }

  lemma StepKeepsSyncAt(b: Bucket, s: Store, op: StoreOp, s': Store, n: nat, id: Id)
    requires Sound(b, s.log, s.t, n) && Steps(b, s, op, s') && SyncAt(s.t, id)
    requires op.UpdateDoc? && Target(op) == id ==> Find(Seps(s.t), Rank(id)).None?
    ensures SyncAt(s'.t, id)
  {
    match op
    case InsertDoc(d) => InsertKeepsSyncAt(b, s.t, NewEntry(s.log, d), id);
    case UpdateDoc(d) =>
      if Ident(d) == id {
        UpdateKeepsSeps(b, s.t, Rank(id), |DocsBytes(s.log)|);
        NoSeparator(s.t, id);
      } else {
        UpdateKeepsSyncAt(b, s.t, n, Ident(d), |DocsBytes(s.log)|, id);
      }
    case RemoveDoc(_) =>
  }

  lemma NoSeparator(t: Tree, id: Id)
    requires Find(Seps(t), Rank(id)).None?
    ensures forall x :: x in Seps(t) ==> x.key != id
  {
  }

  /** The identifier was updated before operation i, by an update that found it among the separators. */
  ghost predicate UpdatedAsSeparator(ss: seq<Store>, ops: seq<StoreOp>, i: nat, id: Id)
    requires i <= |ops| < |ss|
  {
    exists j :: 0 <= j < i && UpdatesSeparator(ss[j], ops[j], id)
  }

  predicate UpdatesSeparator(s: Store, op: StoreOp, id: Id) {
    op.UpdateDoc? && Proper(op) && Target(op) == id && Find(Seps(s.t), Rank(id)).Some?
  }

  lemma {:induction false} OthersAreInSync(b: Bucket, ss: seq<Store>, ops: seq<StoreOp>, i: nat, id: Id)
    requires IsRun(b, ss, ops) && i <= |ops| && !UpdatedAsSeparator(ss, ops, i, id)
    ensures SyncAt(ss[i].t, id)
  {
    if i > 0 {
      assert !UpdatesSeparator(ss[i - 1], ops[i - 1], id);
      OthersAreInSync(b, ss, ops, i - 1, id);
      var n := RunIsSound(b, ss, ops, i - 1);
      assert Steps(b, ss[i - 1], ops[i - 1], ss[i - 1 + 1]);
      StepKeepsSyncAt(b, ss[i - 1], ops[i - 1], ss[i], n, id);
    }
  }

  /** Whatever the tree's shape: in a run that leaves an identifier alone once it was updated, the store is the list
      of documents the operations describe, after every operation. */
  lemma SettledRunIsExact(b: Bucket, ss: seq<Store>, ops: seq<StoreOp>, i: nat)
    requires IsRun(b, ss, ops) && Settled(ops) && i <= |ops|
    ensures AllStored(ss[i].log) && Exact(ss[i].log, ss[i].t) && Live(ss[i].log) == LiveRun(ops[..i])
  {
    forall j | 0 <= j < i ensures Current(b, ss[j], ops[j]) {
      OthersAreInSync(b, ss, ops, j, Target(ops[j]));
      var n := RunIsSound(b, ss, ops, j);
      SyncIsCurrent(b, ss[j].t, n, Target(ops[j]));
    }
    RunIsExact(b, ss, ops, i);
  }
}
