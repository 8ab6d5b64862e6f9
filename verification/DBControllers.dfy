/** The controller of one namespace: its data file and the index of its identifiers, changed together. */
module DBControllers {
  import opened Ids
  import opened ByteStreams
  import opened Documents
  import opened Selections
  import opened BsonStreams
  import opened Filters
  import opened Records
  import opened BTree
  import opened BTreeRuns
  import opened BPlusIndexPs
  import opened Stores
  import opened StoreRuns
  import opened IndexAnswers
  import FullScans

  /** `fillRequiredFields`; the identifier and the revision are what `uuid` would give. */
  function Filled(d: Doc, id: Id, revision: Id): Doc {
    var d1 := if Get(d.fs, ID) < |d.fs| then d else With(d, ID, StringV(id));
    var d2 := if Get(d1.fs, REVISION) < |d1.fs| then d1 else With(d1, REVISION, StringV(revision));
    WithStatus(d2, ACTIVE)
  }

  /** The identifier, where there is one, is a string. */
  predicate IdIsString(d: Doc) {
    Get(d.fs, ID) < |d.fs| ==> d.fs[Get(d.fs, ID)].value.StringV?
  }

  predicate Missing(d: Doc, key: Id) {
    forall f :: f in d.fs ==> f.key != key
  }

  /** What filling leaves: every field but the status as it was, the status 1, and the identifier and the revision where
      they were missing; and nothing else. */
  lemma FilledKeeps(d: Doc, id: Id, revision: Id)
    requires InMemory(d)
    ensures KeysAscend(Filled(d, id, revision).fs)
    ensures forall f :: f in Filled(d, id, revision).fs <==>
              (f in d.fs && f.key != STATUS) || f == Field(STATUS, IntV(1)) ||
              (Missing(d, ID) && f == Field(ID, StringV(id))) ||
              (Missing(d, REVISION) && f == Field(REVISION, StringV(revision)))
  {
    var d1 := if Get(d.fs, ID) < |d.fs| then d else With(d, ID, StringV(id));
    var d2 := if Get(d1.fs, REVISION) < |d1.fs| then d1 else With(d1, REVISION, StringV(revision));
    AddedWhereMissing(d, ID, StringV(id));
    AddedWhereMissing(d1, REVISION, StringV(revision));
    PutIsMapUpdate(d2.fs, Field(STATUS, IntV(ACTIVE)));
  }

  lemma AddedWhereMissing(d: Doc, key: Id, v: Value)
    requires KeysAscend(d.fs)
    ensures var r := if Get(d.fs, key) < |d.fs| then d else With(d, key, v);
            KeysAscend(r.fs) && forall f :: f in r.fs <==> f in d.fs || (Missing(d, key) && f == Field(key, v))
  {
    PutIsMapUpdate(d.fs, Field(key, v));
    if Get(d.fs, key) < |d.fs| {
      assert d.fs[Get(d.fs, key)] in d.fs;
    }
  }

  /** After filling the document has everything a record needs, and keeps the identifier it had. */
  lemma FilledIsProper(d: Doc, id: Id, revision: Id)
    requires InMemory(d) && IdIsString(d) && DocFits(Filled(d, id, revision))
    ensures Stored(Filled(d, id, revision)) && Status(Filled(d, id, revision)) == ACTIVE
    ensures Ident(Filled(d, id, revision)) == if Identified(d) then Ident(d) else id
  {
    var d1 := if Get(d.fs, ID) < |d.fs| then d else With(d, ID, StringV(id));
    WithKeeps(d, ID, StringV(id));
    WithKeeps(d1, REVISION, StringV(revision));
    WithOther(d1, REVISION, StringV(revision), ID);
    var d2 := if Get(d1.fs, REVISION) < |d1.fs| then d1 else With(d1, REVISION, StringV(revision));
    ActiveIsProper(d2);
  }

  /** A document with an identifier becomes a record when its status is set. */
  lemma ActiveIsProper(d: Doc)
    requires InMemory(d) && Identified(d)
    ensures var r := WithStatus(d, ACTIVE);
            InMemory(r) && Identified(r) && Ident(r) == Ident(d) && HasStatus(r) && Status(r) == ACTIVE
  {
    WithKeeps(d, STATUS, IntV(ACTIVE));
    WithOther(d, STATUS, IntV(ACTIVE), ID);
  }

  lemma EmptyIsSound(b: Bucket)
    ensures Sound(b, [], Leaf([]), 0) && DocsBytes([]) == []
  {
  }

  class DBController {
    const index: BPlusIndexP
    const streamData: ByteStream

    /** The records of the file, and the height of the index. */
    ghost var log: seq<Doc>
    ghost var height: nat

    ghost predicate Valid()
      reads this, index, index.repr, streamData
    {
      Ready(log) && Sound(index.b, log, index.Tree(), height)
    }

    /** The index is in order and the file holds the records. */
    ghost predicate Ready(log: seq<Doc>)
      reads index, index.repr, streamData
    {
      index.Valid() && streamData !in index.repr && this !in index.repr && FileHolds(log)
    }

    /** The file holds the records, and the stream rests at its end. */
    ghost predicate FileHolds(log: seq<Doc>)
      reads streamData
    {
      streamData.data == DocsBytes(log) && streamData.pos == |streamData.data|
    }

    ghost function State(): Store
      requires index.Valid()
      reads this, index, index.repr
    {
      Store(log, index.Tree())
    }

    constructor ()
      ensures Valid() && State() == Store([], Leaf([])) && fresh(index) && fresh(index.repr) && fresh(streamData)
    {
      index := new BPlusIndexP(BUCKET_MAX_ELEMENTS);
      streamData := new ByteStream();
      new;
      EmptyIsSound(BUCKET_MAX_ELEMENTS);
      Record(Store([], Leaf([])), 0);
    }

    // ---- The data file -----------------------------------------------------------------------------

    /** `writeBSON` at the end of the file. */
    method AppendRecord(obj: Doc, ghost log: seq<Doc>)
      requires FileHolds(log) && InMemory(obj)
      modifies streamData
      ensures FileHolds(log + [obj])
    {
      WriteBSON(streamData, obj);
      DocsBytesSnoc(log, obj);
    }

    /** A record read at its position, marked, and written back there; the stream returns to the end of the file. */
    method MarkRecord(posData: int, status: int, ghost log: seq<Doc>, ghost r: nat)
      requires FileHolds(log) && AllStored(log) && r < |log| && Offset(log, r) == posData && Fits(status, 4)
      modifies streamData
      ensures FileHolds(log[r := WithStatus(log[r], status)])
    {
      var currentPos := streamData.pos;
      RecordInLog(log, r);
      streamData.Seek(posData);
      var previous := ReadBSON(streamData, ALL, log[r]);
      SelectAll(log[r].fs);
      previous := With(previous, STATUS, IntV(status));
      StatusRewrite(log[r], status);
      RewriteInPlace(log, r, previous);
      streamData.Seek(posData);
      WriteBSON(streamData, previous);
      streamData.Seek(currentPos);
    }

    // ---- The parts of the operations ---------------------------------------------------------------

    /** `insertIndex`. */
    method InsertIndex(obj: Doc, ghost log: seq<Doc>)
      requires Ready(log) && Identified(obj)
      modifies index.repr
      ensures Ready(log) && fresh(index.repr - old(index.repr))
      ensures index.Tree() == InsertRoot(index.b, old(index.Tree()), NewEntry(log, obj))
    {
      var key := Ident(obj);
      index.Add(key, key, streamData.pos);
    }

    /** `updateIndex`. */
    method UpdateIndex(obj: Doc, ghost log: seq<Doc>)
      requires Ready(log) && Identified(obj)
      modifies index.repr
      ensures Ready(log) && fresh(index.repr - old(index.repr))
      ensures index.Tree() == BTree.Update(index.b, old(index.Tree()), Rank(Ident(obj)), |DocsBytes(log)|)
    {
      var key := Ident(obj);
      var known := index.Update(key, key, streamData.pos);
    }

    method Append(obj: Doc, ghost log: seq<Doc>)
      requires Ready(log) && InMemory(obj)
      modifies streamData
      ensures Ready(log + [obj]) && index.Tree() == old(index.Tree()) && index.repr == old(index.repr)
    {
      AppendRecord(obj, log);
    }

    method Mark(posData: int, status: int, ghost log: seq<Doc>, ghost r: nat)
      requires Ready(log) && AllStored(log) && r < |log| && Offset(log, r) == posData && Fits(status, 4)
      modifies streamData
      ensures Ready(log[r := WithStatus(log[r], status)]) && index.Tree() == old(index.Tree()) &&
              index.repr == old(index.repr)
    {
      MarkRecord(posData, status, log, r);
    }

    /** The records and the tree taken down; the store is valid if they are sound. */
    ghost method Record(s: Store, n: nat)
      requires Ready(s.log) && s.t == index.Tree()
      modifies this`log, this`height
      ensures Ready(log) && State() == s && (Sound(index.b, s.log, s.t, n) ==> Valid()) && index.repr == old(index.repr)
    {
      log, height := s.log, n;
      assert Ready(s.log) && index.Tree() == s.t;
    }

    /** `findIndex`: the position the index answers with. */
    method FindPosition(id: Id, ghost s: Store, ghost n: nat, ghost r: nat) returns (posData: int)
      requires Ready(log) && State() == s && Sound(index.b, s.log, s.t, n)
      requires FoundPosition(index.b, s.t, id).Some? && PointsAt(s.log, Lookup(index.b, s.t, Rank(id)).value, r)
      ensures Ready(log) && State() == s && posData == Offset(s.log, r) && index.repr == old(index.repr)
    {
      var found := index.Find(id);
      posData := found.value.posData;
    }

    /** `findIndex` for a removal. */
    method FindForRemove(id: Id) returns (known: bool, posData: int, ghost r: nat, ghost s: Store)
      requires Valid()
      ensures AllStored(log) && Steps(index.b, State(), RemoveDoc(id), s) && Sound(index.b, s.log, s.t, height)
      ensures if known then r < |log| && Offset(log, r) == posData &&
              s == Store(log[r := WithStatus(log[r], DELETED)], index.Tree())
              else s == State()
    {
      var found := index.Find(id);
      known, posData, r, s := found.Some?, 0, 0, State();
      if known {
        posData := found.value.posData;
        FoundPoints(index.b, log, index.Tree(), height, id);
        r := Stores.Target(log, found.value);
        s := RemoveSteps(index.b, State(), height, id, r);
      }
    }

    /** The second half of `update`: the old record marked, the index led to the end of the file, and the document
        written there. */
    method Supersede(obj: Doc, posData: int, ghost r: nat, ghost log: seq<Doc>, ghost log': seq<Doc>)
      requires Ready(log) && AllStored(log) && r < |log| && Offset(log, r) == posData && InMemory(obj) &&
               Identified(obj)
      requires log' == log[r := WithStatus(log[r], UPDATED)]
      modifies index.repr, streamData
      ensures Ready(log' + [obj]) && fresh(index.repr - old(index.repr))
      ensures index.Tree() == BTree.Update(index.b, old(index.Tree()), Rank(Ident(obj)), |DocsBytes(log')|)
    {
      Mark(posData, UPDATED, log, r);
      UpdateIndex(obj, log');
      Append(obj, log');
    }

    method Replace(obj: Doc, posData: int, ghost r: nat, ghost s: Store, ghost s': Store)
      requires Ready(log) && State() == s && AllStored(s.log) && r < |s.log| && posData == Offset(s.log, r)
      requires InMemory(obj) && Identified(obj)
      requires s' == Store(UpdatedLog(s.log, r, obj), BTree.Update(index.b, s.t, Rank(Ident(obj)), |DocsBytes(s.log)|))
      requires Sound(index.b, s'.log, s'.t, height)
      modifies this`log, this`height, index.repr, streamData
      ensures Valid() && State() == s' && fresh(index.repr - old(index.repr))
    {
      MarkKeepsLength(log, r, UPDATED);
      Supersede(obj, posData, r, log, log[r := WithStatus(log[r], UPDATED)]);
      Record(s', height);
    }

    /** The second half of `remove`. */
    method MarkDeleted(posData: int, ghost r: nat, ghost s: Store)
      requires Ready(log) && AllStored(log) && r < |log| && Offset(log, r) == posData
      requires s == Store(log[r := WithStatus(log[r], DELETED)], index.Tree()) && Sound(index.b, s.log, s.t, height)
      modifies this`log, this`height, streamData
      ensures Valid() && State() == s && index.repr == old(index.repr)
    {
      Mark(posData, DELETED, log, r);
      Record(s, height);
    }

    // ---- The operations ----------------------------------------------------------------------------

    /** `insert`: the record comes to the end of the file and an entry for it into the index, whether the identifier is
        new or not. It is a step of the store if it is new; otherwise the index is out of order from then on. */
    method Insert(obj: Doc, id: Id, revision: Id) returns (filled: Doc)
      requires Valid() && InMemory(obj) && IdIsString(obj) && DocFits(Filled(obj, id, revision))
      modifies this, index.repr, streamData
      ensures Ready(log) && fresh(index.repr - old(index.repr))
      ensures filled == Filled(obj, id, revision) && Identified(filled)
      ensures State() == Store(old(log) + [filled], InsertRoot(index.b, old(index.Tree()), NewEntry(old(log), filled)))
      ensures LeafPosition(old(index.Tree()), Ident(filled)) == None ==>
                Valid() && Steps(index.b, old(State()), InsertDoc(filled), State())
    {
      FilledIsProper(obj, id, revision);
      filled := Filled(obj, id, revision);
      ghost var s', n' := InsertOutcome(index.b, State(), height, filled);
      InsertRecord(filled);
      Record(s', n');
    }

    /** The index entry and the record. */
    method InsertRecord(obj: Doc)
      requires Ready(log) && Identified(obj) && InMemory(obj)
      modifies index.repr, streamData
      ensures Ready(log + [obj]) && fresh(index.repr - old(index.repr))
      ensures index.Tree() == InsertRoot(index.b, old(index.Tree()), NewEntry(log, obj))
    {
      InsertIndex(obj, log);
      Append(obj, log);
    }

    /** `update` of a document whose identifier the index knows. */
    method Update(obj: Doc) returns (active: Doc)
      requires Valid() && InMemory(obj) && Identified(obj) && DocFits(WithStatus(obj, ACTIVE))
      requires FoundPosition(index.b, index.Tree(), Ident(obj)).Some?
      modifies this, index.repr, streamData
      ensures Valid() && fresh(index.repr - old(index.repr))
      ensures active == WithStatus(obj, ACTIVE) && Steps(index.b, old(State()), UpdateDoc(active), State())
    {
      ActiveIsProper(obj);
      active := With(obj, STATUS, IntV(ACTIVE));
      ghost var s' := UpdateActive(active, State());
    }

    method UpdateActive(active: Doc, ghost s: Store) returns (ghost s': Store)
      requires Valid() && State() == s && Proper(UpdateDoc(active)) && FoundPosition(index.b, s.t, Ident(active)).Some?
      modifies this`log, this`height, index.repr, streamData
      ensures Valid() && State() == s' && fresh(index.repr - old(index.repr))
      ensures Steps(index.b, s, UpdateDoc(active), s')
    {
      ghost var r;
      r, s' := UpdateOutcome(index.b, s, height, active);
      var posData := FindPosition(Ident(active), s, height, r);
      Replace(active, posData, r, s, s');
    }

    /** `remove`: the record the index answers with, if any, is marked as deleted. The index keeps the identifier. */
    method Remove(documentId: Id)
      requires Valid()
      modifies this, streamData
      ensures Valid() && Steps(index.b, old(State()), RemoveDoc(documentId), State())
    {
      ghost var s := State();
      var known, posData;
      ghost var r, s';
      known, posData, r, s' := FindForRemove(documentId);
      assert Steps(index.b, s, RemoveDoc(documentId), s');
      if known {
        MarkDeleted(posData, r, s');
      }
      assert State() == s';
    }

    // ---- Finding -----------------------------------------------------------------------------------

    /** `findFullScan` over the data file. */
    method FindFullScan(fl: Floats, sel: Id, e: Expr, maxResults: int) returns (r: FullScans.ScanResult)
      requires Valid()
      ensures FullScans.AllAnswerable(fl, e, log) ==>
              r == FullScans.Results(FullScans.Answers(fl, log, sel, e, maxResults))
    {
      r := FullScans.FindFullScan(fl, streamData.data, sel, e, maxResults, log);
    }

    /** `find` through the index: the record behind every entry whose key document the filter accepts, whatever the
        status of the record. */
    method FindByIndex(fl: Floats, sel: Id, e: Expr) returns (result: seq<Doc>)
      requires Valid()
      ensures RecordsOf(log, Scan(index.Tree(), KeyAccepted(fl, e)), sel, result)
    {
      var elements := index.FindAll(KeyAccepted(fl, e));
      ScanPoints(index.b, log, index.Tree(), height, KeyAccepted(fl, e));
      result := ReadEntries(streamData.data, elements, sel, log);
    }
  }

  /** The records behind some entries, each read at its position. */
  method ReadEntries(file: Bytes, elements: seq<Entry>, sel: Id, ghost log: seq<Doc>) returns (result: seq<Doc>)
    requires AllStored(log) && file == DocsBytes(log) && forall x :: x in elements ==> Points(log, x)
    ensures RecordsOf(log, elements, sel, result)
  {
    var dbStream := new ByteStream();
    dbStream.Write(file);
    assert dbStream.data == file;
    result := [];
    for i := 0 to |elements|
      invariant dbStream.data == file && RecordsOf(log, elements[..i], sel, result)
    {
      assert elements[i] in elements && elements[..i + 1] == elements[..i] + [elements[i]];
      var obj := ReadEntry(dbStream, elements[i], sel, log);
      result := result + [obj];
    }
    assert elements[..|elements|] == elements;
  }

  method ReadEntry(dbStream: ByteStream, x: Entry, sel: Id, ghost log: seq<Doc>) returns (obj: Doc)
    requires AllStored(log) && dbStream.data == DocsBytes(log) && Points(log, x)
    modifies dbStream`pos
    ensures RecordOf(log, x, sel, obj)
  {
    ghost var r := Stores.Target(log, x);
    RecordInLog(log, r);
    dbStream.Seek(x.posData);
    obj := ReadBSON(dbStream, sel, log[r]);
  }
}
