/** Stored records: documents with an identifier and a status, one behind another in the data file. */
module Records {
  import opened Ids
  import opened ByteStreams
  import opened Documents
  import opened BsonStreams
  import opened Filters

  const STATUS: Id := [95, 115, 116, 97, 116, 117, 115]
  const REVISION: Id := [95, 114, 101, 118, 105, 115, 105, 111, 110]

  const ACTIVE := 1
  const DELETED := 2
  const UPDATED := 3

  /** The document has a string under `_id`. */
  predicate Identified(d: Doc) {
    Get(d.fs, ID) < |d.fs| && d.fs[Get(d.fs, ID)].value.StringV?
  }

  function Ident(d: Doc): Id
    requires Identified(d)
  {
    d.fs[Get(d.fs, ID)].value.s
  }

  predicate HasStatus(d: Doc) {
    Get(d.fs, STATUS) < |d.fs| && d.fs[Get(d.fs, STATUS)].value.IntV?
  }

  function Status(d: Doc): int
    requires HasStatus(d)
  {
    d.fs[Get(d.fs, STATUS)].value.i
  }

  predicate Stored(d: Doc) {
    DocFits(d) && InMemory(d) && Identified(d) && HasStatus(d)
  }

  function With(d: Doc, key: Id, v: Value): Doc {
    Doc(Put(d.fs, Field(key, v)))
  }

  function WithStatus(d: Doc, status: int): Doc {
    With(d, STATUS, IntV(status))
  }

  // ---- Adding a field --------------------------------------------------------------------------------

  lemma {:induction false} LoadedEach(fs: seq<Field>)
    ensures LoadedFields(fs) == fs <==> forall i :: 0 <= i < |fs| ==> LoadedValue(fs[i].value) == fs[i].value
  {
    forall i | 0 <= i < |fs| ensures LoadedFields(fs)[i] == Field(fs[i].key, LoadedValue(fs[i].value)) {
      LoadedFieldAt(fs, i);
    }
  }

  lemma {:induction false} GetIsMember(fs: seq<Field>, f: Field)
    requires KeysAscend(fs) && f in fs
    ensures Get(fs, f.key) < |fs| && fs[Get(fs, f.key)] == f
  {
    var i :| 0 <= i < |fs| && fs[i] == f;
    forall j | 0 <= j < i ensures fs[j].key != f.key {
      KeyOrder(fs[j].key, fs[i].key);
    }
    GetUnique(fs, f.key, i);
  }

  /** `add` of a plain value to a document in memory: still one, with the value under the key and all else as it was. */
  lemma WithKeeps(d: Doc, key: Id, v: Value)
    requires InMemory(d) && ValueOrdered(v) && LoadedValue(v) == v
    ensures var r := With(d, key, v).fs;
            InMemory(With(d, key, v)) && Get(r, key) < |r| && r[Get(r, key)].value == v
  {
    var f := Field(key, v);
    var r := Put(d.fs, f);
    PutIsMapUpdate(d.fs, f);
    LoadedEach(d.fs);
    forall i | 0 <= i < |r| ensures ValueOrdered(r[i].value) && LoadedValue(r[i].value) == r[i].value {
      assert r[i] in r;
    }
    LoadedEach(r);
    GetIsMember(r, f);
  }

  lemma WithOther(d: Doc, key: Id, v: Value, other: Id)
    requires KeysAscend(d.fs) && other != key
    ensures var r := With(d, key, v).fs;
            (Get(r, other) < |r| <==> Get(d.fs, other) < |d.fs|) &&
            (Get(r, other) < |r| ==> r[Get(r, other)] == d.fs[Get(d.fs, other)])
  {
    var f := Field(key, v);
    var r := Put(d.fs, f);
    PutIsMapUpdate(d.fs, f);
    if Get(d.fs, other) < |d.fs| {
      GetIsMember(r, d.fs[Get(d.fs, other)]);
    }
    if Get(r, other) < |r| {
      assert r[Get(r, other)] in r;
      GetIsMember(d.fs, r[Get(r, other)]);
    }
  }

  lemma {:induction false} PutReplaces(fs: seq<Field>, f: Field)
    requires KeysAscend(fs) && Get(fs, f.key) < |fs|
    ensures Put(fs, f) == fs[Get(fs, f.key) := f]
  {
    if KeyLess(f.key, fs[0].key) {
      Before(fs, f);
    } else if fs[0].key != f.key {
      PutReplaces(fs[1..], f);
    } else {
      assert [f] + fs[1..] == fs[0 := f];
    }
  }

  lemma {:induction false} ReplacedLength(fs: seq<Field>, i: nat, f: Field)
    requires i < |fs| && |FieldBytes(f)| == |FieldBytes(fs[i])|
    ensures |FieldsBytes(fs[i := f])| == |FieldsBytes(fs)|
  {
    if i == 0 {
      assert fs[0 := f][1..] == fs[1..];
    } else {
      assert fs[i := f][1..] == fs[1..][i - 1 := f];
      ReplacedLength(fs[1..], i - 1, f);
    }
  }

  lemma StatusReplaced(d: Doc, status: int)
    requires KeysAscend(d.fs) && HasStatus(d)
    ensures WithStatus(d, status) == Doc(d.fs[Get(d.fs, STATUS) := Field(STATUS, IntV(status))])
    ensures |Encode(WithStatus(d, status))| == |Encode(d)|
  {
    PutReplaces(d.fs, Field(STATUS, IntV(status)));
    ReplacedLength(d.fs, Get(d.fs, STATUS), Field(STATUS, IntV(status)));
  }

  lemma ReplacedFits(d: Doc, i: nat, f: Field)
    requires DocFits(d) && i < |d.fs| && FieldFits(f)
    ensures DocFits(Doc(d.fs[i := f]))
  {
  }

  /** Rewriting the status of a record changes neither its length nor its identifier, nor any other field. */
  lemma StatusRewrite(d: Doc, status: int)
    requires Stored(d) && Fits(status, 4)
    ensures var r := WithStatus(d, status);
            Stored(r) && Status(r) == status && Ident(r) == Ident(d) && |Encode(r)| == |Encode(d)|
    ensures forall f :: f in WithStatus(d, status).fs <==>
                          f == Field(STATUS, IntV(status)) || (f in d.fs && f.key != STATUS)
  {
    PutIsMapUpdate(d.fs, Field(STATUS, IntV(status)));
    WithKeeps(d, STATUS, IntV(status));
    WithOther(d, STATUS, IntV(status), ID);
    StatusReplaced(d, status);
    ReplacedFits(d, Get(d.fs, STATUS), Field(STATUS, IntV(status)));
  }

  // ---- The data file ---------------------------------------------------------------------------------

  /** Where record r begins. */
  function Offset(log: seq<Doc>, r: nat): nat
    requires r <= |log|
  {
    |DocsBytes(log[..r])|
  }

  lemma {:induction false} DocsBytesConcat(a: seq<Doc>, c: seq<Doc>)
    ensures DocsBytes(a + c) == DocsBytes(a) + DocsBytes(c)
  {
    if a == [] {
      assert a + c == c;
    } else {
      assert (a + c)[1..] == a[1..] + c;
      DocsBytesConcat(a[1..], c);
    }
  }

  /** The file around one record. */
  lemma RecordInLog(log: seq<Doc>, r: nat)
    requires r < |log|
    ensures DocsBytes(log) == DocsBytes(log[..r]) + Encode(log[r]) + DocsBytes(log[r + 1..])
    ensures At(DocsBytes(log), Offset(log, r), Encode(log[r])) &&
            Offset(log, r + 1) == Offset(log, r) + |Encode(log[r])|
  {
    assert log == log[..r] + log[r..] && log[r..][1..] == log[r + 1..];
    DocsBytesConcat(log[..r], log[r..]);
    DocsBytesSnoc(log[..r], log[r]);
    assert log[..r + 1] == log[..r] + [log[r]];
  }

  lemma EncodeIsLong(d: Doc)
    ensures |Encode(d)| >= 8
  {
  }

  lemma {:induction false} OffsetsAscend(log: seq<Doc>, r: nat, q: nat)
    requires r < q <= |log|
    ensures Offset(log, r) < Offset(log, q)
  {
    RecordInLog(log, q - 1);
    EncodeIsLong(log[q - 1]);
    if r < q - 1 {
      OffsetsAscend(log, r, q - 1);
    }
  }

  /** A record written over by one of the same length: the file as before except there, and no record moved. */
  lemma RewriteInPlace(log: seq<Doc>, r: nat, d: Doc)
    requires r < |log| && |Encode(d)| == |Encode(log[r])|
    ensures Offset(log, r) <= |DocsBytes(log)|
    ensures DocsBytes(log[r := d]) == Overwrite(DocsBytes(log), Offset(log, r), Encode(d))
  {
    var log' := log[r := d];
    RecordInLog(log, r);
    RecordInLog(log', r);
    assert log'[..r] == log[..r] && log'[r + 1..] == log[r + 1..];
  }

  lemma {:induction false} OffsetsStay(log: seq<Doc>, r: nat, d: Doc, q: nat)
    requires r < |log| && |Encode(d)| == |Encode(log[r])| && q <= |log|
    ensures Offset(log[r := d], q) == Offset(log, q)
  {
    if q > 0 {
      OffsetsStay(log, r, d, q - 1);
      RecordInLog(log, q - 1);
      RecordInLog(log[r := d], q - 1);
    } else {
      assert log[..0] == [] && log[r := d][..0] == [];
    }
  }

  lemma OffsetsBefore(log: seq<Doc>, d: Doc, q: nat)
    requires q <= |log|
    ensures Offset(log + [d], q) == Offset(log, q) && Offset(log, |log|) == |DocsBytes(log)|
  {
    assert (log + [d])[..q] == log[..q] && log[..|log|] == log;
  }
}
