/** Documents as JSON text: the tokens, the parser as a function, and printing. */
module JsonGrammar {
  import opened Ids
  import opened ByteStreams
  import opened Documents

  /** Tokens; a STRING carries what stands between its quotes, a NUMBER and a FLOAT carry their values. */
  datatype Token =
    | LBRAN | RBRAN | LBRAK | RBRAK | COMMA | COLON | TRUE | FALSE
    | STRING(text: Id) | ID(name: Id) | NUMBER(d: nat) | FLOAT(bits: Bytes)

  datatype Parsed<T> = Fail | Ok(v: T, rest: seq<Token>)

  const INT_MAX := 0x7fff_ffff

  // ---- The parser as a function ----------------------------------------------------------------------

  predicate Starts(ts: seq<Token>, t: Token) {
    ts != [] && ts[0] == t
  }

  predicate StartsWithName(ts: seq<Token>) {
    ts != [] && (ts[0].STRING? || ts[0].ID?)
  }

  function NameOf(t: Token): Id
    requires t.STRING? || t.ID?
  {
    if t.STRING? then t.text else t.name
  }

  /** A number is an int up to INT_MAX and a long above. */
  function NumberValue(d: nat): Value {
    if d <= INT_MAX then IntV(d) else LongV(d)
  }

  function ParseConst(ts: seq<Token>): (r: Parsed<Value>)
    ensures r.Ok? ==> |r.rest| < |ts|
    decreases |ts|, 2
  {
    if ts == [] then Fail
    else match ts[0]
      case STRING(text) => Ok(StringV(text), ts[1..])
      case NUMBER(d) => Ok(NumberValue(d), ts[1..])
      case FLOAT(bits) => Ok(DoubleV(bits), ts[1..])
      case TRUE => Ok(BoolV(true), ts[1..])
      case FALSE => Ok(BoolV(false), ts[1..])
      case LBRAK =>
        var first := ParseDoc(ts[1..]);
        if first.Fail? then Fail
        else
          var docs := ParseDocs([first.v], first.rest);
          if docs.Ok? && Starts(docs.rest, RBRAK) then Ok(ArrayV(docs.v), docs.rest[1..]) else Fail
      case LBRAN =>
        var d := ParseDoc(ts);
        if d.Ok? then Ok(DocV(d.v), d.rest) else Fail
      case _ => Fail
  }

  function ParsePair(ts: seq<Token>): (r: Parsed<Field>)
    ensures r.Ok? ==> |r.rest| < |ts|
    decreases |ts|, 0
  {
    if !StartsWithName(ts) || !Starts(ts[1..], COLON) then Fail
    else
      var v := ParseConst(ts[2..]);
      if v.Ok? then Ok(Field(NameOf(ts[0]), v.v), v.rest) else Fail
  }

  /** Fields behind commas; a field with a key that is there already takes its place. */
  function ParseFields(fs: seq<Field>, ts: seq<Token>): (r: Parsed<seq<Field>>)
    ensures r.Ok? ==> |r.rest| <= |ts|
    decreases |ts|, 1
  {
    if !Starts(ts, COMMA) then Ok(fs, ts)
    else
      var f := ParsePair(ts[1..]);
      if f.Fail? then Fail else ParseFields(Put(fs, f.v), f.rest)
  }

  function ParseDoc(ts: seq<Token>): (r: Parsed<Doc>)
    ensures r.Ok? ==> |r.rest| < |ts|
    decreases |ts|, 1
  {
    if !Starts(ts, LBRAN) then Fail
    else
      var first: Parsed<Field> := if StartsWithName(ts[1..]) then ParsePair(ts[1..]) else Fail;
      if StartsWithName(ts[1..]) && first.Fail? then Fail
      else
        var fields := if first.Ok? then ParseFields(Put([], first.v), first.rest) else ParseFields([], ts[1..]);
        if fields.Ok? && Starts(fields.rest, RBRAN) then Ok(Doc(fields.v), fields.rest[1..]) else Fail
  }

  function ParseDocs(ds: seq<Doc>, ts: seq<Token>): (r: Parsed<seq<Doc>>)
    ensures r.Ok? ==> |r.rest| <= |ts|
    decreases |ts|, 2
  {
    if !Starts(ts, COMMA) then Ok(ds, ts)
    else
      var d := ParseDoc(ts[1..]);
      if d.Fail? then Fail else ParseDocs(ds + [d.v], d.rest)
  }

  // ---- Printing --------------------------------------------------------------------------------------

  const QUOTE: byte := 34
  const BACKSLASH: byte := 92

  predicate Clean(s: Id) {
    QUOTE !in s && BACKSLASH !in s
  }

  /** What JSON text can carry: clean strings, whole numbers from zero, longs that are no ints, arrays that are not
      empty. */
  predicate Jsonable(d: Doc)
    decreases d
  {
    KeysAscend(d.fs) && forall i :: 0 <= i < |d.fs| ==> FieldJsonable(d.fs[i])
  }

  predicate FieldJsonable(f: Field)
    decreases f
  {
    Clean(f.key) && ValueJsonable(f.value)
  }

  predicate ValueJsonable(v: Value)
    decreases v
  {
    match v
    case BoolV(_) => true
    case IntV(i) => 0 <= i <= INT_MAX
    case LongV(l) => l > INT_MAX
    case StringV(s) => Clean(s)
    case DocV(d) => Jsonable(d)
    case ArrayV(ds) => ds != [] && forall i :: 0 <= i < |ds| ==> Jsonable(ds[i])
    case _ => false
  }

  /** The tokens of the text of a document. */
  function DocTokens(d: Doc): seq<Token>
    decreases d
  {
    [LBRAN] + FieldsTokens(d.fs) + [RBRAN]
  }

  function FieldsTokens(fs: seq<Field>): seq<Token>
    decreases fs, 1
  {
    if fs == [] then [] else FieldTokens(fs[0]) + MoreFieldsTokens(fs[1..])
  }

  function MoreFieldsTokens(fs: seq<Field>): seq<Token>
    decreases fs, 0
  {
    if fs == [] then [] else [COMMA] + FieldTokens(fs[0]) + MoreFieldsTokens(fs[1..])
  }

  function FieldTokens(f: Field): seq<Token>
    decreases f
  {
    [STRING(f.key), COLON] + ValueTokens(f.value)
  }

  function ValueTokens(v: Value): seq<Token>
    decreases v
  {
    match v
    case BoolV(b) => [if b then TRUE else FALSE]
    case IntV(i) => [NUMBER(if i < 0 then 0 else i)]
    case LongV(l) => [NUMBER(if l < 0 then 0 else l)]
    case StringV(s) => [STRING(s)]
    case DocV(d) => DocTokens(d)
    case ArrayV(ds) => [LBRAK] + DocsTokens(ds) + [RBRAK]
    case _ => []
  }

  function DocsTokens(ds: seq<Doc>): seq<Token>
    decreases ds, 1
  {
    if ds == [] then [] else DocTokens(ds[0]) + MoreDocsTokens(ds[1..])
  }

  function MoreDocsTokens(ds: seq<Doc>): seq<Token>
    decreases ds, 0
  {
    if ds == [] then [] else [COMMA] + DocTokens(ds[0]) + MoreDocsTokens(ds[1..])
  }

  // ---- Parsing what was printed ----------------------------------------------------------------------

  /** A printed value is read back as itself, whatever comes behind it. */
  lemma {:induction false} ConstReads(v: Value, s: seq<Token>)
    requires ValueJsonable(v)
    ensures ParseConst(ValueTokens(v) + s) == Ok(v, s)
    decreases v
  {
    match v
    case DocV(d) =>
      DocReads(d, s);
      assert (ValueTokens(v) + s)[0] == LBRAN;
    case ArrayV(ds) => ArrayReads(ds, s);
    case _ =>
  }

  lemma {:induction false} ArrayReads(ds: seq<Doc>, s: seq<Token>)
    requires ds != [] && forall i :: 0 <= i < |ds| ==> Jsonable(ds[i])
    ensures ParseConst([LBRAK] + DocsTokens(ds) + [RBRAK] + s) == Ok(ArrayV(ds), s)
    decreases ds, 1
  {
    var end := [RBRAK] + s;
    DocReads(ds[0], MoreDocsTokens(ds[1..]) + end);
    DocsRead([ds[0]], ds[1..], end);
    assert [ds[0]] + ds[1..] == ds;
    Bracketed(DocTokens(ds[0]), MoreDocsTokens(ds[1..]), s);
    ArrayOfDocs([LBRAK] + DocsTokens(ds) + [RBRAK] + s, ds[0], MoreDocsTokens(ds[1..]) + end, ds, s);
  }

  lemma Bracketed(a: seq<Token>, c: seq<Token>, s: seq<Token>)
    ensures var ts := [LBRAK] + (a + c) + [RBRAK] + s; Starts(ts, LBRAK) && ts[1..] == a + (c + ([RBRAK] + s))
  {
  }

  lemma ArrayOfDocs(ts: seq<Token>, d: Doc, rest: seq<Token>, ds: seq<Doc>, s: seq<Token>)
    requires Starts(ts, LBRAK) && ParseDoc(ts[1..]) == Ok(d, rest) && ParseDocs([d], rest) == Ok(ds, [RBRAK] + s)
    ensures ParseConst(ts) == Ok(ArrayV(ds), s)
  {
    assert ([RBRAK] + s)[1..] == s;
  }

  lemma {:induction false} DocsRead(before: seq<Doc>, ds: seq<Doc>, s: seq<Token>)
    requires (forall i :: 0 <= i < |ds| ==> Jsonable(ds[i])) && !Starts(s, COMMA)
    ensures ParseDocs(before, MoreDocsTokens(ds) + s) == Ok(before + ds, s)
    decreases ds, 1
  {
    if ds == [] {
      assert MoreDocsTokens(ds) + s == s && before + ds == before;
    } else {
      NextDocRead(before, ds, s);
      DocsRead(before + [ds[0]], ds[1..], s);
      assert before + [ds[0]] + ds[1..] == before + ds;
    }
  }

  lemma {:induction false} NextDocRead(before: seq<Doc>, ds: seq<Doc>, s: seq<Token>)
    requires ds != [] && Jsonable(ds[0])
    ensures ParseDocs(before, MoreDocsTokens(ds) + s) == ParseDocs(before + [ds[0]], MoreDocsTokens(ds[1..]) + s)
    decreases ds, 0
  {
    var rest := MoreDocsTokens(ds[1..]) + s;
    MoreDocsHead(ds, s);
    DocReads(ds[0], rest);
    OneMoreDoc(before, MoreDocsTokens(ds) + s, ds[0], rest);
  }

  lemma MoreDocsHead(ds: seq<Doc>, s: seq<Token>)
    requires ds != []
    ensures var ts := MoreDocsTokens(ds) + s;
            Starts(ts, COMMA) && ts[1..] == DocTokens(ds[0]) + (MoreDocsTokens(ds[1..]) + s)
  {
    BehindComma(DocTokens(ds[0]), MoreDocsTokens(ds[1..]), s);
  }

  lemma BehindComma(a: seq<Token>, c: seq<Token>, s: seq<Token>)
    ensures var ts := [COMMA] + a + c + s; Starts(ts, COMMA) && ts[1..] == a + (c + s)
  {
  }

  lemma {:induction false} PairReads(f: Field, s: seq<Token>)
    requires FieldJsonable(f)
    ensures ParsePair(FieldTokens(f) + s) == Ok(f, s)
    decreases f
  {
    var ts := FieldTokens(f) + s;
    assert ts[1..][0] == COLON && ts[2..] == ValueTokens(f.value) + s;
    ConstReads(f.value, s);
  }

  lemma {:induction false} FieldsRead(before: seq<Field>, fs: seq<Field>, s: seq<Token>)
    requires (forall i :: 0 <= i < |fs| ==> FieldJsonable(fs[i])) && KeysAscend(before + fs) && !Starts(s, COMMA)
    ensures ParseFields(before, MoreFieldsTokens(fs) + s) == Ok(before + fs, s)
    decreases fs, 1
  {
    if fs == [] {
      assert MoreFieldsTokens(fs) + s == s && before + fs == before;
    } else {
      NextFieldRead(before, fs, s);
      PutInOrder(before, fs);
      FieldsRead(before + [fs[0]], fs[1..], s);
    }
  }

  lemma {:induction false} NextFieldRead(before: seq<Field>, fs: seq<Field>, s: seq<Token>)
    requires fs != [] && FieldJsonable(fs[0])
    ensures ParseFields(before, MoreFieldsTokens(fs) + s) ==
            ParseFields(Put(before, fs[0]), MoreFieldsTokens(fs[1..]) + s)
    decreases fs, 0
  {
    PairReads(fs[0], MoreFieldsTokens(fs[1..]) + s);
    MoreFieldsHead(fs, s);
    OneMoreField(before, MoreFieldsTokens(fs) + s, fs[0], MoreFieldsTokens(fs[1..]) + s);
  }

  lemma MoreFieldsHead(fs: seq<Field>, s: seq<Token>)
    requires fs != []
    ensures var ts := MoreFieldsTokens(fs) + s;
            Starts(ts, COMMA) && ts[1..] == FieldTokens(fs[0]) + (MoreFieldsTokens(fs[1..]) + s)
  {
    BehindComma(FieldTokens(fs[0]), MoreFieldsTokens(fs[1..]), s);
  }

  lemma OneMoreDoc(before: seq<Doc>, ts: seq<Token>, d: Doc, rest: seq<Token>)
    requires Starts(ts, COMMA) && ParseDoc(ts[1..]) == Ok(d, rest)
    ensures ParseDocs(before, ts) == ParseDocs(before + [d], rest)
  {
  }

  lemma OneMoreField(before: seq<Field>, ts: seq<Token>, f: Field, rest: seq<Token>)
    requires Starts(ts, COMMA) && ParsePair(ts[1..]) == Ok(f, rest)
    ensures ParseFields(before, ts) == ParseFields(Put(before, f), rest)
  {
  }

  lemma PutInOrder(before: seq<Field>, fs: seq<Field>)
    requires KeysAscend(before + fs) && fs != []
    ensures Put(before, fs[0]) == before + [fs[0]] && before + [fs[0]] + fs[1..] == before + fs
  {
    forall i | 0 <= i < |before| ensures KeyLess(before[i].key, fs[0].key) {
      assert (before + fs)[i] == before[i] && (before + fs)[|before|] == fs[0];
    }
    PutLast(before, fs[0]);
  }

  lemma {:induction false} AllFieldsRead(fs: seq<Field>, s: seq<Token>)
    requires fs != [] && (forall i :: 0 <= i < |fs| ==> FieldJsonable(fs[i])) && KeysAscend(fs) && !Starts(s, COMMA)
    ensures var ts := FieldsTokens(fs) + s;
            StartsWithName(ts) && var p := ParsePair(ts); p.Ok? && ParseFields(Put([], p.v), p.rest) == Ok(fs, s)
    decreases fs, 1
  {
    assert FieldsTokens(fs) + s == FieldTokens(fs[0]) + (MoreFieldsTokens(fs[1..]) + s);
    PairReads(fs[0], MoreFieldsTokens(fs[1..]) + s);
    assert Put([], fs[0]) == [fs[0]] && [fs[0]] + fs[1..] == fs;
    FieldsRead([fs[0]], fs[1..], s);
  }

  lemma DocOfFields(ts: seq<Token>, fs: seq<Field>, s: seq<Token>)
    requires Starts(ts, LBRAN) && StartsWithName(ts[1..])
    requires var p := ParsePair(ts[1..]); p.Ok? && ParseFields(Put([], p.v), p.rest) == Ok(fs, [RBRAN] + s)
    ensures ParseDoc(ts) == Ok(Doc(fs), s)
  {
    assert ([RBRAN] + s)[1..] == s;
  }

  lemma DocOfMoreFields(ts: seq<Token>, fs: seq<Field>, s: seq<Token>)
    requires Starts(ts, LBRAN) && !StartsWithName(ts[1..]) && ParseFields([], ts[1..]) == Ok(fs, [RBRAN] + s)
    ensures ParseDoc(ts) == Ok(Doc(fs), s)
  {
    assert ([RBRAN] + s)[1..] == s;
  }

  /** Parsing the text of a document gives the document back, and leaves what stands behind it. */
  lemma {:induction false} DocReads(d: Doc, s: seq<Token>)
    requires Jsonable(d)
    ensures ParseDoc(DocTokens(d) + s) == Ok(d, s)
    decreases d
  {
    var end := [RBRAN] + s;
    var ts := DocTokens(d) + s;
    assert ts[0] == LBRAN && ts[1..] == FieldsTokens(d.fs) + end;
    if d.fs == [] {
      assert ts[1..] == end;
      DocOfMoreFields(ts, [], s);
    } else {
      AllFieldsRead(d.fs, end);
      DocOfFields(ts, d.fs, s);
    }
  }

  /** A comma before the first field is let pass; so text and documents are not one to one. */
  lemma CommaBeforeFields(f: Field, s: seq<Token>)
    requires FieldJsonable(f)
    ensures ParseDoc([LBRAN, COMMA] + FieldTokens(f) + [RBRAN] + s) == ParseDoc([LBRAN] + FieldTokens(f) + [RBRAN] + s)
    ensures ParseDoc([LBRAN] + FieldTokens(f) + [RBRAN] + s) == Ok(Doc([f]), s)
  {
    OneField(f);
    assert [LBRAN] + FieldTokens(f) + [RBRAN] + s == DocTokens(Doc([f])) + s;
    DocReads(Doc([f]), s);
    CommaFieldReads(f, s);
  }

  lemma OneField(f: Field)
    ensures FieldsTokens([f]) == FieldTokens(f) && MoreFieldsTokens([f]) == [COMMA] + FieldTokens(f)
  {
    assert [f][1..] == [] && MoreFieldsTokens([]) == [];
  }

  lemma CommaFieldReads(f: Field, s: seq<Token>)
    requires FieldJsonable(f)
    ensures ParseDoc([LBRAN, COMMA] + FieldTokens(f) + [RBRAN] + s) == Ok(Doc([f]), s)
  {
    var end := [RBRAN] + s;
    var ts := [LBRAN, COMMA] + FieldTokens(f) + end;
    OneField(f);
    FieldsRead([], [f], end);
    assert ts[1..] == MoreFieldsTokens([f]) + end && [] + [f] == [f];
    assert [LBRAN, COMMA] + FieldTokens(f) + [RBRAN] + s == ts;
    DocOfMoreFields(ts, [f], s);
  }
}
