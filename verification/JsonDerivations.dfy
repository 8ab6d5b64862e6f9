/** The derivations of the JSON grammar, and that the parser accepts exactly what they spell: an object is a list of
    pairs with commas between them, and possibly one in front; a name may come again, and then its last value counts. */
module JsonDerivations {
  import opened Ids
  import opened ByteStreams
  import opened Documents
  import opened JsonGrammar

  datatype ValueTree =
    | Text(text: Id)
    | Number(n: nat)
    | Float(bits: Bytes)
    | Truth(b: bool)
    | Object(d: DocTree)
    | Array(first: DocTree, more: seq<DocTree>)

  /** A name in quotes or without, and the value. */
  datatype Pair = Pair(quoted: bool, name: Id, value: ValueTree)

  /** The pairs of an object, and whether a comma stands before the first of them. */
  datatype DocTree = DocTree(comma: bool, pairs: seq<Pair>)

  // ---- What a derivation spells ----------------------------------------------------------------------

  function ValueSpelling(v: ValueTree): seq<Token>
    decreases v
  {
    match v
    case Text(text) => [STRING(text)]
    case Number(n) => [NUMBER(n)]
    case Float(bits) => [FLOAT(bits)]
    case Truth(b) => [if b then TRUE else FALSE]
    case Object(d) => DocSpelling(d)
    case Array(first, more) => [LBRAK] + (DocSpelling(first) + (MoreDocsSpelling(more) + [RBRAK]))
  }

  function PairSpelling(p: Pair): seq<Token>
    decreases p
  {
    [if p.quoted then STRING(p.name) else ID(p.name), COLON] + ValueSpelling(p.value)
  }

  function MoreSpelling(ps: seq<Pair>): seq<Token>
    decreases ps, 0
  {
    if ps == [] then [] else [COMMA] + PairSpelling(ps[0]) + MoreSpelling(ps[1..])
  }

  function PairsSpelling(comma: bool, ps: seq<Pair>): seq<Token>
    decreases ps, 1
  {
    if comma || ps == [] then MoreSpelling(ps) else PairSpelling(ps[0]) + MoreSpelling(ps[1..])
  }

  function DocSpelling(d: DocTree): seq<Token>
    decreases d
  {
    [LBRAN] + (PairsSpelling(d.comma, d.pairs) + [RBRAN])
  }

  function MoreDocsSpelling(ds: seq<DocTree>): seq<Token>
    decreases ds
  {
    if ds == [] then [] else [COMMA] + DocSpelling(ds[0]) + MoreDocsSpelling(ds[1..])
  }

  // ---- What it means ---------------------------------------------------------------------------------

  function ValueMeaning(v: ValueTree): Value
    decreases v
  {
    match v
    case Text(text) => StringV(text)
    case Number(n) => NumberValue(n)
    case Float(bits) => DoubleV(bits)
    case Truth(b) => BoolV(b)
    case Object(d) => DocV(DocMeaning(d))
    case Array(first, more) => ArrayV([DocMeaning(first)] + DocsMeaning(more))
  }

  function PairMeaning(p: Pair): Field
    decreases p
  {
    Field(p.name, ValueMeaning(p.value))
  }

  /** The fields added one by one: a name that is there already gets the new value. */
  function PutAll(fs: seq<Field>, ps: seq<Pair>): seq<Field>
    decreases ps
  {
    if ps == [] then fs else PutAll(Put(fs, PairMeaning(ps[0])), ps[1..])
  }

  function DocMeaning(d: DocTree): Doc
    decreases d
  {
    Doc(PutAll([], d.pairs))
  }

  function DocsMeaning(ds: seq<DocTree>): seq<Doc>
    decreases ds
  {
    if ds == [] then [] else [DocMeaning(ds[0])] + DocsMeaning(ds[1..])
  }

  // ---- Derivations are accepted ----------------------------------------------------------------------

  lemma {:induction false} ValueComplete(v: ValueTree, s: seq<Token>)
    ensures ParseConst(ValueSpelling(v) + s) == Ok(ValueMeaning(v), s)
    decreases v
  {
    match v
    case Object(d) =>
      DocComplete(d, s);
      DocSpellingStarts(d, s);
    case Array(first, more) => ArrayComplete(first, more, s);
    case _ =>
  }

  lemma DocSpellingStarts(d: DocTree, s: seq<Token>)
    ensures Starts(DocSpelling(d) + s, LBRAN)
  {
  }

  lemma {:induction false} ArrayComplete(first: DocTree, more: seq<DocTree>, s: seq<Token>)
    ensures ParseConst(ValueSpelling(Array(first, more)) + s) == Ok(ValueMeaning(Array(first, more)), s)
    decreases Array(first, more), 0
  {
    var end := [RBRAK] + s;
    var ts := ValueSpelling(Array(first, more)) + s;
    assert ts[1..] == DocSpelling(first) + (MoreDocsSpelling(more) + end);
    DocComplete(first, MoreDocsSpelling(more) + end);
    MoreDocsComplete([DocMeaning(first)], more, end);
    ArrayOfDocs(ts, DocMeaning(first), MoreDocsSpelling(more) + end, [DocMeaning(first)] + DocsMeaning(more), s);
  }

  lemma {:induction false} MoreDocsComplete(before: seq<Doc>, ds: seq<DocTree>, s: seq<Token>)
    requires !Starts(s, COMMA)
    ensures ParseDocs(before, MoreDocsSpelling(ds) + s) == Ok(before + DocsMeaning(ds), s)
    decreases ds, 1
  {
    if ds == [] {
      assert MoreDocsSpelling(ds) + s == s && before + DocsMeaning(ds) == before;
    } else {
      NextDocComplete(before, ds, s);
      MoreDocsComplete(before + [DocMeaning(ds[0])], ds[1..], s);
      assert before + [DocMeaning(ds[0])] + DocsMeaning(ds[1..]) == before + DocsMeaning(ds);
    }
  }

  lemma {:induction false} NextDocComplete(before: seq<Doc>, ds: seq<DocTree>, s: seq<Token>)
    requires ds != []
    ensures ParseDocs(before, MoreDocsSpelling(ds) + s) ==
            ParseDocs(before + [DocMeaning(ds[0])], MoreDocsSpelling(ds[1..]) + s)
    decreases ds, 0
  {
    DocComplete(ds[0], MoreDocsSpelling(ds[1..]) + s);
    MoreDocsStart(ds, s);
    OneMoreDoc(before, MoreDocsSpelling(ds) + s, DocMeaning(ds[0]), MoreDocsSpelling(ds[1..]) + s);
  }

  lemma MoreDocsStart(ds: seq<DocTree>, s: seq<Token>)
    requires ds != []
    ensures var ts := MoreDocsSpelling(ds) + s;
            Starts(ts, COMMA) && ts[1..] == DocSpelling(ds[0]) + (MoreDocsSpelling(ds[1..]) + s)
  {
    BehindComma(DocSpelling(ds[0]), MoreDocsSpelling(ds[1..]), s);
  }

  lemma {:induction false} PairComplete(p: Pair, s: seq<Token>)
    ensures StartsWithName(PairSpelling(p) + s) && ParsePair(PairSpelling(p) + s) == Ok(PairMeaning(p), s)
    decreases p
  {
    var ts := PairSpelling(p) + s;
    assert ts[2..] == ValueSpelling(p.value) + s && ts[1..][0] == COLON;
    ValueComplete(p.value, s);
  }

  lemma {:induction false} MoreComplete(fs: seq<Field>, ps: seq<Pair>, s: seq<Token>)
    requires !Starts(s, COMMA)
    ensures ParseFields(fs, MoreSpelling(ps) + s) == Ok(PutAll(fs, ps), s)
    decreases ps, 1
  {
    if ps == [] {
      assert MoreSpelling(ps) + s == s;
    } else {
      NextPairComplete(fs, ps, s);
      MoreComplete(Put(fs, PairMeaning(ps[0])), ps[1..], s);
    }
  }

  lemma {:induction false} NextPairComplete(fs: seq<Field>, ps: seq<Pair>, s: seq<Token>)
    requires ps != []
    ensures ParseFields(fs, MoreSpelling(ps) + s) == ParseFields(Put(fs, PairMeaning(ps[0])), MoreSpelling(ps[1..]) + s)
    decreases ps, 0
  {
    PairComplete(ps[0], MoreSpelling(ps[1..]) + s);
    MoreStart(ps, s);
    OneMoreField(fs, MoreSpelling(ps) + s, PairMeaning(ps[0]), MoreSpelling(ps[1..]) + s);
  }

  lemma MoreStart(ps: seq<Pair>, s: seq<Token>)
    requires ps != []
    ensures var ts := MoreSpelling(ps) + s;
            Starts(ts, COMMA) && ts[1..] == PairSpelling(ps[0]) + (MoreSpelling(ps[1..]) + s)
  {
    BehindComma(PairSpelling(ps[0]), MoreSpelling(ps[1..]), s);
  }

  /** What a derivation spells is parsed to its meaning, and what stands behind it is left. */
  lemma {:induction false} DocComplete(d: DocTree, s: seq<Token>)
    ensures ParseDoc(DocSpelling(d) + s) == Ok(DocMeaning(d), s)
    decreases d
  {
    var end := [RBRAN] + s;
    var ts := DocSpelling(d) + s;
    var ps := d.pairs;
    assert ts[1..] == PairsSpelling(d.comma, ps) + end;
    if d.comma || ps == [] {
      MoreComplete([], ps, end);
      NoNameFirst(ps, end);
      DocOfMoreFields(ts, PutAll([], ps), s);
    } else {
      var rest := MoreSpelling(ps[1..]) + end;
      assert PairsSpelling(d.comma, ps) + end == PairSpelling(ps[0]) + rest;
      PairComplete(ps[0], rest);
      MoreComplete(Put([], PairMeaning(ps[0])), ps[1..], end);
      DocOfFields(ts, PutAll([], ps), s);
    }
  }

  lemma NoNameFirst(ps: seq<Pair>, end: seq<Token>)
    requires Starts(end, RBRAN)
    ensures !StartsWithName(MoreSpelling(ps) + end)
  {
  }

  // ---- What is accepted has a derivation -------------------------------------------------------------

  lemma {:induction false} ValueSound(ts: seq<Token>) returns (v: ValueTree)
    requires ParseConst(ts).Ok?
    ensures var r := ParseConst(ts); ValueSpelling(v) + r.rest == ts && ValueMeaning(v) == r.v
    decreases |ts|, 3
  {
    match ts[0]
    case STRING(text) => v := Text(text);
    case NUMBER(d) => v := Number(d);
    case FLOAT(bits) => v := Float(bits);
    case TRUE => v := Truth(true);
    case FALSE => v := Truth(false);
    case LBRAK => v := ArraySound(ts);
    case LBRAN =>
      var d := DocSound(ts);
      v := Object(d);
  }

  lemma {:induction false} ArraySound(ts: seq<Token>) returns (v: ValueTree)
    requires Starts(ts, LBRAK) && ParseConst(ts).Ok?
    ensures var r := ParseConst(ts); ValueSpelling(v) + r.rest == ts && ValueMeaning(v) == r.v
    decreases |ts|, 2
  {
    var rest := EndsWithBracket(ts);
    var first := ParseDoc(ts[1..]);
    var d := DocSound(ts[1..]);
    var more := MoreDocsSound([first.v], first.rest);
    v := Array(d, more);
    Around(LBRAK, ts, DocSpelling(d), MoreDocsSpelling(more), RBRAK, rest);
  }

  lemma EndsWithBracket(ts: seq<Token>) returns (rest: seq<Token>)
    requires Starts(ts, LBRAK) && ParseConst(ts).Ok?
    ensures ParseDoc(ts[1..]).Ok?
    ensures var first := ParseDoc(ts[1..]); var docs := ParseDocs([first.v], first.rest);
            docs.Ok? && docs.rest == [RBRAK] + rest && ParseConst(ts) == Ok(ArrayV(docs.v), rest)
  {
    rest := ParseConst(ts).rest;
  }

  /** An opening token, two parts, a closing token and the rest. */
  lemma Around(open: Token, ts: seq<Token>, a: seq<Token>, c: seq<Token>, close: Token, rest: seq<Token>)
    requires Starts(ts, open) && a + (c + ([close] + rest)) == ts[1..]
    ensures [open] + (a + (c + [close])) + rest == ts
  {
    assert [open] + ts[1..] == ts;
    assert a + (c + [close]) + rest == a + (c + ([close] + rest));
  }

  lemma {:induction false} MoreDocsSound(before: seq<Doc>, ts: seq<Token>) returns (ds: seq<DocTree>)
    requires ParseDocs(before, ts).Ok?
    ensures var r := ParseDocs(before, ts); MoreDocsSpelling(ds) + r.rest == ts && before + DocsMeaning(ds) == r.v
    decreases |ts|, 2
  {
    if !Starts(ts, COMMA) {
      ds := [];
    } else {
      var d := ParseDoc(ts[1..]);
      var first := DocSound(ts[1..]);
      var more := MoreDocsSound(before + [d.v], d.rest);
      ds := [first] + more;
      FirstDocSpelled(first, more, ParseDocs(before, ts).rest, ts);
      assert before + [d.v] + DocsMeaning(more) == before + DocsMeaning(ds);
    }
  }

  lemma FirstDocSpelled(first: DocTree, more: seq<DocTree>, rest: seq<Token>, ts: seq<Token>)
    requires Starts(ts, COMMA) && DocSpelling(first) + (MoreDocsSpelling(more) + rest) == ts[1..]
    ensures MoreDocsSpelling([first] + more) + rest == ts
    ensures DocsMeaning([first] + more) == [DocMeaning(first)] + DocsMeaning(more)
  {
    assert ([first] + more)[1..] == more;
    Behind(DocSpelling(first), MoreDocsSpelling(more), rest, ts);
  }

  lemma Behind(a: seq<Token>, c: seq<Token>, rest: seq<Token>, ts: seq<Token>)
    requires Starts(ts, COMMA) && a + (c + rest) == ts[1..]
    ensures [COMMA] + a + c + rest == ts
  {
    assert [COMMA] + ts[1..] == ts;
    assert [COMMA] + a + c + rest == [COMMA] + (a + (c + rest));
  }

  lemma {:induction false} PairSound(ts: seq<Token>) returns (p: Pair)
    requires ParsePair(ts).Ok?
    ensures var r := ParsePair(ts); PairSpelling(p) + r.rest == ts && PairMeaning(p) == r.v
    decreases |ts|, 0
  {
    var v := ValueSound(ts[2..]);
    p := Pair(ts[0].STRING?, NameOf(ts[0]), v);
    assert ts == [ts[0], ts[1]] + ts[2..] && ts[1] == ts[1..][0];
  }

  lemma {:induction false} MoreSound(fs: seq<Field>, ts: seq<Token>) returns (ps: seq<Pair>)
    requires ParseFields(fs, ts).Ok?
    ensures var r := ParseFields(fs, ts); MoreSpelling(ps) + r.rest == ts && PutAll(fs, ps) == r.v
    decreases |ts|, 1
  {
    if !Starts(ts, COMMA) {
      ps := [];
    } else {
      var f := ParsePair(ts[1..]);
      var first := PairSound(ts[1..]);
      var more := MoreSound(Put(fs, f.v), f.rest);
      ps := [first] + more;
      assert ps[1..] == more;
      Behind(PairSpelling(first), MoreSpelling(more), ParseFields(fs, ts).rest, ts);
    }
  }

  /** Whatever is accepted is spelled by a derivation with the meaning that was found. */
  lemma {:induction false} DocSound(ts: seq<Token>) returns (d: DocTree)
    requires ParseDoc(ts).Ok?
    ensures var r := ParseDoc(ts); DocSpelling(d) + r.rest == ts && DocMeaning(d) == r.v
    decreases |ts|, 1
  {
    if StartsWithName(ts[1..]) {
      var f := ParsePair(ts[1..]);
      var first := PairSound(ts[1..]);
      var more := MoreSound(Put([], f.v), f.rest);
      d := FirstPairSound(ts, first, more);
    } else {
      var ps := MoreSound([], ts[1..]);
      d := NoPairSound(ts, ps);
    }
  }

  lemma NoPairSound(ts: seq<Token>, ps: seq<Pair>) returns (d: DocTree)
    requires ParseDoc(ts).Ok? && !StartsWithName(ts[1..])
    requires var r := ParseFields([], ts[1..]); MoreSpelling(ps) + r.rest == ts[1..] && PutAll([], ps) == r.v
    ensures var r := ParseDoc(ts); DocSpelling(d) + r.rest == ts && DocMeaning(d) == r.v
  {
    d := DocTree(true, ps);
    var rest := NoPairEnds(ts);
    Enclosed(ts, MoreSpelling(ps), rest);
  }

  lemma Enclosed(ts: seq<Token>, c: seq<Token>, rest: seq<Token>)
    requires Starts(ts, LBRAN) && c + ([RBRAN] + rest) == ts[1..]
    ensures [LBRAN] + (c + [RBRAN]) + rest == ts
  {
    assert [LBRAN] + ts[1..] == ts;
    assert c + [RBRAN] + rest == c + ([RBRAN] + rest);
  }

  lemma NoPairEnds(ts: seq<Token>) returns (rest: seq<Token>)
    requires ParseDoc(ts).Ok? && !StartsWithName(ts[1..])
    ensures Starts(ts, LBRAN)
    ensures var r := ParseFields([], ts[1..]); r == Ok(r.v, [RBRAN] + rest) && ParseDoc(ts) == Ok(Doc(r.v), rest)
  {
    rest := ParseDoc(ts).rest;
  }

  lemma FirstPairSound(ts: seq<Token>, first: Pair, more: seq<Pair>) returns (d: DocTree)
    requires ParseDoc(ts).Ok? && StartsWithName(ts[1..])
    requires var f := ParsePair(ts[1..]);
             PairSpelling(first) + f.rest == ts[1..] && PairMeaning(first) == f.v &&
             var r := ParseFields(Put([], f.v), f.rest);
             MoreSpelling(more) + r.rest == f.rest && PutAll(Put([], f.v), more) == r.v
    ensures var r := ParseDoc(ts); DocSpelling(d) + r.rest == ts && DocMeaning(d) == r.v
  {
    d := DocTree(false, [first] + more);
    assert d.pairs[1..] == more;
    var rest := EndsWithBrace(ts, ParsePair(ts[1..]));
    FirstSpelled(ts, d.pairs, rest);
  }

  lemma EndsWithBrace(ts: seq<Token>, f: Parsed<Field>) returns (rest: seq<Token>)
    requires ParseDoc(ts).Ok? && StartsWithName(ts[1..]) && f == ParsePair(ts[1..])
    ensures Starts(ts, LBRAN) && f.Ok?
    ensures var r := ParseFields(Put([], f.v), f.rest);
            r == Ok(r.v, [RBRAN] + rest) && ParseDoc(ts) == Ok(Doc(r.v), rest)
  {
    rest := ParseDoc(ts).rest;
  }

  lemma FirstSpelled(ts: seq<Token>, ps: seq<Pair>, rest: seq<Token>)
    requires Starts(ts, LBRAN) && ps != []
    requires PairSpelling(ps[0]) + (MoreSpelling(ps[1..]) + ([RBRAN] + rest)) == ts[1..]
    ensures DocSpelling(DocTree(false, ps)) + rest == ts
  {
    var a, c := PairSpelling(ps[0]), MoreSpelling(ps[1..]);
    Around(LBRAN, ts, a, c, RBRAN, rest);
    assert [LBRAN] + (a + (c + [RBRAN])) == [LBRAN] + (a + c + [RBRAN]);
  }

  /** The parser accepts a token sequence as a document if and only if a derivation with that meaning spells it. */
  lemma ParserAcceptsDerivations(ts: seq<Token>, d: Doc)
    ensures ParseDoc(ts) == Ok(d, []) <==> exists t: DocTree :: DocSpelling(t) == ts && DocMeaning(t) == d
  {
    if ParseDoc(ts) == Ok(d, []) {
      var t := DocSound(ts);
      assert DocSpelling(t) + [] == DocSpelling(t);
    }
    if t: DocTree :| DocSpelling(t) == ts && DocMeaning(t) == d {
      DocComplete(t, []);
      assert DocSpelling(t) + [] == ts;
    }
  }

  // ---- Repeated names --------------------------------------------------------------------------------

  /** The last pair with a name. */
  function LastOf(ps: seq<Pair>, name: Id): (i: nat)
    ensures i <= |ps| && (i < |ps| ==> ps[i].name == name)
    ensures forall j :: 0 <= j < |ps| && (i == |ps| || i < j) ==> ps[j].name != name
  {
    if ps == [] then 0
    else
      var n := |ps| - 1;
      if ps[n].name == name then n
      else
        var i := LastOf(ps[..n], name);
        if i == n then |ps| else i
  }

  lemma {:induction false} PutAllSnoc(fs: seq<Field>, ps: seq<Pair>, p: Pair)
    ensures PutAll(fs, ps + [p]) == Put(PutAll(fs, ps), PairMeaning(p))
    decreases ps
  {
    if ps == [] {
      assert ps + [p] == [p] && [p][1..] == [];
    } else {
      assert (ps + [p])[1..] == ps[1..] + [p] && (ps + [p])[0] == ps[0];
      PutAllSnoc(Put(fs, PairMeaning(ps[0])), ps[1..], p);
    }
  }

  /** The fields of an object: in order, and for every name the value of the last pair with it. */
  lemma {:induction false} LastPairCounts(ps: seq<Pair>)
    ensures KeysAscend(PutAll([], ps))
    ensures forall f :: f in PutAll([], ps) <==> LastOf(ps, f.key) < |ps| && f == PairMeaning(ps[LastOf(ps, f.key)])
  {
    if ps != [] {
      var n := |ps| - 1;
      LastPairCounts(ps[..n]);
      assert ps == ps[..n] + [ps[n]];
      PutAllSnoc([], ps[..n], ps[n]);
      PutIsMapUpdate(PutAll([], ps[..n]), PairMeaning(ps[n]));
    }
  }
}
