/** Projections: the select string, how it is taken apart, and what it means for a document. */
module Selections {
  import opened Ids
  import opened ByteStreams
  import opened Documents

  const SPACE: byte := 32
  const QUOTE: byte := 34
  const DOLLAR: byte := 36
  const STAR: byte := 42
  const COMMA: byte := 44
  const DOT: byte := 46

  const ALL: Id := [STAR]

  const EMPTY: Id := []

  // ---- The select string -----------------------------------------------------------------------------

  /** The length of the part before the first of the given bytes. */
  function Span(s: Id, stops: set<byte>): (n: nat)
    ensures n <= |s| && (forall i :: 0 <= i < n ==> s[i] !in stops) && (n < |s| ==> s[n] in stops)
  {
    if s == [] || s[0] in stops then 0 else 1 + Span(s[1..], stops)
  }

  /** `split`, that is `strtok`: the runs without a delimiter. */
  function Split(s: Id, delims: set<byte>): (r: seq<Id>)
    ensures forall i :: 0 <= i < |r| ==> r[i] != []
    decreases |s|
  {
    if s == [] then [] else if s[0] in delims then Split(s[1..], delims)
    else [s[..Span(s, delims)]] + Split(s[Span(s, delims)..], delims)
  }

  function TrimLeft(s: Id): Id {
    if s != [] && s[0] == SPACE then TrimLeft(s[1..]) else s
  }

  function TrimRight(s: Id): Id {
    if s != [] && s[|s| - 1] == SPACE then TrimRight(s[..|s| - 1]) else s
  }

  function Trim(s: Id): Id {
    TrimRight(TrimLeft(s))
  }

  predicate Quoted(s: Id) {
    s != [] && s[0] == DOLLAR
  }

  /** What stands between `$"` and `"`. */
  function Unquoted(s: Id): Id {
    if |s| >= 3 then s[2..|s| - 1] else []
  }

  /** The column an element of the select string names: its path up to the first dot. */
  function Column(element: Id): Id {
    var s := Trim(element);
    var p := if Quoted(s) then Unquoted(s) else s;
    p[..Span(p, {DOT})]
  }

  function Columns(sel: Id): set<Id> {
    set i | 0 <= i < |Split(sel, {COMMA})| :: Column(Split(sel, {COMMA})[i])
  }

  /** The path behind `name.` in an element, if it begins so. */
  predicate Below(element: Id, name: Id) {
    var s := Trim(element);
    Quoted(s) && name + [DOT] <= Unquoted(s)
  }

  function Requoted(path: Id): Id {
    [DOLLAR, QUOTE] + path + [QUOTE]
  }

  function SubElement(element: Id, name: Id): Id
    requires Below(element, name)
  {
    Requoted(Unquoted(Trim(element))[|name| + 1..])
  }

  function SubElements(es: seq<Id>, name: Id): seq<Id> {
    if es == [] then []
    else (if Below(es[0], name) then [SubElement(es[0], name)] else []) + SubElements(es[1..], name)
  }

  /** The strings with a comma and a space between them. */
  function Joined(es: seq<Id>): Id {
    if es == [] then [] else es[0] + JoinedRest(es[1..])
  }

  function JoinedRest(es: seq<Id>): Id {
    if es == [] then [] else [COMMA, SPACE] + es[0] + JoinedRest(es[1..])
  }

  function SubSelect(sel: Id, name: Id): Id {
    Joined(SubElements(Split(sel, {COMMA, SPACE}), name))
  }

  // ---- Selecting from a document ---------------------------------------------------------------------

  function Select(d: Doc, sel: Id): Doc
    decreases d
  {
    Doc(SelectFields(d.fs, sel))
  }

  function SelectFields(fs: seq<Field>, sel: Id): seq<Field>
    decreases fs
  {
    if fs == [] then [] else Selected(fs[0], sel) + SelectFields(fs[1..], sel)
  }

  function Selected(f: Field, sel: Id): seq<Field>
    decreases f
  {
    if Included(f.key, sel) then [Field(f.key, SelectValue(f.value, f.key, sel))] else []
  }

  predicate Included(key: Id, sel: Id) {
    sel == ALL || key in Columns(sel)
  }

  function SelectValue(v: Value, key: Id, sel: Id): Value
    decreases v
  {
    if sel == ALL then v
    else match v
      case DocV(d) => DocV(Select(d, SubSelect(sel, key)))
      case ArrayV(ds) => ArrayV(SelectDocs(ds, SubSelect(sel, key)))
      case _ => v
  }

  function SelectDocs(ds: seq<Doc>, sel: Id): (r: seq<Doc>)
    ensures |r| == |ds|
    decreases ds
  {
    if ds == [] then [] else [if sel == ALL then ds[0] else Select(ds[0], sel)] + SelectDocs(ds[1..], sel)
  }

  /** What the reader passes on for the value under a key. */
  function Inner(sel: Id, key: Id): Id {
    if sel == ALL then ALL else SubSelect(sel, key)
  }

  lemma {:induction false} SelectAll(fs: seq<Field>)
    ensures SelectFields(fs, ALL) == fs
  {
    if fs != [] {
      SelectAll(fs[1..]);
      assert Selected(fs[0], ALL) == [fs[0]];
    }
  }

  lemma {:induction false} SelectAllDocs(ds: seq<Doc>)
    ensures SelectDocs(ds, ALL) == ds
  {
    if ds != [] {
      SelectAllDocs(ds[1..]);
    }
  }

  /** The value under a key, selected as the reader does it: with the inner selection whatever the type. */
  lemma SelectInner(v: Value, key: Id, sel: Id)
    ensures v.DocV? ==> SelectValue(v, key, sel) == DocV(Select(v.d, Inner(sel, key)))
    ensures v.ArrayV? ==> SelectValue(v, key, sel) == ArrayV(SelectDocs(v.ds, Inner(sel, key)))
  {
    if sel == ALL && v.DocV? {
      SelectAll(v.d.fs);
    } else if sel == ALL && v.ArrayV? {
      SelectAllDocs(v.ds);
    }
  }

  /** Selecting keeps the keys in order. */
  lemma {:induction false} SelectKeys(fs: seq<Field>, sel: Id)
    ensures forall g :: g in SelectFields(fs, sel) ==> exists f :: f in fs && f.key == g.key
    ensures KeysAscend(fs) ==> KeysAscend(SelectFields(fs, sel))
  {
    if fs != [] {
      SelectKeys(fs[1..], sel);
      var r := SelectFields(fs[1..], sel);
      if KeysAscend(fs) {
        forall i | 0 <= i < |r| ensures KeyLess(fs[0].key, r[i].key) {
          assert r[i] in r;
        }
      }
    }
  }

  lemma {:induction false} SelectFieldsSnoc(fs: seq<Field>, f: Field, sel: Id)
    ensures SelectFields(fs + [f], sel) == SelectFields(fs, sel) + Selected(f, sel)
  {
    if fs == [] {
      assert fs + [f] == [f];
    } else {
      assert (fs + [f])[1..] == fs[1..] + [f];
      SelectFieldsSnoc(fs[1..], f, sel);
    }
  }

  lemma {:induction false} SelectDocsSnoc(ds: seq<Doc>, d: Doc, sel: Id)
    ensures SelectDocs(ds + [d], sel) == SelectDocs(ds, sel) + [Select(d, sel)]
  {
    if sel == ALL {
      SelectAll(d.fs);
    }
    if ds == [] {
      assert ds + [d] == [d];
    } else {
      assert (ds + [d])[1..] == ds[1..] + [d];
      SelectDocsSnoc(ds[1..], d, sel);
    }
  }

  // ---- Select strings as lists of paths --------------------------------------------------------------

  /** A name as a path holds it: free of the bytes that take a select string apart. */
  predicate Plain(name: Id) {
    COMMA !in name && SPACE !in name && DOT !in name
  }

  type Path = p: seq<Id> | p != [] && forall i :: 0 <= i < |p| ==> Plain(p[i]) witness [EMPTY]

  function Dotted(p: Path): Id {
    if |p| == 1 then p[0] else p[0] + [DOT] + Dotted(p[1..])
  }

  function Elements(ps: seq<Path>): (r: seq<Id>)
    ensures |r| == |ps| && forall i :: 0 <= i < |r| ==> r[i] == Requoted(Dotted(ps[i]))
  {
    seq(|ps|, i requires 0 <= i < |ps| => Requoted(Dotted(ps[i])))
  }

  /** The select string for some paths: `$"a.b", $"c"`. */
  function Print(ps: seq<Path>): Id {
    Joined(Elements(ps))
  }

  /** What the paths select below a key: the rest of every path that goes on behind it. */
  function Tails(ps: seq<Path>, key: Id): seq<Path> {
    if ps == [] then []
    else (if ps[0][0] == key && |ps[0]| > 1 then [ps[0][1..]] else []) + Tails(ps[1..], key)
  }

  /** Projection by paths: fields a path begins with, and of the documents in them what the paths go on to. */
  function Project(d: Doc, ps: seq<Path>): Doc
    decreases d
  {
    Doc(ProjectFields(d.fs, ps))
  }

  function ProjectFields(fs: seq<Field>, ps: seq<Path>): seq<Field>
    decreases fs
  {
    if fs == [] then []
    else (if exists p :: p in ps && p[0] == fs[0].key
          then [Field(fs[0].key, ProjectValue(fs[0].value, Tails(ps, fs[0].key)))] else []) + ProjectFields(fs[1..], ps)
  }

  function ProjectValue(v: Value, ps: seq<Path>): Value
    decreases v
  {
    match v
    case DocV(d) => DocV(Project(d, ps))
    case ArrayV(ds) => ArrayV(ProjectDocs(ds, ps))
    case _ => v
  }

  function ProjectDocs(ds: seq<Doc>, ps: seq<Path>): seq<Doc>
    decreases ds
  {
    if ds == [] then [] else [Project(ds[0], ps)] + ProjectDocs(ds[1..], ps)
  }

  // ---- The two are the same --------------------------------------------------------------------------

  lemma {:induction false} SpanOf(x: Id, s: Id, stops: set<byte>)
    requires (forall c :: c in x ==> c !in stops) && (s == [] || s[0] in stops)
    ensures Span(x + s, stops) == |x|
  {
    if x != [] {
      assert x[0] in x && (x + s)[1..] == x[1..] + s;
      SpanOf(x[1..], s, stops);
    } else {
      assert x + s == s;
    }
  }

  lemma SplitFirst(x: Id, s: Id, delims: set<byte>)
    requires x != [] && (forall c :: c in x ==> c !in delims) && (s == [] || s[0] in delims)
    ensures Split(x + s, delims) == [x] + Split(s, delims)
  {
    SpanOf(x, s, delims);
    assert (x + s)[0] in x && (x + s)[..|x|] == x && (x + s)[|x|..] == s;
  }

  /** An element between commas and spaces. */
  predicate Token(e: Id) {
    |e| >= 3 && e[0] == DOLLAR && e[|e| - 1] == QUOTE && COMMA !in e && SPACE !in e
  }

  lemma TokenTrims(e: Id)
    requires Token(e)
    ensures Trim(e) == e && Trim([SPACE] + e) == e
  {
    assert TrimLeft([SPACE] + e) == TrimLeft(e) == e;
  }

  /** Either delimiter set takes the elements apart again. */
  lemma {:induction false} SplitRest(es: seq<Id>, spaceToo: bool)
    requires forall i :: 0 <= i < |es| ==> Token(es[i])
    ensures var r := Split(JoinedRest(es), if spaceToo then {COMMA, SPACE} else {COMMA});
            |r| == |es| && forall i :: 0 <= i < |r| ==> Trim(r[i]) == es[i]
  {
    if es != [] {
      SplitRest(es[1..], spaceToo);
      SplitNext(es[0], JoinedRest(es[1..]), spaceToo);
      TokenTrims(es[0]);
    }
  }

  lemma SplitNext(e: Id, rest: Id, spaceToo: bool)
    requires Token(e) && (rest == [] || rest[0] == COMMA)
    ensures var delims := if spaceToo then {COMMA, SPACE} else {COMMA};
            var x := if spaceToo then e else [SPACE] + e;
            Split([COMMA, SPACE] + e + rest, delims) == [x] + Split(rest, delims)
  {
    var s := [COMMA, SPACE] + e + rest;
    assert s[1..] == ([SPACE] + e) + rest;
    if spaceToo {
      assert s[1..][1..] == e + rest;
      SplitFirst(e, rest, {COMMA, SPACE});
    } else {
      SplitFirst([SPACE] + e, rest, {COMMA});
    }
  }

  lemma SplitJoined(es: seq<Id>, spaceToo: bool)
    requires forall i :: 0 <= i < |es| ==> Token(es[i])
    ensures var r := Split(Joined(es), if spaceToo then {COMMA, SPACE} else {COMMA});
            |r| == |es| && forall i :: 0 <= i < |r| ==> Trim(r[i]) == es[i]
  {
    if es != [] {
      SplitRest(es[1..], spaceToo);
      SplitFirst(es[0], JoinedRest(es[1..]), if spaceToo then {COMMA, SPACE} else {COMMA});
      TokenTrims(es[0]);
    }
  }

  lemma {:induction false} DottedIsPlain(p: Path)
    ensures COMMA !in Dotted(p) && SPACE !in Dotted(p)
    ensures Span(Dotted(p), {DOT}) == |p[0]| && p[0] <= Dotted(p)
  {
    assert Plain(p[0]);
    if |p| > 1 {
      DottedIsPlain(p[1..]);
      SpanOf(p[0], [DOT] + Dotted(p[1..]), {DOT});
      assert p[0] + ([DOT] + Dotted(p[1..])) == Dotted(p);
    } else {
      SpanOf(p[0], [], {DOT});
      assert p[0] + [] == p[0];
    }
  }

  lemma PathToken(p: Path)
    ensures Token(Requoted(Dotted(p))) && Unquoted(Requoted(Dotted(p))) == Dotted(p)
  {
    DottedIsPlain(p);
  }

  lemma PrintSplits(ps: seq<Path>, spaceToo: bool)
    ensures var r := Split(Print(ps), if spaceToo then {COMMA, SPACE} else {COMMA});
            |r| == |ps| && forall i :: 0 <= i < |r| ==> Trim(r[i]) == Requoted(Dotted(ps[i]))
  {
    forall i | 0 <= i < |ps| ensures Token(Elements(ps)[i]) {
      PathToken(ps[i]);
    }
    SplitJoined(Elements(ps), spaceToo);
  }

  lemma ColumnOfPath(e: Id, p: Path)
    requires Trim(e) == Requoted(Dotted(p))
    ensures Column(e) == p[0]
  {
    PathToken(p);
    DottedIsPlain(p);
  }

  /** The columns of a printed list of paths are the first names of the paths. */
  lemma ColumnsOfPrint(ps: seq<Path>, key: Id)
    ensures key in Columns(Print(ps)) <==> exists p :: p in ps && p[0] == key
    ensures Print(ps) != ALL
  {
    PrintSplits(ps, false);
    var es := Split(Print(ps), {COMMA});
    if key in Columns(Print(ps)) {
      var i :| 0 <= i < |es| && Column(es[i]) == key;
      ColumnOfPath(es[i], ps[i]);
      assert ps[i] in ps;
    }
    if exists p :: p in ps && p[0] == key {
      var p :| p in ps && p[0] == key;
      var i :| 0 <= i < |ps| && ps[i] == p;
      ColumnOfPath(es[i], ps[i]);
    }
  }

  lemma FirstName(p: Path, name: Id)
    requires DOT !in name
    ensures name + [DOT] <= Dotted(p) <==> p[0] == name && |p| > 1
    ensures p[0] == name && |p| > 1 ==> Dotted(p)[|name| + 1..] == Dotted(p[1..])
  {
    DottedIsPlain(p);
    var d := Dotted(p);
    if name + [DOT] <= d {
      SpanOf(name, d[|name|..], {DOT});
      assert d == name + d[|name|..];
    }
    if p[0] == name && |p| > 1 {
      assert d[..|name| + 1] == name + [DOT];
    }
  }

  lemma BelowIsTail(e: Id, p: Path, name: Id)
    requires Trim(e) == Requoted(Dotted(p)) && DOT !in name
    ensures Below(e, name) <==> p[0] == name && |p| > 1
    ensures Below(e, name) ==> SubElement(e, name) == Requoted(Dotted(p[1..]))
  {
    PathToken(p);
    FirstName(p, name);
  }

  lemma {:induction false} SubElementsAreTails(es: seq<Id>, ps: seq<Path>, name: Id)
    requires |es| == |ps| && DOT !in name && forall i :: 0 <= i < |es| ==> Trim(es[i]) == Requoted(Dotted(ps[i]))
    ensures SubElements(es, name) == Elements(Tails(ps, name))
  {
    if es != [] {
      BelowIsTail(es[0], ps[0], name);
      SubElementsAreTails(es[1..], ps[1..], name);
    }
  }

  /** The inner selection of a printed list of paths is the printed list of their tails. */
  lemma SubSelectOfPrint(ps: seq<Path>, name: Id)
    requires DOT !in name
    ensures SubSelect(Print(ps), name) == Print(Tails(ps, name))
  {
    PrintSplits(ps, true);
    SubElementsAreTails(Split(Print(ps), {COMMA, SPACE}), ps, name);
  }

  /** Selecting by the printed paths is projecting by the paths, at every depth. */
  lemma {:induction false} SelectIsProject(d: Doc, ps: seq<Path>)
    ensures Select(d, Print(ps)) == Project(d, ps)
    decreases d
  {
    SelectFieldsIsProject(d.fs, ps);
  }

  lemma {:induction false} SelectFieldsIsProject(fs: seq<Field>, ps: seq<Path>)
    ensures SelectFields(fs, Print(ps)) == ProjectFields(fs, ps)
    decreases fs
  {
    if fs != [] {
      ColumnsOfPrint(ps, fs[0].key);
      if exists p :: p in ps && p[0] == fs[0].key {
        SelectValueIsProject(fs[0].value, fs[0].key, ps);
      }
      SelectFieldsIsProject(fs[1..], ps);
    }
  }

  lemma {:induction false} SelectValueIsProject(v: Value, key: Id, ps: seq<Path>)
    requires exists p :: p in ps && p[0] == key
    ensures SelectValue(v, key, Print(ps)) == ProjectValue(v, Tails(ps, key))
    decreases v
  {
    var p :| p in ps && p[0] == key;
    assert Plain(p[0]);
    ColumnsOfPrint(ps, key);
    SubSelectOfPrint(ps, key);
    match v
    case DocV(d) => SelectIsProject(d, Tails(ps, key));
    case ArrayV(ds) => SelectDocsIsProject(ds, Tails(ps, key));
    case _ =>
  }

  lemma {:induction false} SelectDocsIsProject(ds: seq<Doc>, ps: seq<Path>)
    ensures SelectDocs(ds, Print(ps)) == ProjectDocs(ds, ps)
    decreases ds
  {
    if ds != [] {
      ColumnsOfPrint(ps, []);
      SelectIsProject(ds[0], ps);
      SelectDocsIsProject(ds[1..], ps);
    }
  }
}
