/** What a dotted path finds in a document, and what the byte view of the document finds instead. */
module Paths {
  import opened Ids
  import opened ByteStreams
  import opened Documents
  import opened Selections

  /** `Garbled` is a value whose bytes are taken for another type. */
  datatype Found = Nothing | Holds(v: Value) | Garbled

  function Content(d: Doc, key: Id): (c: Found)
    ensures c.Holds? ==> exists i :: 0 <= i < |d.fs| && d.fs[i].value == c.v
  {
    var i := Get(d.fs, key);
    if i == |d.fs| then Nothing else Holds(d.fs[i].value)
  }

  function Name(xpath: Id): Id {
    xpath[..Span(xpath, {DOT})]
  }

  predicate Dots(xpath: Id) {
    Span(xpath, {DOT}) < |xpath|
  }

  function Rest(xpath: Id): Id {
    if Dots(xpath) then xpath[Span(xpath, {DOT}) + 1..] else []
  }

  /** `BSONObj::getXpath`. */
  function DocXpath(d: Doc, xpath: Id): (c: Found)
    ensures !c.Garbled?
    decreases d
  {
    var c := Content(d, Name(xpath));
    if Dots(xpath) && c.Holds? && c.v.DocV? then DocXpath(c.v.d, Rest(xpath)) else c
  }

  // ---- Dotted paths and their names ------------------------------------------------------------------

  /** The names one by one, from document to document; a value that is none ends the walk. */
  function Walk(d: Doc, names: seq<Id>): Found
    requires names != []
  {
    var c := Content(d, names[0]);
    if |names| > 1 && c.Holds? && c.v.DocV? then Walk(c.v.d, names[1..]) else c
  }

  /** A dot leads on into the document under the name before it. */
  lemma {:induction false} DotLeadsOn(d: Doc, name: Id, rest: Id, inner: Doc)
    requires DOT !in name && Content(d, name) == Holds(DocV(inner))
    ensures DocXpath(d, name + [DOT] + rest) == DocXpath(inner, rest)
  {
    var xpath := name + ([DOT] + rest);
    SpanOf(name, [DOT] + rest, {DOT});
    assert name + [DOT] + rest == xpath && xpath[..|name|] == name && xpath[|name| + 1..] == rest;
  }

  lemma NoDotNoRest(d: Doc, name: Id)
    requires DOT !in name
    ensures DocXpath(d, name) == Content(d, name)
  {
    SpanOf(name, [], {DOT});
    assert name + [] == name;
  }

  /** A dotted path finds what walking its names finds. */
  lemma {:induction false} DottedPathWalks(d: Doc, p: Path)
    ensures DocXpath(d, Dotted(p)) == Walk(d, p)
    decreases |p|
  {
    var c := Content(d, p[0]);
    assert Plain(p[0]);
    if |p| == 1 {
      NoDotNoRest(d, p[0]);
    } else if c.Holds? && c.v.DocV? {
      DotLeadsOn(d, p[0], Dotted(p[1..]), c.v.d);
      DottedPathWalks(c.v.d, p[1..]);
    } else {
      DottedIsPlain(p);
      assert Name(Dotted(p)) == p[0];
    }
  }

  // ---- What a projection leaves to be found ----------------------------------------------------------

  predicate Selects(ps: seq<Path>, key: Id) {
    exists p :: p in ps && p[0] == key
  }

  lemma ProjectedFirst(fs: seq<Field>, ps: seq<Path>)
    requires fs != []
    ensures var rest := ProjectFields(fs[1..], ps);
            ProjectFields(fs, ps) ==
            if Selects(ps, fs[0].key) then [Field(fs[0].key, ProjectValue(fs[0].value, Tails(ps, fs[0].key)))] + rest
            else rest
  {
  }

  lemma GetBehind(f: Field, fs: seq<Field>, key: Id)
    ensures Get([f] + fs, key) == if f.key == key then 0 else 1 + Get(fs, key)
  {
    assert ([f] + fs)[1..] == fs;
  }

  /** The field stands in what is left, with the projection of its value. */
  predicate Left(fs: seq<Field>, r: seq<Field>, ps: seq<Path>, key: Id)
    requires Get(fs, key) < |fs|
  {
    var j := Get(r, key);
    j < |r| && r[j].value == ProjectValue(fs[Get(fs, key)].value, Tails(ps, key))
  }

  lemma LeftBehind(f: Field, fs: seq<Field>, r: seq<Field>, ps: seq<Path>, key: Id, g: seq<Field>)
    requires f.key != key && Get(fs, key) < |fs| && Left(fs, r, ps, key)
    requires |g| <= 1 && forall h :: h in g ==> h.key == f.key
    ensures Get([f] + fs, key) < |[f] + fs| && Left([f] + fs, g + r, ps, key)
  {
    GetBehind(f, fs, key);
    if g == [] {
      assert g + r == r;
    } else {
      assert g == [g[0]];
      GetBehind(g[0], r, key);
    }
  }

  lemma LeftHere(f: Field, fs: seq<Field>, r: seq<Field>, ps: seq<Path>)
    ensures Get([f] + fs, f.key) == 0
    ensures Left([f] + fs, [Field(f.key, ProjectValue(f.value, Tails(ps, f.key)))] + r, ps, f.key)
  {
    GetBehind(f, fs, f.key);
    GetBehind(Field(f.key, ProjectValue(f.value, Tails(ps, f.key))), r, f.key);
  }

  /** A field that is selected is found with the projection of its value. */
  lemma {:induction false} SelectedField(fs: seq<Field>, ps: seq<Path>, key: Id)
    requires Get(fs, key) < |fs| && Selects(ps, key)
    ensures Left(fs, ProjectFields(fs, ps), ps, key)
  {
    var f, r := fs[0], ProjectFields(fs[1..], ps);
    ProjectedFirst(fs, ps);
    assert fs == [f] + fs[1..];
    if f.key == key {
      LeftHere(f, fs[1..], r, ps);
    } else {
      GetBehind(f, fs[1..], key);
      SelectedField(fs[1..], ps, key);
      if Selects(ps, f.key) {
        LeftBehind(f, fs[1..], r, ps, key, [Field(f.key, ProjectValue(f.value, Tails(ps, f.key)))]);
      } else {
        assert [] + r == r;
        LeftBehind(f, fs[1..], r, ps, key, []);
      }
    }
  }

  lemma {:induction false} MissingField(fs: seq<Field>, ps: seq<Path>, key: Id)
    requires Get(fs, key) == |fs|
    ensures Get(ProjectFields(fs, ps), key) == |ProjectFields(fs, ps)|
  {
    if fs != [] {
      MissingField(fs[1..], ps, key);
      ProjectedFirst(fs, ps);
      if Selects(ps, fs[0].key) {
        GetBehind(ProjectFields(fs, ps)[0], ProjectFields(fs[1..], ps), key);
      }
    }
  }

  lemma {:induction false} NotSelected(fs: seq<Field>, ps: seq<Path>, key: Id)
    requires !Selects(ps, key)
    ensures Get(ProjectFields(fs, ps), key) == |ProjectFields(fs, ps)|
  {
    if fs != [] {
      NotSelected(fs[1..], ps, key);
      ProjectedFirst(fs, ps);
      if Selects(ps, fs[0].key) {
        GetBehind(ProjectFields(fs, ps)[0], ProjectFields(fs[1..], ps), key);
      }
    }
  }

  lemma {:induction false} TailIsIn(ps: seq<Path>, p: Path)
    requires p in ps && |p| > 1
    ensures p[1..] in Tails(ps, p[0])
  {
    if ps[0] != p {
      TailIsIn(ps[1..], p);
    }
  }

  /** A projection leaves what its paths find, unless that is a document or an array, and nothing under other names. */
  lemma {:induction false} ProjectionLeavesPaths(d: Doc, ps: seq<Path>, p: Path)
    requires var c := Walk(d, p); !(c.Holds? && (c.v.DocV? || c.v.ArrayV?))
    ensures p in ps ==> Walk(Project(d, ps), p) == Walk(d, p)
    ensures (forall q :: q in ps ==> q[0] != p[0]) ==> Walk(Project(d, ps), p) == Nothing
    decreases |p|
  {
    if !Selects(ps, p[0]) {
      NotSelected(d.fs, ps, p[0]);
    } else if Get(d.fs, p[0]) < |d.fs| {
      SelectedField(d.fs, ps, p[0]);
    } else {
      MissingField(d.fs, ps, p[0]);
    }
    var c := Content(d, p[0]);
    if p in ps && |p| > 1 && c.Holds? && c.v.DocV? {
      TailIsIn(ps, p);
      ProjectionLeavesPaths(c.v.d, Tails(ps, p[0]), p[1..]);
    }
  }

  lemma {:induction false} NoTail(ps: seq<Path>, key: Id)
    requires forall q :: q in ps && q[0] == key ==> |q| == 1
    ensures Tails(ps, key) == []
  {
    if ps != [] {
      NoTail(ps[1..], key);
    }
  }

  lemma {:induction false} NoPathsNoFields(fs: seq<Field>)
    ensures ProjectFields(fs, []) == []
  {
    if fs != [] {
      NoPathsNoFields(fs[1..]);
    }
  }

  /** A path that ends at a document leaves it without its fields, unless another path goes on from there. */
  lemma ProjectionEmptiesDocuments(d: Doc, ps: seq<Path>, key: Id)
    requires Selects(ps, key) && forall q :: q in ps && q[0] == key ==> |q| == 1
    requires var c := Content(d, key); c.Holds? && c.v.DocV?
    ensures Content(Project(d, ps), key) == Holds(DocV(Doc([])))
  {
    SelectedContent(d, ps, key);
    NoTail(ps, key);
    NothingSelected(Content(d, key).v.d);
  }

  lemma NothingSelected(d: Doc)
    ensures ProjectValue(DocV(d), []) == DocV(Doc([]))
  {
    NoPathsNoFields(d.fs);
    assert Project(d, []) == Doc([]);
  }

  lemma SelectedContent(d: Doc, ps: seq<Path>, key: Id)
    requires Selects(ps, key) && Content(d, key).Holds?
    ensures Content(Project(d, ps), key) == Holds(ProjectValue(Content(d, key).v, Tails(ps, key)))
  {
    SelectedField(d.fs, ps, key);
  }

  lemma {:induction false} ProjectedEach(ds: seq<Doc>, ps: seq<Path>, i: nat)
    requires i < |ds|
    ensures |ProjectDocs(ds, ps)| == |ds| && ProjectDocs(ds, ps)[i] == Project(ds[i], ps)
  {
    if i > 0 {
      ProjectedEach(ds[1..], ps, i - 1);
    } else if |ds| > 1 {
      ProjectedEach(ds[1..], ps, 0);
    }
  }

  /** Of an array that is selected every document stays in its place, each with what the paths go on to. */
  lemma ProjectionKeepsElements(d: Doc, ps: seq<Path>, key: Id, i: nat)
    requires Selects(ps, key)
    requires var c := Content(d, key); c.Holds? && c.v.ArrayV? && i < |c.v.ds|
    ensures var c, r := Content(d, key), Content(Project(d, ps), key);
            r.Holds? && r.v.ArrayV? && |r.v.ds| == |c.v.ds| && r.v.ds[i] == Project(c.v.ds[i], Tails(ps, key))
  {
    SelectedContent(d, ps, key);
    ProjectedEach(Content(d, key).v.ds, Tails(ps, key), i);
  }

  // ---- The byte view ---------------------------------------------------------------------------------

  /** Types that are read alike. */
  function Kind(tag: int): int {
    if tag == STRING_TYPE then PTRCHAR_TYPE else if tag == LONG64_TYPE then LONG_TYPE else tag
  }

  /** `getType` takes the first stored key that is a prefix of the key asked for. */
  function FirstPrefix(fs: seq<Field>, key: Id): (i: nat)
    ensures i <= |fs| && (i < |fs| ==> fs[i].key <= key) && forall j :: 0 <= j < i ==> !(fs[j].key <= key)
  {
    if fs == [] || fs[0].key <= key then 0 else 1 + FirstPrefix(fs[1..], key)
  }

  /** The type found for a key is the type of its own field. */
  predicate TypeRight(d: Doc, key: Id) {
    var i := Get(d.fs, key);
    var j := FirstPrefix(d.fs, key);
    i < |d.fs| && j < |d.fs| ==> Kind(Tag(d.fs[j].value)) == Kind(Tag(d.fs[i].value))
  }

  /** `BSONBufferedObj::getContent`. */
  function ViewContent(w: Doc, key: Id): Found {
    var i := Get(w.fs, key);
    if i == |w.fs| then Nothing else if TypeRight(w, key) then Holds(LoadedValue(w.fs[i].value)) else Garbled
  }

  /** `BSONBufferedObj::getXpath`: it goes on into a document even where the path ends. */
  function ViewXpath(w: Doc, xpath: Id): Found
    decreases w
  {
    var i := Get(w.fs, Name(xpath));
    var c := ViewContent(w, Name(xpath));
    if xpath != [] && c.Holds? && w.fs[i].value.DocV? then ViewXpath(w.fs[i].value.d, Rest(xpath)) else c
  }

  /** The types are right at every step of the path. */
  predicate TypesRight(w: Doc, xpath: Id)
    decreases w
  {
    var i := Get(w.fs, Name(xpath));
    TypeRight(w, Name(xpath)) &&
    (Dots(xpath) && i < |w.fs| && w.fs[i].value.DocV? ==> TypesRight(w.fs[i].value.d, Rest(xpath)))
  }

  predicate AtDocument(c: Found) {
    c.Holds? && c.v.DocV?
  }

  /** The last name of the path is the empty one. */
  predicate OpenEnded(xpath: Id) {
    xpath == [] || xpath[|xpath| - 1] == DOT
  }

  // ---- Agreement -------------------------------------------------------------------------------------

  lemma {:induction false} LoadedAt(fs: seq<Field>, key: Id)
    ensures Get(LoadedFields(fs), key) == Get(fs, key)
    ensures Get(fs, key) < |fs| ==> LoadedFields(fs)[Get(fs, key)].value == LoadedValue(fs[Get(fs, key)].value)
  {
    if fs != [] && fs[0].key != key {
      LoadedAt(fs[1..], key);
    }
  }

  /** A document is not one of its own fields. */
  lemma NotItsOwnField(w: Doc, i: nat)
    requires i < |w.fs|
    ensures w.fs[i].value != DocV(w)
  {
  }

  /** The byte view finds what the decoded document does exactly if the types along the path are right and the path
      does not end at a document (under a name that is not empty). */
  lemma {:induction false} ViewFindsTheSame(w: Doc, xpath: Id)
    ensures ViewXpath(w, xpath) == DocXpath(Loaded(w), xpath) <==>
            TypesRight(w, xpath) && (OpenEnded(xpath) || !AtDocument(DocXpath(Loaded(w), xpath)))
    decreases w
  {
    var i := Get(w.fs, Name(xpath));
    if i < |w.fs| && w.fs[i].value.DocV? && xpath != [] && TypeRight(w, Name(xpath)) {
      ViewStep(w, xpath, i);
      DocStep(w, xpath, i);
      PathStep(xpath);
      if Dots(xpath) {
        ViewFindsTheSame(w.fs[i].value.d, Rest(xpath));
      } else {
        EndsAbove(w.fs[i].value.d);
      }
    } else {
      LoadedAt(w.fs, Name(xpath));
    }
  }

  lemma ViewStep(w: Doc, xpath: Id, i: nat)
    requires i == Get(w.fs, Name(xpath)) < |w.fs| && w.fs[i].value.DocV? && xpath != [] && TypeRight(w, Name(xpath))
    ensures ViewXpath(w, xpath) == ViewXpath(w.fs[i].value.d, Rest(xpath))
    ensures TypesRight(w, xpath) == if Dots(xpath) then TypesRight(w.fs[i].value.d, Rest(xpath)) else true
  {
  }

  lemma DocStep(w: Doc, xpath: Id, i: nat)
    requires i == Get(w.fs, Name(xpath)) < |w.fs| && w.fs[i].value.DocV?
    ensures DocXpath(Loaded(w), xpath) ==
            if Dots(xpath) then DocXpath(Loaded(w.fs[i].value.d), Rest(xpath)) else Holds(DocV(Loaded(w.fs[i].value.d)))
  {
    LoadedAt(w.fs, Name(xpath));
    assert Content(Loaded(w), Name(xpath)) == Holds(DocV(Loaded(w.fs[i].value.d)));
  }

  lemma PathStep(xpath: Id)
    requires xpath != []
    ensures if Dots(xpath) then OpenEnded(Rest(xpath)) == OpenEnded(xpath) else Rest(xpath) == [] && !OpenEnded(xpath)
  {
  }

  /** Where a path ends at a document, the byte view looks for the empty key in it. */
  lemma EndsAbove(inner: Doc)
    ensures ViewXpath(inner, []) != Holds(DocV(Loaded(inner)))
  {
    var i := Get(inner.fs, []);
    LoadedAt(inner.fs, []);
    if i < |inner.fs| {
      NotItsOwnField(Loaded(inner), i);
    }
  }

  /** Keys none of which is a proper prefix of another. */
  predicate NoPrefixPairs(fs: seq<Field>) {
    forall i, j :: 0 <= i < |fs| && 0 <= j < |fs| && fs[i].key <= fs[j].key ==> fs[i].key == fs[j].key
  }

  /** No such pairs in the documents that paths lead through. */
  predicate NoPrefixes(w: Doc)
    decreases w
  {
    NoPrefixPairs(w.fs) &&
    forall i :: 0 <= i < |w.fs| && w.fs[i].value.DocV? ==> NoPrefixes(w.fs[i].value.d)
  }

  /** Where no key is a prefix of another, all types are right. */
  lemma {:induction false} NoPrefixesTypesRight(w: Doc, xpath: Id)
    requires NoPrefixes(w)
    ensures TypesRight(w, xpath)
    decreases w
  {
    var name := Name(xpath);
    var i, j := Get(w.fs, name), FirstPrefix(w.fs, name);
    if i < |w.fs| {
      assert w.fs[j].key == w.fs[i].key && Get(w.fs, name) == j;
      if Dots(xpath) && w.fs[i].value.DocV? {
        NoPrefixesTypesRight(w.fs[i].value.d, Rest(xpath));
      }
    }
  }

  /** Keys stand in order, so the first prefix is the shortest one that is stored. */
  lemma FirstPrefixIsShortest(w: Doc, key: Id, k: nat)
    requires KeysAscend(w.fs) && k < |w.fs| && w.fs[k].key <= key
    ensures FirstPrefix(w.fs, key) <= k && |w.fs[FirstPrefix(w.fs, key)].key| <= |w.fs[k].key|
  {
    var j := FirstPrefix(w.fs, key);
    if |w.fs[k].key| < |w.fs[j].key| {
      assert w.fs[k].key == key[..|w.fs[k].key|] == w.fs[j].key[..|w.fs[k].key|];
      PrefixIsLess(w.fs[k].key, w.fs[j].key);
      KeyOrder(w.fs[j].key, w.fs[k].key);
    }
  }

  lemma {:induction false} PrefixIsLess(a: Id, b: Id)
    requires a < b
    ensures KeyLess(a, b)
  {
    if a != [] {
      PrefixIsLess(a[1..], b[1..]);
    }
  }

  const A: Id := [97]
  const AB: Id := [97, 98]

  /** A number under `a` and a string under `ab`: the string is taken for a number. */
  lemma PrefixConfusesTypes(n: int, s: Id)
    ensures var w := Doc([Field(A, IntV(n)), Field(AB, StringV(s))]);
            Ordered(w) && ViewXpath(w, AB) == Garbled && DocXpath(Loaded(w), AB) == Holds(StringV(s))
  {
    var w := Doc([Field(A, IntV(n)), Field(AB, StringV(s))]);
    assert !Dots(AB) && Name(AB) == AB by {
      SpanOf(AB, [], {DOT});
      assert AB + [] == AB;
    }
    LoadedAt(w.fs, AB);
    assert Get(w.fs, AB) == 1;
  }
}
