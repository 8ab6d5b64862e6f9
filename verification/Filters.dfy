/** Filter expressions and their evaluation, over anything that answers to paths. */
module Filters {
  import opened Ids
  import opened ByteStreams
  import opened Documents
  import opened Selections
  import opened Paths

  /** `ExpressionResult`. */
  datatype Result = RNull | RInt(i: int) | RLong(l: int) | RDouble(bits: Bytes) | RString(s: Id) | RBool(b: bool)

  datatype Oper =
    | FO_AND | FO_OR
    | FO_EQUALS | FO_NOT_EQUALS
    | FO_LESSTHAN | FO_LESSEQUALTHAN | FO_GREATERTHAN | FO_GREATEREQUALTHAN

  datatype Expr =
    | Constant(value: Result)
    | Simple(xpath: Id)
    | Not(inner: Expr)
    | Exists(field: Expr)
    | Binary(oper: Oper, left: Expr, right: Expr)

  /** What evaluating gives: a result, an exception, a null pointer, or, where that pointer is followed or a value
      is read as another type, nothing the source defines. */
  datatype Outcome = Val(r: Result) | Thrown | NoResult | Undefined

  /** Comparisons of doubles, which are left to the machine. */
  datatype Floats = Floats(eq: (Bytes, Bytes) -> bool, gt: (Bytes, Bytes) -> bool)

  /** A document as a filter sees it. */
  datatype Subject = Subject(getXpath: Id -> Found, has: Id -> bool)

  function DocSubject(d: Doc): Subject {
    Subject((p: Id) => DocXpath(d, p), (k: Id) => Get(d.fs, k) < |d.fs|)
  }

  function ViewSubject(w: Doc): Subject {
    Subject((p: Id) => ViewXpath(w, p), (k: Id) => Get(w.fs, k) < |w.fs|)
  }

  /** `SimpleExpression::eval`. */
  function EvalFound(c: Found): Outcome {
    match c
    case Nothing => Val(RNull)
    case Garbled => Undefined
    case Holds(v) =>
      match v
      case BoolV(b) => Val(RBool(b))
      case IntV(i) => Val(RInt(i))
      case LongV(l) => Val(RLong(l))
      case OldLong(l) => Val(RLong(l))
      case DoubleV(bits) => Val(RDouble(bits))
      case StringV(s) => Val(RString(s))
      case OldString(s) => Val(RString(s))
      case DocV(_) => Thrown
      case ArrayV(_) => Thrown
  }

  function Type(r: Result): int {
    match r
    case RNull => 0
    case RInt(_) => 1
    case RLong(_) => 2
    case RDouble(_) => 3
    case RString(_) => 4
    case RBool(_) => 5
  }

  predicate Equal(fl: Floats, a: Result, c: Result) {
    if a.RNull? || Type(a) != Type(c) then false else if a.RDouble? then fl.eq(a.bits, c.bits) else a == c
  }

  /** Only numbers are ever greater. */
  predicate Greater(fl: Floats, a: Result, c: Result) {
    match (a, c)
    case (RInt(i), RInt(j)) => i > j
    case (RLong(i), RLong(j)) => i > j
    case (RDouble(x), RDouble(y)) => fl.gt(x, y)
    case _ => false
  }

  /** `evalComparison` on two results. */
  predicate Compares(fl: Floats, oper: Oper, a: Result, c: Result) {
    Type(a) == Type(c) &&
    var greater := Greater(fl, a, c);
    if (!greater && oper == FO_GREATEREQUALTHAN) || (greater && oper == FO_LESSEQUALTHAN) then Equal(fl, a, c)
    else if oper == FO_LESSTHAN || oper == FO_LESSEQUALTHAN then !greater
    else greater
  }

  /** Both sides are evaluated, the left one first. A null pointer is followed when the types are looked at. */
  function Both(l: Outcome, r: Outcome): Outcome {
    if l.Thrown? || l.Undefined? then l else if r.Thrown? || r.Undefined? then r
    else if l.NoResult? || r.NoResult? then Undefined else Val(RNull)
  }

  function EvalBinary(fl: Floats, oper: Oper, l: Outcome, r: Outcome): Outcome {
    if !Both(l, r).Val? then Both(l, r)
    else match oper
      case FO_EQUALS => Val(RBool(Equal(fl, l.r, r.r)))
      case FO_NOT_EQUALS => Val(RBool(!Equal(fl, l.r, r.r)))
      case FO_AND => if l.r.RBool? && r.r.RBool? then Val(RBool(l.r.b && r.r.b)) else NoResult
      case FO_OR => if l.r.RBool? && r.r.RBool? then Val(RBool(l.r.b || r.r.b)) else NoResult
      case _ => Val(RBool(Compares(fl, oper, l.r, r.r)))
  }

  function EvalNot(o: Outcome): Outcome {
    match o
    case Val(r) => if r.RBool? then Val(RBool(!r.b)) else Thrown
    case NoResult => Undefined
    case _ => o
  }

  function Eval(fl: Floats, e: Expr, s: Subject): Outcome {
    match e
    case Constant(value) => Val(value)
    case Simple(xpath) => EvalFound(s.getXpath(xpath))
    case Not(inner) => EvalNot(Eval(fl, inner, s))
    case Exists(field) => if field.Simple? then Val(RBool(s.has(field.xpath))) else Thrown
    case Binary(oper, l, r) => EvalBinary(fl, oper, Eval(fl, l, s), Eval(fl, r, s))
  }

  /** The record is taken if the filter says true. */
  predicate Accepts(o: Outcome) {
    o == Val(RBool(true))
  }

  // ---- What a filter depends on ----------------------------------------------------------------------

  /** The paths whose values the filter reads. */
  function Reads(e: Expr): set<Id> {
    match e
    case Constant(_) => {}
    case Simple(xpath) => {xpath}
    case Not(inner) => Reads(inner)
    case Exists(_) => {}
    case Binary(_, l, r) => Reads(l) + Reads(r)
  }

  /** The names whose presence it asks for. */
  function Asks(e: Expr): set<Id> {
    match e
    case Constant(_) => {}
    case Simple(_) => {}
    case Not(inner) => Asks(inner)
    case Exists(field) => if field.Simple? then {field.xpath} else {}
    case Binary(_, l, r) => Asks(l) + Asks(r)
  }

  /** Two subjects that agree on what a filter reads and asks for give it the same outcome. */
  lemma {:induction false} EvalDependsOnReads(fl: Floats, e: Expr, s: Subject, t: Subject)
    requires forall p :: p in Reads(e) ==> EvalFound(s.getXpath(p)) == EvalFound(t.getXpath(p))
    requires forall k :: k in Asks(e) ==> s.has(k) == t.has(k)
    ensures Eval(fl, e, s) == Eval(fl, e, t)
  {
    match e
    case Not(inner) => EvalDependsOnReads(fl, inner, s, t);
    case Binary(_, l, r) =>
      EvalDependsOnReads(fl, l, s, t);
      EvalDependsOnReads(fl, r, s, t);
    case _ =>
  }

  const ID: Id := [95, 105, 100]

  /** A filter that mentions nothing but `_id` says of the key document `{_id: id}` what it says of any document
      with that identifier. */
  lemma {:induction false} KeyDocumentSuffices(fl: Floats, e: Expr, d: Doc, id: Id)
    requires Reads(e) + Asks(e) <= {ID}
    requires Get(d.fs, ID) < |d.fs| && d.fs[Get(d.fs, ID)].value == StringV(id)
    ensures Eval(fl, e, DocSubject(Doc([Field(ID, StringV(id))]))) == Eval(fl, e, DocSubject(d))
  {
    var key := Doc([Field(ID, StringV(id))]);
    SpanOf(ID, [], {DOT});
    assert ID + [] == ID;
    assert Name(ID) == ID && !Dots(ID);
    assert DocXpath(key, ID) == Holds(StringV(id)) == DocXpath(d, ID);
    EvalDependsOnReads(fl, e, DocSubject(key), DocSubject(d));
  }

  /** Filtering on bytes is filtering on documents, for filters whose paths end at values or at nothing and whose
      paths run over keys the byte view types rightly. */
  lemma FilterOnBytes(fl: Floats, e: Expr, w: Doc)
    requires forall p :: p in Reads(e) ==> TypesRight(w, p) && (OpenEnded(p) || !AtDocument(DocXpath(Loaded(w), p)))
    ensures Eval(fl, e, ViewSubject(w)) == Eval(fl, e, DocSubject(Loaded(w)))
  {
    forall p | p in Reads(e)
      ensures EvalFound(ViewSubject(w).getXpath(p)) == EvalFound(DocSubject(Loaded(w)).getXpath(p))
    {
      ViewFindsTheSame(w, p);
    }
    forall k | k in Asks(e) ensures ViewSubject(w).has(k) == DocSubject(Loaded(w)).has(k) {
      LoadedAt(w.fs, k);
    }
    EvalDependsOnReads(fl, e, ViewSubject(w), DocSubject(Loaded(w)));
  }

  /** For one path the condition is exact: otherwise the bytes read undefined data, or miss the exception. */
  lemma PathOnBytes(w: Doc, p: Id)
    requires OpenEnded(p) || !AtDocument(DocXpath(Loaded(w), p))
    ensures EvalFound(ViewXpath(w, p)) == EvalFound(DocXpath(Loaded(w), p)) <==> TypesRight(w, p)
  {
    ViewFindsTheSame(w, p);
    if !TypesRight(w, p) {
      GarbledUnlessRight(w, p);
    }
  }

  lemma {:induction false} GarbledUnlessRight(w: Doc, p: Id)
    requires !TypesRight(w, p)
    ensures ViewXpath(w, p) == Garbled
    decreases w
  {
    var i := Get(w.fs, Name(p));
    if TypeRight(w, Name(p)) {
      ViewStep(w, p, i);
      GarbledUnlessRight(w.fs[i].value.d, Rest(p));
    }
  }

  // ---- What the operators mean -----------------------------------------------------------------------

  /** On whole numbers of one type `>`, `>=` and `<=` are the orders; `<` is not, it lets equal numbers pass. */
  lemma ComparisonsOfNumbers(fl: Floats, i: int, j: int)
    ensures Compares(fl, FO_GREATERTHAN, RInt(i), RInt(j)) <==> i > j
    ensures Compares(fl, FO_GREATEREQUALTHAN, RInt(i), RInt(j)) <==> i >= j
    ensures Compares(fl, FO_LESSEQUALTHAN, RInt(i), RInt(j)) <==> i <= j
    ensures Compares(fl, FO_LESSTHAN, RInt(i), RInt(j)) <==> i <= j
    ensures forall oper :: !Compares(fl, oper, RInt(i), RLong(j))
  {
  }

  /** On long numbers too. */
  lemma ComparisonsOfLongs(fl: Floats, i: int, j: int)
    ensures Compares(fl, FO_GREATERTHAN, RLong(i), RLong(j)) <==> i > j
    ensures Compares(fl, FO_GREATEREQUALTHAN, RLong(i), RLong(j)) <==> i >= j
    ensures Compares(fl, FO_LESSEQUALTHAN, RLong(i), RLong(j)) <==> i <= j
    ensures Compares(fl, FO_LESSTHAN, RLong(i), RLong(j)) <==> i <= j
  {
  }

  /** A document is accepted by AND if both sides accept it, by OR if both sides are true or false and one accepts it,
      and by NOT if the filter inside is false. */
  lemma {:induction false} AndOrNotMean(fl: Floats, l: Expr, r: Expr, s: Subject)
    ensures Accepts(Eval(fl, Binary(FO_AND, l, r), s)) <==> Accepts(Eval(fl, l, s)) && Accepts(Eval(fl, r, s))
    ensures Accepts(Eval(fl, Binary(FO_OR, l, r), s)) <==>
            Truth(Eval(fl, l, s)) && Truth(Eval(fl, r, s)) && (Accepts(Eval(fl, l, s)) || Accepts(Eval(fl, r, s)))
    ensures Accepts(Eval(fl, Not(l), s)) <==> Truth(Eval(fl, l, s)) && !Accepts(Eval(fl, l, s))
  {
  }

  /** The path finds a value that is no double, and the result is its value. */
  predicate Reaches(s: Subject, p: Id, r: Result) {
    var c := s.getXpath(p);
    c.Holds? &&
    match r
    case RInt(i) => c.v == IntV(i)
    case RLong(l) => c.v == LongV(l)
    case RString(t) => c.v == StringV(t)
    case RBool(b) => c.v == BoolV(b)
    case _ => false
  }

  /** A field against a constant: equal exactly if the values are, so never across types; NOT_EQUALS is the
      complement; a field that is missing equals nothing. */
  lemma {:induction false} EqualityOfField(fl: Floats, p: Id, s: Subject, r: Result, k: Result)
    requires !k.RDouble?
    ensures Reaches(s, p, r) ==>
              (Accepts(Eval(fl, Binary(FO_EQUALS, Simple(p), Constant(k)), s)) <==> r == k) &&
              (Accepts(Eval(fl, Binary(FO_NOT_EQUALS, Simple(p), Constant(k)), s)) <==> r != k)
    ensures s.getXpath(p) == Nothing ==>
              !Accepts(Eval(fl, Binary(FO_EQUALS, Simple(p), Constant(k)), s)) &&
              Accepts(Eval(fl, Binary(FO_NOT_EQUALS, Simple(p), Constant(k)), s))
  {
  }

  /** A whole number in a field against a whole number of its type; `<` accepts equal ones. */
  lemma {:induction false} OrderOfField(fl: Floats, p: Id, s: Subject, i: int, j: int, long: bool)
    requires Reaches(s, p, if long then RLong(i) else RInt(i))
    ensures var k := Constant(if long then RLong(j) else RInt(j));
            (Accepts(Eval(fl, Binary(FO_GREATERTHAN, Simple(p), k), s)) <==> i > j) &&
            (Accepts(Eval(fl, Binary(FO_GREATEREQUALTHAN, Simple(p), k), s)) <==> i >= j) &&
            (Accepts(Eval(fl, Binary(FO_LESSEQUALTHAN, Simple(p), k), s)) <==> i <= j) &&
            (Accepts(Eval(fl, Binary(FO_LESSTHAN, Simple(p), k), s)) <==> i <= j)
  {
  }

  /** What the sides give, of one type and no numbers: nothing is greater, so `<` and `<=` hold of all and `>=` is
      equality. Two missing fields are not equal. */
  lemma {:induction false} ComparisonsOfOthers(fl: Floats, l: Expr, r: Expr, s: Subject, a: Result, c: Result)
    requires Eval(fl, l, s) == Val(a) && Eval(fl, r, s) == Val(c)
    requires (a.RString? && c.RString?) || (a.RBool? && c.RBool?) || (a.RNull? && c.RNull?)
    ensures !Accepts(Eval(fl, Binary(FO_GREATERTHAN, l, r), s))
    ensures Accepts(Eval(fl, Binary(FO_LESSTHAN, l, r), s)) && Accepts(Eval(fl, Binary(FO_LESSEQUALTHAN, l, r), s))
    ensures Accepts(Eval(fl, Binary(FO_GREATEREQUALTHAN, l, r), s)) <==> a == c && a != RNull
    ensures Accepts(Eval(fl, Binary(FO_EQUALS, l, r), s)) <==> a == c && a != RNull
  {
  }

  /** An existence test accepts the documents that have the field. */
  lemma {:induction false} ExistsMeans(fl: Floats, k: Id, d: Doc)
    ensures Accepts(Eval(fl, Exists(Simple(k)), DocSubject(d))) <==> exists f :: f in d.fs && f.key == k
    ensures Accepts(Eval(fl, Not(Exists(Simple(k))), DocSubject(d))) <==> !exists f :: f in d.fs && f.key == k
  {
    if Get(d.fs, k) < |d.fs| {
      assert d.fs[Get(d.fs, k)] in d.fs;
    }
  }

  // ---- Which filters answer --------------------------------------------------------------------------

  /** The outcome is true or false. */
  predicate Truth(o: Outcome) {
    o.Val? && o.r.RBool?
  }

  /** Built from truths, existence tests of fields, and comparisons of what gives a value. */
  predicate Answers(e: Expr)
    decreases e, 0
  {
    match e
    case Constant(value) => value.RBool?
    case Simple(_) => false
    case Not(inner) => Answers(inner)
    case Exists(field) => field.Simple?
    case Binary(oper, l, r) =>
      if oper == FO_AND || oper == FO_OR then Answers(l) && Answers(r) else Gives(l) && Gives(r)
  }

  /** Constants, paths, and what answers. */
  predicate Gives(e: Expr)
    decreases e, 1
  {
    e.Constant? || e.Simple? || Answers(e)
  }

  /** No path of the filter ends at a document or an array, or at bytes taken for another type. */
  ghost predicate Readable(e: Expr, s: Subject) {
    forall p :: p in Reads(e) ==> EvalFound(s.getXpath(p)).Val?
  }

  const NOTHING: Subject := Subject((p: Id) => Nothing, (k: Id) => false)

  lemma {:induction false} AnswersWithTruth(fl: Floats, e: Expr, s: Subject)
    requires Readable(e, s)
    ensures Answers(e) ==> Truth(Eval(fl, e, s))
    ensures Gives(e) ==> Eval(fl, e, s).Val?
  {
    match e
    case Not(inner) => AnswersWithTruth(fl, inner, s);
    case Binary(oper, l, r) =>
      AnswersWithTruth(fl, l, s);
      AnswersWithTruth(fl, r, s);
      assert Eval(fl, e, s) == EvalBinary(fl, oper, Eval(fl, l, s), Eval(fl, r, s));
    case Simple(p) => assert p in Reads(e);
    case _ =>
  }

  lemma {:induction false} NoAnswerFromNothing(fl: Floats, e: Expr)
    ensures Truth(Eval(fl, e, NOTHING)) ==> Answers(e)
    ensures Eval(fl, e, NOTHING).Val? ==> Gives(e)
  {
    match e
    case Not(inner) => NoAnswerFromNothing(fl, inner);
    case Binary(oper, l, r) =>
      NoAnswerFromNothing(fl, l);
      NoAnswerFromNothing(fl, r);
      assert Eval(fl, e, NOTHING) == EvalBinary(fl, oper, Eval(fl, l, NOTHING), Eval(fl, r, NOTHING));
    case _ =>
  }

  /** A filter is true or false of every document it can read if and only if it is of the empty one, and that is so
      exactly for filters in which AND, OR and NOT stand over comparisons and existence tests. All others throw, give
      no result, or follow a null pointer there. */
  lemma {:induction false} AnswersEverywhereOrNotOnNothing(fl: Floats, e: Expr)
    ensures Truth(Eval(fl, e, NOTHING)) <==> Answers(e)
    ensures Truth(Eval(fl, e, NOTHING)) <==> forall s :: Readable(e, s) ==> Truth(Eval(fl, e, s))
  {
    NoAnswerFromNothing(fl, e);
    assert Readable(e, NOTHING);
    AnswersWithTruth(fl, e, NOTHING);
    if Answers(e) {
      forall s | Readable(e, s) ensures Truth(Eval(fl, e, s)) {
        AnswersWithTruth(fl, e, s);
      }
    }
  }
}
