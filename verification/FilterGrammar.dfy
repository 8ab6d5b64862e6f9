/** The filter grammar: its derivations, the parser as a function, and printing with as few parentheses as possible. */
module FilterGrammar {
  import opened Ids
  import opened Filters

  /** Tokens; a NUMBER carries its value, a STRING and an XPATH what stands between their quotes. */
  datatype Token =
    | LPAREN | RPAREN | AND | OR | NOT | EXISTS | TRUE | FALSE
    | OPER(oper: Oper) | NUMBER(d: nat) | STRING(text: Id) | XPATH(path: Id)

  // ---- Derivations -----------------------------------------------------------------------------------

  datatype Unary =
    | UNumber(d: nat) | UString(text: Id) | UTrue | UFalse
    | UXpath(path: Id)
    | UExists(path: Id)
    | UNotExists(path: Id, parenthesized: bool)

  /** A chain of comparisons; it nests to the left, and so do those of AND and OR. */
  datatype Chain = One(u: Unary) | More(c: Chain, oper: Oper, u: Unary)

  datatype BooleanValue = Parenthesized(e: BooleanExpr) | Plain(c: Chain)

  datatype BooleanTerm = OneValue(v: BooleanValue) | And(t: BooleanTerm, v: BooleanValue)

  datatype BooleanExpr = OneTerm(t: BooleanTerm) | Or(e: BooleanExpr, t: BooleanTerm)

  predicate Comparison(oper: Oper) {
    oper != FO_AND && oper != FO_OR
  }

  const INT_MAX := 0x7fff_ffff

  // ---- The tokens of a derivation --------------------------------------------------------------------

  function UnaryTokens(u: Unary): (ts: seq<Token>)
    ensures ts != []
  {
    match u
    case UNumber(d) => [NUMBER(d)]
    case UString(text) => [STRING(text)]
    case UTrue => [TRUE]
    case UFalse => [FALSE]
    case UXpath(path) => [XPATH(path)]
    case UExists(path) => [EXISTS, LPAREN, XPATH(path), RPAREN]
    case UNotExists(path, true) => [NOT, LPAREN, EXISTS, LPAREN, XPATH(path), RPAREN, RPAREN]
    case UNotExists(path, false) => [NOT, EXISTS, LPAREN, XPATH(path), RPAREN]
  }

  function ChainTokens(c: Chain): (ts: seq<Token>)
    ensures ts != []
  {
    match c
    case One(u) => UnaryTokens(u)
    case More(c', oper, u) => ChainTokens(c') + [OPER(oper)] + UnaryTokens(u)
  }

  function ValueTokens(v: BooleanValue): (ts: seq<Token>)
    ensures ts != []
  {
    match v
    case Parenthesized(e) => [LPAREN] + ExprTokens(e) + [RPAREN]
    case Plain(c) => ChainTokens(c)
  }

  function TermTokens(t: BooleanTerm): (ts: seq<Token>)
    ensures ts != []
  {
    match t
    case OneValue(v) => ValueTokens(v)
    case And(t', v) => TermTokens(t') + [AND] + ValueTokens(v)
  }

  function ExprTokens(e: BooleanExpr): (ts: seq<Token>)
    ensures ts != []
  {
    match e
    case OneTerm(t) => TermTokens(t)
    case Or(e', t) => ExprTokens(e') + [OR] + TermTokens(t)
  }

  // ---- The expression of a derivation ----------------------------------------------------------------

  /** A number is an int up to INT_MAX - 1 and a long from there. */
  function NumberValue(d: nat): Result {
    if d < INT_MAX then RInt(d) else RLong(d)
  }

  function UnaryMeaning(u: Unary): Expr {
    match u
    case UNumber(d) => Constant(NumberValue(d))
    case UString(text) => Constant(RString(text))
    case UTrue => Constant(RBool(true))
    case UFalse => Constant(RBool(false))
    case UXpath(path) => Simple(path)
    case UExists(path) => Exists(Simple(path))
    case UNotExists(path, _) => Not(Exists(Simple(path)))
  }

  function ChainMeaning(c: Chain): Expr {
    match c
    case One(u) => UnaryMeaning(u)
    case More(c', oper, u) => Binary(oper, ChainMeaning(c'), UnaryMeaning(u))
  }

  function ValueMeaning(v: BooleanValue): Expr {
    match v
    case Parenthesized(e) => ExprMeaning(e)
    case Plain(c) => ChainMeaning(c)
  }

  function TermMeaning(t: BooleanTerm): Expr {
    match t
    case OneValue(v) => ValueMeaning(v)
    case And(t', v) => Binary(FO_AND, TermMeaning(t'), ValueMeaning(v))
  }

  function ExprMeaning(e: BooleanExpr): Expr {
    match e
    case OneTerm(t) => TermMeaning(t)
    case Or(e', t) => Binary(FO_OR, ExprMeaning(e'), TermMeaning(t))
  }

  // ---- The parser as a function ----------------------------------------------------------------------

  datatype Parsed<T> = Fail | Ok(v: T, rest: seq<Token>)

  function Next(ts: seq<Token>): Token {
    if ts == [] then RPAREN else ts[0]
  }

  function ParseUnary(ts: seq<Token>): (r: Parsed<Unary>)
    ensures r.Ok? ==> |r.rest| < |ts|
  {
    if ts == [] then Fail
    else match ts[0]
      case NUMBER(d) => Ok(UNumber(d), ts[1..])
      case STRING(text) => Ok(UString(text), ts[1..])
      case TRUE => Ok(UTrue, ts[1..])
      case FALSE => Ok(UFalse, ts[1..])
      case XPATH(path) => Ok(UXpath(path), ts[1..])
      case EXISTS =>
        if |ts| >= 4 && ts[1] == LPAREN && ts[2].XPATH? &&
          ts[3] == RPAREN then Ok(UExists(ts[2].path), ts[4..]) else Fail
      case NOT =>
        if |ts| >= 7 && ts[1] == LPAREN && ts[2] == EXISTS && ts[3] == LPAREN && ts[4].XPATH? && ts[5] == RPAREN &&
          ts[6] == RPAREN
        then Ok(UNotExists(ts[4].path, true), ts[7..])
        else if |ts| >= 5 && ts[1] == EXISTS && ts[2] == LPAREN && ts[3].XPATH? && ts[4] == RPAREN
        then Ok(UNotExists(ts[3].path, false), ts[5..])
        else Fail
      case _ => Fail
  }

  function ParseChain(ts: seq<Token>): (r: Parsed<Chain>)
    ensures r.Ok? ==> |r.rest| < |ts|
  {
    var u := ParseUnary(ts);
    if u.Fail? then Fail else ParseChainRest(One(u.v), u.rest)
  }

  function ParseChainRest(c: Chain, ts: seq<Token>): (r: Parsed<Chain>)
    ensures r.Ok? ==> |r.rest| <= |ts|
    decreases |ts|
  {
    if ts == [] || !ts[0].OPER? then Ok(c, ts)
    else
      var u := ParseUnary(ts[1..]);
      if u.Fail? then Fail else ParseChainRest(More(c, ts[0].oper, u.v), u.rest)
  }

  function ParseValue(ts: seq<Token>): (r: Parsed<BooleanValue>)
    ensures r.Ok? ==> |r.rest| < |ts|
    decreases |ts|, 0
  {
    if ts != [] && ts[0] == LPAREN then
      var e := ParseExpr(ts[1..]);
      if e.Ok? && e.rest != [] && e.rest[0] == RPAREN then Ok(Parenthesized(e.v), e.rest[1..]) else Fail
    else
      var c := ParseChain(ts);
      if c.Ok? then Ok(Plain(c.v), c.rest) else Fail
  }

  function ParseTerm(ts: seq<Token>): (r: Parsed<BooleanTerm>)
    ensures r.Ok? ==> |r.rest| < |ts|
    decreases |ts|, 1
  {
    var v := ParseValue(ts);
    if v.Fail? then Fail else ParseTermRest(OneValue(v.v), v.rest)
  }

  function ParseTermRest(t: BooleanTerm, ts: seq<Token>): (r: Parsed<BooleanTerm>)
    ensures r.Ok? ==> |r.rest| <= |ts|
    decreases |ts|, 1
  {
    if ts == [] || ts[0] != AND then Ok(t, ts)
    else
      var v := ParseValue(ts[1..]);
      if v.Fail? then Fail else ParseTermRest(And(t, v.v), v.rest)
  }

  function ParseExpr(ts: seq<Token>): (r: Parsed<BooleanExpr>)
    ensures r.Ok? ==> |r.rest| < |ts|
    decreases |ts|, 2
  {
    var t := ParseTerm(ts);
    if t.Fail? then Fail else ParseExprRest(OneTerm(t.v), t.rest)
  }

  function ParseExprRest(e: BooleanExpr, ts: seq<Token>): (r: Parsed<BooleanExpr>)
    ensures r.Ok? ==> |r.rest| <= |ts|
    decreases |ts|, 2
  {
    if ts == [] || ts[0] != OR then Ok(e, ts)
    else
      var t := ParseTerm(ts[1..]);
      if t.Fail? then Fail else ParseExprRest(Or(e, t.v), t.rest)
  }

  // ---- What is accepted is in the grammar ------------------------------------------------------------

  lemma UnarySound(ts: seq<Token>)
    ensures var r := ParseUnary(ts); r.Ok? ==> UnaryTokens(r.v) + r.rest == ts
  {
  }

  lemma {:induction false} ChainRestSound(c: Chain, ts: seq<Token>)
    ensures var r := ParseChainRest(c, ts); r.Ok? ==> ChainTokens(r.v) + r.rest == ChainTokens(c) + ts
    decreases |ts|
  {
    if ts != [] && ts[0].OPER? {
      UnarySound(ts[1..]);
      var u := ParseUnary(ts[1..]);
      if u.Ok? {
        ChainRestSound(More(c, ts[0].oper, u.v), u.rest);
        Regroup(ChainTokens(c), ts, UnaryTokens(u.v), u.rest);
      }
    }
  }

  /** Tokens taken one operator and one operand further. */
  lemma Regroup(a: seq<Token>, ts: seq<Token>, x: seq<Token>, rest: seq<Token>)
    requires ts != [] && ts[1..] == x + rest
    ensures a + [ts[0]] + x + rest == a + ts
  {
    assert ts == [ts[0]] + ts[1..];
  }

  lemma ChainSound(ts: seq<Token>)
    ensures var r := ParseChain(ts); r.Ok? ==> ChainTokens(r.v) + r.rest == ts
  {
    UnarySound(ts);
    var u := ParseUnary(ts);
    if u.Ok? {
      ChainRestSound(One(u.v), u.rest);
    }
  }

  lemma {:induction false} ValueSound(ts: seq<Token>)
    ensures var r := ParseValue(ts); r.Ok? ==> ValueTokens(r.v) + r.rest == ts
    decreases |ts|, 0
  {
    if ts != [] && ts[0] == LPAREN {
      ExprSound(ts[1..]);
      var e := ParseExpr(ts[1..]);
      if e.Ok? && e.rest != [] && e.rest[0] == RPAREN {
        assert [LPAREN] + ExprTokens(e.v) + [RPAREN] + e.rest[1..] == [LPAREN] + (ExprTokens(e.v) + e.rest);
      }
    } else {
      ChainSound(ts);
    }
  }

  lemma {:induction false} TermSound(ts: seq<Token>)
    ensures var r := ParseTerm(ts); r.Ok? ==> TermTokens(r.v) + r.rest == ts
    decreases |ts|, 1
  {
    ValueSound(ts);
    var v := ParseValue(ts);
    if v.Ok? {
      TermRestSound(OneValue(v.v), v.rest);
    }
  }

  lemma {:induction false} TermRestSound(t: BooleanTerm, ts: seq<Token>)
    ensures var r := ParseTermRest(t, ts); r.Ok? ==> TermTokens(r.v) + r.rest == TermTokens(t) + ts
    decreases |ts|, 1
  {
    if ts != [] && ts[0] == AND {
      ValueSound(ts[1..]);
      var v := ParseValue(ts[1..]);
      if v.Ok? {
        TermRestSound(And(t, v.v), v.rest);
        Regroup(TermTokens(t), ts, ValueTokens(v.v), v.rest);
      }
    }
  }

  /** Whatever is accepted is the token sequence of the derivation found, and the rest of the input. */
  lemma {:induction false} ExprSound(ts: seq<Token>)
    ensures var r := ParseExpr(ts); r.Ok? ==> ExprTokens(r.v) + r.rest == ts
    decreases |ts|, 2
  {
    TermSound(ts);
    var t := ParseTerm(ts);
    if t.Ok? {
      ExprRestSound(OneTerm(t.v), t.rest);
    }
  }

  lemma {:induction false} ExprRestSound(e: BooleanExpr, ts: seq<Token>)
    ensures var r := ParseExprRest(e, ts); r.Ok? ==> ExprTokens(r.v) + r.rest == ExprTokens(e) + ts
    decreases |ts|, 2
  {
    if ts != [] && ts[0] == OR {
      TermSound(ts[1..]);
      var t := ParseTerm(ts[1..]);
      if t.Ok? {
        ExprRestSound(Or(e, t.v), t.rest);
        Regroup(ExprTokens(e), ts, TermTokens(t.v), t.rest);
      }
    }
  }

  // ---- What is in the grammar is accepted ------------------------------------------------------------

  lemma UnaryComplete(u: Unary, s: seq<Token>)
    ensures ParseUnary(UnaryTokens(u) + s) == Ok(u, s)
  {
  }

  lemma {:induction false} ChainComplete(c: Chain, s: seq<Token>)
    ensures ParseChain(ChainTokens(c) + s) == ParseChainRest(c, s)
  {
    match c
    case One(u) => UnaryComplete(u, s);
    case More(c', oper, u) =>
      var s' := [OPER(oper)] + (UnaryTokens(u) + s);
      assert ChainTokens(c) + s == ChainTokens(c') + s';
      ChainComplete(c', s');
      UnaryComplete(u, s);
      assert s'[1..] == UnaryTokens(u) + s;
  }

  lemma ChainStart(c: Chain)
    ensures ChainTokens(c)[0] != LPAREN
  {
  }

  lemma {:induction false} ValueComplete(v: BooleanValue, s: seq<Token>)
    requires !Next(s).OPER?
    ensures ParseValue(ValueTokens(v) + s) == Ok(v, s)
  {
    match v
    case Parenthesized(e) =>
      var s' := [RPAREN] + s;
      assert (ValueTokens(v) + s)[1..] == ExprTokens(e) + s';
      ExprComplete(e, s');
      assert s'[1..] == s;
    case Plain(c) =>
      ChainComplete(c, s);
      ChainStart(c);
  }

  lemma {:induction false} TermComplete(t: BooleanTerm, s: seq<Token>)
    requires !Next(s).OPER?
    ensures ParseTerm(TermTokens(t) + s) == ParseTermRest(t, s)
  {
    match t
    case OneValue(v) => ValueComplete(v, s);
    case And(t', v) =>
      var s' := [AND] + (ValueTokens(v) + s);
      assert TermTokens(t) + s == TermTokens(t') + s';
      TermComplete(t', s');
      ValueComplete(v, s);
      assert s'[1..] == ValueTokens(v) + s;
  }

  /** Every derivation is found again: the parser accepts the grammar, and the grammar is unambiguous. */
  lemma {:induction false} ExprComplete(e: BooleanExpr, s: seq<Token>)
    requires !Next(s).OPER? && Next(s) != AND
    ensures ParseExpr(ExprTokens(e) + s) == ParseExprRest(e, s)
  {
    match e
    case OneTerm(t) => TermComplete(t, s);
    case Or(e', t) =>
      var s' := [OR] + (TermTokens(t) + s);
      assert ExprTokens(e) + s == ExprTokens(e') + s';
      ExprComplete(e', s');
      TermComplete(t, s);
      assert s'[1..] == TermTokens(t) + s;
  }

  /** `start_point`: an expression and nothing behind it. */
  function Parse(ts: seq<Token>): Parsed<BooleanExpr> {
    var r := ParseExpr(ts);
    if r.Ok? && r.rest == [] then r else Fail
  }

  /** A token sequence is accepted exactly if it has a derivation, and then the derivation is the one found. */
  lemma ParserAcceptsGrammar(ts: seq<Token>, e: BooleanExpr)
    ensures ExprTokens(e) == ts <==> Parse(ts) == Ok(e, [])
  {
    if ExprTokens(e) == ts {
      ExprComplete(e, []);
      assert ts + [] == ts;
    }
    if Parse(ts) == Ok(e, []) {
      ExprSound(ts);
      assert ExprTokens(e) + [] == ts;
    }
  }

  // ---- Printing --------------------------------------------------------------------------------------

  /** What the grammar can build without parentheses, AND and OR. */
  predicate IsUnary(e: Expr) {
    match e
    case Constant(r) => (r.RInt? && 0 <= r.i < INT_MAX) || (r.RLong? && INT_MAX <= r.l) || r.RString? || r.RBool?
    case Simple(_) => true
    case Exists(f) => f.Simple?
    case Not(f) => f.Exists? && f.field.Simple?
    case Binary(_, _, _) => false
  }

  predicate IsChain(e: Expr) {
    IsUnary(e) || (e.Binary? && Comparison(e.oper) && IsChain(e.left) && IsUnary(e.right))
  }

  /** The expressions of the grammar. */
  predicate Printable(e: Expr) {
    IsChain(e) || (e.Binary? && !Comparison(e.oper) && Printable(e.left) && Printable(e.right))
  }

  function PrintUnary(e: Expr): Unary
    requires IsUnary(e)
  {
    match e
    case Simple(path) => UXpath(path)
    case Exists(f) => UExists(f.xpath)
    case Not(f) => UNotExists(f.field.xpath, false)
    case Constant(r) =>
      match r
      case RInt(i) => UNumber(i)
      case RLong(l) => UNumber(l)
      case RString(s) => UString(s)
      case RBool(b) => if b then UTrue else UFalse
  }

  function PrintChain(e: Expr): Chain
    requires IsChain(e)
  {
    if IsUnary(e) then One(PrintUnary(e)) else More(PrintChain(e.left), e.oper, PrintUnary(e.right))
  }

  function PrintValue(e: Expr): BooleanValue
    requires Printable(e)
    decreases e, 0
  {
    if IsChain(e) then Plain(PrintChain(e))
    else if e.oper == FO_OR then Parenthesized(Or(PrintExpr(e.left), PrintTerm(e.right)))
    else Parenthesized(OneTerm(And(PrintTerm(e.left), PrintValue(e.right))))
  }

  function PrintTerm(e: Expr): BooleanTerm
    requires Printable(e)
    decreases e, 1
  {
    if e.Binary? && e.oper == FO_AND then And(PrintTerm(e.left), PrintValue(e.right)) else OneValue(PrintValue(e))
  }

  function PrintExpr(e: Expr): BooleanExpr
    requires Printable(e)
    decreases e, 2
  {
    if e.Binary? && e.oper == FO_OR then Or(PrintExpr(e.left), PrintTerm(e.right)) else OneTerm(PrintTerm(e))
  }

  lemma {:induction false} PrintedChain(e: Expr)
    requires IsChain(e)
    ensures ChainMeaning(PrintChain(e)) == e
  {
    if !IsUnary(e) {
      PrintedChain(e.left);
    }
  }

  lemma {:induction false} PrintedMeans(e: Expr)
    requires Printable(e)
    ensures ValueMeaning(PrintValue(e)) == e && TermMeaning(PrintTerm(e)) == e && ExprMeaning(PrintExpr(e)) == e
    decreases e
  {
    if IsChain(e) {
      PrintedChain(e);
    } else {
      PrintedMeans(e.left);
      PrintedMeans(e.right);
      if e.oper == FO_OR {
        assert ExprMeaning(Or(PrintExpr(e.left), PrintTerm(e.right))) == e;
      } else {
        assert TermMeaning(And(PrintTerm(e.left), PrintValue(e.right))) == e;
        assert ExprMeaning(OneTerm(And(PrintTerm(e.left), PrintValue(e.right)))) == e;
      }
    }
  }

  /** Printing an expression of the grammar and parsing it gives the same expression back. */
  lemma PrintParse(e: Expr)
    requires Printable(e)
    ensures var r := Parse(ExprTokens(PrintExpr(e))); r.Ok? && ExprMeaning(r.v) == e
  {
    PrintedMeans(e);
    ParserAcceptsGrammar(ExprTokens(PrintExpr(e)), PrintExpr(e));
  }

  /** The grammar builds printable expressions only. */
  lemma {:induction false} ChainIsPrintable(c: Chain)
    requires ChainComparisons(c)
    ensures IsChain(ChainMeaning(c)) && |ChainTokens(PrintChain(ChainMeaning(c)))| <= |ChainTokens(c)|
  {
    if c.More? {
      ChainIsPrintable(c.c);
    }
  }

  /** An OPER token never stands for AND or OR. */
  predicate ChainComparisons(c: Chain) {
    c.More? ==> Comparison(c.oper) && ChainComparisons(c.c)
  }

  predicate ValueComparisons(v: BooleanValue) {
    match v
    case Parenthesized(e) => ExprComparisons(e)
    case Plain(c) => ChainComparisons(c)
  }

  predicate TermComparisons(t: BooleanTerm) {
    match t
    case OneValue(v) => ValueComparisons(v)
    case And(t', v) => TermComparisons(t') && ValueComparisons(v)
  }

  predicate ExprComparisons(e: BooleanExpr) {
    match e
    case OneTerm(t) => TermComparisons(t)
    case Or(e', t) => ExprComparisons(e') && TermComparisons(t)
  }

  /** How the printed forms of one expression compare in length. */
  lemma Lengths(e: Expr)
    requires Printable(e)
    ensures |ExprTokens(PrintExpr(e))| <= |TermTokens(PrintTerm(e))| <= |ValueTokens(PrintValue(e))|
    ensures |ValueTokens(PrintValue(e))| <= |ExprTokens(PrintExpr(e))| + 2
  {
  }

  lemma {:induction false} ValueShortest(v: BooleanValue)
    requires ValueComparisons(v)
    ensures Printable(ValueMeaning(v)) && |ValueTokens(PrintValue(ValueMeaning(v)))| <= |ValueTokens(v)|
  {
    match v
    case Parenthesized(e) =>
      PrintIsShortest(e);
      Lengths(ExprMeaning(e));
    case Plain(c) => ChainIsPrintable(c);
  }

  lemma {:induction false} TermShortest(t: BooleanTerm)
    requires TermComparisons(t)
    ensures Printable(TermMeaning(t)) && |TermTokens(PrintTerm(TermMeaning(t)))| <= |TermTokens(t)|
  {
    match t
    case OneValue(v) =>
      ValueShortest(v);
      Lengths(ValueMeaning(v));
    case And(t', v) =>
      TermShortest(t');
      ValueShortest(v);
  }

  /** No derivation of an expression is shorter than its printed form. */
  lemma {:induction false} PrintIsShortest(e: BooleanExpr)
    requires ExprComparisons(e)
    ensures Printable(ExprMeaning(e)) && |ExprTokens(PrintExpr(ExprMeaning(e)))| <= |ExprTokens(e)|
  {
    match e
    case OneTerm(t) =>
      TermShortest(t);
      Lengths(TermMeaning(t));
    case Or(e', t) =>
      PrintIsShortest(e');
      TermShortest(t);
  }
}
