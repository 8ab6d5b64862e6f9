/** What the texts of filters say: from the tokens to what is said of a document. */
module FilterMeanings {
  import opened Ids
  import opened Documents
  import opened Paths
  import opened Filters
  import opened FilterGrammar

  /** The tokens are a filter. */
  predicate IsFilter(ts: seq<Token>) {
    Parse(ts).Ok?
  }

  /** What it says. */
  function Says(fl: Floats, ts: seq<Token>, s: Subject): Outcome
    requires IsFilter(ts)
  {
    Eval(fl, ExprMeaning(Parse(ts).v), s)
  }

  /** It says true. */
  predicate Takes(fl: Floats, ts: seq<Token>, s: Subject) {
    IsFilter(ts) && Accepts(Says(fl, ts, s))
  }

  lemma SaysMeaning(fl: Floats, e: BooleanExpr, s: Subject)
    ensures IsFilter(ExprTokens(e)) && Says(fl, ExprTokens(e), s) == Eval(fl, ExprMeaning(e), s)
  {
    ParserAcceptsGrammar(ExprTokens(e), e);
  }

  lemma SaysTerm(fl: Floats, t: BooleanTerm, s: Subject)
    ensures IsFilter(TermTokens(t)) && Says(fl, TermTokens(t), s) == Eval(fl, TermMeaning(t), s)
  {
    SaysMeaning(fl, OneTerm(t), s);
  }

  lemma SaysValue(fl: Floats, v: BooleanValue, s: Subject)
    ensures IsFilter(ValueTokens(v)) && Says(fl, ValueTokens(v), s) == Eval(fl, ValueMeaning(v), s)
  {
    SaysTerm(fl, OneValue(v), s);
  }

  lemma SaysChain(fl: Floats, c: Chain, s: Subject)
    ensures IsFilter(ChainTokens(c)) && Says(fl, ChainTokens(c), s) == Eval(fl, ChainMeaning(c), s)
  {
    SaysValue(fl, Plain(c), s);
  }

  // ---- Constants, paths and existence tests ----------------------------------------------------------

  lemma SaysUnary(fl: Floats, u: Unary, s: Subject)
    ensures IsFilter(UnaryTokens(u)) && Says(fl, UnaryTokens(u), s) == Eval(fl, UnaryMeaning(u), s)
  {
    SaysChain(fl, One(u), s);
  }

  /** EXISTS over a path says whether there is a field of that name. */
  lemma ExistsText(fl: Floats, path: Id, s: Subject)
    ensures var ts := [EXISTS, LPAREN, XPATH(path), RPAREN]; IsFilter(ts) && Says(fl, ts, s) == Val(RBool(s.has(path)))
  {
    SaysUnary(fl, UExists(path), s);
  }

  /** NOT over EXISTS says the opposite, with parentheses around the existence test and without them. */
  lemma NotExistsText(fl: Floats, path: Id, s: Subject)
    ensures var ts := [NOT, EXISTS, LPAREN, XPATH(path), RPAREN];
            IsFilter(ts) && Says(fl, ts, s) == Val(RBool(!s.has(path)))
    ensures var ts := [NOT, LPAREN, EXISTS, LPAREN, XPATH(path), RPAREN, RPAREN];
            IsFilter(ts) && Says(fl, ts, s) == Val(RBool(!s.has(path)))
  {
    SaysUnary(fl, UNotExists(path, false), s);
    SaysUnary(fl, UNotExists(path, true), s);
  }

  /** A constant says itself, a number being a long from 2147483647 on, and a path what it finds. */
  lemma ConstantText(fl: Floats, n: nat, text: Id, path: Id, s: Subject)
    ensures IsFilter([NUMBER(n)]) && Says(fl, [NUMBER(n)], s) == Val(if n < 2147483647 then RInt(n) else RLong(n))
    ensures IsFilter([STRING(text)]) && Says(fl, [STRING(text)], s) == Val(RString(text))
    ensures IsFilter([TRUE]) && Says(fl, [TRUE], s) == Val(RBool(true))
    ensures IsFilter([FALSE]) && Says(fl, [FALSE], s) == Val(RBool(false))
    ensures IsFilter([XPATH(path)]) && Says(fl, [XPATH(path)], s) == EvalFound(s.getXpath(path))
  {
    SaysUnary(fl, UNumber(n), s);
    SaysUnary(fl, UString(text), s);
    SaysUnary(fl, UTrue, s);
    SaysUnary(fl, UFalse, s);
    SaysUnary(fl, UXpath(path), s);
  }

  // ---- Comparisons -----------------------------------------------------------------------------------

  lemma SaysVersus(fl: Floats, path: Id, oper: Oper, k: Unary, s: Subject)
    ensures var ts := [XPATH(path), OPER(oper)] + UnaryTokens(k);
            IsFilter(ts) && Says(fl, ts, s) == Eval(fl, Binary(oper, Simple(path), UnaryMeaning(k)), s)
  {
    ChainText(fl, One(UXpath(path)), oper, k, s);
    SaysChain(fl, One(UXpath(path)), s);
    SaysUnary(fl, k, s);
    assert [XPATH(path)] + [OPER(oper)] == [XPATH(path), OPER(oper)];
  }

  /** An int in a field against a number: numbers from 2147483647 on are longs, to which no int compares. */
  lemma NumberComparisonText(fl: Floats, path: Id, i: int, n: nat, s: Subject)
    requires Reaches(s, path, RInt(i))
    ensures Takes(fl, [XPATH(path), OPER(FO_EQUALS), NUMBER(n)], s) <==> i == n && n < 2147483647
    ensures Takes(fl, [XPATH(path), OPER(FO_NOT_EQUALS), NUMBER(n)], s) <==> i != n || n >= 2147483647
    ensures Takes(fl, [XPATH(path), OPER(FO_GREATERTHAN), NUMBER(n)], s) <==> i > n && n < 2147483647
    ensures Takes(fl, [XPATH(path), OPER(FO_GREATEREQUALTHAN), NUMBER(n)], s) <==> i >= n && n < 2147483647
    ensures Takes(fl, [XPATH(path), OPER(FO_LESSEQUALTHAN), NUMBER(n)], s) <==> i <= n && n < 2147483647
    ensures Takes(fl, [XPATH(path), OPER(FO_LESSTHAN), NUMBER(n)], s) <==> i <= n && n < 2147483647
  {
    var k := if n < 2147483647 then RInt(n) else RLong(n);
    forall oper {:trigger OPER(oper)} | true
      ensures Takes(fl, [XPATH(path), OPER(oper), NUMBER(n)], s) <==>
              Accepts(Eval(fl, Binary(oper, Simple(path), Constant(k)), s))
    {
      SaysVersus(fl, path, oper, UNumber(n), s);
      assert [XPATH(path), OPER(oper)] + [NUMBER(n)] == [XPATH(path), OPER(oper), NUMBER(n)];
    }
    EqualityOfField(fl, path, s, RInt(i), k);
    if n < 2147483647 {
      OrderOfField(fl, path, s, i, n, false);
    } else {
      ComparisonsOfNumbers(fl, i, n);
    }
  }

  /** A string in a field against a string. */
  lemma StringComparisonText(fl: Floats, path: Id, t: Id, text: Id, s: Subject)
    requires Reaches(s, path, RString(t))
    ensures Takes(fl, [XPATH(path), OPER(FO_EQUALS), STRING(text)], s) <==> t == text
    ensures Takes(fl, [XPATH(path), OPER(FO_NOT_EQUALS), STRING(text)], s) <==> t != text
  {
    SaysVersus(fl, path, FO_EQUALS, UString(text), s);
    SaysVersus(fl, path, FO_NOT_EQUALS, UString(text), s);
    assert [XPATH(path), OPER(FO_EQUALS)] + [STRING(text)] == [XPATH(path), OPER(FO_EQUALS), STRING(text)];
    assert [XPATH(path), OPER(FO_NOT_EQUALS)] + [STRING(text)] == [XPATH(path), OPER(FO_NOT_EQUALS), STRING(text)];
    EqualityOfField(fl, path, s, RString(t), RString(text));
  }

  /** Chains of comparisons nest to the left: what the chain so far says is compared with the next operand. */
  lemma ChainText(fl: Floats, c: Chain, oper: Oper, u: Unary, s: Subject)
    ensures var ts := ChainTokens(c) + [OPER(oper)] + UnaryTokens(u);
            IsFilter(ts) && IsFilter(ChainTokens(c)) && IsFilter(UnaryTokens(u)) &&
            Says(fl, ts, s) == EvalBinary(fl, oper, Says(fl, ChainTokens(c), s), Says(fl, UnaryTokens(u), s))
  {
    SaysChain(fl, More(c, oper, u), s);
    SaysChain(fl, c, s);
    SaysUnary(fl, u, s);
  }

  // ---- AND, OR and parentheses -----------------------------------------------------------------------

  /** Terms with AND between them: what both take. AND binds closer than OR, so a value stands on its right. */
  lemma AndText(fl: Floats, t: BooleanTerm, v: BooleanValue, s: Subject)
    ensures Takes(fl, TermTokens(t) + [AND] + ValueTokens(v), s) <==>
            Takes(fl, TermTokens(t), s) && Takes(fl, ValueTokens(v), s)
  {
    SaysTerm(fl, And(t, v), s);
    SaysTerm(fl, t, s);
    SaysValue(fl, v, s);
    AndOrNotMean(fl, TermMeaning(t), ValueMeaning(v), s);
  }

  /** An expression and a term with OR between them: what one of them takes, where both say true or false. */
  lemma OrText(fl: Floats, e: BooleanExpr, t: BooleanTerm, s: Subject)
    ensures IsFilter(ExprTokens(e)) && IsFilter(TermTokens(t))
    ensures Takes(fl, ExprTokens(e) + [OR] + TermTokens(t), s) <==>
            Truth(Says(fl, ExprTokens(e), s)) && Truth(Says(fl, TermTokens(t), s)) &&
            (Takes(fl, ExprTokens(e), s) || Takes(fl, TermTokens(t), s))
  {
    SaysMeaning(fl, Or(e, t), s);
    SaysMeaning(fl, e, s);
    SaysTerm(fl, t, s);
    AndOrNotMean(fl, ExprMeaning(e), TermMeaning(t), s);
  }

  /** Parentheses around a filter leave what it says. */
  lemma ParenthesesText(fl: Floats, ts: seq<Token>, s: Subject)
    requires IsFilter(ts)
    ensures IsFilter([LPAREN] + ts + [RPAREN]) && Says(fl, [LPAREN] + ts + [RPAREN], s) == Says(fl, ts, s)
  {
    var e := Parse(ts).v;
    ParserAcceptsGrammar(ts, e);
    SaysValue(fl, Parenthesized(e), s);
  }

  /** Any two filters in parentheses, with AND and with OR between them. */
  lemma FiltersCombine(fl: Floats, a: seq<Token>, b: seq<Token>, s: Subject)
    requires IsFilter(a) && IsFilter(b)
    ensures Takes(fl, [LPAREN] + a + [RPAREN, AND, LPAREN] + b + [RPAREN], s) <==> Takes(fl, a, s) && Takes(fl, b, s)
    ensures Takes(fl, [LPAREN] + a + [RPAREN, OR, LPAREN] + b + [RPAREN], s) <==>
            Truth(Says(fl, a, s)) && Truth(Says(fl, b, s)) && (Takes(fl, a, s) || Takes(fl, b, s))
  {
    var v, w := Parenthesized(Parse(a).v), Parenthesized(Parse(b).v);
    ParserAcceptsGrammar(a, Parse(a).v);
    ParserAcceptsGrammar(b, Parse(b).v);
    ParenthesesText(fl, a, s);
    ParenthesesText(fl, b, s);
    AndText(fl, OneValue(v), w, s);
    OrText(fl, OneTerm(OneValue(v)), OneValue(w), s);
    Between(a, b, AND);
    Between(a, b, OR);
  }

  lemma Between(a: seq<Token>, b: seq<Token>, t: Token)
    ensures [LPAREN] + a + [RPAREN] + [t] + ([LPAREN] + b + [RPAREN]) ==
            [LPAREN] + a + [RPAREN, t, LPAREN] + b + [RPAREN]
  {
  }

  // ---- Spelling --------------------------------------------------------------------------------------

  /** The derivation with no parentheses behind NOT. */
  function BareUnary(u: Unary): Unary {
    if u.UNotExists? then UNotExists(u.path, false) else u
  }

  function BareChain(c: Chain): Chain {
    match c
    case One(u) => One(BareUnary(u))
    case More(c', oper, u) => More(BareChain(c'), oper, BareUnary(u))
  }

  function BareValue(v: BooleanValue): BooleanValue {
    match v
    case Parenthesized(e) => Parenthesized(Bare(e))
    case Plain(c) => Plain(BareChain(c))
  }

  function BareTerm(t: BooleanTerm): BooleanTerm {
    match t
    case OneValue(v) => OneValue(BareValue(v))
    case And(t', v) => And(BareTerm(t'), BareValue(v))
  }

  function Bare(e: BooleanExpr): BooleanExpr {
    match e
    case OneTerm(t) => OneTerm(BareTerm(t))
    case Or(e', t) => Or(Bare(e'), BareTerm(t))
  }

  lemma {:induction false} BareChainMeans(c: Chain)
    ensures ChainMeaning(BareChain(c)) == ChainMeaning(c)
  {
    if c.More? {
      BareChainMeans(c.c);
    }
  }

  lemma {:induction false} BareValueMeans(v: BooleanValue)
    ensures ValueMeaning(BareValue(v)) == ValueMeaning(v)
  {
    match v
    case Parenthesized(e) => BareMeans(e);
    case Plain(c) => BareChainMeans(c);
  }

  lemma {:induction false} BareTermMeans(t: BooleanTerm)
    ensures TermMeaning(BareTerm(t)) == TermMeaning(t)
  {
    match t
    case OneValue(v) => BareValueMeans(v);
    case And(t', v) =>
      BareTermMeans(t');
      BareValueMeans(v);
  }

  lemma {:induction false} BareMeans(e: BooleanExpr)
    ensures ExprMeaning(Bare(e)) == ExprMeaning(e)
  {
    match e
    case OneTerm(t) => BareTermMeans(t);
    case Or(e', t) =>
      BareMeans(e');
      BareTermMeans(t);
  }

  /** Filters that differ only in the parentheses behind their NOTs say the same of everything. */
  lemma SpellingIsNothing(fl: Floats, e: BooleanExpr, f: BooleanExpr, s: Subject)
    requires Bare(e) == Bare(f)
    ensures IsFilter(ExprTokens(e)) && IsFilter(ExprTokens(f))
    ensures Says(fl, ExprTokens(e), s) == Says(fl, ExprTokens(f), s)
  {
    SaysMeaning(fl, e, s);
    SaysMeaning(fl, f, s);
    BareMeans(e);
    BareMeans(f);
  }
}
