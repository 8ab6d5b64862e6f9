/** The recursive-descent filter parser: a cursor over the tokens, and a method for each rule. */
module FilterParsers {
  import opened Ids
  import opened Filters
  import opened FilterGrammar

  /** What a rule method says: the expression and the rest of the input, or failure. */
  ghost predicate Agrees<T>(r: Parsed<T>, meaning: T -> Expr, ok: bool, val: Expr, rest: seq<Token>) {
    (ok <==> r.Ok?) && (ok ==> val == meaning(r.v) && rest == r.rest)
  }

  class FilterParser {
    const tokens: seq<Token>
    var pos: nat

    constructor (tokens: seq<Token>)
      ensures this.tokens == tokens && pos == 0
    {
      this.tokens := tokens;
      pos := 0;
    }

    /** The input that is left. */
    function Input(): seq<Token>
      requires pos <= |tokens|
      reads this
    {
      tokens[pos..]
    }

    /** `LA(k)`; the end of the input is a token of its own. */
    method LookAhead(k: nat) returns (found: bool, t: Token)
      requires pos <= |tokens| && k > 0
      ensures found <==> pos + k <= |tokens|
      ensures found ==> t == tokens[pos + k - 1]
      ensures k == 1 ==> (found <==> Input() != []) && (found ==> t == Input()[0])
    {
      found := pos + k <= |tokens|;
      t := if found then tokens[pos + k - 1] else RPAREN;
    }

    /** `MATCHT`. */
    method Match(t: Token) returns (ok: bool)
      requires pos <= |tokens|
      modifies this`pos
      ensures ok <==> old(pos) < |tokens| && tokens[old(pos)] == t
      ensures pos == old(pos) + (if ok then 1 else 0) <= |tokens|
      ensures ok ==> old(Input()) != [] && old(Input())[0] == t && Input() == old(Input())[1..]
    {
      ok := pos < |tokens| && tokens[pos] == t;
      if ok {
        pos := pos + 1;
      }
    }

    /** `start_point`. */
    method StartPoint() returns (ok: bool, val: Expr)
      requires pos <= |tokens|
      modifies this`pos
      ensures pos <= |tokens| && (ok <==> Parse(old(Input())).Ok?)
      ensures ok ==> val == ExprMeaning(Parse(old(Input())).v) && pos == |tokens|
    {
      ok, val := BooleanExpression();
      if ok {
        ok := pos == |tokens|;
      }
    }

    /** `boolean_expr`. */
    method BooleanExpression() returns (ok: bool, val: Expr)
      requires pos <= |tokens|
      modifies this`pos
      ensures old(pos) <= pos <= |tokens|
      ensures Agrees(ParseExpr(old(Input())), (e: BooleanExpr) => ExprMeaning(e), ok, val, Input())
      decreases |tokens| - pos, 2
    {
      ghost var input := Input();
      ok, val := Term();
      if !ok {
        return;
      }
      ghost var e := OneTerm(ParseTerm(input).v);
      while true
        invariant old(pos) < pos <= |tokens| && val == ExprMeaning(e)
        invariant ParseExpr(input) == ParseExprRest(e, Input())
        decreases |tokens| - pos
      {
        var found, t := LookAhead(1);
        if !found || t != OR {
          break;
        }
        var matched := Match(OR);
        ghost var before := Input();
        var b2;
        ok, b2 := Term();
        if !ok {
          return;
        }
        val := Binary(FO_OR, val, b2);
        e := Or(e, ParseTerm(before).v);
      }
    }

    /** `boolean_term`. */
    method Term() returns (ok: bool, val: Expr)
      requires pos <= |tokens|
      modifies this`pos
      ensures old(pos) <= pos <= |tokens| && (ok ==> old(pos) < pos)
      ensures Agrees(ParseTerm(old(Input())), (t: BooleanTerm) => TermMeaning(t), ok, val, Input())
      decreases |tokens| - pos, 1
    {
      ghost var input := Input();
      ok, val := Value();
      if !ok {
        return;
      }
      ghost var t := OneValue(ParseValue(input).v);
      while true
        invariant old(pos) < pos <= |tokens| && val == TermMeaning(t)
        invariant ParseTerm(input) == ParseTermRest(t, Input())
        decreases |tokens| - pos
      {
        var found, next := LookAhead(1);
        if !found || next != AND {
          break;
        }
        var matched := Match(AND);
        ghost var before := Input();
        var b2;
        ok, b2 := Value();
        if !ok {
          return;
        }
        val := Binary(FO_AND, val, b2);
        t := And(t, ParseValue(before).v);
      }
    }

    /** `boolean_value`: in parentheses or not, by the next token. */
    method Value() returns (ok: bool, val: Expr)
      requires pos <= |tokens|
      modifies this`pos
      ensures old(pos) <= pos <= |tokens| && (ok ==> old(pos) < pos)
      ensures Agrees(ParseValue(old(Input())), (v: BooleanValue) => ValueMeaning(v), ok, val, Input())
      decreases |tokens| - pos, 0
    {
      var found, t := LookAhead(1);
      if found && t == LPAREN {
        var matched := Match(LPAREN);
        ok, val := BooleanExpression();
        if ok {
          ok := Match(RPAREN);
        }
      } else {
        ok, val := NonParenthesized();
      }
    }

    /** `nonparentherized_boolean`: operands and comparisons, nested to the left. */
    method NonParenthesized() returns (ok: bool, val: Expr)
      requires pos <= |tokens|
      modifies this`pos
      ensures old(pos) <= pos <= |tokens| && (ok ==> old(pos) < pos)
      ensures Agrees(ParseChain(old(Input())), (c: Chain) => ChainMeaning(c), ok, val, Input())
    {
      ghost var input := Input();
      ok, val := UnaryExpression();
      if !ok {
        return;
      }
      ghost var c := One(ParseUnary(input).v);
      while true
        invariant old(pos) < pos <= |tokens| && val == ChainMeaning(c)
        invariant ParseChain(input) == ParseChainRest(c, Input())
        decreases |tokens| - pos
      {
        var found, t := LookAhead(1);
        if !found || !t.OPER? {
          break;
        }
        ghost var here := Input();
        var matched := Match(t);
        ghost var before := Input();
        assert matched && here != [] && here[0] == t && here[1..] == before;
        var u2;
        ok, u2 := UnaryExpression();
        if !ok {
          return;
        }
        val := Binary(t.oper, val, u2);
        c := More(c, t.oper, ParseUnary(before).v);
      }
    }

    /** `unary_expr`, with `constant_expr` and `xpath_expr`. */
    method UnaryExpression() returns (ok: bool, val: Expr)
      requires pos <= |tokens|
      modifies this`pos
      ensures old(pos) <= pos <= |tokens| && (ok ==> old(pos) < pos)
      ensures Agrees(ParseUnary(old(Input())), (u: Unary) => UnaryMeaning(u), ok, val, Input())
    {
      var found, t := LookAhead(1);
      ok, val := found, Constant(RNull);
      if !found {
        return;
      }
      match t
      case NUMBER(d) =>
        val := Constant(if d < INT_MAX then RInt(d) else RLong(d));
        pos := pos + 1;
      case STRING(text) =>
        val := Constant(RString(text));
        pos := pos + 1;
      case TRUE =>
        val := Constant(RBool(true));
        pos := pos + 1;
      case FALSE =>
        val := Constant(RBool(false));
        pos := pos + 1;
      case XPATH(path) =>
        val := Simple(path);
        pos := pos + 1;
      case EXISTS => ok, val := ExistsExpression();
      case NOT => ok, val := NotExpression();
      case _ => ok := false;
    }

    /** `exists_expr`. */
    method ExistsExpression() returns (ok: bool, val: Expr)
      requires pos <= |tokens|
      modifies this`pos
      ensures old(pos) <= pos <= |tokens|
      ensures ok <==> ExistsAt(tokens, old(pos))
      ensures ok ==> pos == old(pos) + 4 && val == Exists(Simple(tokens[old(pos) + 2].path))
    {
      val := Constant(RNull);
      ok := Match(EXISTS);
      if ok {
        ok := Match(LPAREN);
      }
      if ok {
        ok := pos < |tokens| && tokens[pos].XPATH?;
      }
      if ok {
        val := Exists(Simple(tokens[pos].path));
        pos := pos + 1;
        ok := Match(RPAREN);
      }
    }

    /** `not_expr`, with its parentheses or without, by the second token. */
    method NotExpression() returns (ok: bool, val: Expr)
      requires pos < |tokens| && tokens[pos] == NOT
      modifies this`pos
      ensures old(pos) <= pos <= |tokens| && (ok ==> old(pos) < pos)
      ensures Agrees(ParseUnary(old(Input())), (u: Unary) => UnaryMeaning(u), ok, val, Input())
    {
      val := Constant(RNull);
      var found, t := LookAhead(2);
      if found && t == LPAREN {
        pos := pos + 2;
        var e1;
        ok, e1 := ExistsExpression();
        if ok {
          ok := Match(RPAREN);
          val := Not(e1);
        }
      } else if found && t == EXISTS {
        pos := pos + 1;
        var e2;
        ok, e2 := ExistsExpression();
        if ok {
          val := Not(e2);
        }
      } else {
        ok := false;
      }
    }
  }

  predicate ExistsAt(ts: seq<Token>, p: nat) {
    p + 4 <= |ts| && ts[p] == EXISTS && ts[p + 1] == LPAREN && ts[p + 2].XPATH? && ts[p + 3] == RPAREN
  }
}
