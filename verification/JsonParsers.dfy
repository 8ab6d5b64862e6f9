/** The recursive-descent JSON parser, with the object under construction in a variable of its own. */
module JsonParsers {
  import opened Ids
  import opened Documents
  import opened JsonGrammar

  /** A document under construction. */
  class BSONObj {
    var fields: seq<Field>

    constructor ()
      ensures fields == []
    {
      fields := [];
    }
  }

  class JsonParser {
    const tokens: seq<Token>
    var pos: nat
    var currentObj: BSONObj?

    constructor (tokens: seq<Token>)
      ensures this.tokens == tokens && pos == 0 && currentObj == null
    {
      this.tokens := tokens;
      pos := 0;
      currentObj := null;
    }

    /** The input that is left. */
    function Input(): seq<Token>
      requires pos <= |tokens|
      reads this
    {
      tokens[pos..]
    }

    method Match(t: Token) returns (ok: bool)
      requires pos <= |tokens|
      modifies this`pos
      ensures ok <==> Starts(old(Input()), t)
      ensures pos <= |tokens| && (ok ==> Input() == old(Input())[1..] && pos == old(pos) + 1) &&
              (!ok ==> pos == old(pos))
    {
      ok := pos < |tokens| && tokens[pos] == t;
      if ok {
        pos := pos + 1;
      }
    }

    /** `addElement`: the field goes to the object under construction. */
    method AddElement(field: Id, val: Value)
      requires currentObj != null
      modifies currentObj
      ensures currentObj.fields == Put(old(currentObj.fields), Field(field, val))
    {
      currentObj.fields := Put(currentObj.fields, Field(field, val));
    }

    /** `json_fieldname`, the colon, `json_const`, and `addElement`. The value may be a document: by the time it is
        complete, the object under construction is the outer one again, and the field lands there. */
    method Pair(obj: BSONObj) returns (ok: bool)
      requires pos <= |tokens| && currentObj == obj
      modifies this, obj
      ensures old(pos) <= pos <= |tokens|
      ensures var p := ParsePair(old(Input()));
              (ok <==> p.Ok?) &&
              (ok ==> Input() == p.rest && currentObj == obj && obj.fields == Put(old(obj.fields), p.v))
      decreases |tokens| - pos, 0
    {
      if pos == |tokens| || !(tokens[pos].STRING? || tokens[pos].ID?) {
        return false;
      }
      var name := NameOf(tokens[pos]);
      pos := pos + 1;
      ok := Match(COLON);
      if !ok {
        return;
      }
      var val;
      ok, val := Const();
      if ok {
        AddElement(name, val);
      }
    }

    /** `json_const`. */
    method Const() returns (ok: bool, val: Value)
      requires pos <= |tokens|
      modifies this
      ensures old(pos) <= pos <= |tokens|
      ensures var c := ParseConst(old(Input()));
              (ok <==> c.Ok?) && (ok ==> val == c.v && Input() == c.rest && currentObj == old(currentObj))
      decreases |tokens| - pos, 2
    {
      ok, val := pos < |tokens|, BoolV(false);
      if !ok {
        return;
      }
      match tokens[pos]
      case STRING(text) =>
        val := StringV(text);
        pos := pos + 1;
      case NUMBER(d) =>
        val := if d <= INT_MAX then IntV(d) else LongV(d);
        pos := pos + 1;
      case FLOAT(bits) =>
        val := DoubleV(bits);
        pos := pos + 1;
      case TRUE =>
        val := BoolV(true);
        pos := pos + 1;
      case FALSE =>
        val := BoolV(false);
        pos := pos + 1;
      case LBRAK =>
        var array_;
        ok, array_ := Array();
        val := ArrayV(array_);
      case LBRAN =>
        var obj;
        ok, obj := JsonExpression();
        if ok {
          val := DocV(Doc(obj.fields));
        }
      case _ => ok := false;
    }

    /** `json_array_expr`: documents, at least one. */
    method Array() returns (ok: bool, val: seq<Doc>)
      requires pos < |tokens| && tokens[pos] == LBRAK
      modifies this
      ensures old(pos) <= pos <= |tokens|
      ensures var c := ParseConst(old(Input()));
              (ok <==> c.Ok?) && (ok ==> ArrayV(val) == c.v && Input() == c.rest && currentObj == old(currentObj))
      decreases |tokens| - pos, 1
    {
      ghost var input := Input();
      val := [];
      ok := Match(LBRAK);
      ghost var inside := Input();
      var j1;
      ok, j1 := JsonExpression();
      if !ok {
        return;
      }
      val := [Doc(j1.fields)];
      ghost var rest := Input();
      while true
        invariant old(pos) < pos <= |tokens| && currentObj == old(currentObj)
        invariant ParseDocs(val, Input()) == ParseDocs([ParseDoc(inside).v], rest)
        decreases |tokens| - pos
      {
        var comma := Match(COMMA);
        if !comma {
          break;
        }
        var j2;
        ok, j2 := JsonExpression();
        if !ok {
          return;
        }
        val := val + [Doc(j2.fields)];
      }
      ok := Match(RBRAK);
    }

    /** `json_expr`. A successful parse gives a new object with the document's fields, and the object under
        construction is the one it was before. */
    method JsonExpression() returns (ok: bool, obj: BSONObj)
      requires pos <= |tokens|
      modifies this
      ensures old(pos) <= pos <= |tokens| && (ok ==> old(pos) < pos)
      ensures var d := ParseDoc(old(Input()));
              (ok <==> d.Ok?) && fresh(obj) &&
              (ok ==> d.v == Doc(obj.fields) && Input() == d.rest && currentObj == old(currentObj))
      decreases |tokens| - pos, 1
    {
      var previous := currentObj;
      obj := new BSONObj();
      currentObj := obj;
      ok := Match(LBRAN);
      if !ok {
        return;
      }
      if pos < |tokens| && (tokens[pos].STRING? || tokens[pos].ID?) {
        ok := Pair(obj);
        if !ok {
          return;
        }
      }
      ghost var fs, rest := obj.fields, Input();
      while true
        invariant old(pos) < pos <= |tokens| && currentObj == obj
        invariant ParseFields(obj.fields, Input()) == ParseFields(fs, rest)
        decreases |tokens| - pos
      {
        var comma := Match(COMMA);
        if !comma {
          break;
        }
        ok := Pair(obj);
        if !ok {
          return;
        }
      }
      currentObj := previous;
      ok := Match(RBRAN);
    }
  }
}
