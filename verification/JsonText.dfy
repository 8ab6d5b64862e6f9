/** The text of a document, and reading it: from characters to tokens and from tokens to the document. */
module JsonText {
  import opened Ids
  import opened ByteStreams
  import opened Documents
  import opened JsonGrammar

  const SPACE: byte := 32
  const TEXT_COMMA: byte := 44
  const TEXT_COLON: byte := 58
  const LBRACKET: byte := 91
  const RBRACKET: byte := 93
  const LBRACE: byte := 123
  const RBRACE: byte := 125
  const MINUS: byte := 45

  const TRUE_TEXT: Id := [116, 114, 117, 101]
  const FALSE_TEXT: Id := [102, 97, 108, 115, 101]

  // ---- Writing ---------------------------------------------------------------------------------------

  predicate IsDigit(c: byte) {
    48 <= c <= 57
  }

  function Decimal(n: nat): (s: Id)
    ensures s != [] && forall c :: c in s ==> IsDigit(c)
  {
    if n < 10 then [48 + n] else Decimal(n / 10) + [48 + n % 10]
  }

  /** `%d` and `%ld`. */
  function NumberText(i: int): Id {
    if i < 0 then [MINUS] + Decimal(-i) else Decimal(i)
  }

  /** `toChar`. How a double is written is left to floatText. */
  function DocText(d: Doc, floatText: Bytes -> Id): Id
    decreases d
  {
    [LBRACE] + FieldsText(d.fs, floatText) + [RBRACE]
  }

  function FieldsText(fs: seq<Field>, floatText: Bytes -> Id): Id
    decreases fs, 1
  {
    if fs == [] then [] else FieldText(fs[0], floatText) + MoreFieldsText(fs[1..], floatText)
  }

  function MoreFieldsText(fs: seq<Field>, floatText: Bytes -> Id): Id
    decreases fs, 0
  {
    if fs == [] then [] else [TEXT_COMMA] + FieldText(fs[0], floatText) + MoreFieldsText(fs[1..], floatText)
  }

  function FieldText(f: Field, floatText: Bytes -> Id): Id
    decreases f
  {
    [SPACE, QUOTE] + f.key + [QUOTE, SPACE, TEXT_COLON, SPACE] + ValueText(f.value, floatText)
  }

  function ValueText(v: Value, floatText: Bytes -> Id): Id
    decreases v
  {
    match v
    case BoolV(b) => if b then TRUE_TEXT else FALSE_TEXT
    case IntV(i) => NumberText(i)
    case LongV(l) => NumberText(l)
    case OldLong(_) => []
    case DoubleV(bits) => floatText(bits)
    case StringV(s) => [QUOTE] + s + [QUOTE]
    case OldString(s) => [QUOTE] + s + [QUOTE]
    case DocV(d) => DocText(d, floatText)
    case ArrayV(ds) => [LBRACKET] + DocsText(ds, floatText) + [RBRACKET]
  }

  function DocsText(ds: seq<Doc>, floatText: Bytes -> Id): Id
    decreases ds, 1
  {
    if ds == [] then [] else DocText(ds[0], floatText) + MoreDocsText(ds[1..], floatText)
  }

  function MoreDocsText(ds: seq<Doc>, floatText: Bytes -> Id): Id
    decreases ds, 0
  {
    if ds == [] then [] else [TEXT_COMMA, SPACE] + DocText(ds[0], floatText) + MoreDocsText(ds[1..], floatText)
  }

  // ---- Lexing ----------------------------------------------------------------------------------------

  datatype Lexed = Bad | Tokens(ts: seq<Token>)

  function Behind(t: Token, l: Lexed): Lexed {
    if l.Bad? then Bad else Tokens([t] + l.ts)
  }

  function After(ts: seq<Token>, l: Lexed): Lexed {
    if l.Bad? then Bad else Tokens(ts + l.ts)
  }

  predicate IsLetter(c: byte) {
    65 <= c <= 90 || 97 <= c <= 122 || c == 95
  }

  function DigitSpan(s: Id): (n: nat)
    ensures n <= |s|
  {
    if s == [] || !IsDigit(s[0]) then 0 else 1 + DigitSpan(s[1..])
  }

  function WordSpan(s: Id): (n: nat)
    ensures n <= |s|
  {
    if s == [] || !(IsLetter(s[0]) || IsDigit(s[0])) then 0 else 1 + WordSpan(s[1..])
  }

  function QuoteAt(s: Id): (n: nat)
    ensures n <= |s|
  {
    if s == [] || s[0] == QUOTE then 0 else 1 + QuoteAt(s[1..])
  }

  function DigitsValue(s: Id): nat
    requires forall c :: c in s ==> IsDigit(c)
  {
    if s == [] then 0
    else
      assert IsDigit(s[|s| - 1]) by { assert s[|s| - 1] in s; }
      10 * DigitsValue(s[..|s| - 1]) + ((s[|s| - 1] as int) - 48)
  }

  function Lower(s: Id): Id {
    if s == [] then [] else [if 65 <= s[0] <= 90 then s[0] + 32 else s[0]] + Lower(s[1..])
  }

  function WordToken(w: Id): Token {
    if Lower(w) == TRUE_TEXT then TRUE else if Lower(w) == FALSE_TEXT then FALSE else ID(w)
  }

  lemma {:induction false} SpannedDigits(s: Id)
    ensures forall i :: 0 <= i < DigitSpan(s) ==> IsDigit(s[i])
  {
    if s != [] && IsDigit(s[0]) {
      SpannedDigits(s[1..]);
    }
  }

  function NumberToken(s: Id): Token {
    SpannedDigits(s);
    NUMBER(DigitsValue(s[..DigitSpan(s)]))
  }

  /** The tokens of a text, as far as documents without doubles need them. */
  function Lex(s: Id): Lexed
    decreases |s|
  {
    if s == [] then Tokens([])
    else if s[0] == SPACE then Lex(s[1..])
    else if s[0] == LBRACE then Behind(LBRAN, Lex(s[1..]))
    else if s[0] == RBRACE then Behind(RBRAN, Lex(s[1..]))
    else if s[0] == LBRACKET then Behind(LBRAK, Lex(s[1..]))
    else if s[0] == RBRACKET then Behind(RBRAK, Lex(s[1..]))
    else if s[0] == TEXT_COMMA then Behind(COMMA, Lex(s[1..]))
    else if s[0] == TEXT_COLON then Behind(COLON, Lex(s[1..]))
    else if s[0] == QUOTE then
      var n := QuoteAt(s[1..]);
      if n == |s| - 1 then Bad else Behind(STRING(s[1..n + 1]), Lex(s[n + 2..]))
    else if IsDigit(s[0]) then Behind(NumberToken(s), Lex(s[DigitSpan(s)..]))
    else if IsLetter(s[0]) then Behind(WordToken(s[..WordSpan(s)]), Lex(s[WordSpan(s)..]))
    else Bad
  }

  // ---- Lexing what was written -----------------------------------------------------------------------

  /** A number or a word ends here. */
  predicate Ends(s: Id) {
    s == [] || !(IsLetter(s[0]) || IsDigit(s[0]))
  }

  lemma {:induction false} DigitSpanOf(x: Id, s: Id)
    requires (forall c :: c in x ==> IsDigit(c)) && Ends(s)
    ensures DigitSpan(x + s) == |x|
  {
    if x == [] {
      assert x + s == s;
    } else {
      assert x[0] in x && (x + s)[1..] == x[1..] + s;
      DigitSpanOf(x[1..], s);
    }
  }

  lemma {:induction false} DecimalReads(n: nat)
    ensures DigitsValue(Decimal(n)) == n
  {
    var s := Decimal(n);
    if n >= 10 {
      DecimalReads(n / 10);
      assert s[..|s| - 1] == Decimal(n / 10);
    } else {
      assert s[..0] == [];
    }
  }

  /** A number is written as its digits, a negative one behind a minus sign. */
  lemma NumberReads(i: int)
    ensures var s := NumberText(i);
            if i < 0 then s[0] == 45 && (forall c :: c in s[1..] ==> IsDigit(c)) && DigitsValue(s[1..]) == -i
            else (forall c :: c in s ==> IsDigit(c)) && DigitsValue(s) == i
  {
    if i < 0 {
      DecimalReads(-i);
      assert NumberText(i)[1..] == Decimal(-i);
    } else {
      DecimalReads(i);
    }
  }

  /** So different numbers have different texts. */
  lemma NumberTextTells(i: int, j: int)
    requires NumberText(i) == NumberText(j)
    ensures i == j
  {
    NumberReads(i);
    NumberReads(j);
    assert NumberText(i)[0] in NumberText(i) && NumberText(j)[0] in NumberText(j);
  }

  lemma {:induction false} MoreFieldsLast(fs: seq<Field>, f: Field, floatText: Bytes -> Id)
    ensures MoreFieldsText(fs + [f], floatText) ==
            MoreFieldsText(fs, floatText) + [TEXT_COMMA] + FieldText(f, floatText)
  {
    if fs == [] {
      assert [] + [f] == [f] && [f][1..] == [];
    } else {
      assert (fs + [f])[1..] == fs[1..] + [f];
      MoreFieldsLast(fs[1..], f, floatText);
    }
  }

  /** Every field is written behind those before it, after a comma, a space, its key in quotes and a colon between
      spaces. */
  lemma FieldWrittenLast(fs: seq<Field>, f: Field, floatText: Bytes -> Id)
    ensures FieldsText(fs + [f], floatText) ==
            FieldsText(fs, floatText) + (if fs == [] then [] else [44]) +
            ([32, 34] + f.key + [34, 32, 58, 32] + ValueText(f.value, floatText))
  {
    if fs == [] {
      assert [] + [f] == [f] && [f][1..] == [];
    } else {
      assert (fs + [f])[1..] == fs[1..] + [f];
      MoreFieldsLast(fs[1..], f, floatText);
    }
  }

  lemma {:induction false} MoreDocsLast(ds: seq<Doc>, d: Doc, floatText: Bytes -> Id)
    ensures MoreDocsText(ds + [d], floatText) ==
            MoreDocsText(ds, floatText) + ([TEXT_COMMA, SPACE] + DocText(d, floatText))
  {
    if ds == [] {
      assert [] + [d] == [d] && [d][1..] == [];
    } else {
      assert (ds + [d])[1..] == ds[1..] + [d];
      MoreDocsLast(ds[1..], d, floatText);
    }
  }

  /** Every document of an array is written behind those before it, after a comma and a space. */
  lemma DocWrittenLast(ds: seq<Doc>, d: Doc, floatText: Bytes -> Id)
    ensures DocsText(ds + [d], floatText) ==
            DocsText(ds, floatText) + (if ds == [] then [] else [44, 32]) + DocText(d, floatText)
  {
    if ds == [] {
      assert [] + [d] == [d] && [d][1..] == [];
    } else {
      assert (ds + [d])[1..] == ds[1..] + [d];
      MoreDocsLast(ds[1..], d, floatText);
    }
  }

  /** The texts of `{ "a" : -5}` and `{ "a" : "x"}`, and the words for truth values, character by character. */
  lemma SampleTexts(floatText: Bytes -> Id)
    ensures DocText(Doc([] + [Field([97], IntV(-5))]), floatText) == [123, 32, 34, 97, 34, 32, 58, 32, 45, 53, 125]
    ensures DocText(Doc([] + [Field([97], StringV([120]))]), floatText) ==
            [123, 32, 34, 97, 34, 32, 58, 32, 34, 120, 34, 125]
    ensures ValueText(BoolV(true), floatText) == [116, 114, 117, 101]
    ensures ValueText(BoolV(false), floatText) == [102, 97, 108, 115, 101]
  {
    var a, b := Field([97], IntV(-5)), Field([97], StringV([120]));
    FieldWrittenLast([], a, floatText);
    FieldWrittenLast([], b, floatText);
    Braces([] + [a], floatText);
    Braces([] + [b], floatText);
    assert NumberText(-5) == [45, 53];
  }

  lemma Braces(fs: seq<Field>, floatText: Bytes -> Id)
    ensures DocText(Doc(fs), floatText) == [123] + FieldsText(fs, floatText) + [125]
  {
  }

  /** The text of `{}` and of `[{}, {}]`. */
  lemma EmptyTexts(floatText: Bytes -> Id)
    ensures DocText(Doc([]), floatText) == [123, 125]
    ensures ValueText(ArrayV([Doc([]), Doc([])]), floatText) == [91, 123, 125, 44, 32, 123, 125, 93]
  {
    assert DocText(Doc([]), floatText) == [123, 125];
    assert [Doc([])] + [Doc([])] == [Doc([]), Doc([])] && [] + [Doc([])] == [Doc([])];
    DocWrittenLast([Doc([])], Doc([]), floatText);
    DocWrittenLast([], Doc([]), floatText);
  }

  lemma LexNumber(n: nat, s: Id)
    requires Ends(s)
    ensures Lex(Decimal(n) + s) == Behind(NUMBER(n), Lex(s))
  {
    LexDigits(Decimal(n), s);
    DecimalReads(n);
  }

  lemma LexDigits(x: Id, s: Id)
    requires x != [] && (forall c :: c in x ==> IsDigit(c)) && Ends(s)
    ensures Lex(x + s) == Behind(NUMBER(DigitsValue(x)), Lex(s))
  {
    DigitSpanOf(x, s);
    assert (x + s)[0] == x[0] && x[0] in x;
    assert (x + s)[..|x|] == x && (x + s)[|x|..] == s;
  }

  lemma {:induction false} QuoteAtOf(x: Id, s: Id)
    requires QUOTE !in x && s != [] && s[0] == QUOTE
    ensures QuoteAt(x + s) == |x|
  {
    if x == [] {
      assert x + s == s;
    } else {
      assert (x + s)[1..] == x[1..] + s;
      QuoteAtOf(x[1..], s);
    }
  }

  lemma LexString(x: Id, s: Id)
    requires Clean(x)
    ensures Lex([QUOTE] + x + [QUOTE] + s) == Behind(STRING(x), Lex(s))
  {
    var t := [QUOTE] + x + [QUOTE] + s;
    QuoteAtOf(x, [QUOTE] + s);
    assert t[1..] == x + ([QUOTE] + s) && t[1..|x| + 1] == x && t[|x| + 2..] == s;
  }

  lemma LexMark(c: byte, t: Token, s: Id)
    requires (c == LBRACE && t == LBRAN) || (c == RBRACE && t == RBRAN) || (c == LBRACKET && t == LBRAK) ||
             (c == RBRACKET && t == RBRAK) || (c == TEXT_COMMA && t == COMMA) || (c == TEXT_COLON && t == COLON)
    ensures Lex([c] + s) == Behind(t, Lex(s))
  {
    assert ([c] + s)[1..] == s;
  }

  lemma LexSpace(s: Id)
    ensures Lex([SPACE] + s) == Lex(s)
  {
    assert ([SPACE] + s)[1..] == s;
  }

  lemma {:induction false} WordSpanOf(x: Id, s: Id)
    requires (forall c :: c in x ==> IsLetter(c)) && Ends(s)
    ensures WordSpan(x + s) == |x|
  {
    if x == [] {
      assert x + s == s;
    } else {
      assert x[0] in x && (x + s)[1..] == x[1..] + s;
      WordSpanOf(x[1..], s);
    }
  }

  lemma LexTruth(b: bool, s: Id)
    requires Ends(s)
    ensures Lex((if b then TRUE_TEXT else FALSE_TEXT) + s) == Behind(if b then TRUE else FALSE, Lex(s))
  {
    var x := if b then TRUE_TEXT else FALSE_TEXT;
    WordSpanOf(x, s);
    LowerStays(x);
    assert (x + s)[0] == x[0] && (x + s)[..|x|] == x && (x + s)[|x|..] == s;
  }

  lemma {:induction false} LowerStays(s: Id)
    requires forall i :: 0 <= i < |s| ==> s[i] >= 97
    ensures Lower(s) == s
  {
    if s != [] {
      LowerStays(s[1..]);
    }
  }

  lemma AfterAfter(a: seq<Token>, c: seq<Token>, l: Lexed)
    ensures After(a, After(c, l)) == After(a + c, l)
    ensures After([], l) == l
    ensures forall t :: Behind(t, After(c, l)) == After([t] + c, l)
  {
    if l.Tokens? {
      assert a + (c + l.ts) == a + c + l.ts && [] + l.ts == l.ts;
      forall t ensures [t] + (c + l.ts) == [t] + c + l.ts {
      }
    }
  }

  lemma {:induction false} LexValue(v: Value, s: Id, floatText: Bytes -> Id)
    requires ValueJsonable(v) && Ends(s)
    ensures Lex(ValueText(v, floatText) + s) == After(ValueTokens(v), Lex(s))
    decreases v
  {
    match v
    case BoolV(b) => LexTruth(b, s);
    case IntV(i) => LexNumber(i, s);
    case LongV(l) => LexNumber(l, s);
    case StringV(x) => LexString(x, s);
    case DocV(d) => LexDoc(d, s, floatText);
    case ArrayV(ds) => LexArray(ds, s, floatText);
  }

  lemma {:induction false} LexArray(ds: seq<Doc>, s: Id, floatText: Bytes -> Id)
    requires ds != [] && forall i :: 0 <= i < |ds| ==> Jsonable(ds[i])
    ensures Lex([LBRACKET] + DocsText(ds, floatText) + [RBRACKET] + s) ==
            After([LBRAK] + DocsTokens(ds) + [RBRAK], Lex(s))
    decreases ds, 1
  {
    var end := [RBRACKET] + s;
    var more := MoreDocsText(ds[1..], floatText) + end;
    var first := DocText(ds[0], floatText) + more;
    assert [LBRACKET] + DocsText(ds, floatText) + [RBRACKET] + s == [LBRACKET] + first;
    LexMark(LBRACKET, LBRAK, first);
    LexDoc(ds[0], more, floatText);
    LexDocs(ds[1..], end, floatText);
    LexMark(RBRACKET, RBRAK, s);
    assert Lex(end) == After([RBRAK], Lex(s));
    AfterAfter(MoreDocsTokens(ds[1..]), [RBRAK], Lex(s));
    AfterAfter(DocTokens(ds[0]), MoreDocsTokens(ds[1..]) + [RBRAK], Lex(s));
    AfterAfter([], DocTokens(ds[0]) + (MoreDocsTokens(ds[1..]) + [RBRAK]), Lex(s));
    assert [LBRAK] + DocsTokens(ds) + [RBRAK] == [LBRAK] + (DocTokens(ds[0]) + (MoreDocsTokens(ds[1..]) + [RBRAK]));
  }

  lemma {:induction false} LexDocs(ds: seq<Doc>, s: Id, floatText: Bytes -> Id)
    requires forall i :: 0 <= i < |ds| ==> Jsonable(ds[i])
    ensures Lex(MoreDocsText(ds, floatText) + s) == After(MoreDocsTokens(ds), Lex(s))
    decreases ds, 0
  {
    if ds == [] {
      assert MoreDocsText(ds, floatText) + s == s;
      AfterAfter([], [], Lex(s));
    } else {
      var more := MoreDocsText(ds[1..], floatText) + s;
      var first := DocText(ds[0], floatText) + more;
      assert MoreDocsText(ds, floatText) + s == [TEXT_COMMA] + ([SPACE] + first);
      LexMark(TEXT_COMMA, COMMA, [SPACE] + first);
      LexSpace(first);
      LexDoc(ds[0], more, floatText);
      LexDocs(ds[1..], s, floatText);
      AfterAfter(DocTokens(ds[0]), MoreDocsTokens(ds[1..]), Lex(s));
      AfterAfter([], DocTokens(ds[0]) + MoreDocsTokens(ds[1..]), Lex(s));
      assert MoreDocsTokens(ds) == [COMMA] + (DocTokens(ds[0]) + MoreDocsTokens(ds[1..]));
    }
  }

  lemma {:induction false} LexField(f: Field, s: Id, floatText: Bytes -> Id)
    requires FieldJsonable(f) && Ends(s)
    ensures Lex(FieldText(f, floatText) + s) == After(FieldTokens(f), Lex(s))
    decreases f
  {
    var value := ValueText(f.value, floatText) + s;
    var colon := [SPACE] + ([TEXT_COLON] + ([SPACE] + value));
    assert FieldText(f, floatText) + s == [SPACE] + ([QUOTE] + f.key + [QUOTE] + colon);
    LexSpace([QUOTE] + f.key + [QUOTE] + colon);
    LexString(f.key, colon);
    LexColon(value);
    LexValue(f.value, s, floatText);
    BehindAfter(STRING(f.key), COLON, ValueTokens(f.value), Lex(s));
    assert FieldTokens(f) == [STRING(f.key), COLON] + ValueTokens(f.value);
  }

  lemma LexColon(value: Id)
    ensures Lex([SPACE] + ([TEXT_COLON] + ([SPACE] + value))) == Behind(COLON, Lex(value))
  {
    LexSpace([TEXT_COLON] + ([SPACE] + value));
    LexMark(TEXT_COLON, COLON, [SPACE] + value);
    LexSpace(value);
  }

  lemma BehindAfter(t: Token, u: Token, c: seq<Token>, l: Lexed)
    ensures Behind(t, Behind(u, After(c, l))) == After([t, u] + c, l)
  {
    if l.Tokens? {
      assert [t] + ([u] + (c + l.ts)) == [t, u] + c + l.ts;
    }
  }

  lemma {:induction false} LexFields(fs: seq<Field>, s: Id, floatText: Bytes -> Id)
    requires (forall i :: 0 <= i < |fs| ==> FieldJsonable(fs[i])) && Ends(s)
    ensures Lex(MoreFieldsText(fs, floatText) + s) == After(MoreFieldsTokens(fs), Lex(s))
    ensures Ends(MoreFieldsText(fs, floatText) + s)
    decreases fs, 0
  {
    if fs == [] {
      assert MoreFieldsText(fs, floatText) + s == s;
      AfterAfter([], [], Lex(s));
    } else {
      var more := MoreFieldsText(fs[1..], floatText) + s;
      var first := FieldText(fs[0], floatText) + more;
      assert MoreFieldsText(fs, floatText) + s == [TEXT_COMMA] + first;
      LexMark(TEXT_COMMA, COMMA, first);
      LexFields(fs[1..], s, floatText);
      LexField(fs[0], more, floatText);
      AfterAfter(FieldTokens(fs[0]), MoreFieldsTokens(fs[1..]), Lex(s));
      AfterAfter([], FieldTokens(fs[0]) + MoreFieldsTokens(fs[1..]), Lex(s));
      assert MoreFieldsTokens(fs) == [COMMA] + (FieldTokens(fs[0]) + MoreFieldsTokens(fs[1..]));
    }
  }

  lemma {:induction false} LexAllFields(fs: seq<Field>, s: Id, floatText: Bytes -> Id)
    requires (forall i :: 0 <= i < |fs| ==> FieldJsonable(fs[i])) && Ends(s)
    ensures Lex(FieldsText(fs, floatText) + s) == After(FieldsTokens(fs), Lex(s))
    decreases fs, 1
  {
    if fs == [] {
      assert FieldsText(fs, floatText) + s == s;
      AfterAfter([], [], Lex(s));
    } else {
      var more := MoreFieldsText(fs[1..], floatText) + s;
      assert FieldsText(fs, floatText) + s == FieldText(fs[0], floatText) + more;
      LexFields(fs[1..], s, floatText);
      LexField(fs[0], more, floatText);
      AfterAfter(FieldTokens(fs[0]), MoreFieldsTokens(fs[1..]), Lex(s));
    }
  }

  /** The text of a document consists of the document's tokens. */
  lemma {:induction false} LexDoc(d: Doc, s: Id, floatText: Bytes -> Id)
    requires Jsonable(d)
    ensures Lex(DocText(d, floatText) + s) == After(DocTokens(d), Lex(s))
    decreases d
  {
    var end := [RBRACE] + s;
    var fields := FieldsText(d.fs, floatText) + end;
    assert DocText(d, floatText) + s == [LBRACE] + fields;
    LexMark(LBRACE, LBRAN, fields);
    LexAllFields(d.fs, end, floatText);
    LexMark(RBRACE, RBRAN, s);
    assert Lex(end) == After([RBRAN], Lex(s));
    AfterAfter(FieldsTokens(d.fs), [RBRAN], Lex(s));
    AfterAfter([], FieldsTokens(d.fs) + [RBRAN], Lex(s));
    assert DocTokens(d) == [LBRAN] + (FieldsTokens(d.fs) + [RBRAN]);
  }

  /** The text of a document, lexed and parsed, is the document. */
  lemma TextReads(d: Doc, floatText: Bytes -> Id)
    requires Jsonable(d)
    ensures var l := Lex(DocText(d, floatText)); l.Tokens? && ParseDoc(l.ts) == Ok(d, [])
  {
    LexDoc(d, [], floatText);
    DocReads(d, []);
    assert DocText(d, floatText) + [] == DocText(d, floatText) && DocTokens(d) + [] == DocTokens(d);
  }

  // ---- `toChar` --------------------------------------------------------------------------------------

  method ToChar(d: Doc, floatText: Bytes -> Id) returns (result: Id)
    ensures result == DocText(d, floatText)
    decreases d
  {
    result := [LBRACE];
    ghost var rest := FieldsText(d.fs, floatText);
    for i := 0 to |d.fs|
      invariant result + rest == [LBRACE] + FieldsText(d.fs, floatText)
      invariant rest == if i == 0 then FieldsText(d.fs, floatText) else MoreFieldsText(d.fs[i..], floatText)
    {
      ghost var before, more := result, MoreFieldsText(d.fs[i + 1..], floatText);
      if i > 0 {
        result := result + [TEXT_COMMA];
      }
      var text := ValueToChar(d.fs[i].value, floatText);
      assert d.fs[i..][1..] == d.fs[i + 1..];
      var field := [SPACE, QUOTE] + d.fs[i].key + [QUOTE, SPACE, TEXT_COLON, SPACE] + text;
      result := result + field;
      Regroup(before, if i > 0 then [TEXT_COMMA] else [], field, more);
      rest := more;
    }
    result := result + [RBRACE];
  }

  lemma Regroup(a: Id, separator: Id, c: Id, more: Id)
    ensures a + (separator + c + more) == a + separator + c + more
    ensures separator == [] ==> separator + c == c && a + separator == a
  {
  }

  method ValueToChar(v: Value, floatText: Bytes -> Id) returns (text: Id)
    ensures text == ValueText(v, floatText)
    decreases v
  {
    match v
    case DocV(d) => text := ToChar(d, floatText);
    case ArrayV(ds) => text := ArrayToChar(ds, floatText);
    case BoolV(b) => text := if b then TRUE_TEXT else FALSE_TEXT;
    case IntV(i) => text := NumberText(i);
    case LongV(l) => text := NumberText(l);
    case OldLong(_) => text := [];
    case DoubleV(bits) => text := floatText(bits);
    case StringV(s) => text := [QUOTE] + s + [QUOTE];
    case OldString(s) => text := [QUOTE] + s + [QUOTE];
  }

  /** `BSONArrayObj::toChar`. */
  method ArrayToChar(ds: seq<Doc>, floatText: Bytes -> Id) returns (text: Id)
    ensures text == ValueText(ArrayV(ds), floatText)
    decreases ds
  {
    text := [LBRACKET];
    ghost var rest := DocsText(ds, floatText);
    for i := 0 to |ds|
      invariant text + rest == [LBRACKET] + DocsText(ds, floatText)
      invariant rest == if i == 0 then DocsText(ds, floatText) else MoreDocsText(ds[i..], floatText)
    {
      ghost var before, more := text, MoreDocsText(ds[i + 1..], floatText);
      if i > 0 {
        text := text + [TEXT_COMMA, SPACE];
      }
      var element := ToChar(ds[i], floatText);
      assert ds[i..][1..] == ds[i + 1..];
      text := text + element;
      Regroup(before, if i > 0 then [TEXT_COMMA, SPACE] else [], element, more);
      rest := more;
    }
    text := text + [RBRACKET];
  }
}
