/** The code that takes select strings apart. */
module SelectStrings {
  import opened Ids
  import opened ByteStreams
  import opened Selections

  /** `bson_splitSelect`. */
  method BsonSplitSelect(sel: Id) returns (result: set<Id>)
    ensures result == Columns(sel)
  {
    var elements := Split(sel, {COMMA});
    result := {};
    for i := 0 to |elements|
      invariant result == set j | 0 <= j < i :: Column(elements[j])
    {
      var cs := Trim(elements[i]);
      var s := if Quoted(cs) then Unquoted(cs) else cs;
      var dotPos := Span(s, {DOT});
      if dotPos < |s| {
        s := s[..dotPos];
      }
      assert s == Column(elements[i]);
      result := result + {s};
    }
  }

  /** The room the elements took in the select string: each with at least one delimiter behind it. */
  function Room(es: seq<Id>): nat {
    if es == [] then 0 else |es[0]| + 1 + Room(es[1..])
  }

  lemma {:induction false} SplitRoom(s: Id, delims: set<byte>)
    ensures Room(Split(s, delims)) <= |s| + 1
    decreases |s|
  {
    if s != [] {
      var n := Span(s, delims);
      if s[0] in delims {
        SplitRoom(s[1..], delims);
      } else if n == |s| {
        assert s[n..] == [] && Split(s, delims) == [s[..n]];
      } else {
        SplitRoom(s[n + 1..], delims);
        assert s[n..][1..] == s[n + 1..];
        assert Split(s, delims) == [s[..n]] + Split(s[n + 1..], delims);
      }
    }
  }

  lemma TrimIsShorter(s: Id)
    ensures |Trim(s)| <= |s|
  {
    TrimLeftIsShorter(s);
    TrimRightIsShorter(TrimLeft(s));
  }

  lemma {:induction false} TrimLeftIsShorter(s: Id)
    ensures |TrimLeft(s)| <= |s|
  {
    if s != [] && s[0] == SPACE {
      TrimLeftIsShorter(s[1..]);
    }
  }

  lemma {:induction false} TrimRightIsShorter(s: Id)
    ensures |TrimRight(s)| <= |s|
    decreases |s|
  {
    if s != [] && s[|s| - 1] == SPACE {
      TrimRightIsShorter(s[..|s| - 1]);
    }
  }

  /** The part of an element that is copied is two bytes shorter than the element's room, at most. */
  lemma SubElementFits(e: Id, name: Id)
    requires Below(e, name)
    ensures |SubElement(e, name)| + 1 <= |e|
  {
    TrimIsShorter(e);
  }

  /** `bson_subselect`. Whatever the select string, the result fits in the buffer it is written to. */
  method BsonSubSelect(sel: Id, name: Id) returns (result: array<byte>, pos: nat)
    ensures fresh(result) && pos < result.Length == |sel| + 1
    ensures result[..pos] == SubSelect(sel, name)
  {
    var elements := Split(sel, {COMMA, SPACE});
    SplitRoom(sel, {COMMA, SPACE});
    result := new byte[|sel| + 1](_ => 0);
    pos := 0;
    var first := true;
    for i := 0 to |elements|
      invariant fresh(result) && result.Length == |sel| + 1
      invariant (if first then pos == 0 else 1 <= pos) && pos + Room(elements[i..]) <= |sel| + if first then 1 else 0
      invariant first <==> SubElements(elements[..i], name) == []
      invariant pos <= result.Length && result[..pos] == Joined(SubElements(elements[..i], name))
    {
      var element := Trim(elements[i]);
      assert elements[i..] == [elements[i]] + elements[i + 1..];
      NextElement(elements, i, name);
      if Quoted(element) && name + [DOT] <= Unquoted(element) {
        SubElementFits(elements[i], name);
        pos := AppendElement(result, pos, first, Unquoted(element)[|name| + 1..]);
        first := false;
      }
    }
    assert elements == elements[..|elements|];
  }

  /** An element of the result, behind a comma and a space unless it is the first. */
  method AppendElement(result: array<byte>, pos: nat, first: bool, suffix: Id) returns (end: nat)
    requires pos + |suffix| + (if first then 3 else 5) <= result.Length
    modifies result
    ensures end == pos + |suffix| + (if first then 3 else 5) <= result.Length
    ensures result[..end] == old(result[..pos]) + (if first then [] else [COMMA, SPACE]) + Requoted(suffix)
  {
    end := pos;
    if !first {
      Append(result, end, [COMMA, SPACE]);
      end := end + 2;
    }
    Append(result, end, [DOLLAR, QUOTE]);
    end := end + 2;
    Append(result, end, suffix);
    end := end + |suffix|;
    Append(result, end, [QUOTE]);
    end := end + 1;
  }

  /** `memcpy` behind what is already there. */
  method Append(result: array<byte>, pos: nat, s: Id)
    requires pos + |s| <= result.Length
    modifies result
    ensures result[..pos + |s|] == old(result[..pos]) + s
  {
    for i := 0 to |s|
      invariant result[..pos + i] == old(result[..pos]) + s[..i]
    {
      result[pos + i] := s[i];
      assert result[..pos + i + 1] == result[..pos + i] + [s[i]];
    }
  }

  /** What the next element adds to the result. */
  lemma NextElement(es: seq<Id>, i: nat, name: Id)
    requires i < |es|
    ensures var before, after := SubElements(es[..i], name), SubElements(es[..i + 1], name);
            if Below(es[i], name)
            then after != [] &&
                 Joined(after) == Joined(before) + (if before == [] then [] else [COMMA, SPACE]) +
                   SubElement(es[i], name)
            else after == before
  {
    assert es[..i + 1] == es[..i] + [es[i]];
    SubElementsSnoc(es[..i], es[i], name);
    if Below(es[i], name) {
      JoinedSnoc(SubElements(es[..i], name), SubElement(es[i], name));
    }
  }

  lemma {:induction false} SubElementsSnoc(es: seq<Id>, e: Id, name: Id)
    ensures SubElements(es + [e], name) == SubElements(es, name) + if Below(e, name) then [SubElement(e, name)] else []
  {
    if es == [] {
      assert es + [e] == [e];
    } else {
      assert (es + [e])[1..] == es[1..] + [e];
      SubElementsSnoc(es[1..], e, name);
    }
  }

  lemma {:induction false} JoinedSnoc(es: seq<Id>, e: Id)
    ensures Joined(es + [e]) == if es == [] then e else Joined(es) + [COMMA, SPACE] + e
  {
    if es == [] {
      assert es + [e] == [e] && [e][1..] == [];
    } else {
      assert (es + [e])[1..] == es[1..] + [e];
      JoinedRestSnoc(es[1..], e);
    }
  }

  lemma {:induction false} JoinedRestSnoc(es: seq<Id>, e: Id)
    ensures JoinedRest(es + [e]) == JoinedRest(es) + [COMMA, SPACE] + e
  {
    if es == [] {
      assert es + [e] == [e] && [e][1..] == [];
    } else {
      assert (es + [e])[1..] == es[1..] + [e];
      JoinedRestSnoc(es[1..], e);
    }
  }
}
