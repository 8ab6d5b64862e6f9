/** Record identifiers and the order the index keeps them in.

    An identifier is the C string of a document's `_id`. The index compares two of them with
    `djondb::string::compare`, which orders by length first and by bytes second. `Rank` places
    every identifier on the number line, and `CompareIsRankOrder` shows that the comparison the
    code runs is exactly the order of the ranks: it is total, and equal only on equal strings. */
module Ids {
  type byte = b: int | 0 <= b < 256

  /** A C string: no byte of it is the terminator. */
  type Id = s: seq<byte> | forall c :: c in s ==> c != 0

  /** `strncmp` over the common length of two C strings. */
  function StrNCmp(a: Id, b: Id): int
    requires |a| == |b|
  {
    if a == [] then 0
    else if a[0] != b[0] then a[0] - b[0]
    else StrNCmp(a[1..], b[1..])
  }

  function Compare(a: Id, b: Id): int {
    if |a| < |b| then -1
    else if |a| > |b| then 1
    else StrNCmp(a, b)
  }

  /** The position of an identifier in the order: its bytes read as base 256 digits. */
  function Rank(s: Id): nat {
    if s == [] then 0 else 256 * Rank(s[..|s| - 1]) + s[|s| - 1]
  }

  lemma {:induction false} ShorterIsSmaller(a: Id, b: Id)
    requires |a| < |b|
    ensures Rank(a) < Rank(b)
  {
    assert b[|b| - 1] in b;
    if a != [] {
      assert a[|a| - 1] in a;
      ShorterIsSmaller(a[..|a| - 1], b[..|b| - 1]);
    }
  }

  /** Comparing from the front, the last byte decides only if everything before it is equal. */
  lemma {:induction false} LastByteDecides(a: Id, b: Id)
    requires |a| == |b| > 0
    ensures var c := StrNCmp(a[..|a| - 1], b[..|b| - 1]);
            StrNCmp(a, b) == if c != 0 then c else (a[|a| - 1] as int) - b[|b| - 1]
  {
    var a', b' := a[..|a| - 1], b[..|b| - 1];
    if |a| == 1 {
      assert a[1..] == [] && b[1..] == [];
    } else if a[0] == b[0] {
      LastByteDecides(a[1..], b[1..]);
      assert a[1..][..|a| - 2] == a'[1..] && b[1..][..|b| - 2] == b'[1..];
    }
  }

  lemma {:induction false} SameLengthRankOrder(a: Id, b: Id)
    requires |a| == |b|
    ensures StrNCmp(a, b) < 0 <==> Rank(a) < Rank(b)
    ensures StrNCmp(a, b) == 0 <==> Rank(a) == Rank(b)
    ensures Rank(a) == Rank(b) ==> a == b
  {
    if a != [] {
      LastByteDecides(a, b);
      SameLengthRankOrder(a[..|a| - 1], b[..|b| - 1]);
      assert a == a[..|a| - 1] + [a[|a| - 1]] && b == b[..|b| - 1] + [b[|b| - 1]];
    }
  }

  /** The comparison of the code is the order of the ranks, and ranks identify strings. */
  lemma CompareIsRankOrder(a: Id, b: Id)
    ensures Compare(a, b) < 0 <==> Rank(a) < Rank(b)
    ensures Compare(a, b) == 0 <==> Rank(a) == Rank(b)
    ensures Rank(a) == Rank(b) <==> a == b
  {
    if |a| < |b| {
      ShorterIsSmaller(a, b);
    } else if |a| > |b| {
      ShorterIsSmaller(b, a);
    } else {
      SameLengthRankOrder(a, b);
    }
  }
}
