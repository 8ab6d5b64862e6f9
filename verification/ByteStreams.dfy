/** Streams of bytes with a cursor, and the fixed-width integers and strings that are written to them. */
module ByteStreams {
  import opened Ids

  type Bytes = seq<byte>

  // ---- Numbers and strings as bytes ------------------------------------------------------------------

  /** 256 to the power n. */
  function Base(n: nat): (r: nat)
    ensures r > 0
  {
    if n == 0 then 1 else 256 * Base(n - 1)
  }

  /** n on `width` bytes, the least significant first. */
  function LittleEndian(n: nat, width: nat): (bs: Bytes)
    ensures |bs| == width
  {
    if width == 0 then [] else [n % 256] + LittleEndian(n / 256, width - 1)
  }

  function FromLittleEndian(bs: Bytes): (n: nat) {
    if bs == [] then 0 else bs[0] + 256 * FromLittleEndian(bs[1..])
  }

  lemma {:induction false} LittleEndianReads(n: nat, width: nat)
    ensures n < Base(width) ==> FromLittleEndian(LittleEndian(n, width)) == n
  {
    if width > 0 {
      LittleEndianReads(n / 256, width - 1);
    }
  }

  /** An integer that fits in `width` bytes with its sign. */
  predicate Fits(i: int, width: nat) {
    -(Base(width) as int) <= 2 * i < Base(width)
  }

  /** Two's complement. */
  function Signed(i: int, width: nat): (bs: Bytes)
    ensures |bs| == width
  {
    LittleEndian(i % Base(width), width)
  }

  function FromSigned(bs: Bytes): int {
    var n := FromLittleEndian(bs);
    if 2 * n < Base(|bs|) then n else n - Base(|bs|)
  }

  lemma SignedReads(i: int, width: nat)
    requires Fits(i, width)
    ensures FromSigned(Signed(i, width)) == i
  {
    var m: int := Base(width);
    LittleEndianReads(i % m, width);
    Wraps(i, m, if i < 0 then -1 else 0);
  }

  lemma Wraps(i: int, m: int, q: int)
    requires m > 0 && 0 <= i - q * m < m
    ensures i % m == i - q * m
  {
    var d := i / m - q;
    assert i == (i / m) * m + i % m;
    assert d * m == (i - q * m) - i % m;
    if d > 0 {
      Grows(d, m);
    } else if d < 0 {
      Grows(-d, m);
    }
  }

  lemma {:induction false} Grows(d: int, m: int)
    requires d > 0 && m > 0
    ensures d * m >= m && (-d) * m <= -m
  {
    if d > 1 {
      Grows(d - 1, m);
      assert d * m == (d - 1) * m + m && (-d) * m == (-(d - 1)) * m - m;
    }
  }

  lemma Divides(n: nat, m: nat, q: nat)
    requires m > 0 && q * m <= n < q * m + m
    ensures n / m == q
  {
    Wraps(n, m, q);
    var d := n / m - q;
    assert d * m == 0;
    if d > 0 {
      Grows(d, m);
    } else if d < 0 {
      Grows(-d, m);
    }
  }

  lemma DividesTwice(n: nat, m: nat)
    requires m > 0
    ensures n / 256 / m == n / (256 * m)
  {
    var q := n / 256 / m;
    var r := n / 256 % m;
    assert n / 256 == m * q + r;
    assert q * (256 * m) == 256 * (m * q);
    Divides(n, 256 * m, q);
  }

  /** The k-th byte stands for the k-th digit to the base 256. */
  lemma {:induction false} LittleEndianByte(n: nat, width: nat, k: nat)
    requires k < width
    ensures LittleEndian(n, width)[k] == n / Base(k) % 256
  {
    if k > 0 {
      LittleEndianByte(n / 256, width - 1, k - 1);
      DividesTwice(n, Base(k - 1));
    }
  }

  /** The bytes of a signed number are the digits of its two's complement. */
  lemma {:induction false} SignedByte(i: int, width: nat, k: nat)
    requires Fits(i, width) && k < width
    ensures var n := if i < 0 then i + Base(width) else i; n >= 0 && Signed(i, width)[k] == n / Base(k) % 256
  {
    Wraps(i, Base(width), if i < 0 then -1 else 0);
    LittleEndianByte(i % Base(width), width, k);
  }

  function Int(i: int): Bytes { Signed(i, 4) }

  function Long(i: int): Bytes { Signed(i, 8) }

  /** `writeChars` and `writeString`: the length and then the characters. */
  function Chars(s: Id): Bytes { Int(|s|) + s }

  // ---- What stands in a stream -----------------------------------------------------------------------

  /** x stands in s at position p. */
  predicate At(s: Bytes, p: nat, x: Bytes) {
    p + |x| <= |s| && s[p..p + |x|] == x
  }

  lemma AtSplit(s: Bytes, p: nat, x: Bytes, y: Bytes)
    ensures At(s, p, x + y) <==> At(s, p, x) && At(s, p + |x|, y)
  {
    if At(s, p, x) && At(s, p + |x|, y) {
      assert s[p..p + |x + y|] == s[p..p + |x|] + s[p + |x|..p + |x| + |y|];
    }
    if At(s, p, x + y) {
      assert s[p..p + |x|] == (x + y)[..|x|];
      assert s[p + |x|..p + |x| + |y|] == (x + y)[|x|..];
    }
  }

  lemma SameLengthSame(s: Bytes, p: nat, x: Bytes, y: Bytes)
    requires At(s, p, x) && At(s, p, y) && |x| == |y|
    ensures x == y
  {
  }

  /** s with x written over it from position p on. */
  function Overwrite(s: Bytes, p: nat, x: Bytes): (r: Bytes)
    requires p <= |s|
    ensures |r| == if p + |x| <= |s| then |s| else p + |x|
  {
    s[..p] + x + if p + |x| <= |s| then s[p + |x|..] else []
  }

  lemma OverwriteTwice(s: Bytes, p: nat, x: Bytes, y: Bytes)
    requires p <= |s|
    ensures Overwrite(Overwrite(s, p, x), p + |x|, y) == Overwrite(s, p, x + y)
  {
  }

  // ---- Streams ---------------------------------------------------------------------------------------

  /** `FileInputOutputStream`: a file and the position in it. */
  class ByteStream {
    var data: Bytes
    var pos: nat

    constructor ()
      ensures data == [] && pos == 0
    {
      data := [];
      pos := 0;
    }

    method Seek(i: nat)
      modifies this`pos
      ensures pos == i
    {
      pos := i;
    }

    method Write(x: Bytes)
      requires pos <= |data|
      modifies this
      ensures data == Overwrite(old(data), old(pos), x) && pos == old(pos) + |x| <= |data|
    {
      data := data[..pos] + x + if pos + |x| <= |data| then data[pos + |x|..] else [];
      pos := pos + |x|;
    }

    method WriteInt(i: int)
      requires pos <= |data|
      modifies this
      ensures data == Overwrite(old(data), old(pos), Int(i)) && pos == old(pos) + 4 <= |data|
    {
      Write(Int(i));
    }

    method WriteLong(i: int)
      requires pos <= |data|
      modifies this
      ensures data == Overwrite(old(data), old(pos), Long(i)) && pos == old(pos) + 8 <= |data|
    {
      Write(Long(i));
    }

    method WriteChars(s: Id)
      requires pos <= |data|
      modifies this
      ensures data == Overwrite(old(data), old(pos), Chars(s)) && pos == old(pos) + |Chars(s)| <= |data|
    {
      WriteInt(|s|);
      Write(s);
      OverwriteTwice(old(data), old(pos), Int(|s|), s);
    }

    method Read(n: nat) returns (x: Bytes)
      requires pos + n <= |data|
      modifies this`pos
      ensures x == data[old(pos)..old(pos) + n] && pos == old(pos) + n
    {
      x := data[pos..pos + n];
      pos := pos + n;
    }

    method ReadInt(ghost i: int) returns (r: int)
      requires Fits(i, 4) && At(data, pos, Int(i))
      modifies this`pos
      ensures r == i && pos == old(pos) + 4
    {
      var x := Read(4);
      SignedReads(i, 4);
      r := FromSigned(x);
    }

    method ReadLong(ghost i: int) returns (r: int)
      requires Fits(i, 8) && At(data, pos, Long(i))
      modifies this`pos
      ensures r == i && pos == old(pos) + 8
    {
      var x := Read(8);
      SignedReads(i, 8);
      r := FromSigned(x);
    }

    method ReadChars(ghost s: Id) returns (r: Id)
      requires Fits(|s|, 4) && At(data, pos, Chars(s))
      modifies this`pos
      ensures r == s && pos == old(pos) + |Chars(s)|
    {
      AtSplit(data, pos, Int(|s|), s);
      var len := ReadInt(|s|);
      r := Read(len);
    }

    /** Over the length and the characters of a string. */
    method SkipChars(ghost s: Id)
      requires Fits(|s|, 4) && At(data, pos, Chars(s))
      modifies this`pos
      ensures pos == old(pos) + |Chars(s)|
    {
      AtSplit(data, pos, Int(|s|), s);
      var len := ReadInt(|s|);
      Seek(pos + len);
    }
  }
}
