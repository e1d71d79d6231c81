/** Little-endian integers, CompactSize and the read cursor (crates/bsv/src/bytes.rs). */
module Bytes {
  import opened Wrappers

  type Byte = b: int | 0 <= b < 256

  type U32 = x: int | 0 <= x < 0x1_0000_0000

  type I32 = x: int | -0x8000_0000 <= x < 0x8000_0000

  type U64 = x: int | 0 <= x < 0x1_0000_0000_0000_0000

  type Hash256 = h: seq<Byte> | |h| == 32 witness seq(32, _ => 0)

  /** A compressed public key. */
  type PublicKey = k: seq<Byte> | |k| == 33 witness seq(33, _ => 0)

  const U64_MAX: nat := 0xFFFF_FFFF_FFFF_FFFF
  const USIZE_MAX: nat := 0xFFFF_FFFF_FFFF_FFFF

  datatype BsvError =
    | Truncated | OutOfRange | MalformedTx | MalformedScript | Length
    | ChainNotLinked | ChainBadPow | ChainNonMonotonic | MerkleMismatch | SighashSingleIndex

  /** A read: the value and the offset after it. */
  type Read<T> = Result<(T, nat), BsvError>

  // ------------------------------------------------------------------- little-endian

  function Pow256(n: nat): (r: nat)
    ensures r >= 1
  {
    if n == 0 then 1 else 256 * Pow256(n - 1)
  }

  /** `to_le_bytes` on n bytes. */
  function LE(n: nat, v: nat): (r: seq<Byte>)
    ensures |r| == n
  {
    if n == 0 then [] else [v % 256] + LE(n - 1, v / 256)
  }

  function UnLE(bs: seq<Byte>): (v: nat)
    ensures v < Pow256(|bs|)
  {
    if bs == [] then 0 else bs[0] + 256 * UnLE(bs[1..])
  }

  lemma {:induction false} UnLEofLE(n: nat, v: nat)
    requires v < Pow256(n)
    ensures UnLE(LE(n, v)) == v
  {
    if n > 0 {
      UnLEofLE(n - 1, v / 256);
      assert LE(n, v)[1..] == LE(n - 1, v / 256);
    }
  }

  lemma {:induction false} LEofUnLE(bs: seq<Byte>)
    ensures LE(|bs|, UnLE(bs)) == bs
  {
    if bs != [] {
      LEofUnLE(bs[1..]);
      assert UnLE(bs) % 256 == bs[0] && UnLE(bs) / 256 == UnLE(bs[1..]);
      assert bs == [bs[0]] + bs[1..];
    }
  }

  lemma {:induction false} UnLESnoc(bs: seq<Byte>, b: Byte)
    ensures UnLE(bs + [b]) == UnLE(bs) + b * Pow256(|bs|)
  {
    if bs == [] {
      assert [b][1..] == [];
      assert UnLE([b][1..]) == 0;
      assert bs + [b] == [b];
    } else {
      UnLESnoc(bs[1..], b);
      assert (bs + [b])[1..] == bs[1..] + [b];
      MulThrough(b, Pow256(|bs| - 1));
    }
  }

  /** Byte k of the little-endian form is digit k in base 256. */
  lemma {:induction false} LEDigit(n: nat, v: nat, k: nat)
    requires k < n
    ensures LE(n, v)[k] == v / Pow256(k) % 256
  {
    hide LE, Pow256;
    if k > 0 {
      LEDigit(n - 1, v / 256, k - 1);
      DivDiv(v, Pow256(k - 1));
      LETail(n, v, k);
    } else {
      LEHead(n, v);
    }
  }

  lemma LEHead(n: nat, v: nat)
    requires n > 0
    ensures LE(n, v)[0] == v % 256 && Pow256(0) == 1
  {
  }

  lemma LETail(n: nat, v: nat, k: nat)
    requires 0 < k < n
    ensures LE(n, v)[k] == LE(n - 1, v / 256)[k - 1] && Pow256(k) == 256 * Pow256(k - 1)
  {
  }

  lemma DivDiv(v: nat, p: nat)
    requires p > 0
    ensures (v / 256) / p == v / (256 * p)
  {
    var a, b := v / 256, (v / 256) / p;
    var r := a % p;
    assert a == b * p + r;
    assert v == 256 * (b * p + r) + v % 256;
    assert 256 * (b * p) == b * (256 * p);
    QuotientIs(v, 256 * p, b, 256 * r + v % 256);
  }

  lemma QuotientIs(v: int, m: int, b: int, r: int)
    requires m > 0 && v == b * m + r && 0 <= r < m
    ensures v / m == b
  {
    var d := v / m - b;
    assert (v / m) * m + v % m == v;
    assert d * m == (v / m) * m - b * m;
    assert d >= 1 ==> d * m >= m;
    assert d <= -1 ==> d * m <= -m;
  }

  lemma MulThrough(b: int, p: int)
    ensures 256 * (b * p) == b * (256 * p)
  {
  }

  lemma Pow256Values()
    ensures Pow256(1) == 0x100 && Pow256(2) == 0x1_0000 && Pow256(4) == 0x1_0000_0000
    ensures Pow256(8) == 0x1_0000_0000_0000_0000
  {
    assert Pow256(3) == 0x100_0000;
    assert Pow256(5) == 256 * Pow256(4);
    assert Pow256(6) == 256 * Pow256(5);
    assert Pow256(7) == 256 * Pow256(6);
  }

  /** A signed 32-bit integer as its two's-complement word. */
  function Word(x: I32): (w: U32)
    ensures w % 0x1_0000_0000 == x % 0x1_0000_0000
  {
    if x < 0 then x + 0x1_0000_0000 else x
  }

  function Signed(w: U32): (x: I32)
    ensures Word(x) == w
  {
    if w >= 0x8000_0000 then w - 0x1_0000_0000 else w
  }

  // ---------------------------------------------------------------- reading at an offset

  /** bs stands in data at an offset. */
  ghost predicate At(data: seq<Byte>, off: nat, bs: seq<Byte>)
  {
    off + |bs| <= |data| && data[off..off + |bs|] == bs
  }

  lemma AtSplit(data: seq<Byte>, off: nat, a: seq<Byte>, b: seq<Byte>)
    ensures At(data, off, a + b) <==> At(data, off, a) && At(data, off + |a|, b)
  {
    if At(data, off, a + b) {
      assert a == (a + b)[..|a|] && b == (a + b)[|a|..];
      assert data[off..off + |a|] == data[off..off + |a + b|][..|a|];
      assert data[off + |a|..off + |a| + |b|] == data[off..off + |a + b|][|a|..];
    }
    if At(data, off, a) && At(data, off + |a|, b) {
      assert data[off..off + |a + b|] == data[off..off + |a|] + data[off + |a|..off + |a| + |b|];
    }
  }

  /** `take`. */
  function Take(data: seq<Byte>, off: nat, n: nat): (r: Read<seq<Byte>>)
    ensures r.Ok? ==> |r.value.0| == n && r.value.1 == off + n && At(data, off, r.value.0)
  {
    if off + n > USIZE_MAX then Err(OutOfRange)
    else if off + n > |data| then Err(Truncated)
    else Ok((data[off..off + n], off + n))
  }

  /** An n-byte little-endian integer. */
  function ReadLE(data: seq<Byte>, off: nat, n: nat): (r: Read<nat>)
    ensures r.Ok? ==> r.value.1 == off + n && r.value.0 < Pow256(n)
  {
    match Take(data, off, n)
    case Err(e) => Err(e)
    case Ok(t) => Ok((UnLE(t.0), t.1))
  }

  lemma ReadLEAt(data: seq<Byte>, off: nat, n: nat, v: nat)
    requires v < Pow256(n) && At(data, off, LE(n, v)) && |data| <= USIZE_MAX
    ensures ReadLE(data, off, n) == Ok((v, off + n))
  {
    UnLEofLE(n, v);
  }

  /** What was read is what stands there. */
  lemma ReadLEBack(data: seq<Byte>, off: nat, n: nat)
    requires ReadLE(data, off, n).Ok?
    ensures At(data, off, LE(n, ReadLE(data, off, n).value.0))
  {
    LEofUnLE(data[off..off + n]);
  }

  // ------------------------------------------------------------------------ CompactSize

  /** `write_varint`. */
  function WriteVarint(v: U64): seq<Byte>
  {
    if v < 0xFD then [v]
    else if v <= 0xFFFF then [0xFD] + LE(2, v)
    else if v <= 0xFFFF_FFFF then [0xFE] + LE(4, v)
    else [0xFF] + LE(8, v)
  }

  /** The bytes after a first byte of the varint. */
  function VarintTail(first: Byte): nat
  {
    if first == 0xFF then 8 else if first == 0xFE then 4 else if first == 0xFD then 2 else 0
  }

  /** `varint`. */
  function ReadVarint(data: seq<Byte>, off: nat): (r: Read<nat>)
    ensures r.Ok? ==> r.value.0 <= U64_MAX && off < r.value.1 <= |data|
  {
    match Take(data, off, 1)
    case Err(e) => Err(e)
    case Ok(t) =>
      var first := t.0[0];
      if VarintTail(first) == 0 then Ok((first, off + 1))
      else
        Pow256Values();
        assert Pow256(VarintTail(first)) <= Pow256(8);
        ReadLE(data, off + 1, VarintTail(first))
  }

  /** The encoding standing at an offset is the shortest for its value. */
  predicate MinimalAt(data: seq<Byte>, off: nat)
    requires ReadVarint(data, off).Ok?
  {
    var v := ReadVarint(data, off).value.0;
    data[off] == if v < 0xFD then v else if v <= 0xFFFF then 0xFD else if v <= 0xFFFF_FFFF then 0xFE else 0xFF
  }

  lemma VarintRoundTrip(data: seq<Byte>, off: nat, v: U64)
    requires At(data, off, WriteVarint(v)) && |data| <= USIZE_MAX
    ensures ReadVarint(data, off) == Ok((v, off + |WriteVarint(v)|)) && MinimalAt(data, off)
  {
    hide LE, UnLE, Pow256;
    var w := WriteVarint(v);
    assert data[off] == w[0] by { assert data[off..off + |w|][0] == w[0]; }
    Pow256Values();
    var n := VarintTail(w[0]);
    if n > 0 {
      assert w == [w[0]] + LE(n, v);
      AtSplit(data, off, [w[0]], LE(n, v));
      ReadLEAt(data, off + 1, n, v);
    }
  }

  /** A written varint, byte by byte. */
  lemma VarintBytesAre(v: U64)
    ensures |WriteVarint(v)| == if v < 0xFD then 1 else if v <= 0xFFFF then 3 else if v <= 0xFFFF_FFFF then 5 else 9
    ensures WriteVarint(v)[0] == if v < 0xFD then v else if v <= 0xFFFF then 0xFD else if v <= 0xFFFF_FFFF then 0xFE else 0xFF
    ensures forall k :: 1 <= k < |WriteVarint(v)| ==> WriteVarint(v)[k] == v / Pow256(k - 1) % 256
  {
    hide LE, Pow256;
    var w := WriteVarint(v);
    forall k | 1 <= k < |w|
      ensures w[k] == v / Pow256(k - 1) % 256
    {
      LEDigit(|w| - 1, v, k - 1);
      assert w[k] == w[1..][k - 1];
    }
  }

  /** Rewriting a varint never lengthens it, and gives it back exactly when it was minimal. */
  lemma VarintShrinks(data: seq<Byte>, off: nat)
    requires ReadVarint(data, off).Ok?
    ensures var (v, off') := ReadVarint(data, off).value;
            && (MinimalAt(data, off) ==> off' == off + |WriteVarint(v)| && At(data, off, WriteVarint(v)))
            && (!MinimalAt(data, off) ==> off + |WriteVarint(v)| < off')
  {
    hide LE, UnLE, Pow256;
    Pow256Values();
    var (v, off') := ReadVarint(data, off).value;
    var first := data[off];
    var n := VarintTail(first);
    if n > 0 {
      ReadLEBack(data, off + 1, n);
      AtSplit(data, off, [first], LE(n, v));
    }
    assert At(data, off, [first]);
  }

  /** A form of v, the shortest or not. */
  ghost predicate VarintForm(bs: seq<Byte>, v: nat)
  {
    || (v < 0xFD && bs == [v])
    || (v <= 0xFFFF && bs == [0xFD] + LE(2, v))
    || (v <= 0xFFFF_FFFF && bs == [0xFE] + LE(4, v))
    || (v <= U64_MAX && bs == [0xFF] + LE(8, v))
  }

  /** The reader takes every form of every value, nothing else, and stops right behind it. */
  lemma VarintReadsIff(data: seq<Byte>, off: nat, v: nat, end: nat)
    requires |data| <= USIZE_MAX
    ensures ReadVarint(data, off) == Ok((v, end)) <==> off <= end <= |data| && VarintForm(data[off..end], v)
  {
    hide LE, UnLE, Pow256;
    Pow256Values();
    if off < |data| && VarintTail(data[off]) > 0 {
      var first, n := data[off], VarintTail(data[off]);
      LEReadsIff(data, off + 1, n, v, end);
      AtSplit(data, off, [first], LE(n, v));
      assert At(data, off, [first]);
    }
    if off <= end <= |data| && VarintForm(data[off..end], v) {
      assert data[off] == data[off..end][0];
    }
  }

  lemma LEReadsIff(data: seq<Byte>, off: nat, n: nat, v: nat, end: nat)
    requires |data| <= USIZE_MAX
    ensures ReadLE(data, off, n) == Ok((v, end)) <==> end == off + n && v < Pow256(n) && At(data, off, LE(n, v))
  {
    hide LE, UnLE, Pow256;
    if ReadLE(data, off, n).Ok? {
      ReadLEBack(data, off, n);
    }
    if v < Pow256(n) && At(data, off, LE(n, v)) {
      ReadLEAt(data, off, n, v);
    }
  }

  // ------------------------------------------------------------------------- the cursor

  class Cursor {
    const data: seq<Byte>
    var off: nat

    ghost predicate Valid()
      reads this
    {
      off <= |data| <= USIZE_MAX
    }

    constructor (data: seq<Byte>)
      requires |data| <= USIZE_MAX
      ensures Valid() && this.data == data && off == 0
    {
      this.data := data;
      off := 0;
    }

    method TakeBytes(n: nat) returns (result: Result<seq<Byte>, BsvError>)
      requires Valid()
      modifies this
      ensures Valid()
      ensures match Take(data, old(off), n)
              case Err(e) => result == Err(e) && off == old(off)
              case Ok(t) => result == Ok(t.0) && off == t.1
    {
      var end := off + n;
      if end > USIZE_MAX {
        return Err(OutOfRange);
      }
      if end > |data| {
        return Err(Truncated);
      }
      var slice := data[off..end];
      off := end;
      return Ok(slice);
    }

    /** `uint` and the fixed-width reads. */
    method Uint(n: nat) returns (result: Result<nat, BsvError>)
      requires Valid()
      modifies this
      ensures Valid()
      ensures match ReadLE(data, old(off), n)
              case Err(e) => result == Err(e)
              case Ok(t) => result == Ok(t.0) && off == t.1
    {
      var taken := TakeBytes(n);
      if taken.Err? {
        return Err(taken.error);
      }
      var value := SumLE(taken.value);
      return Ok(value);
    }

    /** Adding up shifted bytes. */
    static method SumLE(bytes: seq<Byte>) returns (value: nat)
      ensures value == UnLE(bytes)
    {
      value := 0;
      var scale: nat := 1;
      for i := 0 to |bytes|
        invariant value == UnLE(bytes[..i]) && scale == Pow256(i)
      {
        UnLESnoc(bytes[..i], bytes[i]);
        assert bytes[..i + 1] == bytes[..i] + [bytes[i]];
        value := value + bytes[i] * scale;
        scale := 256 * scale;
      }
      assert bytes[..|bytes|] == bytes;
    }

    method Varint() returns (result: Result<nat, BsvError>)
      requires Valid()
      modifies this
      ensures Valid()
      ensures match ReadVarint(data, old(off))
              case Err(e) => result == Err(e)
              case Ok(t) => result == Ok(t.0) && off == t.1
    {
      var first := TakeBytes(1);
      if first.Err? {
        return Err(first.error);
      }
      var b: Byte := first.value[0];
      var value: nat := b;
      if VarintTail(b) == 0 {
        return Ok(value);
      }
      result := Uint(VarintTail(b));
    }

    /** `varint_bytes`. */
    method VarintBytes() returns (result: Result<seq<Byte>, BsvError>)
      requires Valid()
      modifies this
      ensures Valid()
      ensures match ReadVarintBytes(data, old(off))
              case Err(e) => result == Err(e)
              case Ok(t) => result == Ok(t.0) && off == t.1
    {
      var len := Varint();
      if len.Err? {
        return Err(len.error);
      }
      result := TakeBytes(len.value);
    }
  }

  function ReadVarintBytes(data: seq<Byte>, off: nat): (r: Read<seq<Byte>>)
    ensures r.Ok? ==> |r.value.0| <= U64_MAX && off < r.value.1 <= |data|
  {
    match ReadVarint(data, off)
    case Err(e) => Err(e)
    case Ok(n) => Take(data, n.1, n.0)
  }

  /** A length-prefixed run. */
  function WriteVarintBytes(bs: seq<Byte>): seq<Byte>
    requires |bs| <= U64_MAX
  {
    WriteVarint(|bs|) + bs
  }

  lemma RunRoundTrip(data: seq<Byte>, off: nat, bs: seq<Byte>)
    requires |bs| <= U64_MAX && At(data, off, WriteVarintBytes(bs)) && |data| <= USIZE_MAX
    ensures ReadVarintBytes(data, off) == Ok((bs, off + |WriteVarintBytes(bs)|)) && MinimalAt(data, off)
  {
    hide WriteVarint, ReadVarint, MinimalAt;
    AtSplit(data, off, WriteVarint(|bs|), bs);
    VarintRoundTrip(data, off, |bs|);
  }

  lemma RunShrinks(data: seq<Byte>, off: nat)
    requires ReadVarintBytes(data, off).Ok?
    ensures var (bs, off') := ReadVarintBytes(data, off).value;
            && (MinimalAt(data, off) ==> off' == off + |WriteVarintBytes(bs)| && At(data, off, WriteVarintBytes(bs)))
            && (!MinimalAt(data, off) ==> off + |WriteVarintBytes(bs)| < off')
  {
    hide WriteVarint, MinimalAt;
    var (bs, off') := ReadVarintBytes(data, off).value;
    VarintShrinks(data, off);
    AtSplit(data, off, WriteVarint(|bs|), bs);
  }
}
