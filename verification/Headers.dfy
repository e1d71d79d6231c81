/** Block headers and the proof-of-work target (crates/bsv/src/header.rs). */
module Headers {
  import opened Wrappers
  import opened Bytes
  import opened Transactions
  import opened Sighash
  import NumberTheory

  const HEADER_LEN: nat := 80

  datatype BlockHeader = BlockHeader(
    version: I32, prevBlockHash: Hash256, merkleRoot: Hash256, time: U32, bits: U32, nonce: U32)

  // -------------------------------------------------------------------------- encoding

  function WriteHeader(h: BlockHeader): (r: seq<Byte>)
    ensures |r| == HEADER_LEN
  {
    LE(4, Word(h.version)) + h.prevBlockHash + h.merkleRoot + LE(4, h.time) + LE(4, h.bits) + LE(4, h.nonce)
  }

  /** `parse`. */
  function ReadHeader(raw: seq<Byte>): Result<BlockHeader, BsvError>
  {
    if |raw| != HEADER_LEN then Err(Length)
    else
      Pow256Values();
      Ok(BlockHeader(Signed(UnLE(raw[0..4])), raw[4..36], raw[36..68], UnLE(raw[68..72]), UnLE(raw[72..76]), UnLE(raw[76..80])))
  }

  lemma SliceAt(raw: seq<Byte>, off: nat, field: seq<Byte>)
    requires At(raw, off, field)
    ensures off + |field| <= |raw| && raw[off..off + |field|] == field
  {
  }

  /** The six fields stand at their offsets. */
  lemma FieldsAt(h: BlockHeader)
    ensures var raw := WriteHeader(h);
            && At(raw, 0, LE(4, Word(h.version))) && At(raw, 4, h.prevBlockHash) && At(raw, 36, h.merkleRoot)
            && At(raw, 68, LE(4, h.time)) && At(raw, 72, LE(4, h.bits)) && At(raw, 76, LE(4, h.nonce))
  {
    hide LE, At;
    var b: seq<Byte>, c: seq<Byte> := h.prevBlockHash, h.merkleRoot;
    var a, d, e, f := LE(4, Word(h.version)), LE(4, h.time), LE(4, h.bits), LE(4, h.nonce);
    var raw := a + b + c + d + e + f;
    WholeStands(raw);
    AtSplit(raw, 0, a + b + c + d + e, f);
    AtSplit(raw, 0, a + b + c + d, e);
    AtSplit(raw, 0, a + b + c, d);
    AtSplit(raw, 0, a + b, c);
    AtSplit(raw, 0, a, b);
  }

  lemma HeaderRoundTrip(h: BlockHeader)
    ensures ReadHeader(WriteHeader(h)) == Ok(h)
  {
    hide LE, UnLE, Pow256, At, WriteHeader;
    Pow256Values();
    var raw := WriteHeader(h);
    FieldsAt(h);
    SliceAt(raw, 0, LE(4, Word(h.version)));
    SliceAt(raw, 4, h.prevBlockHash);
    SliceAt(raw, 36, h.merkleRoot);
    SliceAt(raw, 68, LE(4, h.time));
    SliceAt(raw, 72, LE(4, h.bits));
    SliceAt(raw, 76, LE(4, h.nonce));
    UnLEofLE(4, Word(h.version));
    UnLEofLE(4, h.time);
    UnLEofLE(4, h.bits);
    UnLEofLE(4, h.nonce);
  }

  lemma RawRoundTrip(raw: seq<Byte>)
    requires |raw| == HEADER_LEN
    ensures ReadHeader(raw).Ok? && WriteHeader(ReadHeader(raw).value) == raw
  {
    hide LE, UnLE, Pow256;
    LEofUnLE(raw[0..4]);
    LEofUnLE(raw[68..72]);
    LEofUnLE(raw[72..76]);
    LEofUnLE(raw[76..80]);
    assert raw == raw[0..4] + raw[4..36] + raw[36..68] + raw[68..72] + raw[72..76] + raw[76..80];
  }

  /** `write_at`. */
  method WriteAt(out: array<Byte>, off: nat, src: seq<Byte>)
    modifies out
    ensures off + |src| <= USIZE_MAX && off + |src| <= out.Length ==>
              out[..off + |src|] == old(out[..off]) + src && out[off + |src|..] == old(out[off + |src|..])
    ensures off + |src| > USIZE_MAX || off + |src| > out.Length ==> out[..] == old(out[..])
  {
    if off + |src| > USIZE_MAX || off + |src| > out.Length {
      return;
    }
    forall i | 0 <= i < |src| {
      out[off + i] := src[i];
    }
  }

  lemma HeaderFields(h: BlockHeader)
    ensures WriteHeader(h) ==
            [] + LE(4, Word(h.version)) + h.prevBlockHash + h.merkleRoot + LE(4, h.time) + LE(4, h.bits) + LE(4, h.nonce)
  {
    hide LE;
    assert [] + LE(4, Word(h.version)) == LE(4, Word(h.version));
  }

  /** `serialize`, into a fixed buffer. */
  method SerializeHeader(h: BlockHeader) returns (out: array<Byte>)
    ensures fresh(out) && out.Length == HEADER_LEN && out[..] == WriteHeader(h)
  {
    hide LE, WriteHeader;
    out := new Byte[HEADER_LEN](_ => 0);
    assert out[..0] == [];
    WriteAt(out, 0, LE(4, Word(h.version)));
    WriteAt(out, 4, h.prevBlockHash);
    WriteAt(out, 36, h.merkleRoot);
    WriteAt(out, 68, LE(4, h.time));
    WriteAt(out, 72, LE(4, h.bits));
    WriteAt(out, 76, LE(4, h.nonce));
    HeaderFields(h);
    assert out[..80] == out[..];
  }

  function BlockHash(hash: Hasher, h: BlockHeader): Hash256
  {
    hash(WriteHeader(h))
  }

  // ------------------------------------------------------------------ big-endian numbers

  function BigEndian(s: seq<Byte>): nat
  {
    if s == [] then 0 else 256 * BigEndian(s[..|s| - 1]) + s[|s| - 1]
  }

  function Reverse(s: seq<Byte>): (r: seq<Byte>)
    ensures |r| == |s|
  {
    if s == [] then [] else Reverse(s[1..]) + [s[0]]
  }

  lemma {:induction false} ReverseValue(s: seq<Byte>)
    ensures BigEndian(Reverse(s)) == UnLE(s)
  {
    if s != [] {
      ReverseValue(s[1..]);
      assert Reverse(s)[..|s| - 1] == Reverse(s[1..]);
    }
  }

  /** The order Rust gives byte arrays. */
  predicate LexLe(a: seq<Byte>, b: seq<Byte>)
    requires |a| == |b|
  {
    a == [] || a[0] < b[0] || (a[0] == b[0] && LexLe(a[1..], b[1..]))
  }

  lemma {:induction false} BigEndianFront(s: seq<Byte>)
    requires s != []
    ensures BigEndian(s) == s[0] * Pow256(|s| - 1) + BigEndian(s[1..])
    ensures BigEndian(s[1..]) < Pow256(|s| - 1)
  {
    var n := |s| - 1;
    if n == 0 {
      assert s[..0] == [] && s[1..] == [];
    } else {
      BigEndianFront(s[..n]);
      assert s[..n][1..] == s[1..][..n - 1];
      assert s[1..][n - 1] == s[n];
      MulThrough(s[0], Pow256(n - 1));
    }
  }

  lemma {:induction false} LexIsNumeric(a: seq<Byte>, b: seq<Byte>)
    requires |a| == |b|
    ensures LexLe(a, b) <==> BigEndian(a) <= BigEndian(b)
  {
    if a != [] {
      BigEndianFront(a);
      BigEndianFront(b);
      LexIsNumeric(a[1..], b[1..]);
      LeadDecides(a[0], b[0], BigEndian(a[1..]), BigEndian(b[1..]), Pow256(|a| - 1));
    }
  }

  lemma LeadDecides(x: int, y: int, r: int, s: int, p: int)
    requires 0 <= r < p && 0 <= s < p
    ensures x < y ==> x * p + r < y * p + s
    ensures y < x ==> y * p + s < x * p + r
  {
    NumberTheory.Distribute(x, 1, p);
    NumberTheory.Distribute(y, 1, p);
    if x < y {
      NumberTheory.MulMono(x + 1, y, p);
    } else if y < x {
      NumberTheory.MulMono(y + 1, x, p);
    }
  }

  // ------------------------------------------------------------------------- the target

  function Exponent(bits: U32): (e: nat)
    ensures e < 256
  {
    bits / 0x100_0000
  }

  function Mantissa(bits: U32): (m: nat)
    ensures m < 0x80_0000
  {
    bits % 0x80_0000
  }

  /** The compact form: an exponent byte, an ignored sign bit, and 23 bits of mantissa. */
  function Bits(e: nat, sign: nat, m: nat): nat
  {
    e * 0x100_0000 + sign * 0x80_0000 + m
  }

  /** Every compact form is one of these, and is taken apart as it was put together. */
  lemma BitsTakenApart(bits: U32, e: nat, sign: nat, m: nat)
    requires e < 256 && m < 0x80_0000 && sign < 2
    ensures bits == Bits(e, sign, m) ==> Exponent(bits) == e && Mantissa(bits) == m
    ensures Bits(Exponent(bits), bits / 0x80_0000 % 2, Mantissa(bits)) == bits
  {
  }

  /** floor(m * 256^(e - 3)). */
  function Floor256(m: nat, e: nat): int
  {
    if e >= 3 then m * Pow256(e - 3) else m / Pow256(3 - e)
  }

  /** The target the compact form stands for, on n bytes. */
  function TargetValue(m: nat, e: nat, n: nat): nat
  {
    Floor256(m, e) % Pow256(n)
  }

  /** Its little-endian bytes as the code places them. */
  function TargetByte(m: nat, e: nat, p: nat): Byte
  {
    if p + 3 == e then m % 256 else if p + 2 == e then m / 256 % 256 else if p + 1 == e then m / 0x1_0000 % 256 else 0
  }

  function TargetBytes(m: nat, e: nat, n: nat): (r: seq<Byte>)
    ensures |r| == n
  {
    seq(n, p requires 0 <= p < n => TargetByte(m, e, p))
  }

  lemma {:induction false} ZerosValue(s: seq<Byte>)
    requires forall i :: 0 <= i < |s| ==> s[i] == 0
    ensures UnLE(s) == 0
  {
    if s != [] {
      ZerosValue(s[1..]);
    }
  }

  /** Three leading bytes and zeros. */
  lemma SmallValue(s: seq<Byte>)
    requires |s| >= 3 && forall i :: 3 <= i < |s| ==> s[i] == 0
    ensures UnLE(s) == (s[0] as int) + 256 * (s[1] as int) + 0x1_0000 * (s[2] as int)
  {
    var a, b, c := s[1..], s[1..][1..], s[1..][1..][1..];
    assert forall i :: 0 <= i < |c| ==> c[i] == s[i + 3];
    ZerosValue(c);
    assert UnLE(b) == b[0] + 256 * UnLE(c);
    assert UnLE(a) == a[0] + 256 * UnLE(b);
  }

  lemma ScaleMod(x: nat, p: nat)
    requires p > 0
    ensures 256 * (x % p) == (256 * x) % (256 * p)
  {
    var q, r := x / p, x % p;
    NumberTheory.MulAssoc(q, 256, p);
    NumberTheory.MulComm(q, 256);
    NumberTheory.MulAssoc(256, q, p);
    NumberTheory.DivModUnique(256 * x, 256 * p, q, 256 * r);
  }

  /** Below 256^3 with at least three bytes, or an exponent too small to shift up. */
  lemma SmallTarget(m: nat, e: nat, n: nat)
    requires m < 0x100_0000 && e <= 3 && n >= 3
    ensures UnLE(TargetBytes(m, e, n)) == TargetValue(m, e, n)
  {
    hide Pow256, UnLE;
    SmallBytes(m, e, n);
    BigEnough(n);
    SmallShift(m, e);
    var v := if e >= 3 then m * Pow256(e - 3) else m / Pow256(3 - e);
    NumberTheory.DivModUnique(v, Pow256(n), 0, v);
  }

  lemma SmallBytes(m: nat, e: nat, n: nat)
    requires m < 0x100_0000 && e <= 3 && n >= 3
    ensures UnLE(TargetBytes(m, e, n)) == if e == 0 then 0 else if e == 1 then m / 0x1_0000 else if e == 2 then m / 256 else m
  {
    hide Pow256, UnLE;
    var s := TargetBytes(m, e, n);
    SmallValue(s);
    Digits(m);
    assert s[0] == TargetByte(m, e, 0) && s[1] == TargetByte(m, e, 1) && s[2] == TargetByte(m, e, 2);
  }

  lemma Digits(m: nat)
    requires m < 0x100_0000
    ensures m == m % 256 + 256 * (m / 256 % 256) + 0x1_0000 * (m / 0x1_0000 % 256)
    ensures m / 256 == m / 256 % 256 + 256 * (m / 0x1_0000 % 256)
    ensures m / 0x1_0000 == m / 0x1_0000 % 256
  {
  }

  lemma SmallShift(m: nat, e: nat)
    requires m < 0x100_0000 && e <= 3
    ensures (if e >= 3 then m * Pow256(e - 3) else m / Pow256(3 - e)) ==
            if e == 0 then 0 else if e == 1 then m / 0x1_0000 else if e == 2 then m / 256 else m
  {
    Pow256Values();
    assert Pow256(0) == 1 && Pow256(3) == 0x100_0000;
  }

  lemma {:induction false} BigEnough(n: nat)
    requires n >= 3
    ensures Pow256(n) >= 0x100_0000
  {
    if n > 3 {
      BigEnough(n - 1);
    } else {
      Pow256Values();
      assert Pow256(3) == 0x100_0000;
    }
  }

  /** Fewer than three bytes keep the low ones. */
  lemma NarrowTarget(m: nat, n: nat)
    requires m < 0x100_0000 && n < 3
    ensures UnLE(TargetBytes(m, 3, n)) == TargetValue(m, 3, n)
  {
    hide UnLE, Pow256;
    NarrowBytes(m, n);
    SmallShift(m, 3);
    NarrowPowers();
    assert n == 2 ==> m % 0x1_0000 == m % 256 + 256 * (m / 256 % 256);
  }

  lemma NarrowPowers()
    ensures Pow256(0) == 1 && Pow256(1) == 256 && Pow256(2) == 0x1_0000
  {
  }

  lemma NarrowBytes(m: nat, n: nat)
    requires n < 3
    ensures UnLE(TargetBytes(m, 3, n)) == if n == 0 then 0 else if n == 1 then m % 256 else m % 256 + 256 * (m / 256 % 256)
  {
    var s := TargetBytes(m, 3, n);
    if n == 1 {
      assert s[1..] == [];
    } else if n == 2 {
      assert s[1..][1..] == [];
      assert UnLE(s[1..]) == s[1..][0] + 256 * UnLE(s[1..][1..]);
    }
  }

  /** The bytes placed are floor(m * 256^(e - 3)) modulo 256^n. */
  lemma {:induction false} TargetBytesValue(m: nat, e: nat, n: nat)
    requires m < 0x100_0000 && (e < 3 ==> n >= 3)
    ensures UnLE(TargetBytes(m, e, n)) == TargetValue(m, e, n)
    decreases e
  {
    if e <= 3 && n >= 3 {
      SmallTarget(m, e, n);
    } else if e == 3 {
      NarrowTarget(m, n);
    } else if n == 0 {
      assert Pow256(0) == 1;
    } else {
      TargetBytesValue(m, e - 1, n - 1);
      var s := TargetBytes(m, e, n);
      assert s[1..] == TargetBytes(m, e - 1, n - 1);
      MulThrough(m, Pow256(e - 4));
      ScaleMod(m * Pow256(e - 4), Pow256(n - 1));
    }
  }

  /** `target_from_bits`: three mantissa bytes written into a zeroed big-endian buffer. */
  method TargetFromBits(bits: U32) returns (be: array<Byte>)
    ensures fresh(be) && be.Length == 32
    ensures forall e: nat, m: nat, sign: nat {:trigger Floor256(m, e), Bits(e, sign, m)} ::
              e < 256 && m < 0x80_0000 && sign < 2 && bits == Bits(e, sign, m) ==>
                BigEndian(be[..]) == Floor256(m, e) % Pow256(32)
    ensures Reverse(TargetBytes(Mantissa(bits), Exponent(bits), 32)) == be[..]
    ensures BigEndian(be[..]) == TargetValue(Mantissa(bits), Exponent(bits), 32)
  {
    hide LE, UnLE, Pow256, BigEndian, TargetValue;
    var exponent, mantissa := Exponent(bits), Mantissa(bits);
    var m: seq<Byte> := [mantissa / 0x1_0000 % 256, mantissa / 256 % 256, mantissa % 256];
    be := new Byte[32](_ => 0);
    var shift: int := exponent;
    var base := 32 - shift;
    for k := 0 to 3
      invariant be.Length == 32
      invariant forall i :: 0 <= i < 32 ==> be[i] == if base <= i < base + k then m[i - base] else 0
    {
      var idx := base + k;
      if 0 <= idx < 32 {
        be[idx] := m[k];
      }
    }
    var le := TargetBytes(mantissa, exponent, 32);
    forall i | 0 <= i < 32
      ensures be[i] == Reverse(le)[i]
    {
      ReverseAt(le, i);
    }
    assert be[..] == Reverse(le);
    ReverseValue(le);
    TargetBytesValue(mantissa, exponent, 32);
    TargetIsFloor(mantissa, exponent, 32);
    forall e: nat, m: nat, sign: nat {:trigger Floor256(m, e), Bits(e, sign, m)} |
      e < 256 && m < 0x80_0000 && sign < 2 && bits == Bits(e, sign, m)
      ensures BigEndian(be[..]) == Floor256(m, e) % Pow256(32)
    {
      BitsTakenApart(bits, e, sign, m);
    }
  }

  lemma TargetIsFloor(m: nat, e: nat, n: nat)
    ensures TargetValue(m, e, n) == Floor256(m, e) % Pow256(n)
  {
  }

  lemma {:induction false} ReverseAt(s: seq<Byte>, i: nat)
    requires i < |s|
    ensures Reverse(s)[i] == s[|s| - 1 - i]
  {
    if i < |s| - 1 {
      ReverseAt(s[1..], i);
    }
  }

  /** The block hash, read as a little-endian integer, is at most the target. */
  predicate MeetsTarget(hash: Hasher, h: BlockHeader)
  {
    UnLE(BlockHash(hash, h)) <= TargetValue(Mantissa(h.bits), Exponent(h.bits), 32)
  }

  /** `meets_target`: reverse the hash and compare arrays. */
  method CheckTarget(hash: Hasher, h: BlockHeader) returns (ok: bool)
    ensures ok == MeetsTarget(hash, h)
    ensures forall e: nat, m: nat, sign: nat {:trigger Floor256(m, e), Bits(e, sign, m)} ::
              e < 256 && m < 0x80_0000 && sign < 2 && h.bits == Bits(e, sign, m) ==>
                (ok <==> UnLE(hash(WriteHeader(h))) <= Floor256(m, e) % Pow256(32))
  {
    hide Floor256, Pow256, Bits;
    var target := TargetFromBits(h.bits);
    var raw := SerializeHeader(h);
    var hashBe := Reverse(hash(raw[..]));
    ok := LexLe(hashBe, target[..]);
    LexIsNumeric(hashBe, target[..]);
    ReverseValue(BlockHash(hash, h));
  }
}
