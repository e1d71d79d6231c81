/** Script assembly and parsing, and the data carrier (crates/bsv/src/script.rs, datacarrier.rs). */
module Scripts {
  import opened Wrappers
  import opened Bytes
  import opened Transactions

  const FALSE: Byte := 0x00
  const PUSHDATA1: Byte := 0x4c
  const PUSHDATA2: Byte := 0x4d
  const PUSHDATA4: Byte := 0x4e
  const RETURN: Byte := 0x6a
  const DUP: Byte := 0x76
  const EQUALVERIFY: Byte := 0x88
  const HASH160: Byte := 0xa9
  const CHECKSIG: Byte := 0xac
  const CHECKMULTISIG: Byte := 0xae
  const N1: Byte := 0x51
  const N2: Byte := 0x52

  const MAX_SCRIPT_OPS: nat := 10_000_000

  datatype ScriptOp = Op(code: Byte) | Push(data: seq<Byte>)

  // --------------------------------------------------------------------------- writing

  /** The header of a push; a length that does not fit in four bytes is written as zero. */
  function PushHeader(len: nat): seq<Byte>
  {
    if len <= 75 then [len]
    else if len <= 0xFF then [PUSHDATA1, len]
    else if len <= 0xFFFF then [PUSHDATA2] + LE(2, len)
    else [PUSHDATA4] + LE(4, if len <= 0xFFFF_FFFF then len else 0)
  }

  /** `push_data`. */
  function PushData(data: seq<Byte>): seq<Byte>
  {
    PushHeader(|data|) + data
  }

  function Encode(op: ScriptOp): seq<Byte>
  {
    match op
    case Op(code) => [code]
    case Push(data) => PushData(data)
  }

  function Assemble(ops: seq<ScriptOp>): seq<Byte>
  {
    if ops == [] then [] else Encode(ops[0]) + Assemble(ops[1..])
  }

  /** `p2pkh`. */
  function P2pkh(hash160: seq<Byte>): seq<Byte>
  {
    [DUP, HASH160] + PushData(hash160) + [EQUALVERIFY] + [CHECKSIG]
  }

  /** `bare_multisig_1_of_2`. */
  function BareMultisig(pkA: seq<Byte>, pkB: seq<Byte>): seq<Byte>
  {
    [N1] + PushData(pkA) + PushData(pkB) + [N2] + [CHECKMULTISIG]
  }

  // --------------------------------------------------------------------------- reading

  /** `push_n`. */
  function ReadPush(data: seq<Byte>, off: nat, width: nat): (r: Read<ScriptOp>)
    ensures r.Ok? ==> off + width <= r.value.1 <= |data|
  {
    match ReadLE(data, off, width)
    case Err(e) => Err(e)
    case Ok(len) =>
      match Take(data, len.1, len.0)
      case Err(e) => Err(e)
      case Ok(t) => Ok((Push(t.0), t.1))
  }

  /** One op. */
  function ReadOp(data: seq<Byte>, off: nat): (r: Read<ScriptOp>)
    ensures r.Ok? ==> off < r.value.1 <= |data|
  {
    match Take(data, off, 1)
    case Err(e) => Err(e)
    case Ok(t) =>
      var code := t.0[0];
      if 0x01 <= code <= 0x4b then
        match Take(data, off + 1, code)
        case Err(e) => Err(e)
        case Ok(u) => Ok((Push(u.0), u.1))
      else if code == PUSHDATA1 then ReadPush(data, off + 1, 1)
      else if code == PUSHDATA2 then ReadPush(data, off + 1, 2)
      else if code == PUSHDATA4 then ReadPush(data, off + 1, 4)
      else Ok((Op(code), off + 1))
  }

  function Prepend(ops: seq<ScriptOp>, rest: Result<seq<ScriptOp>, BsvError>): Result<seq<ScriptOp>, BsvError>
  {
    match rest
    case Err(e) => Err(e)
    case Ok(more) => Ok(ops + more)
  }

  /** The rest of a script, when some ops have already been read. */
  function ReadOps(data: seq<Byte>, off: nat, before: nat): Result<seq<ScriptOp>, BsvError>
    decreases |data| - off
  {
    if off >= |data| then Ok([])
    else if before >= MAX_SCRIPT_OPS then Err(OutOfRange)
    else
      match ReadOp(data, off)
      case Err(e) => Err(e)
      case Ok(t) => Prepend([t.0], ReadOps(data, t.1, before + 1))
  }

  // ------------------------------------------------------------------------ round trip

  /** What the assembler can be asked for: real opcodes and pushes whose length fits. */
  predicate Encodable(op: ScriptOp)
  {
    match op
    case Op(code) => !(0x01 <= code <= PUSHDATA4)
    case Push(data) => |data| <= 0xFFFF_FFFF
  }

  /** An empty push is written as, and read back as, OP_FALSE. */
  function Normal(op: ScriptOp): ScriptOp
  {
    if op == Push([]) then Op(FALSE) else op
  }

  function NormalOps(ops: seq<ScriptOp>): (r: seq<ScriptOp>)
    ensures |r| == |ops|
  {
    if ops == [] then [] else [Normal(ops[0])] + NormalOps(ops[1..])
  }

  lemma AtHead(data: seq<Byte>, off: nat, bs: seq<Byte>)
    requires At(data, off, bs) && bs != []
    ensures data[off] == bs[0]
  {
    assert data[off..off + |bs|][0] == bs[0];
  }

  /** A push with a length prefix of some width. */
  lemma LongPush(data: seq<Byte>, off: nat, width: nat, bs: seq<Byte>)
    requires |bs| < Pow256(width) && |data| <= USIZE_MAX
    requires At(data, off, LE(width, |bs|) + bs)
    ensures ReadPush(data, off, width) == Ok((Push(bs), off + width + |bs|))
  {
    hide LE, ReadLE, Pow256, At, Take;
    AtSplit(data, off, LE(width, |bs|), bs);
    ReadLEAt(data, off, width, |bs|);
    TakeAt(data, off + width, bs);
  }

  lemma TakeAt(data: seq<Byte>, off: nat, bs: seq<Byte>)
    requires At(data, off, bs) && |data| <= USIZE_MAX
    ensures Take(data, off, |bs|) == Ok((bs, off + |bs|))
  {
  }

  lemma WidePush(data: seq<Byte>, off: nat, code: Byte, width: nat, bs: seq<Byte>)
    requires (code, width) in {(PUSHDATA1, 1), (PUSHDATA2, 2), (PUSHDATA4, 4)}
    requires bs != [] && |bs| < Pow256(width) && |data| <= USIZE_MAX
    requires PushData(bs) == [code] + (LE(width, |bs|) + bs) && At(data, off, PushData(bs))
    ensures ReadOp(data, off) == Ok((Push(bs), off + |PushData(bs)|))
  {
    hide LE, Pow256, ReadPush, PushHeader;
    AtHead(data, off, PushData(bs));
    AtSplit(data, off, [code], LE(width, |bs|) + bs);
    LongPush(data, off + 1, width, bs);
  }

  lemma PushReads(data: seq<Byte>, off: nat, bs: seq<Byte>)
    requires |bs| <= 0xFFFF_FFFF && At(data, off, PushData(bs)) && |data| <= USIZE_MAX
    ensures ReadOp(data, off) == Ok((Normal(Push(bs)), off + |PushData(bs)|))
  {
    hide LE, Pow256, ReadPush, At;
    Pow256Values();
    var n := |bs|;
    if n <= 75 {
      ShortPush(data, off, bs);
    } else if n <= 0xFF {
      OneByte(n);
      assert PushData(bs) == [PUSHDATA1] + (LE(1, n) + bs);
      WidePush(data, off, PUSHDATA1, 1, bs);
    } else if n <= 0xFFFF {
      assert PushData(bs) == [PUSHDATA2] + (LE(2, n) + bs);
      WidePush(data, off, PUSHDATA2, 2, bs);
    } else {
      assert PushData(bs) == [PUSHDATA4] + (LE(4, n) + bs);
      WidePush(data, off, PUSHDATA4, 4, bs);
    }
  }

  lemma ShortPush(data: seq<Byte>, off: nat, bs: seq<Byte>)
    requires |bs| <= 75 && At(data, off, PushData(bs)) && |data| <= USIZE_MAX
    ensures ReadOp(data, off) == Ok((Normal(Push(bs)), off + |PushData(bs)|))
  {
    AtHead(data, off, PushData(bs));
    AtSplit(data, off, [|bs|], bs);
  }

  lemma OneByte(n: Byte)
    ensures LE(1, n) == [n]
  {
    assert LE(0, n / 256) == [];
  }

  lemma OpReads(data: seq<Byte>, off: nat, op: ScriptOp)
    requires Encodable(op) && At(data, off, Encode(op)) && |data| <= USIZE_MAX
    ensures ReadOp(data, off) == Ok((Normal(op), off + |Encode(op)|))
  {
    hide PushData;
    match op
    case Op(code) => AtHead(data, off, [code]);
    case Push(bs) => PushReads(data, off, bs);
  }

  /** Parsing what was assembled gives the ops back, unless there are too many. */
  lemma {:induction false} AssembledReads(data: seq<Byte>, off: nat, ops: seq<ScriptOp>, before: nat)
    requires At(data, off, Assemble(ops)) && off + |Assemble(ops)| == |data| <= USIZE_MAX
    requires forall i :: 0 <= i < |ops| ==> Encodable(ops[i])
    requires before <= MAX_SCRIPT_OPS
    ensures ReadOps(data, off, before) ==
            if before + |ops| <= MAX_SCRIPT_OPS then Ok(NormalOps(ops)) else Err(OutOfRange)
    decreases |ops|
  {
    hide Encode, ReadOp, Normal;
    if ops != [] {
      AtSplit(data, off, Encode(ops[0]), Assemble(ops[1..]));
      OpReads(data, off, ops[0]);
      EncodeSome(ops[0]);
      if before < MAX_SCRIPT_OPS {
        AssembledReads(data, off + |Encode(ops[0])|, ops[1..], before + 1);
      }
    }
  }

  lemma EncodeSome(op: ScriptOp)
    ensures |Encode(op)| > 0
  {
  }

  lemma AssembleThenParse(ops: seq<ScriptOp>)
    requires |Assemble(ops)| <= USIZE_MAX && forall i :: 0 <= i < |ops| ==> Encodable(ops[i])
    ensures ReadOps(Assemble(ops), 0, 0) ==
            if |ops| <= 10_000_000 then Ok(NormalOps(ops)) else Err(OutOfRange)
  {
    AssembledReads(Assemble(ops), 0, ops, 0);
  }

  lemma AssembleCons(op: ScriptOp, ops: seq<ScriptOp>)
    ensures Assemble([op] + ops) == Encode(op) + Assemble(ops)
    ensures NormalOps([op] + ops) == [Normal(op)] + NormalOps(ops)
  {
    assert ([op] + ops)[1..] == ops;
  }

  /** The pay-to-public-key-hash script reads as its five ops. */
  lemma P2pkhParses(hash160: seq<Byte>)
    requires |hash160| == 20
    ensures ReadOps(P2pkh(hash160), 0, 0) == Ok([Op(DUP), Op(HASH160), Push(hash160), Op(EQUALVERIFY), Op(CHECKSIG)])
  {
    hide Assemble, NormalOps, PushData;
    Assemble5(Op(DUP), Op(HASH160), Push(hash160), Op(EQUALVERIFY), Op(CHECKSIG));
    var ops := [Op(DUP), Op(HASH160), Push(hash160), Op(EQUALVERIFY), Op(CHECKSIG)];
    assert Assemble(ops) == P2pkh(hash160);
    PushSize(hash160);
    AssembleThenParse(ops);
  }

  lemma Assemble3(a: ScriptOp, b: ScriptOp, c: ScriptOp)
    ensures Assemble([a, b, c]) == Encode(a) + Encode(b) + Encode(c)
    ensures NormalOps([a, b, c]) == [Normal(a), Normal(b), Normal(c)]
  {
    hide Encode, Normal;
    var one := [c] + [];
    var two := [b] + one;
    AssembleCons(c, []);
    AssembleCons(b, one);
    AssembleCons(a, two);
    assert [a] + two == [a, b, c];
  }

  lemma Assemble5(a: ScriptOp, b: ScriptOp, c: ScriptOp, d: ScriptOp, e: ScriptOp)
    ensures Assemble([a, b, c, d, e]) == Encode(a) + Encode(b) + Encode(c) + Encode(d) + Encode(e)
    ensures NormalOps([a, b, c, d, e]) == [Normal(a), Normal(b), Normal(c), Normal(d), Normal(e)]
  {
    hide Encode, Normal;
    Assemble3(c, d, e);
    var three := [c, d, e];
    var four := [b] + three;
    AssembleCons(b, three);
    AssembleCons(a, four);
    assert [a] + four == [a, b, c, d, e];
  }

  lemma PushSize(bs: seq<Byte>)
    ensures |bs| < |PushData(bs)| <= |bs| + 5 && (|bs| <= 75 ==> |PushData(bs)| == |bs| + 1)
  {
  }

  /** The 1-of-2 script reads as its five ops for any two non-empty keys. */
  lemma MultisigParses(pkA: seq<Byte>, pkB: seq<Byte>)
    requires 0 < |pkA| <= 0xFFFF_FFFF && 0 < |pkB| <= 0xFFFF_FFFF
    ensures ReadOps(BareMultisig(pkA, pkB), 0, 0) == Ok([Op(N1), Push(pkA), Push(pkB), Op(N2), Op(CHECKMULTISIG)])
  {
    hide Assemble, NormalOps, PushData;
    Assemble5(Op(N1), Push(pkA), Push(pkB), Op(N2), Op(CHECKMULTISIG));
    var ops := [Op(N1), Push(pkA), Push(pkB), Op(N2), Op(CHECKMULTISIG)];
    assert Assemble(ops) == BareMultisig(pkA, pkB);
    PushSize(pkA);
    PushSize(pkB);
    AssembleThenParse(ops);
  }

  // ------------------------------------------------------------------- what the parser accepts

  /** The bytes are an opcode that is no push, or a push in one of the four forms, the shortest or not. */
  ghost predicate OpForm(bs: seq<Byte>, op: ScriptOp)
  {
    match op
    case Op(code) => (code == 0 || code > 0x4e) && bs == [code]
    case Push(data) =>
      || (1 <= |data| <= 75 && bs == [|data|] + data)
      || (|data| < 0x100 && bs == [0x4c] + (LE(1, |data|) + data))
      || (|data| < 0x1_0000 && bs == [0x4d] + (LE(2, |data|) + data))
      || (|data| < 0x1_0000_0000 && bs == [0x4e] + (LE(4, |data|) + data))
  }

  /** The bytes are the ops, one after the other, each in one of its forms. */
  ghost predicate ScriptForm(bs: seq<Byte>, ops: seq<ScriptOp>)
    decreases |ops|
  {
    if ops == [] then bs == []
    else exists n :: 0 < n <= |bs| && OpForm(bs[..n], ops[0]) && ScriptForm(bs[n..], ops[1..])
  }

  lemma PushReadsIff(data: seq<Byte>, off: nat, width: nat, op: ScriptOp, end: nat)
    requires |data| <= USIZE_MAX
    ensures ReadPush(data, off, width) == Ok((op, end)) <==>
            && op.Push? && |op.data| < Pow256(width) && end == off + width + |op.data|
            && At(data, off, LE(width, |op.data|) + op.data)
  {
    hide LE, ReadLE, Pow256;
    if op.Push? {
      AtSplit(data, off, LE(width, |op.data|), op.data);
      LEReadsIff(data, off, width, |op.data|, off + width);
    }
  }

  /** One op is read exactly where one of its forms stands, and reading stops right behind it. */
  lemma OpReadsIff(data: seq<Byte>, off: nat, op: ScriptOp, end: nat)
    requires |data| <= USIZE_MAX
    ensures ReadOp(data, off) == Ok((op, end)) <==> off < end <= |data| && OpForm(data[off..end], op)
  {
    hide LE, ReadPush, Pow256;
    Pow256Values();
    if off < |data| {
      var code := data[off];
      assert At(data, off, [code]);
      var width := if code == 0x4c then 1 else if code == 0x4d then 2 else 4;
      PushReadsIff(data, off + 1, width, op, end);
      if op.Push? {
        AtSplit(data, off, [code], LE(width, |op.data|) + op.data);
        AtSplit(data, off, [code], op.data);
      }
    }
    if off < end <= |data| && OpForm(data[off..end], op) {
      assert data[off] == data[off..end][0];
    }
  }

  lemma {:induction false} RestReadsIff(data: seq<Byte>, off: nat, before: nat, ops: seq<ScriptOp>)
    requires off <= |data| <= USIZE_MAX && before <= MAX_SCRIPT_OPS
    ensures ReadOps(data, off, before) == Ok(ops) <==> before + |ops| <= MAX_SCRIPT_OPS && ScriptForm(data[off..], ops)
    decreases |ops|
  {
    hide OpForm, ReadOp;
    if ops == [] {
      if off < |data| && before < MAX_SCRIPT_OPS && ReadOp(data, off).Ok? {
        assert ReadOps(data, off, before) != Ok([]);
      }
    } else {
      var rest := data[off..];
      if ReadOps(data, off, before) == Ok(ops) {
        var (op, end) := ReadOp(data, off).value;
        OpReadsIff(data, off, op, end);
        var more := ReadOps(data, end, before + 1).value;
        assert ops == [op] + more;
        assert more == ops[1..];
        RestReadsIff(data, end, before + 1, ops[1..]);
        assert rest[..end - off] == data[off..end] && rest[end - off..] == data[end..];
      }
      if before + |ops| <= MAX_SCRIPT_OPS && ScriptForm(rest, ops) {
        var n :| 0 < n <= |rest| && OpForm(rest[..n], ops[0]) && ScriptForm(rest[n..], ops[1..]);
        assert rest[..n] == data[off..off + n] && rest[n..] == data[off + n..];
        OpReadsIff(data, off, ops[0], off + n);
        RestReadsIff(data, off + n, before + 1, ops[1..]);
        assert [ops[0]] + ops[1..] == ops;
      }
    }
  }

  /** A script parses into some ops exactly when it is their forms, one after the other, and they are not too many. */
  lemma ParsesIff(script: seq<Byte>, ops: seq<ScriptOp>)
    requires |script| <= USIZE_MAX
    ensures ReadOps(script, 0, 0) == Ok(ops) <==> |ops| <= 10_000_000 && ScriptForm(script, ops)
  {
    hide ReadOps, ScriptForm;
    assert script[0..] == script;
    RestReadsIff(script, 0, 0, ops);
  }

  // ------------------------------------------------------------------- the bytes themselves

  /** A push, byte by byte: the length alone up to 75, then 0x4c, 0x4d or 0x4e before 1, 2 or 4 length bytes. */
  lemma PushBytes(data: seq<Byte>)
    ensures PushData(data) ==
            (if |data| <= 75 then [|data|]
             else if |data| <= 0xFF then [0x4c, |data|]
             else if |data| <= 0xFFFF then [0x4d, |data| % 256, |data| / 0x100 % 256]
             else if |data| <= 0xFFFF_FFFF then
               [0x4e, |data| % 256, |data| / 0x100 % 256, |data| / 0x1_0000 % 256, |data| / 0x100_0000 % 256]
             else [0x4e, 0, 0, 0, 0]) + data
  {
    hide LE;
    LE2(|data|);
    LE4(if |data| <= 0xFFFF_FFFF then |data| else 0);
  }

  lemma LE2(v: nat)
    ensures LE(2, v) == [v % 256, v / 256 % 256]
  {
    assert LE(1, v / 256) == [v / 256 % 256] + LE(0, v / 256 / 256);
  }

  lemma LE4(v: nat)
    ensures LE(4, v) == [v % 256, v / 0x100 % 256, v / 0x1_0000 % 256, v / 0x100_0000 % 256]
  {
    assert LE(3, v / 256) == [v / 256 % 256] + LE(2, v / 256 / 256);
    LE2(v / 256 / 256);
  }

  lemma P2pkhBytes(hash160: seq<Byte>)
    requires |hash160| == 20
    ensures P2pkh(hash160) == [0x76, 0xa9, 0x14] + hash160 + [0x88, 0xac]
  {
    hide LE;
    PushBytes(hash160);
  }

  lemma MultisigBytes(pkA: seq<Byte>, pkB: seq<Byte>)
    requires |pkA| == 33 && |pkB| == 33
    ensures BareMultisig(pkA, pkB) == [0x51, 0x21] + pkA + [0x21] + pkB + [0x52, 0xae]
  {
    hide LE;
    PushBytes(pkA);
    PushBytes(pkB);
  }

  // ---------------------------------------------------------------------- data carrier

  /** The locking script of `build_data_carrier`. */
  function CarrierScript(payload: seq<Byte>): seq<Byte>
  {
    [FALSE, RETURN] + PushData(payload)
  }

  /** `build_data_carrier`. */
  function DataCarrier(payload: seq<Byte>): (out: TxOut)
    requires |CarrierScript(payload)| <= USIZE_MAX
    ensures out.value == 0 && out.locking == [0x00, 0x6a] + PushData(payload) && |payload| < |out.locking|
  {
    PushSize(payload);
    TxOut(0, CarrierScript(payload))
  }

  /** The match of `parse_data_carrier` on a parsed script. */
  function CarriedBy(ops: seq<ScriptOp>): Result<seq<Byte>, BsvError>
  {
    if |ops| == 3 && ops[0] == Op(FALSE) && ops[1] == Op(RETURN) && ops[2].Push? then Ok(ops[2].data)
    else if ops == [Op(FALSE), Op(RETURN), Op(FALSE)] || ops == [Op(FALSE), Op(RETURN)] then Ok([])
    else Err(MalformedScript)
  }

  /** `parse_data_carrier`. */
  function ReadCarrier(script: seq<Byte>): Result<seq<Byte>, BsvError>
  {
    match ReadOps(script, 0, 0)
    case Err(e) => Err(e)
    case Ok(ops) => CarriedBy(ops)
  }

  lemma CarrierFits(payload: seq<Byte>)
    requires |payload| <= 0xFFFF_FFFF
    ensures ReadCarrier(CarrierScript(payload)) == Ok(payload)
  {
    hide Assemble, NormalOps, PushData;
    Assemble3(Op(FALSE), Op(RETURN), Push(payload));
    var ops := [Op(FALSE), Op(RETURN), Push(payload)];
    assert Assemble(ops) == CarrierScript(payload);
    PushSize(payload);
    AssembleThenParse(ops);
  }

  lemma CodeFirst(bs: seq<Byte>, code: Byte, ops: seq<ScriptOp>)
    requires code == 0 || code > 0x4e
    ensures ScriptForm(bs, [Op(code)] + ops) <==> bs != [] && bs[0] == code && ScriptForm(bs[1..], ops)
  {
    assert ([Op(code)] + ops)[1..] == ops;
    if bs != [] {
      assert bs[..1] == [bs[0]];
    }
  }

  lemma OneOp(bs: seq<Byte>, op: ScriptOp)
    ensures ScriptForm(bs, [op]) <==> OpForm(bs, op)
  {
    hide LE;
    assert [op][1..] == [];
    assert bs[..|bs|] == bs && bs[|bs|..] == [];
    assert OpForm(bs, op) ==> bs != [];
    forall n | 0 < n <= |bs| && ScriptForm(bs[n..], [])
      ensures bs[..n] == bs
    {
      assert |bs[n..]| == |bs| - n;
    }
  }

  /** A script carries a payload exactly when it is 0x00 0x6a and one push of it; nothing or 0x00 there carries the empty one. */
  lemma CarriesIff(script: seq<Byte>, payload: seq<Byte>)
    requires |script| <= USIZE_MAX
    ensures ReadCarrier(script) == Ok(payload) <==>
            && [0x00, 0x6a] <= script
            && (OpForm(script[2..], Push(payload)) || (payload == [] && script[2..] in {[], [0x00]}))
  {
    hide ReadOps, ScriptForm, OpForm;
    var head := [Op(0), Op(0x6a)];
    AfterReturn(script, [Push(payload)]);
    AfterReturn(script, [Op(0)]);
    AfterReturn(script, []);
    assert head + [Op(0)] == [Op(0), Op(0x6a), Op(0)] && head + [] == head;
    if [0x00, 0x6a] <= script {
      var rest := script[2..];
      OneOp(rest, Push(payload));
      OneOp(rest, Op(0));
      ZeroForm(rest);
    }
    if ReadCarrier(script) == Ok(payload) {
      var ops := ReadOps(script, 0, 0).value;
      assert ops == head + [Push(payload)] || ops == head + [Op(0)] || ops == head + [];
    }
  }

  lemma ZeroForm(bs: seq<Byte>)
    ensures OpForm(bs, Op(0)) <==> bs == [0x00]
    ensures ScriptForm(bs, []) <==> bs == []
  {
  }

  lemma AfterReturn(script: seq<Byte>, ops: seq<ScriptOp>)
    requires |script| <= USIZE_MAX && |ops| <= 1
    ensures ReadOps(script, 0, 0) == Ok([Op(0), Op(0x6a)] + ops) <==> [0x00, 0x6a] <= script && ScriptForm(script[2..], ops)
  {
    hide ReadOps, ScriptForm;
    var all := [Op(0), Op(0x6a)] + ops;
    ParsesIff(script, all);
    assert all == [Op(0)] + ([Op(0x6a)] + ops);
    CodeFirst(script, 0, [Op(0x6a)] + ops);
    if script != [] {
      CodeFirst(script[1..], 0x6a, ops);
      if |script| > 1 {
        assert script[1..][1..] == script[2..];
      }
    }
  }

  /** A longer payload's length is written as zero: what follows is read as further ops. */
  lemma CarrierOverflows(payload: seq<Byte>)
    requires |payload| > 0xFFFF_FFFF && |CarrierScript(payload)| <= USIZE_MAX
    ensures ReadCarrier(CarrierScript(payload)).Err?
  {
    hide LE, ReadPush;
    Pow256Values();
    var data := CarrierScript(payload);
    var header := LE(4, 0);
    assert data == [FALSE] + ([RETURN] + ([PUSHDATA4] + (header + payload)));
    assert At(data, 3, header + payload);
    AtSplit(data, 3, header, payload);
    assert header + [] == header;
    LongPush(data, 3, 4, []);
    assert ReadOp(data, 0) == Ok((Op(FALSE), 1));
    assert ReadOp(data, 1) == Ok((Op(RETURN), 2));
    assert ReadOp(data, 2) == Ok((Push([]), 7));
    NonEmptyRest(data, 7, 3);
    var rest := ReadOps(data, 7, 3);
    assert ReadOps(data, 2, 2) == Prepend([Push([])], rest);
    assert ReadOps(data, 1, 1) == Prepend([Op(RETURN)], ReadOps(data, 2, 2));
    assert ReadOps(data, 0, 0) == Prepend([Op(FALSE)], ReadOps(data, 1, 1));
  }

  lemma NonEmptyRest(data: seq<Byte>, off: nat, before: nat)
    requires off < |data|
    ensures ReadOps(data, off, before).Ok? ==> |ReadOps(data, off, before).value| >= 1
  {
  }

  /** A payload survives the data carrier exactly when its length fits in four bytes. */
  lemma CarrierRoundTripIff(payload: seq<Byte>)
    requires |CarrierScript(payload)| <= USIZE_MAX
    ensures ReadCarrier(CarrierScript(payload)) == Ok(payload) <==> |payload| < 0x1_0000_0000
  {
    hide CarrierScript, ReadCarrier;
    if |payload| <= 0xFFFF_FFFF {
      CarrierFits(payload);
    } else {
      CarrierOverflows(payload);
    }
  }

  // ------------------------------------------------------------------------- the code

  method ParsePush(cur: Cursor, width: nat) returns (result: Result<ScriptOp, BsvError>)
    requires cur.Valid()
    modifies cur
    ensures cur.Valid()
    ensures match ReadPush(cur.data, old(cur.off), width)
            case Err(e) => result == Err(e)
            case Ok(t) => result == Ok(t.0) && cur.off == t.1
  {
    var len := cur.Uint(width);
    if len.Err? { return Err(len.error); }
    var data := cur.TakeBytes(len.value);
    if data.Err? { return Err(data.error); }
    return Ok(Push(data.value));
  }

  method ParseOp(cur: Cursor) returns (result: Result<ScriptOp, BsvError>)
    requires cur.Valid()
    modifies cur
    ensures cur.Valid()
    ensures match ReadOp(cur.data, old(cur.off))
            case Err(e) => result == Err(e)
            case Ok(t) => result == Ok(t.0) && cur.off == t.1
  {
    hide ReadPush;
    var first := cur.TakeBytes(1);
    if first.Err? { return Err(first.error); }
    var opcode := first.value[0];
    if 0x01 <= opcode <= 0x4b {
      var data := cur.TakeBytes(opcode);
      if data.Err? { return Err(data.error); }
      return Ok(Push(data.value));
    } else if opcode == PUSHDATA1 {
      result := ParsePush(cur, 1);
    } else if opcode == PUSHDATA2 {
      result := ParsePush(cur, 2);
    } else if opcode == PUSHDATA4 {
      result := ParsePush(cur, 4);
    } else {
      return Ok(Op(opcode));
    }
  }

  /** `parse_script`. */
  method ParseScript(script: seq<Byte>) returns (result: Result<seq<ScriptOp>, BsvError>)
    requires |script| <= USIZE_MAX
    ensures result == ReadOps(script, 0, 0)
  {
    hide ReadOp;
    var cur := new Cursor(script);
    var ops := [];
    PrependSnoc([], Op(FALSE), ReadOps(script, 0, 0));
    while cur.off < |script|
      invariant cur.Valid() && cur.data == script
      invariant Prepend(ops, ReadOps(script, cur.off, |ops|)) == ReadOps(script, 0, 0)
      decreases |script| - cur.off
    {
      if |ops| >= MAX_SCRIPT_OPS {
        return Err(OutOfRange);
      }
      var op := ParseOp(cur);
      if op.Err? { return Err(op.error); }
      PrependSnoc(ops, op.value, ReadOps(script, cur.off, |ops| + 1));
      ops := ops + [op.value];
    }
    PrependSnoc(ops, Op(FALSE), Ok([]));
    return Ok(ops);
  }

  lemma PrependSnoc(ops: seq<ScriptOp>, op: ScriptOp, rest: Result<seq<ScriptOp>, BsvError>)
    ensures Prepend(ops, Prepend([op], rest)) == Prepend(ops + [op], rest)
    ensures Prepend([], rest) == rest && Prepend(ops, Ok([])) == Ok(ops)
  {
    assert ops + [] == ops;
    if rest.Ok? {
      assert ops + ([op] + rest.value) == ops + [op] + rest.value;
      assert [] + rest.value == rest.value;
    }
  }
}
