/**
 The signature hash (crates/bsv/src/sighash.rs), with the pre-image laid out as in the
 Specification section of BIP 143. `hash` stands for `double_sha256`.
 */
module Sighash {
  import opened Wrappers
  import opened Bytes
  import opened Transactions

  const SIGHASH_ALL: Byte := 0x01
  const SIGHASH_NONE: Byte := 0x02
  const SIGHASH_SINGLE: Byte := 0x03
  const SIGHASH_ANYONECANPAY: Byte := 0x80
  const SIGHASH_FORKID: Byte := 0x40

  const ZERO: Hash256 := seq(32, _ => 0)

  type Hasher = seq<Byte> -> Hash256

  // ------------------------------------------------------------- what goes into the hash

  function Base(sighashType: Byte): Byte
  {
    sighashType % 0x20
  }

  predicate Anyone(sighashType: Byte)
  {
    sighashType >= SIGHASH_ANYONECANPAY
  }

  function WriteOutPoint(o: OutPoint): seq<Byte>
  {
    o.txid + LE(4, o.vout)
  }

  function WriteU32(x: U32): seq<Byte>
  {
    LE(4, x)
  }

  function OutPoints(inputs: seq<TxIn>): (r: seq<OutPoint>)
    ensures |r| == |inputs|
  {
    seq(|inputs|, i requires 0 <= i < |inputs| => inputs[i].outpoint)
  }

  function SequenceNumbers(inputs: seq<TxIn>): (r: seq<U32>)
    ensures |r| == |inputs|
  {
    seq(|inputs|, i requires 0 <= i < |inputs| => inputs[i].sequence)
  }

  function PrevoutsHash(hash: Hasher, tx: Transaction, sighashType: Byte): Hash256
  {
    if Anyone(sighashType) then ZERO else hash(WriteMany(WriteOutPoint, OutPoints(tx.inputs)))
  }

  function SequenceHash(hash: Hasher, tx: Transaction, sighashType: Byte): Hash256
  {
    if Anyone(sighashType) || Base(sighashType) == SIGHASH_SINGLE || Base(sighashType) == SIGHASH_NONE then ZERO
    else hash(WriteMany(WriteU32, SequenceNumbers(tx.inputs)))
  }

  function OutputsHash(hash: Hasher, tx: Transaction, index: nat, sighashType: Byte): Hash256
    requires Base(sighashType) == SIGHASH_SINGLE ==> index < |tx.outputs|
  {
    if Base(sighashType) == SIGHASH_SINGLE then hash(WriteOutput(tx.outputs[index]))
    else if Base(sighashType) == SIGHASH_NONE then ZERO
    else hash(WriteMany(WriteOutput, tx.outputs))
  }

  /** Everything before and after the length-prefixed script code. */
  function Head(version: I32, prevouts: Hash256, sequences: Hash256, o: OutPoint): (r: seq<Byte>)
    ensures |r| == 104
  {
    LE(4, Word(version)) + prevouts + sequences + WriteOutPoint(o)
  }

  function Tail(value: U64, sequence: U32, outputs: Hash256, locktime: U32, sighashType: Byte): (r: seq<Byte>)
    ensures |r| == 52
  {
    LE(8, value) + LE(4, sequence) + outputs + LE(4, locktime) + LE(4, sighashType)
  }

  /** Signable: the index is an input, and an output too for SINGLE. */
  predicate Signable(tx: Transaction, index: nat, sighashType: Byte)
  {
    index < |tx.inputs| && (Base(sighashType) == SIGHASH_SINGLE ==> index < |tx.outputs|)
  }

  function Preimage(hash: Hasher, tx: Transaction, index: nat, code: Script, value: U64, sighashType: Byte): seq<Byte>
    requires Signable(tx, index, sighashType)
  {
    var input := tx.inputs[index];
    Head(tx.version, PrevoutsHash(hash, tx, sighashType), SequenceHash(hash, tx, sighashType), input.outpoint)
    + WriteVarintBytes(code)
    + Tail(value, input.sequence, OutputsHash(hash, tx, index, sighashType), tx.locktime, sighashType)
  }

  function Digest(hash: Hasher, tx: Transaction, index: nat, code: Script, value: U64, sighashType: Byte)
    : Result<Hash256, BsvError>
  {
    if index >= |tx.inputs| then Err(MalformedTx)
    else if !Signable(tx, index, sighashType) then Err(SighashSingleIndex)
    else Ok(hash(Preimage(hash, tx, index, code, value, sighashType)))
  }

  // ---------------------------------------------------------------- what a digest depends on

  /** What one signature is made over. */
  datatype SigInput = SigInput(tx: Transaction, index: nat, code: Script, value: U64, sighashType: Byte)

  ghost predicate Covered(a: SigInput)
  {
    Signable(a.tx, a.index, a.sighashType)
  }

  function DigestOf(hash: Hasher, a: SigInput): Result<Hash256, BsvError>
  {
    Digest(hash, a.tx, a.index, a.code, a.value, a.sighashType)
  }

  function PreimageOf(hash: Hasher, a: SigInput): seq<Byte>
    requires Covered(a)
  {
    Preimage(hash, a.tx, a.index, a.code, a.value, a.sighashType)
  }

  /**
   The parts a signature covers, by the number of its type: the low five bits 3 are SINGLE and 2 are
   NONE, and 0x80 and above is ANYONECANPAY.
   */
  ghost predicate SameCovered(a: SigInput, b: SigInput)
    requires Covered(a) && Covered(b)
  {
    var t := a.sighashType;
    && t == b.sighashType && a.code == b.code && a.value == b.value
    && a.tx.version == b.tx.version && a.tx.locktime == b.tx.locktime
    && a.tx.inputs[a.index].outpoint == b.tx.inputs[b.index].outpoint
    && a.tx.inputs[a.index].sequence == b.tx.inputs[b.index].sequence
    && (t < 0x80 ==> OutPoints(a.tx.inputs) == OutPoints(b.tx.inputs))
    && (t < 0x80 && t % 0x20 != 2 && t % 0x20 != 3 ==> SequenceNumbers(a.tx.inputs) == SequenceNumbers(b.tx.inputs))
    && (t % 0x20 == 3 ==> a.tx.outputs[a.index] == b.tx.outputs[b.index])
    && (t % 0x20 != 2 && t % 0x20 != 3 ==> a.tx.outputs == b.tx.outputs)
  }

  /** A digest depends on nothing else: no unlocking script, no other output under SINGLE. */
  lemma DigestLocal(hash: Hasher, a: SigInput, b: SigInput)
    requires Covered(a) && Covered(b) && SameCovered(a, b)
    ensures DigestOf(hash, a) == DigestOf(hash, b)
  {
    hide Head, Tail, WriteMany, OutPoints, SequenceNumbers, WriteOutput, WriteVarintBytes;
  }

  predicate IsCollision(hash: Hasher, c: (seq<Byte>, seq<Byte>))
  {
    c.0 != c.1 && hash(c.0) == hash(c.1)
  }

  /** Two inputs of the hash that differ, if the two signatures cover anything different. */
  function Colliding(hash: Hasher, a: SigInput, b: SigInput): (seq<Byte>, seq<Byte>)
    requires Covered(a) && Covered(b)
  {
    var t := a.sighashType;
    var p, p' := PreimageOf(hash, a), PreimageOf(hash, b);
    var o, o' := WriteMany(WriteOutPoint, OutPoints(a.tx.inputs)), WriteMany(WriteOutPoint, OutPoints(b.tx.inputs));
    var s, s' := WriteMany(WriteU32, SequenceNumbers(a.tx.inputs)), WriteMany(WriteU32, SequenceNumbers(b.tx.inputs));
    if p != p' then (p, p')
    else if t < 0x80 && o != o' then (o, o')
    else if t < 0x80 && t % 0x20 != 2 && t % 0x20 != 3 && s != s' then (s, s')
    else if t % 0x20 == 3 && a.index < |a.tx.outputs| && b.index < |b.tx.outputs| then
      (WriteOutput(a.tx.outputs[a.index]), WriteOutput(b.tx.outputs[b.index]))
    else (WriteMany(WriteOutput, a.tx.outputs), WriteMany(WriteOutput, b.tx.outputs))
  }

  /** The buffers that are hashed fit in memory. */
  predicate SizesFit(tx: Transaction)
  {
    && |WriteMany(WriteOutPoint, OutPoints(tx.inputs))| <= USIZE_MAX
    && |WriteMany(WriteU32, SequenceNumbers(tx.inputs))| <= USIZE_MAX
    && |WriteMany(WriteOutput, tx.outputs)| <= USIZE_MAX
  }

  ghost predicate Fits(hash: Hasher, a: SigInput)
    requires Covered(a)
  {
    |PreimageOf(hash, a)| <= USIZE_MAX && SizesFit(a.tx)
  }

  /**
   A digest of any type fixes exactly what it covers: equal digests mean that type, script code, value
   and every covered part are the same, or else the hash collides on the inputs shown.
   */
  lemma DigestBinds(hash: Hasher, a: SigInput, b: SigInput)
    requires Covered(a) && Covered(b) && Fits(hash, a) && DigestOf(hash, a) == DigestOf(hash, b)
    ensures SameCovered(a, b) || IsCollision(hash, Colliding(hash, a, b))
  {
    hide Preimage, WriteMany, OutPoints, SequenceNumbers, WriteOutput, WriteOutPoint, WriteU32;
    hide PrevoutsHash, SequenceHash, OutputsHash;
    if PreimageOf(hash, a) == PreimageOf(hash, b) {
      PreimageFields(hash, a, b);
      if a.sighashType < 0x80 {
        PrevoutsBind(hash, a.tx, b.tx, a.sighashType);
        if a.sighashType % 0x20 != 2 && a.sighashType % 0x20 != 3 {
          SequencesBind(hash, a.tx, b.tx, a.sighashType);
        }
      }
      OutputsBind(hash, a, b);
    }
  }

  lemma PrevoutsBind(hash: Hasher, tx: Transaction, tx': Transaction, t: Byte)
    requires SizesFit(tx) && t < 0x80 && PrevoutsHash(hash, tx, t) == PrevoutsHash(hash, tx', t)
    ensures OutPoints(tx.inputs) == OutPoints(tx'.inputs) ||
            IsCollision(hash, (WriteMany(WriteOutPoint, OutPoints(tx.inputs)), WriteMany(WriteOutPoint, OutPoints(tx'.inputs))))
  {
    hide WriteMany, OutPoints;
    OutPointsInjective(OutPoints(tx.inputs), OutPoints(tx'.inputs));
  }

  lemma SequencesBind(hash: Hasher, tx: Transaction, tx': Transaction, t: Byte)
    requires SizesFit(tx) && t < 0x80 && t % 0x20 != 2 && t % 0x20 != 3
    requires SequenceHash(hash, tx, t) == SequenceHash(hash, tx', t)
    ensures SequenceNumbers(tx.inputs) == SequenceNumbers(tx'.inputs) ||
            IsCollision(hash, (WriteMany(WriteU32, SequenceNumbers(tx.inputs)), WriteMany(WriteU32, SequenceNumbers(tx'.inputs))))
  {
    hide WriteMany, SequenceNumbers;
    SequencesInjective(SequenceNumbers(tx.inputs), SequenceNumbers(tx'.inputs));
  }

  lemma OutputsBind(hash: Hasher, a: SigInput, b: SigInput)
    requires Covered(a) && Covered(b) && SizesFit(a.tx) && a.sighashType == b.sighashType
    requires OutputsHash(hash, a.tx, a.index, a.sighashType) == OutputsHash(hash, b.tx, b.index, a.sighashType)
    ensures a.sighashType % 0x20 == 3 ==>
              || a.tx.outputs[a.index] == b.tx.outputs[b.index]
              || IsCollision(hash, (WriteOutput(a.tx.outputs[a.index]), WriteOutput(b.tx.outputs[b.index])))
    ensures a.sighashType % 0x20 != 2 && a.sighashType % 0x20 != 3 ==>
              || a.tx.outputs == b.tx.outputs
              || IsCollision(hash, (WriteMany(WriteOutput, a.tx.outputs), WriteMany(WriteOutput, b.tx.outputs)))
  {
    hide WriteMany, WriteOutput;
    OutputsInjective(a.tx.outputs, b.tx.outputs);
    if a.sighashType % 0x20 == 3 {
      OneFits(a.tx.outputs, a.index);
      OutputInjective(a.tx.outputs[a.index], b.tx.outputs[b.index]);
    }
  }

  lemma {:induction false} OneFits(xs: seq<TxOut>, i: nat)
    requires i < |xs|
    ensures |WriteOutput(xs[i])| <= |WriteMany(WriteOutput, xs)|
    decreases |xs|
  {
    hide WriteOutput;
    if i < |xs| - 1 {
      OneFits(xs[..|xs| - 1], i);
    }
  }

  lemma OutputInjective(x: TxOut, y: TxOut)
    requires |WriteOutput(x)| <= USIZE_MAX
    ensures WriteOutput(x) == WriteOutput(y) ==> x == y
  {
    hide LE, WriteVarintBytes, Pow256;
    if WriteOutput(x) == WriteOutput(y) {
      Pow256Values();
      assert LE(8, x.value) + WriteVarintBytes(x.locking) + [] == WriteOutput(x);
      assert LE(8, y.value) + WriteVarintBytes(y.locking) + [] == WriteOutput(y);
      Sandwich(LE(8, x.value), x.locking, [], LE(8, y.value), y.locking, []);
      LEInjective(8, x.value, y.value);
    }
  }

  /** Where each field stands in the pre-image. */
  lemma PreimageAt(hash: Hasher, a: SigInput)
    requires Covered(a)
    ensures var p, input, k := PreimageOf(hash, a), a.tx.inputs[a.index], 104 + |WriteVarintBytes(a.code)|;
            && |p| == k + 52
            && At(p, 0, LE(4, Word(a.tx.version)))
            && At(p, 4, if a.sighashType >= 0x80 then seq(32, _ => 0) else hash(WriteMany(WriteOutPoint, OutPoints(a.tx.inputs))))
            && At(p, 36, if a.sighashType >= 0x80 || a.sighashType % 0x20 == 2 || a.sighashType % 0x20 == 3 then seq(32, _ => 0)
                         else hash(WriteMany(WriteU32, SequenceNumbers(a.tx.inputs))))
            && At(p, 68, input.outpoint.txid) && At(p, 100, LE(4, input.outpoint.vout))
            && At(p, 104, WriteVarintBytes(a.code))
            && At(p, k, LE(8, a.value)) && At(p, k + 8, LE(4, input.sequence))
            && At(p, k + 12, if a.sighashType % 0x20 == 3 then hash(WriteOutput(a.tx.outputs[a.index]))
                             else if a.sighashType % 0x20 == 2 then seq(32, _ => 0)
                             else hash(WriteMany(WriteOutput, a.tx.outputs)))
            && At(p, k + 44, LE(4, a.tx.locktime)) && At(p, k + 48, LE(4, a.sighashType))
  {
    hide LE, At, WriteVarintBytes, WriteMany, OutPoints, SequenceNumbers, WriteOutput, PrevoutsHash, SequenceHash, OutputsHash;
    var p, input, t := PreimageOf(hash, a), a.tx.inputs[a.index], a.sighashType;
    var b, c, g := PrevoutsHash(hash, a.tx, t), SequenceHash(hash, a.tx, t), OutputsHash(hash, a.tx, a.index, t);
    var h, w := Head(a.tx.version, b, c, input.outpoint), WriteVarintBytes(a.code);
    var l := Tail(a.value, input.sequence, g, a.tx.locktime, t);
    WholeStands(p);
    AtSplit(p, 0, h + w, l);
    AtSplit(p, 0, h, w);
    HeadAt(p, a.tx.version, b, c, input.outpoint);
    TailAt(p, 104 + |w|, a.value, input.sequence, g, a.tx.locktime, t);
    HashesAre(hash, a);
  }

  lemma HashesAre(hash: Hasher, a: SigInput)
    requires Covered(a)
    ensures PrevoutsHash(hash, a.tx, a.sighashType) ==
            if a.sighashType >= 0x80 then seq(32, _ => 0) else hash(WriteMany(WriteOutPoint, OutPoints(a.tx.inputs)))
    ensures SequenceHash(hash, a.tx, a.sighashType) ==
            if a.sighashType >= 0x80 || a.sighashType % 0x20 == 2 || a.sighashType % 0x20 == 3 then seq(32, _ => 0)
            else hash(WriteMany(WriteU32, SequenceNumbers(a.tx.inputs)))
    ensures OutputsHash(hash, a.tx, a.index, a.sighashType) ==
            if a.sighashType % 0x20 == 3 then hash(WriteOutput(a.tx.outputs[a.index]))
            else if a.sighashType % 0x20 == 2 then seq(32, _ => 0)
            else hash(WriteMany(WriteOutput, a.tx.outputs))
  {
    hide WriteMany, OutPoints, SequenceNumbers, WriteOutput;
    assert ZERO == seq(32, _ => 0);
  }

  lemma HeadAt(p: seq<Byte>, version: I32, prevouts: Hash256, sequences: Hash256, o: OutPoint)
    requires At(p, 0, Head(version, prevouts, sequences, o))
    ensures At(p, 0, LE(4, Word(version))) && At(p, 4, prevouts) && At(p, 36, sequences)
    ensures At(p, 68, o.txid) && At(p, 100, LE(4, o.vout))
  {
    hide LE, At;
    var v := LE(4, Word(version));
    AtSplit(p, 0, v + prevouts + sequences, WriteOutPoint(o));
    AtSplit(p, 0, v + prevouts, sequences);
    AtSplit(p, 0, v, prevouts);
    AtSplit(p, 68, o.txid, LE(4, o.vout));
  }

  lemma TailAt(p: seq<Byte>, k: nat, value: U64, sequence: U32, outputs: Hash256, locktime: U32, t: Byte)
    requires At(p, k, Tail(value, sequence, outputs, locktime, t))
    ensures At(p, k, LE(8, value)) && At(p, k + 8, LE(4, sequence)) && At(p, k + 12, outputs)
    ensures At(p, k + 44, LE(4, locktime)) && At(p, k + 48, LE(4, t))
  {
    hide LE, At;
    var a, b, d := LE(8, value), LE(4, sequence), LE(4, locktime);
    AtSplit(p, k, a + b + outputs + d, LE(4, t));
    AtSplit(p, k, a + b + outputs, d);
    AtSplit(p, k, a + b, outputs);
    AtSplit(p, k, a, b);
  }

  /** What is hashed for the outpoints and for the sequence numbers: 36 and 4 bytes for each input, in order. */
  lemma ListsAt(inputs: seq<TxIn>, i: nat)
    requires i < |inputs|
    ensures |WriteMany(WriteOutPoint, OutPoints(inputs))| == 36 * |inputs|
    ensures |WriteMany(WriteU32, SequenceNumbers(inputs))| == 4 * |inputs|
    ensures At(WriteMany(WriteOutPoint, OutPoints(inputs)), 36 * i, inputs[i].outpoint.txid + LE(4, inputs[i].outpoint.vout))
    ensures At(WriteMany(WriteU32, SequenceNumbers(inputs)), 4 * i, LE(4, inputs[i].sequence))
  {
    hide LE, WriteMany, At;
    var points, numbers := OutPoints(inputs), SequenceNumbers(inputs);
    FixedItems(WriteOutPoint, 36, points);
    FixedItems(WriteOutPoint, 36, points[..i]);
    FixedItems(WriteU32, 4, numbers);
    FixedItems(WriteU32, 4, numbers[..i]);
    WholeStands(WriteMany(WriteOutPoint, points));
    WholeStands(WriteMany(WriteU32, numbers));
    ItemAt(WriteOutPoint, WriteMany(WriteOutPoint, points), 0, points, i);
    ItemAt(WriteU32, WriteMany(WriteU32, numbers), 0, numbers, i);
  }

  lemma {:induction false} FixedItems<T>(write: T -> seq<Byte>, width: nat, xs: seq<T>)
    requires forall k :: 0 <= k < |xs| ==> |write(xs[k])| == width
    ensures |WriteMany(write, xs)| == width * |xs|
    decreases |xs|
  {
    if xs != [] {
      var n := |xs| - 1;
      FixedItems(write, width, xs[..n]);
      OneMore(width, n);
      assert |write(xs[n])| == width;
    }
  }

  lemma OneMore(width: nat, n: nat)
    ensures width * n + width == width * (n + 1)
  {
  }

  lemma PreimageFields(hash: Hasher, a: SigInput, b: SigInput)
    requires Covered(a) && Covered(b) && PreimageOf(hash, a) == PreimageOf(hash, b) && |PreimageOf(hash, a)| <= USIZE_MAX
    ensures a.tx.version == b.tx.version && a.tx.locktime == b.tx.locktime && a.code == b.code && a.value == b.value
    ensures a.sighashType == b.sighashType
    ensures a.tx.inputs[a.index].outpoint == b.tx.inputs[b.index].outpoint
    ensures a.tx.inputs[a.index].sequence == b.tx.inputs[b.index].sequence
    ensures PrevoutsHash(hash, a.tx, a.sighashType) == PrevoutsHash(hash, b.tx, b.sighashType)
    ensures SequenceHash(hash, a.tx, a.sighashType) == SequenceHash(hash, b.tx, b.sighashType)
    ensures OutputsHash(hash, a.tx, a.index, a.sighashType) == OutputsHash(hash, b.tx, b.index, b.sighashType)
  {
    hide Head, Tail, WriteVarintBytes, PrevoutsHash, SequenceHash, OutputsHash;
    var x, y := a.tx.inputs[a.index], b.tx.inputs[b.index];
    var t, t' := a.sighashType, b.sighashType;
    var g, g' := OutputsHash(hash, a.tx, a.index, t), OutputsHash(hash, b.tx, b.index, t');
    Sandwich(Head(a.tx.version, PrevoutsHash(hash, a.tx, t), SequenceHash(hash, a.tx, t), x.outpoint), a.code,
             Tail(a.value, x.sequence, g, a.tx.locktime, t),
             Head(b.tx.version, PrevoutsHash(hash, b.tx, t'), SequenceHash(hash, b.tx, t'), y.outpoint), b.code,
             Tail(b.value, y.sequence, g', b.tx.locktime, t'));
    HeadFields(a.tx.version, PrevoutsHash(hash, a.tx, t), SequenceHash(hash, a.tx, t), x.outpoint,
               b.tx.version, PrevoutsHash(hash, b.tx, t'), SequenceHash(hash, b.tx, t'), y.outpoint);
    TailFields(a.value, x.sequence, g, a.tx.locktime, t, b.value, y.sequence, g', b.tx.locktime, t');
  }

  /** A length-prefixed run between two fixed-width parts is determined by the whole. */
  lemma Sandwich(h: seq<Byte>, code: Script, t: seq<Byte>, h': seq<Byte>, code': Script, t': seq<Byte>)
    requires |h| == |h'| && |h + WriteVarintBytes(code) + t| <= USIZE_MAX
    requires h + WriteVarintBytes(code) + t == h' + WriteVarintBytes(code') + t'
    ensures h == h' && code == code' && t == t'
  {
    hide WriteVarintBytes, ReadVarintBytes, MinimalAt;
    var c, c' := WriteVarintBytes(code), WriteVarintBytes(code');
    var data := h + c + t;
    assert h == data[..|h|] && h' == (h' + c' + t')[..|h|];
    assert At(data, |h|, c);
    assert At(h' + c' + t', |h|, c');
    RunRoundTrip(data, |h|, code);
    RunRoundTrip(data, |h|, code');
    assert t == data[|h| + |c|..] && t' == (h' + c' + t')[|h| + |c|..];
  }

  lemma LEInjective(n: nat, v: nat, v': nat)
    requires v < Pow256(n) && v' < Pow256(n) && LE(n, v) == LE(n, v')
    ensures v == v'
  {
    UnLEofLE(n, v);
    UnLEofLE(n, v');
  }

  /** Equal concatenations with equal first lengths split. */
  lemma Split(a: seq<Byte>, b: seq<Byte>, a': seq<Byte>, b': seq<Byte>)
    requires |a| == |a'| && a + b == a' + b'
    ensures a == a' && b == b'
  {
    assert a == (a + b)[..|a|] && a' == (a' + b')[..|a|];
    assert b == (a + b)[|a|..] && b' == (a' + b')[|a|..];
  }

  lemma HeadFields(
      version: I32, prevouts: Hash256, sequences: Hash256, o: OutPoint,
      version': I32, prevouts': Hash256, sequences': Hash256, o': OutPoint)
    requires Head(version, prevouts, sequences, o) == Head(version', prevouts', sequences', o')
    ensures version == version' && prevouts == prevouts' && sequences == sequences' && o == o'
  {
    hide LE, Pow256;
    Pow256Values();
    var v, v' := LE(4, Word(version)), LE(4, Word(version'));
    Split(v + prevouts + sequences, WriteOutPoint(o), v' + prevouts' + sequences', WriteOutPoint(o'));
    Split(v + prevouts, sequences, v' + prevouts', sequences');
    Split(v, prevouts, v', prevouts');
    Split(o.txid, LE(4, o.vout), o'.txid, LE(4, o'.vout));
    LEInjective(4, Word(version), Word(version'));
    LEInjective(4, o.vout, o'.vout);
  }

  lemma TailFields(
      value: U64, sequence: U32, outputs: Hash256, locktime: U32, sighashType: Byte,
      value': U64, sequence': U32, outputs': Hash256, locktime': U32, sighashType': Byte)
    requires Tail(value, sequence, outputs, locktime, sighashType) == Tail(value', sequence', outputs', locktime', sighashType')
    ensures value == value' && sequence == sequence' && outputs == outputs' && locktime == locktime'
    ensures sighashType == sighashType'
  {
    hide LE, Pow256;
    Pow256Values();
    var a, a' := LE(8, value), LE(8, value');
    var b, b' := LE(4, sequence), LE(4, sequence');
    var d, d' := LE(4, locktime), LE(4, locktime');
    Split(a + b + outputs + d, LE(4, sighashType), a' + b' + outputs' + d', LE(4, sighashType'));
    Split(a + b + outputs, d, a' + b' + outputs', d');
    Split(a + b, outputs, a' + b', outputs');
    Split(a, b, a', b');
    LEInjective(8, value, value');
    LEInjective(4, sequence, sequence');
    LEInjective(4, locktime, locktime');
    LEInjective(4, sighashType, sighashType');
  }

  // ------------------------------------------------- lists without a count are injective

  lemma {:induction false} ReadManyPrefix<T>(one: (seq<Byte>, nat) -> Read<T>, data: seq<Byte>, off: nat, j: nat, k: nat)
    requires j <= k && ReadMany(one, data, off, k).Ok?
    ensures ReadMany(one, data, off, j).Ok?
    ensures ReadMany(one, data, off, j).value.0 == ReadMany(one, data, off, k).value.0[..j]
    decreases k
  {
    if j < k {
      ReadManyPrefix(one, data, off, j, k - 1);
    }
  }

  lemma RoundTripAll<T(!new)>(
      one: (seq<Byte>, nat) -> Read<T>, write: T -> seq<Byte>, minimal: (seq<Byte>, nat) -> bool, data: seq<Byte>, xs: seq<T>)
    requires ReadsBack(one, write, minimal, data) && data == WriteMany(write, xs)
    ensures ReadMany(one, data, 0, |xs|).Ok?
    ensures ReadMany(one, data, 0, |xs|).value.0 == xs && ReadMany(one, data, 0, |xs|).value.1 == |data|
  {
    hide *;
    WholeStands(data);
    ManyRoundTrip(one, write, minimal, data, 0, xs);
  }

  /** Self-delimiting items that cannot be read past the end: their concatenation determines the list. */
  lemma WriteManyInjective<T(!new)>(
      one: (seq<Byte>, nat) -> Read<T>, write: T -> seq<Byte>, minimal: (seq<Byte>, nat) -> bool, xs: seq<T>, ys: seq<T>)
    requires WriteMany(write, xs) == WriteMany(write, ys) && |xs| <= |ys|
    requires ReadsBack(one, write, minimal, WriteMany(write, xs))
    requires one(WriteMany(write, xs), |WriteMany(write, xs)|).Err?
    ensures xs == ys
  {
    hide *;
    var data := WriteMany(write, xs);
    RoundTripAll(one, write, minimal, data, xs);
    RoundTripAll(one, write, minimal, data, ys);
    SameCount(one, data, |xs|, |ys|);
  }

  /** Reading to the end of the data fixes how many items were read, and so which. */
  lemma SameCount<T>(one: (seq<Byte>, nat) -> Read<T>, data: seq<Byte>, n: nat, m: nat)
    requires ReadMany(one, data, 0, n).Ok? && ReadMany(one, data, 0, n).value.1 == |data|
    requires ReadMany(one, data, 0, m).Ok? && n <= m && one(data, |data|).Err?
    ensures n == m
  {
    if n < m {
      ReadManyPrefix(one, data, 0, n + 1, m);
    }
  }

  function ReadOutPoint(data: seq<Byte>, off: nat): Read<OutPoint>
  {
    match Take(data, off, 32)
    case Err(e) => Err(e)
    case Ok(txid) =>
      match ReadLE(data, txid.1, 4)
      case Err(e) => Err(e)
      case Ok(vout) =>
        Pow256Values();
        Ok((OutPoint(txid.0, vout.0), vout.1))
  }

  function ReadU32(data: seq<Byte>, off: nat): Read<U32>
  {
    match ReadLE(data, off, 4)
    case Err(e) => Err(e)
    case Ok(v) =>
      Pow256Values();
      Ok((v.0, v.1))
  }

  predicate Always(data: seq<Byte>, off: nat)
  {
    true
  }

  lemma OutPointsReadBack(data: seq<Byte>)
    requires |data| <= USIZE_MAX
    ensures ReadsBack(ReadOutPoint, WriteOutPoint, Always, data)
  {
    hide LE, ReadLE, Pow256;
    Pow256Values();
    forall off: nat, o: OutPoint | At(data, off, WriteOutPoint(o))
      ensures WrittenAt(ReadOutPoint, WriteOutPoint, Always, data, off, o)
    {
      AtSplit(data, off, o.txid, LE(4, o.vout));
      ReadLEAt(data, off + 32, 4, o.vout);
    }
    forall off: nat | ReadOutPoint(data, off).Ok?
      ensures RewrittenAt(ReadOutPoint, WriteOutPoint, Always, data, off)
    {
      var o := ReadOutPoint(data, off).value.0;
      FixedRewrites(data, off + 32, 4);
      RewritesAppend(data, off, off + 32, off + 36, o.txid, LE(4, o.vout), true, true);
    }
  }

  lemma SequencesReadBack(data: seq<Byte>)
    requires |data| <= USIZE_MAX
    ensures ReadsBack(ReadU32, WriteU32, Always, data)
  {
    hide LE, ReadLE, Pow256;
    Pow256Values();
    forall off: nat, x: U32 | At(data, off, WriteU32(x))
      ensures WrittenAt(ReadU32, WriteU32, Always, data, off, x)
    {
      ReadLEAt(data, off, 4, x);
    }
    forall off: nat | ReadU32(data, off).Ok?
      ensures RewrittenAt(ReadU32, WriteU32, Always, data, off)
    {
      FixedRewrites(data, off, 4);
    }
  }

  lemma OutPointsInjective(xs: seq<OutPoint>, ys: seq<OutPoint>)
    requires |WriteMany(WriteOutPoint, xs)| <= USIZE_MAX
    ensures WriteMany(WriteOutPoint, xs) == WriteMany(WriteOutPoint, ys) ==> xs == ys
  {
    hide ReadsBack, WriteMany;
    if WriteMany(WriteOutPoint, xs) == WriteMany(WriteOutPoint, ys) {
      OutPointsReadBack(WriteMany(WriteOutPoint, xs));
      if |xs| <= |ys| {
        WriteManyInjective(ReadOutPoint, WriteOutPoint, Always, xs, ys);
      } else {
        WriteManyInjective(ReadOutPoint, WriteOutPoint, Always, ys, xs);
      }
    }
  }

  lemma SequencesInjective(xs: seq<U32>, ys: seq<U32>)
    requires |WriteMany(WriteU32, xs)| <= USIZE_MAX
    ensures WriteMany(WriteU32, xs) == WriteMany(WriteU32, ys) ==> xs == ys
  {
    hide ReadsBack, WriteMany;
    if WriteMany(WriteU32, xs) == WriteMany(WriteU32, ys) {
      SequencesReadBack(WriteMany(WriteU32, xs));
      if |xs| <= |ys| {
        WriteManyInjective(ReadU32, WriteU32, Always, xs, ys);
      } else {
        WriteManyInjective(ReadU32, WriteU32, Always, ys, xs);
      }
    }
  }

  lemma OutputsInjective(xs: seq<TxOut>, ys: seq<TxOut>)
    requires |WriteMany(WriteOutput, xs)| <= USIZE_MAX
    ensures WriteMany(WriteOutput, xs) == WriteMany(WriteOutput, ys) ==> xs == ys
  {
    hide ReadsBack, WriteMany, WriteOutput, OutputMinimal;
    if WriteMany(WriteOutput, xs) == WriteMany(WriteOutput, ys) {
      OutputsReadBack(WriteMany(WriteOutput, xs));
      if |xs| <= |ys| {
        WriteManyInjective(ReadOutput, WriteOutput, OutputMinimal, xs, ys);
      } else {
        WriteManyInjective(ReadOutput, WriteOutput, OutputMinimal, ys, xs);
      }
    }
  }

  // ------------------------------------------------------------------------- the code

  /** `prevouts`. */
  method Prevouts(tx: Transaction) returns (out: seq<Byte>)
    ensures out == WriteMany(WriteOutPoint, OutPoints(tx.inputs))
  {
    out := [];
    for i := 0 to |tx.inputs|
      invariant out == WriteMany(WriteOutPoint, OutPoints(tx.inputs)[..i])
    {
      assert OutPoints(tx.inputs)[..i + 1][..i] == OutPoints(tx.inputs)[..i];
      out := out + tx.inputs[i].outpoint.txid + LE(4, tx.inputs[i].outpoint.vout);
    }
    assert OutPoints(tx.inputs)[..|tx.inputs|] == OutPoints(tx.inputs);
  }

  /** `sequences`. */
  method Sequences(tx: Transaction) returns (out: seq<Byte>)
    ensures out == WriteMany(WriteU32, SequenceNumbers(tx.inputs))
  {
    out := [];
    for i := 0 to |tx.inputs|
      invariant out == WriteMany(WriteU32, SequenceNumbers(tx.inputs)[..i])
    {
      assert SequenceNumbers(tx.inputs)[..i + 1][..i] == SequenceNumbers(tx.inputs)[..i];
      out := out + LE(4, tx.inputs[i].sequence);
    }
    assert SequenceNumbers(tx.inputs)[..|tx.inputs|] == SequenceNumbers(tx.inputs);
  }

  /** `outputs_hash`. */
  method HashOutputs(hash: Hasher, tx: Transaction, index: nat, sighashType: Byte) returns (result: Result<Hash256, BsvError>)
    ensures result ==
            if Base(sighashType) == SIGHASH_SINGLE && index >= |tx.outputs| then Err(SighashSingleIndex)
            else Ok(OutputsHash(hash, tx, index, sighashType))
  {
    var base := Base(sighashType);
    if base != SIGHASH_SINGLE && base != SIGHASH_NONE {
      var out := [];
      for i := 0 to |tx.outputs|
        invariant out == WriteMany(WriteOutput, tx.outputs[..i])
      {
        assert tx.outputs[..i + 1][..i] == tx.outputs[..i];
        out := out + WriteOutput(tx.outputs[i]);
      }
      assert tx.outputs[..|tx.outputs|] == tx.outputs;
      return Ok(hash(out));
    } else if base == SIGHASH_SINGLE {
      if index >= |tx.outputs| {
        return Err(SighashSingleIndex);
      }
      return Ok(hash(WriteOutput(tx.outputs[index])));
    } else {
      return Ok(ZERO);
    }
  }

  /** `sighash`. */
  method ComputeSighash(hash: Hasher, tx: Transaction, index: nat, code: Script, value: U64, sighashType: Byte)
      returns (result: Result<Hash256, BsvError>)
    ensures result == Digest(hash, tx, index, code, value, sighashType)
    ensures result == Err(MalformedTx) <==> index >= |tx.inputs|
    ensures result == Err(SighashSingleIndex) <==>
              index < |tx.inputs| && sighashType % 0x20 == 3 && index >= |tx.outputs|
    ensures result.Err? ==> result.error in {MalformedTx, SighashSingleIndex}
  {
    hide LE, WriteVarint, WriteMany, OutPoints, SequenceNumbers, WriteOutput;
    var base, anyone := Base(sighashType), Anyone(sighashType);
    if index >= |tx.inputs| {
      return Err(MalformedTx);
    }
    var input := tx.inputs[index];
    if base == SIGHASH_SINGLE && index >= |tx.outputs| {
      return Err(SighashSingleIndex);
    }
    var prevouts := Prevouts(tx);
    var hashPrevouts := if anyone then ZERO else hash(prevouts);
    var sequences := Sequences(tx);
    var hashSequence := if anyone || base == SIGHASH_SINGLE || base == SIGHASH_NONE then ZERO else hash(sequences);
    var hashOutputs := HashOutputs(hash, tx, index, sighashType);
    if hashOutputs.Err? {
      return Err(SighashSingleIndex);
    }
    var p := LE(4, Word(tx.version));
    p := p + hashPrevouts;
    p := p + hashSequence;
    p := p + input.outpoint.txid;
    p := p + LE(4, input.outpoint.vout);
    p := p + WriteVarint(|code|);
    p := p + code;
    p := p + LE(8, value);
    p := p + LE(4, input.sequence);
    p := p + hashOutputs.value;
    p := p + LE(4, tx.locktime);
    p := p + LE(4, sighashType);
    Layout(LE(4, Word(tx.version)), hashPrevouts, hashSequence, input.outpoint.txid, LE(4, input.outpoint.vout),
           WriteVarint(|code|), code,
           LE(8, value), LE(4, input.sequence), hashOutputs.value, LE(4, tx.locktime), LE(4, sighashType));
    return Ok(hash(p));
  }

  /** Appending field by field gives the three parts of the pre-image. */
  lemma Layout(
      a: seq<Byte>, b: seq<Byte>, c: seq<Byte>, d: seq<Byte>, e: seq<Byte>, f: seq<Byte>, g: seq<Byte>,
      h: seq<Byte>, i: seq<Byte>, j: seq<Byte>, k: seq<Byte>, l: seq<Byte>)
    ensures a + b + c + d + e + f + g + h + i + j + k + l == a + b + c + (d + e) + (f + g) + (h + i + j + k + l)
  {
    assert a + b + c + d + e == a + b + c + (d + e);
    var x := a + b + c + (d + e);
    assert x + f + g == x + (f + g);
    var y := x + (f + g);
    assert y + h + i + j + k + l == y + (h + i + j + k + l);
  }
}
