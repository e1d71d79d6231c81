/** Transactions: the defensive parser and the serializer (crates/bsv/src/transaction.rs). */
module Transactions {
  import opened Wrappers
  import opened Bytes

  const MAX_IO: nat := 10_000_000

  type Script = s: seq<Byte> | |s| <= USIZE_MAX

  datatype OutPoint = OutPoint(txid: Hash256, vout: U32)

  datatype TxIn = TxIn(outpoint: OutPoint, unlocking: Script, sequence: U32)

  datatype TxOut = TxOut(value: U64, locking: Script)

  datatype Transaction = Transaction(version: I32, inputs: seq<TxIn>, outputs: seq<TxOut>, locktime: U32)

  // ----------------------------------------------------------------- items of a list

  /** A reader's verdict on one item: where it was written it is read back, and rewriting what was
      read never lengthens it and gives it back exactly when its length prefix was minimal. */
  ghost predicate ReadsBack<T(!new)>(
      one: (seq<Byte>, nat) -> Read<T>, write: T -> seq<Byte>, minimal: (seq<Byte>, nat) -> bool, data: seq<Byte>)
  {
    && (forall off, x :: At(data, off, write(x)) ==> WrittenAt(one, write, minimal, data, off, x))
    && (forall off :: one(data, off).Ok? ==> RewrittenAt(one, write, minimal, data, off))
  }

  ghost predicate WrittenAt<T>(
      one: (seq<Byte>, nat) -> Read<T>, write: T -> seq<Byte>, minimal: (seq<Byte>, nat) -> bool,
      data: seq<Byte>, off: nat, x: T)
  {
    one(data, off) == Ok((x, off + |write(x)|)) && minimal(data, off)
  }

  ghost predicate RewrittenAt<T>(
      one: (seq<Byte>, nat) -> Read<T>, write: T -> seq<Byte>, minimal: (seq<Byte>, nat) -> bool,
      data: seq<Byte>, off: nat)
    requires one(data, off).Ok?
  {
    var (x, off') := one(data, off).value;
    Rewrites(data, off, off', write(x), minimal(data, off))
  }

  /** A rewriting of data[off..end]: no longer, and identical exactly when the flag holds. */
  ghost predicate Rewrites(data: seq<Byte>, off: nat, end: nat, bs: seq<Byte>, same: bool)
  {
    && off <= end <= |data|
    && (same ==> end == off + |bs| && At(data, off, bs))
    && (!same ==> off + |bs| < end)
  }

  /** Consecutive rewritings combine. */
  lemma RewritesAppend(
      data: seq<Byte>, off: nat, mid: nat, end: nat, a: seq<Byte>, b: seq<Byte>, sameA: bool, sameB: bool)
    requires Rewrites(data, off, mid, a, sameA) && Rewrites(data, mid, end, b, sameB)
    ensures Rewrites(data, off, end, a + b, sameA && sameB)
  {
    AtSplit(data, off, a, b);
  }

  /** k items in a row. */
  function ReadMany<T>(one: (seq<Byte>, nat) -> Read<T>, data: seq<Byte>, off: nat, k: nat): (r: Read<seq<T>>)
    ensures r.Ok? ==> |r.value.0| == k
    decreases k
  {
    if k == 0 then Ok(([], off))
    else
      match ReadMany(one, data, off, k - 1)
      case Err(e) => Err(e)
      case Ok(t) =>
        match one(data, t.1)
        case Err(e) => Err(e)
        case Ok(u) => Ok((t.0 + [u.0], u.1))
  }

  function WriteMany<T>(write: T -> seq<Byte>, xs: seq<T>): seq<Byte>
  {
    if xs == [] then [] else WriteMany(write, xs[..|xs| - 1]) + write(xs[|xs| - 1])
  }

  predicate ManyMinimal<T>(
      one: (seq<Byte>, nat) -> Read<T>, minimal: (seq<Byte>, nat) -> bool, data: seq<Byte>, off: nat, k: nat)
  {
    k > 0 ==>
      && ManyMinimal(one, minimal, data, off, k - 1)
      && var init := ReadMany(one, data, off, k - 1);
      (init.Ok? ==> minimal(data, init.value.1))
  }

  /** A failure stays a failure however many more items are asked for. */
  lemma {:induction false} ReadManyStuck<T>(one: (seq<Byte>, nat) -> Read<T>, data: seq<Byte>, off: nat, j: nat, k: nat)
    requires j <= k && ReadMany(one, data, off, j).Err?
    ensures ReadMany(one, data, off, k) == ReadMany(one, data, off, j)
    decreases k
  {
    if j < k {
      ReadManyStuck(one, data, off, j, k - 1);
    }
  }

  lemma {:induction false} ManyRoundTrip<T(!new)>(
      one: (seq<Byte>, nat) -> Read<T>, write: T -> seq<Byte>, minimal: (seq<Byte>, nat) -> bool,
      data: seq<Byte>, off: nat, xs: seq<T>)
    requires ReadsBack(one, write, minimal, data) && At(data, off, WriteMany(write, xs))
    ensures ReadMany(one, data, off, |xs|) == Ok((xs, off + |WriteMany(write, xs)|))
    ensures ManyMinimal(one, minimal, data, off, |xs|)
    decreases xs
  {
    if xs != [] {
      var n := |xs| - 1;
      var init := WriteMany(write, xs[..n]);
      AtSplit(data, off, init, write(xs[n]));
      ManyRoundTrip(one, write, minimal, data, off, xs[..n]);
      assert WrittenAt(one, write, minimal, data, off + |init|, xs[n]);
      assert xs == xs[..n] + [xs[n]];
    }
  }

  lemma {:induction false} ManyShrinks<T(!new)>(
      one: (seq<Byte>, nat) -> Read<T>, write: T -> seq<Byte>, minimal: (seq<Byte>, nat) -> bool,
      data: seq<Byte>, off: nat, k: nat)
    requires ReadsBack(one, write, minimal, data) && ReadMany(one, data, off, k).Ok? && off <= |data|
    ensures var (xs, end) := ReadMany(one, data, off, k).value;
            Rewrites(data, off, end, WriteMany(write, xs), ManyMinimal(one, minimal, data, off, k))
    decreases k
  {
    if k > 0 {
      ManyShrinks(one, write, minimal, data, off, k - 1);
      var (init, mid) := ReadMany(one, data, off, k - 1).value;
      var (x, end) := one(data, mid).value;
      assert RewrittenAt(one, write, minimal, data, mid);
      RewritesAppend(data, off, mid, end, WriteMany(write, init), write(x),
                     ManyMinimal(one, minimal, data, off, k - 1), minimal(data, mid));
      assert (init + [x])[..k - 1] == init;
    }
  }

  /** A counted list. */
  function ReadVec<T>(one: (seq<Byte>, nat) -> Read<T>, data: seq<Byte>, off: nat): Read<seq<T>>
  {
    match ReadVarint(data, off)
    case Err(e) => Err(e)
    case Ok(n) => if n.0 > MAX_IO then Err(MalformedTx) else ReadMany(one, data, n.1, n.0)
  }

  function WriteVec<T>(write: T -> seq<Byte>, xs: seq<T>): seq<Byte>
    requires |xs| <= U64_MAX
  {
    WriteVarint(|xs|) + WriteMany(write, xs)
  }

  predicate VecMinimal<T>(one: (seq<Byte>, nat) -> Read<T>, minimal: (seq<Byte>, nat) -> bool, data: seq<Byte>, off: nat)
  {
    var n := ReadVarint(data, off);
    n.Ok? ==> MinimalAt(data, off) && ManyMinimal(one, minimal, data, n.value.1, n.value.0)
  }

  lemma VecRoundTrip<T(!new)>(
      one: (seq<Byte>, nat) -> Read<T>, write: T -> seq<Byte>, minimal: (seq<Byte>, nat) -> bool,
      data: seq<Byte>, off: nat, xs: seq<T>)
    requires ReadsBack(one, write, minimal, data) && |data| <= USIZE_MAX
    requires |xs| <= U64_MAX && At(data, off, WriteVec(write, xs))
    ensures ReadVec(one, data, off) ==
            if |xs| <= MAX_IO then Ok((xs, off + |WriteVec(write, xs)|)) else Err(MalformedTx)
  {
    hide ReadsBack, WriteVarint, ReadVarint, MinimalAt;
    var count := WriteVarint(|xs|);
    AtSplit(data, off, count, WriteMany(write, xs));
    VarintRoundTrip(data, off, |xs|);
    ManyRoundTrip(one, write, minimal, data, off + |count|, xs);
  }

  lemma VecShrinks<T(!new)>(
      one: (seq<Byte>, nat) -> Read<T>, write: T -> seq<Byte>, minimal: (seq<Byte>, nat) -> bool,
      data: seq<Byte>, off: nat)
    requires ReadsBack(one, write, minimal, data) && ReadVec(one, data, off).Ok?
    ensures var (xs, end) := ReadVec(one, data, off).value;
            |xs| <= MAX_IO && Rewrites(data, off, end, WriteVec(write, xs), VecMinimal(one, minimal, data, off))
  {
    hide ReadsBack, WriteVarint, ReadVarint, MinimalAt;
    var (n, mid) := ReadVarint(data, off).value;
    VarintShrinks(data, off);
    ManyShrinks(one, write, minimal, data, mid, n);
    var (xs, end) := ReadVec(one, data, off).value;
    RewritesAppend(data, off, mid, end, WriteVarint(n), WriteMany(write, xs),
                   MinimalAt(data, off), ManyMinimal(one, minimal, data, mid, n));
  }

  // ------------------------------------------------------------- inputs and outputs

  function ReadInput(data: seq<Byte>, off: nat): Read<TxIn>
  {
    match Take(data, off, 32)
    case Err(e) => Err(e)
    case Ok(txid) =>
      match ReadLE(data, txid.1, 4)
      case Err(e) => Err(e)
      case Ok(vout) =>
        match ReadVarintBytes(data, vout.1)
        case Err(e) => Err(e)
        case Ok(script) =>
          match ReadLE(data, script.1, 4)
          case Err(e) => Err(e)
          case Ok(seqno) =>
            Pow256Values();
            Ok((TxIn(OutPoint(txid.0, vout.0), script.0, seqno.0), seqno.1))
  }

  function WriteInput(x: TxIn): seq<Byte>
  {
    x.outpoint.txid + LE(4, x.outpoint.vout) + WriteVarintBytes(x.unlocking) + LE(4, x.sequence)
  }

  predicate InputMinimal(data: seq<Byte>, off: nat)
  {
    ReadVarint(data, off + 36).Ok? ==> MinimalAt(data, off + 36)
  }

  function ReadOutput(data: seq<Byte>, off: nat): Read<TxOut>
  {
    match ReadLE(data, off, 8)
    case Err(e) => Err(e)
    case Ok(value) =>
      match ReadVarintBytes(data, value.1)
      case Err(e) => Err(e)
      case Ok(script) =>
        Pow256Values();
        Ok((TxOut(value.0, script.0), script.1))
  }

  function WriteOutput(x: TxOut): seq<Byte>
  {
    LE(8, x.value) + WriteVarintBytes(x.locking)
  }

  predicate OutputMinimal(data: seq<Byte>, off: nat)
  {
    ReadVarint(data, off + 8).Ok? ==> MinimalAt(data, off + 8)
  }

  lemma FixedRewrites(data: seq<Byte>, off: nat, n: nat)
    requires ReadLE(data, off, n).Ok?
    ensures Rewrites(data, off, off + n, LE(n, ReadLE(data, off, n).value.0), true)
  {
    ReadLEBack(data, off, n);
  }

  lemma RunRewrites(data: seq<Byte>, off: nat)
    requires ReadVarintBytes(data, off).Ok?
    ensures var (bs, end) := ReadVarintBytes(data, off).value;
            ReadVarint(data, off).Ok? && Rewrites(data, off, end, WriteVarintBytes(bs), MinimalAt(data, off))
  {
    RunShrinks(data, off);
  }

  lemma InputWritten(data: seq<Byte>, off: nat, x: TxIn)
    requires At(data, off, WriteInput(x)) && |data| <= USIZE_MAX
    ensures WrittenAt(ReadInput, WriteInput, InputMinimal, data, off, x)
  {
    hide LE, WriteVarintBytes, ReadVarintBytes, ReadLE, MinimalAt, Pow256;
    Pow256Values();
    var a, b, c, d := x.outpoint.txid, LE(4, x.outpoint.vout), WriteVarintBytes(x.unlocking), LE(4, x.sequence);
    AtSplit(data, off, a + b + c, d);
    AtSplit(data, off, a + b, c);
    AtSplit(data, off, a, b);
    ReadLEAt(data, off + 32, 4, x.outpoint.vout);
    RunRoundTrip(data, off + 36, x.unlocking);
    ReadLEAt(data, off + 36 + |c|, 4, x.sequence);
  }

  lemma InputRewritten(data: seq<Byte>, off: nat)
    requires ReadInput(data, off).Ok?
    ensures RewrittenAt(ReadInput, WriteInput, InputMinimal, data, off)
  {
    hide LE, WriteVarintBytes, ReadVarintBytes, ReadLE, MinimalAt, Pow256, ReadVarint;
    var (x, end) := ReadInput(data, off).value;
    var a, b, c, d := x.outpoint.txid, LE(4, x.outpoint.vout), WriteVarintBytes(x.unlocking), LE(4, x.sequence);
    FixedRewrites(data, off + 32, 4);
    RunRewrites(data, off + 36);
    var mid := ReadVarintBytes(data, off + 36).value.1;
    FixedRewrites(data, mid, 4);
    assert Rewrites(data, off, off + 32, a, true);
    RewritesAppend(data, off, off + 32, off + 36, a, b, true, true);
    RewritesAppend(data, off, off + 36, mid, a + b, c, true, MinimalAt(data, off + 36));
    RewritesAppend(data, off, mid, end, a + b + c, d, MinimalAt(data, off + 36), true);
  }

  lemma InputsReadBack(data: seq<Byte>)
    requires |data| <= USIZE_MAX
    ensures ReadsBack(ReadInput, WriteInput, InputMinimal, data)
  {
    hide ReadInput, WriteInput, InputMinimal, WrittenAt, RewrittenAt;
    forall off, x | At(data, off, WriteInput(x))
      ensures WrittenAt(ReadInput, WriteInput, InputMinimal, data, off, x)
    {
      InputWritten(data, off, x);
    }
    forall off | ReadInput(data, off).Ok?
      ensures RewrittenAt(ReadInput, WriteInput, InputMinimal, data, off)
    {
      InputRewritten(data, off);
    }
  }

  lemma OutputWritten(data: seq<Byte>, off: nat, x: TxOut)
    requires At(data, off, WriteOutput(x)) && |data| <= USIZE_MAX
    ensures WrittenAt(ReadOutput, WriteOutput, OutputMinimal, data, off, x)
  {
    hide LE, WriteVarintBytes, ReadVarintBytes, ReadLE, MinimalAt, Pow256;
    Pow256Values();
    AtSplit(data, off, LE(8, x.value), WriteVarintBytes(x.locking));
    ReadLEAt(data, off, 8, x.value);
    RunRoundTrip(data, off + 8, x.locking);
  }

  lemma OutputRewritten(data: seq<Byte>, off: nat)
    requires ReadOutput(data, off).Ok?
    ensures RewrittenAt(ReadOutput, WriteOutput, OutputMinimal, data, off)
  {
    hide LE, WriteVarintBytes, ReadVarintBytes, ReadLE, MinimalAt, Pow256, ReadVarint;
    var (x, end) := ReadOutput(data, off).value;
    FixedRewrites(data, off, 8);
    RunRewrites(data, off + 8);
    RewritesAppend(data, off, off + 8, end, LE(8, x.value), WriteVarintBytes(x.locking), true, MinimalAt(data, off + 8));
  }

  lemma OutputsReadBack(data: seq<Byte>)
    requires |data| <= USIZE_MAX
    ensures ReadsBack(ReadOutput, WriteOutput, OutputMinimal, data)
  {
    hide ReadOutput, WriteOutput, OutputMinimal, WrittenAt, RewrittenAt;
    forall off, x | At(data, off, WriteOutput(x))
      ensures WrittenAt(ReadOutput, WriteOutput, OutputMinimal, data, off, x)
    {
      OutputWritten(data, off, x);
    }
    forall off | ReadOutput(data, off).Ok?
      ensures RewrittenAt(ReadOutput, WriteOutput, OutputMinimal, data, off)
    {
      OutputRewritten(data, off);
    }
  }

  // ------------------------------------------------------------------- transactions

  function ReadTransaction(data: seq<Byte>): Result<Transaction, BsvError>
  {
    match ReadLE(data, 0, 4)
    case Err(e) => Err(e)
    case Ok(version) =>
      match ReadVec(ReadInput, data, version.1)
      case Err(e) => Err(e)
      case Ok(inputs) =>
        match ReadVec(ReadOutput, data, inputs.1)
        case Err(e) => Err(e)
        case Ok(outputs) =>
          match ReadLE(data, outputs.1, 4)
          case Err(e) => Err(e)
          case Ok(locktime) =>
            Pow256Values();
            if locktime.1 != |data| then Err(MalformedTx)
            else Ok(Transaction(Signed(version.0), inputs.0, outputs.0, locktime.0))
  }

  function WriteTransaction(tx: Transaction): seq<Byte>
    requires |tx.inputs| <= U64_MAX && |tx.outputs| <= U64_MAX
  {
    LE(4, Word(tx.version)) + WriteVec(WriteInput, tx.inputs) + WriteVec(WriteOutput, tx.outputs) + LE(4, tx.locktime)
  }

  /** Every CompactSize field of an accepted transaction is in its shortest form. */
  predicate TransactionMinimal(data: seq<Byte>)
  {
    && VecMinimal(ReadInput, InputMinimal, data, 4)
    && var inputs := ReadVec(ReadInput, data, 4);
    (inputs.Ok? ==> VecMinimal(ReadOutput, OutputMinimal, data, inputs.value.1))
  }

  /** Serialising then parsing gives the transaction back exactly when neither list is longer than ten million. */
  lemma SerializeThenParse(tx: Transaction)
    requires |tx.inputs| <= U64_MAX && |tx.outputs| <= U64_MAX && |WriteTransaction(tx)| <= USIZE_MAX
    ensures ReadTransaction(WriteTransaction(tx)) ==
            if |tx.inputs| <= 10_000_000 && |tx.outputs| <= 10_000_000 then Ok(tx) else Err(MalformedTx)
  {
    hide LE, WriteVec, ReadVec, ReadLE, Pow256, ReadsBack;
    Pow256Values();
    var data := WriteTransaction(tx);
    var a, b, c, d :=
      LE(4, Word(tx.version)), WriteVec(WriteInput, tx.inputs), WriteVec(WriteOutput, tx.outputs), LE(4, tx.locktime);
    assert At(data, 0, a + b + c + d);
    AtSplit(data, 0, a + b + c, d);
    AtSplit(data, 0, a + b, c);
    AtSplit(data, 0, a, b);
    InputsReadBack(data);
    OutputsReadBack(data);
    ReadLEAt(data, 0, 4, Word(tx.version));
    VecRoundTrip(ReadInput, WriteInput, InputMinimal, data, 4, tx.inputs);
    if |tx.inputs| <= MAX_IO {
      VecRoundTrip(ReadOutput, WriteOutput, OutputMinimal, data, 4 + |b|, tx.outputs);
    }
    if |tx.inputs| <= MAX_IO && |tx.outputs| <= MAX_IO {
      ReadLEAt(data, 4 + |b| + |c|, 4, tx.locktime);
    }
  }

  /** Re-serialising an accepted input never lengthens it, and reproduces it exactly when it was minimal. */
  lemma ParseThenSerialize(raw: seq<Byte>)
    requires |raw| <= USIZE_MAX && ReadTransaction(raw).Ok?
    ensures var tx := ReadTransaction(raw).value;
            && |tx.inputs| <= MAX_IO && |tx.outputs| <= MAX_IO
            && |WriteTransaction(tx)| <= |raw|
            && (WriteTransaction(tx) == raw <==> TransactionMinimal(raw))
  {
    hide LE, WriteVec, ReadVec, ReadLE, Pow256, ReadsBack, VecMinimal;
    var tx := ReadTransaction(raw).value;
    InputsReadBack(raw);
    OutputsReadBack(raw);
    FixedRewrites(raw, 0, 4);
    VecShrinks(ReadInput, WriteInput, InputMinimal, raw, 4);
    var mid := ReadVec(ReadInput, raw, 4).value.1;
    VecShrinks(ReadOutput, WriteOutput, OutputMinimal, raw, mid);
    var end := ReadVec(ReadOutput, raw, mid).value.1;
    FixedRewrites(raw, end, 4);
    Chain4(raw, mid, end, tx,
           VecMinimal(ReadInput, InputMinimal, raw, 4), VecMinimal(ReadOutput, OutputMinimal, raw, mid));
  }

  lemma Chain4(raw: seq<Byte>, mid: nat, end: nat, tx: Transaction, same1: bool, same2: bool)
    requires |tx.inputs| <= MAX_IO && |tx.outputs| <= MAX_IO
    requires Rewrites(raw, 0, 4, LE(4, Word(tx.version)), true)
    requires Rewrites(raw, 4, mid, WriteVec(WriteInput, tx.inputs), same1)
    requires Rewrites(raw, mid, end, WriteVec(WriteOutput, tx.outputs), same2)
    requires Rewrites(raw, end, |raw|, LE(4, tx.locktime), true)
    ensures |WriteTransaction(tx)| <= |raw| && (WriteTransaction(tx) == raw <==> same1 && same2)
  {
    hide LE, WriteVec;
    var a, b, c, d :=
      LE(4, Word(tx.version)), WriteVec(WriteInput, tx.inputs), WriteVec(WriteOutput, tx.outputs), LE(4, tx.locktime);
    RewritesAppend(raw, 0, 4, mid, a, b, true, same1);
    RewritesAppend(raw, 0, mid, end, a + b, c, same1, same2);
    RewritesAppend(raw, 0, end, |raw|, a + b + c, d, same1 && same2, true);
    assert raw[0..|raw|] == raw;
  }

  // ---------------------------------------------------------- where each field stands

  /** An input: transaction id, output index, length-prefixed script, sequence. */
  lemma InputAt(data: seq<Byte>, off: nat, x: TxIn)
    requires At(data, off, WriteInput(x))
    ensures var k := off + 36 + |WriteVarint(|x.unlocking|)|;
            && At(data, off, x.outpoint.txid) && At(data, off + 32, LE(4, x.outpoint.vout))
            && At(data, off + 36, WriteVarint(|x.unlocking|)) && At(data, k, x.unlocking)
            && At(data, k + |x.unlocking|, LE(4, x.sequence)) && |WriteInput(x)| == k + |x.unlocking| + 4 - off
  {
    hide LE, At, WriteVarint;
    var a, b, c, d := x.outpoint.txid, LE(4, x.outpoint.vout), WriteVarintBytes(x.unlocking), LE(4, x.sequence);
    AtSplit(data, off, a + b + c, d);
    AtSplit(data, off, a + b, c);
    AtSplit(data, off, a, b);
    AtSplit(data, off + 36, WriteVarint(|x.unlocking|), x.unlocking);
  }

  /** An output: value, length-prefixed script. */
  lemma OutputAt(data: seq<Byte>, off: nat, x: TxOut)
    requires At(data, off, WriteOutput(x))
    ensures var k := off + 8 + |WriteVarint(|x.locking|)|;
            && At(data, off, LE(8, x.value)) && At(data, off + 8, WriteVarint(|x.locking|)) && At(data, k, x.locking)
            && |WriteOutput(x)| == k + |x.locking| - off
  {
    hide LE, At, WriteVarint;
    AtSplit(data, off, LE(8, x.value), WriteVarintBytes(x.locking));
    AtSplit(data, off + 8, WriteVarint(|x.locking|), x.locking);
  }

  /** Item i of a list stands after the items before it. */
  lemma {:induction false} ItemAt<T>(write: T -> seq<Byte>, data: seq<Byte>, off: nat, xs: seq<T>, i: nat)
    requires At(data, off, WriteMany(write, xs)) && i < |xs|
    ensures At(data, off + |WriteMany(write, xs[..i])|, write(xs[i]))
    ensures |WriteMany(write, xs[..i + 1])| == |WriteMany(write, xs[..i])| + |write(xs[i])|
    decreases |xs|
  {
    hide At;
    var n := |xs| - 1;
    AtSplit(data, off, WriteMany(write, xs[..n]), write(xs[n]));
    assert xs[..i + 1][..i] == xs[..i];
    if i < n {
      ItemAt(write, data, off, xs[..n], i);
      assert xs[..n][..i] == xs[..i] && xs[..n][..i + 1] == xs[..i + 1];
    }
  }

  /** A transaction: version, counted inputs, counted outputs, locktime. */
  lemma TransactionAt(tx: Transaction)
    requires |tx.inputs| <= U64_MAX && |tx.outputs| <= U64_MAX
    ensures var data := WriteTransaction(tx);
            var i := 4 + |WriteVarint(|tx.inputs|)|;
            var o := i + |WriteMany(WriteInput, tx.inputs)|;
            var p := o + |WriteVarint(|tx.outputs|)|;
            && At(data, 0, LE(4, Word(tx.version))) && At(data, 4, WriteVarint(|tx.inputs|))
            && At(data, i, WriteMany(WriteInput, tx.inputs)) && At(data, o, WriteVarint(|tx.outputs|))
            && At(data, p, WriteMany(WriteOutput, tx.outputs))
            && |data| == p + |WriteMany(WriteOutput, tx.outputs)| + 4 && At(data, |data| - 4, LE(4, tx.locktime))
  {
    hide LE, At, WriteVarint, WriteMany;
    var data := WriteTransaction(tx);
    var a, b, c, d :=
      LE(4, Word(tx.version)), WriteVec(WriteInput, tx.inputs), WriteVec(WriteOutput, tx.outputs), LE(4, tx.locktime);
    WholeStands(data);
    AtSplit(data, 0, a + b + c, d);
    AtSplit(data, 0, a + b, c);
    AtSplit(data, 0, a, b);
    AtSplit(data, 4, WriteVarint(|tx.inputs|), WriteMany(WriteInput, tx.inputs));
    AtSplit(data, 4 + |b|, WriteVarint(|tx.outputs|), WriteMany(WriteOutput, tx.outputs));
  }

  lemma WholeStands(data: seq<Byte>)
    ensures At(data, 0, data)
  {
  }

  /** Two serialisable transactions with the same bytes are the same transaction. */
  lemma SerializeInjective(a: Transaction, b: Transaction)
    requires |a.inputs| <= MAX_IO && |a.outputs| <= MAX_IO && |b.inputs| <= MAX_IO && |b.outputs| <= MAX_IO
    requires |WriteTransaction(a)| <= USIZE_MAX && WriteTransaction(a) == WriteTransaction(b)
    ensures a == b
  {
    hide WriteTransaction, ReadTransaction;
    SerializeThenParse(a);
    SerializeThenParse(b);
  }

  // ------------------------------------------------------------------------- the code

  /** `parse_input`. */
  method ParseInput(cur: Cursor) returns (result: Result<TxIn, BsvError>)
    requires cur.Valid()
    modifies cur
    ensures cur.Valid()
    ensures match ReadInput(cur.data, old(cur.off))
            case Err(e) => result == Err(e)
            case Ok(t) => result == Ok(t.0) && cur.off == t.1
  {
    hide ReadVarintBytes, ReadLE, Take, Pow256;
    Pow256Values();
    var txid := cur.TakeBytes(32);
    if txid.Err? { return Err(txid.error); }
    var vout := cur.Uint(4);
    if vout.Err? { return Err(vout.error); }
    var script := cur.VarintBytes();
    if script.Err? { return Err(script.error); }
    var sequence := cur.Uint(4);
    if sequence.Err? { return Err(sequence.error); }
    return Ok(TxIn(OutPoint(txid.value, vout.value), script.value, sequence.value));
  }

  /** `parse_output`. */
  method ParseOutput(cur: Cursor) returns (result: Result<TxOut, BsvError>)
    requires cur.Valid()
    modifies cur
    ensures cur.Valid()
    ensures match ReadOutput(cur.data, old(cur.off))
            case Err(e) => result == Err(e)
            case Ok(t) => result == Ok(t.0) && cur.off == t.1
  {
    hide ReadVarintBytes, ReadLE, Take, Pow256;
    Pow256Values();
    var value := cur.Uint(8);
    if value.Err? { return Err(value.error); }
    var script := cur.VarintBytes();
    if script.Err? { return Err(script.error); }
    return Ok(TxOut(value.value, script.value));
  }

  /** `parse_vec` over inputs. */
  method ParseInputs(cur: Cursor) returns (result: Result<seq<TxIn>, BsvError>)
    requires cur.Valid()
    modifies cur
    ensures cur.Valid()
    ensures match ReadVec(ReadInput, cur.data, old(cur.off))
            case Err(e) => result == Err(e)
            case Ok(t) => result == Ok(t.0) && cur.off == t.1
  {
    hide ReadVarint, ReadInput;
    var n := cur.Varint();
    if n.Err? { return Err(n.error); }
    if n.value > MAX_IO { return Err(MalformedTx); }
    var out := [];
    var i := 0;
    ghost var start := cur.off;
    while i < n.value
      invariant 0 <= i <= n.value && cur.Valid()
      invariant ReadMany(ReadInput, cur.data, start, i) == Ok((out, cur.off))
    {
      var x := ParseInput(cur);
      if x.Err? {
        ReadManyStuck(ReadInput, cur.data, start, i + 1, n.value);
        return Err(x.error);
      }
      out := out + [x.value];
      i := i + 1;
    }
    return Ok(out);
  }

  /** `parse_vec` over outputs. */
  method ParseOutputs(cur: Cursor) returns (result: Result<seq<TxOut>, BsvError>)
    requires cur.Valid()
    modifies cur
    ensures cur.Valid()
    ensures match ReadVec(ReadOutput, cur.data, old(cur.off))
            case Err(e) => result == Err(e)
            case Ok(t) => result == Ok(t.0) && cur.off == t.1
  {
    hide ReadVarint, ReadOutput;
    var n := cur.Varint();
    if n.Err? { return Err(n.error); }
    if n.value > MAX_IO { return Err(MalformedTx); }
    var out := [];
    var i := 0;
    ghost var start := cur.off;
    while i < n.value
      invariant 0 <= i <= n.value && cur.Valid()
      invariant ReadMany(ReadOutput, cur.data, start, i) == Ok((out, cur.off))
    {
      var x := ParseOutput(cur);
      if x.Err? {
        ReadManyStuck(ReadOutput, cur.data, start, i + 1, n.value);
        return Err(x.error);
      }
      out := out + [x.value];
      i := i + 1;
    }
    return Ok(out);
  }

  /** `Transaction::parse`. */
  method Parse(raw: seq<Byte>) returns (result: Result<Transaction, BsvError>)
    requires |raw| <= USIZE_MAX
    ensures result == ReadTransaction(raw)
  {
    hide ReadVec, ReadLE, Pow256;
    Pow256Values();
    var cur := new Cursor(raw);
    var version := cur.Uint(4);
    if version.Err? { return Err(version.error); }
    var inputs := ParseInputs(cur);
    if inputs.Err? { return Err(inputs.error); }
    var outputs := ParseOutputs(cur);
    if outputs.Err? { return Err(outputs.error); }
    var locktime := cur.Uint(4);
    if locktime.Err? { return Err(locktime.error); }
    if cur.off != |raw| {
      return Err(MalformedTx);
    }
    return Ok(Transaction(Signed(version.value), inputs.value, outputs.value, locktime.value));
  }

  /** `Transaction::serialize`. */
  method Serialize(tx: Transaction) returns (result: Result<seq<Byte>, BsvError>)
    ensures result ==
            if |tx.inputs| <= U64_MAX && |tx.outputs| <= U64_MAX then Ok(WriteTransaction(tx)) else Err(OutOfRange)
  {
    hide LE, WriteVarint, WriteInput, WriteOutput;
    var out := LE(4, Word(tx.version));
    if |tx.inputs| > U64_MAX {
      return Err(OutOfRange);
    }
    out := out + WriteVarint(|tx.inputs|);
    ghost var head := out;
    for i := 0 to |tx.inputs|
      invariant out == head + WriteMany(WriteInput, tx.inputs[..i])
    {
      assert tx.inputs[..i + 1][..i] == tx.inputs[..i];
      out := out + WriteInput(tx.inputs[i]);
    }
    assert tx.inputs[..|tx.inputs|] == tx.inputs;
    assert out == LE(4, Word(tx.version)) + WriteVec(WriteInput, tx.inputs);
    if |tx.outputs| > U64_MAX {
      return Err(OutOfRange);
    }
    ghost var middle := out;
    out := out + WriteVarint(|tx.outputs|);
    head := out;
    for i := 0 to |tx.outputs|
      invariant out == head + WriteMany(WriteOutput, tx.outputs[..i])
    {
      assert tx.outputs[..i + 1][..i] == tx.outputs[..i];
      out := out + WriteOutput(tx.outputs[i]);
    }
    assert tx.outputs[..|tx.outputs|] == tx.outputs;
    assert out == middle + WriteVec(WriteOutput, tx.outputs);
    return Ok(out + LE(4, tx.locktime));
  }
}
