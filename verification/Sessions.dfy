/**
 Session transactions and their signing discipline (crates/session/src/builder.rs). The signature
 scheme and the hash functions are parameters.
 */
module Sessions {
  import opened Wrappers
  import opened Bytes
  import opened Transactions
  import opened Scripts
  import opened Sighash

  const SEQ_FINAL: U32 := 0xffff_ffff
  const MEMBER_FLAG: Byte := SIGHASH_SINGLE + SIGHASH_FORKID
  const BROADCASTER_FLAG: Byte := SIGHASH_ALL + SIGHASH_FORKID

  /** A DER signature over a 256-bit group: at most 72 bytes. */
  type Signature = s: seq<Byte> | |s| <= 72

  type Hash160 = h: seq<Byte> | |h| == 20 witness seq(20, _ => 0)

  datatype SesError = BadStructure | BadIndex | Bsv(error: BsvError) | Signing

  datatype MemberSpec = MemberSpec(pubkey: PublicKey, funding: OutPoint, inputValue: U64, outputValue: U64)

  datatype SessionParams = SessionParams(
    pubkey: PublicKey, funding: OutPoint, inputValue: U64, outputValue: U64, payload: seq<Byte>)

  /** The functions a session is computed with; signing may fail. */
  datatype Crypto = Crypto(
    hash: Hasher, hash160: seq<Byte> -> Hash160, publicKey: seq<Byte> -> PublicKey,
    sign: (seq<Byte>, Hash256) -> Option<Signature>, verify: (seq<Byte>, Hash256, seq<Byte>) -> bool)

  /** A signature verifies under its own key. */
  ghost predicate Correct(c: Crypto)
  {
    forall priv, d :: c.sign(priv, d).Some? ==> SignsWell(c, priv, d)
  }

  ghost predicate SignsWell(c: Crypto, priv: seq<Byte>, d: Hash256)
    requires c.sign(priv, d).Some?
  {
    c.verify(c.publicKey(priv), d, c.sign(priv, d).value)
  }

  // --------------------------------------------------------------------------- signing

  /** One call of `sign_member` or `sign_broadcaster`, told apart by the flag. */
  datatype SignCall = SignCall(index: nat, priv: seq<Byte>, pub: PublicKey, value: U64, flag: Byte)

  /** The pay-to-public-key-hash script of a key, byte by byte. */
  function LockFor(c: Crypto, pub: seq<Byte>): (script: Script)
    ensures script == [0x76, 0xa9, 0x14] + c.hash160(pub) + [0x88, 0xac]
  {
    P2pkhBytes(c.hash160(pub));
    P2pkh(c.hash160(pub))
  }

  function SigInputFor(c: Crypto, tx: Transaction, s: SignCall): SigInput
  {
    SigInput(tx, s.index, LockFor(c, s.pub), s.value, s.flag)
  }

  function DigestFor(c: Crypto, tx: Transaction, s: SignCall): Result<Hash256, BsvError>
  {
    DigestOf(c.hash, SigInputFor(c, tx, s))
  }

  function Unlocking(sig: Signature, flag: Byte, pub: PublicKey): (script: Script)
    ensures |script| <= 112
  {
    PushSize(sig + [flag]);
    PushSize(pub);
    PushData(sig + [flag]) + PushData(pub)
  }

  function WithUnlocking(tx: Transaction, i: nat, script: Script): Transaction
    requires i < |tx.inputs|
  {
    tx.(inputs := tx.inputs[i := tx.inputs[i].(unlocking := script)])
  }

  function Sign(c: Crypto, tx: Transaction, s: SignCall): Result<Transaction, SesError>
  {
    match DigestFor(c, tx, s)
    case Err(e) => Err(Bsv(e))
    case Ok(d) =>
      match c.sign(s.priv, d)
      case None => Err(Signing)
      case Some(sig) => Ok(WithUnlocking(tx, s.index, Unlocking(sig, s.flag, s.pub)))
  }

  /** `verify_unlock`. */
  function VerifyUnlock(c: Crypto, tx: Transaction, index: nat, d: Hash256): Result<bool, SesError>
  {
    if index >= |tx.inputs| then Err(BadIndex)
    else
      match ReadOps(tx.inputs[index].unlocking, 0, 0)
      case Err(e) => Err(Bsv(e))
      case Ok(ops) =>
        if |ops| == 2 && ops[0].Push? && ops[1].Push? then
          if ops[0].data == [] then Err(BadStructure)
          else Ok(c.verify(ops[1].data, d, ops[0].data[..|ops[0].data| - 1]))
        else Ok(false)
  }

  /** `verify_member` and `verify_broadcaster`. */
  function Verify(c: Crypto, tx: Transaction, s: SignCall): Result<bool, SesError>
  {
    match DigestFor(c, tx, s)
    case Err(e) => Err(Bsv(e))
    case Ok(d) => VerifyUnlock(c, tx, s.index, d)
  }

  /** The script is exactly a signature with its flag and a key, and the signature verifies under that key. */
  ghost predicate Unlocks(c: Crypto, script: Script, d: Hash256)
  {
    exists sig, flag, key :: ReadOps(script, 0, 0) == Ok([Push(sig + [flag]), Push(key)]) && c.verify(key, d, sig)
  }

  /** A positive answer means exactly that. */
  lemma VerifiesIff(c: Crypto, tx: Transaction, s: SignCall)
    ensures Verify(c, tx, s) == Ok(true) <==>
            && DigestFor(c, tx, s).Ok? && s.index < |tx.inputs|
            && Unlocks(c, tx.inputs[s.index].unlocking, DigestFor(c, tx, s).value)
  {
    hide DigestFor;
    if DigestFor(c, tx, s).Ok? && s.index < |tx.inputs| {
      UnlocksIff(c, tx, s.index, DigestFor(c, tx, s).value);
    }
  }

  lemma UnlocksIff(c: Crypto, tx: Transaction, index: nat, d: Hash256)
    requires index < |tx.inputs|
    ensures VerifyUnlock(c, tx, index, d) == Ok(true) <==> Unlocks(c, tx.inputs[index].unlocking, d)
  {
    var script := tx.inputs[index].unlocking;
    var read := ReadOps(script, 0, 0);
    if read.Ok? && |read.value| == 2 && read.value[0].Push? && read.value[1].Push? && read.value[0].data != [] {
      var whole, key := read.value[0].data, read.value[1].data;
      var sig, flag := whole[..|whole| - 1], whole[|whole| - 1];
      assert whole == sig + [flag] && read.value == [Push(sig + [flag]), Push(key)];
    }
    if Unlocks(c, script, d) {
      var sig, flag, key :| read == Ok([Push(sig + [flag]), Push(key)]) && c.verify(key, d, sig);
      assert (sig + [flag])[..|sig|] == sig;
    }
  }

  /** Signing touches one unlocking script and nothing else. */
  lemma SignTouches(c: Crypto, tx: Transaction, s: SignCall, i: nat)
    requires Sign(c, tx, s).Ok? && i < |tx.inputs|
    ensures var tx' := Sign(c, tx, s).value;
            && tx'.version == tx.version && tx'.outputs == tx.outputs && tx'.locktime == tx.locktime
            && |tx'.inputs| == |tx.inputs| && tx'.inputs[i].outpoint == tx.inputs[i].outpoint
            && tx'.inputs[i].sequence == tx.inputs[i].sequence && (i != s.index ==> tx'.inputs[i] == tx.inputs[i])
  {
    hide DigestOf, Unlocking;
    SignableIndex(c, tx, s);
  }

  // ------------------------------------------------------------------- one signature

  /** No digest of either kind looks at any unlocking script. */
  lemma UnlockingIgnored(c: Crypto, tx: Transaction, i: nat, script: Script, s: SignCall)
    requires i < |tx.inputs|
    ensures DigestFor(c, WithUnlocking(tx, i, script), s) == DigestFor(c, tx, s)
  {
    hide LockFor, Preimage;
    var tx' := WithUnlocking(tx, i, script);
    assert OutPoints(tx'.inputs) == OutPoints(tx.inputs);
    assert SequenceNumbers(tx'.inputs) == SequenceNumbers(tx.inputs);
    if Signable(tx, s.index, s.flag) {
      DigestLocal(c.hash, SigInputFor(c, tx, s), SigInputFor(c, tx', s));
    }
  }

  /** The unlocking script reads as the two pushes it was made from. */
  lemma UnlockingReads(sig: Signature, flag: Byte, pub: PublicKey)
    ensures ReadOps(Unlocking(sig, flag, pub), 0, 0) == Ok([Push(sig + [flag]), Push(pub)])
  {
    hide Assemble, NormalOps, PushData;
    var a, b := Push(sig + [flag]), Push(pub);
    AssembleCons(b, []);
    AssembleCons(a, [b] + []);
    assert [a] + ([b] + []) == [a, b];
    AssembleEmpty();
    PushSize(sig + [flag]);
    PushSize(pub);
    assert Assemble([a, b]) == Unlocking(sig, flag, pub);
    AssembleThenParse([a, b]);
  }

  lemma AssembleEmpty()
    ensures Assemble([]) == [] && NormalOps([]) == []
  {
  }

  /** A signature just made verifies. */
  lemma SignThenVerify(c: Crypto, tx: Transaction, s: SignCall)
    requires Correct(c) && s.pub == c.publicKey(s.priv) && Sign(c, tx, s).Ok?
    ensures Verify(c, Sign(c, tx, s).value, s) == Ok(true)
  {
    hide DigestFor, Unlocking;
    var d := DigestFor(c, tx, s).value;
    assert SignsWell(c, s.priv, d);
    var sig := c.sign(s.priv, d).value;
    var script := Unlocking(sig, s.flag, s.pub);
    UnlockingReads(sig, s.flag, s.pub);
    SignableIndex(c, tx, s);
    UnlockingIgnored(c, tx, s.index, script, s);
    assert (sig + [s.flag])[..|sig|] == sig;
  }

  lemma SignableIndex(c: Crypto, tx: Transaction, s: SignCall)
    requires DigestFor(c, tx, s).Ok?
    ensures s.index < |tx.inputs|
  {
  }

  /** Signing another input changes neither the digest nor the unlocking script of this one. */
  lemma OtherSigning(c: Crypto, tx: Transaction, s: SignCall, t: SignCall)
    requires Sign(c, tx, t).Ok? && t.index != s.index
    ensures Verify(c, Sign(c, tx, t).value, s) == Verify(c, tx, s)
  {
    hide DigestFor, Unlocking;
    var sig := c.sign(t.priv, DigestFor(c, tx, t).value).value;
    SignableIndex(c, tx, t);
    UnlockingIgnored(c, tx, t.index, Unlocking(sig, t.flag, t.pub), s);
  }

  // ---------------------------------------------------------------- any signing order

  function SignAll(c: Crypto, tx: Transaction, calls: seq<SignCall>): Result<Transaction, SesError>
    decreases |calls|
  {
    if calls == [] then Ok(tx)
    else
      match SignAll(c, tx, calls[..|calls| - 1])
      case Err(e) => Err(e)
      case Ok(tx') => Sign(c, tx', calls[|calls| - 1])
  }

  /**
   In whatever order members and broadcaster sign, each input's last honest signature still
   verifies when all the signing is done.
   */
  lemma {:induction false} EveryOrderVerifies(c: Crypto, tx: Transaction, calls: seq<SignCall>, k: nat)
    requires Correct(c) && SignAll(c, tx, calls).Ok? && k < |calls|
    requires calls[k].pub == c.publicKey(calls[k].priv)
    requires forall j :: k < j < |calls| ==> calls[j].index != calls[k].index
    ensures Verify(c, SignAll(c, tx, calls).value, calls[k]) == Ok(true)
    decreases |calls|
  {
    hide Sign, Verify;
    var n := |calls| - 1;
    var before := SignAll(c, tx, calls[..n]).value;
    if k == n {
      SignThenVerify(c, before, calls[n]);
    } else {
      assert calls[..n][k] == calls[k];
      EveryOrderVerifies(c, tx, calls[..n], k);
      OtherSigning(c, before, calls[k], calls[n]);
    }
  }

  // ------------------------------------------------------------ replacing the payload

  function WithOutput(tx: Transaction, r: nat, out: TxOut): Transaction
    requires r < |tx.outputs|
  {
    tx.(outputs := tx.outputs[r := out])
  }

  /** Another output can be replaced without touching a member's signature. */
  lemma MemberIgnoresOthers(c: Crypto, tx: Transaction, s: SignCall, r: nat, out: TxOut)
    requires s.flag == MEMBER_FLAG && r < |tx.outputs| && r != s.index
    ensures DigestFor(c, WithOutput(tx, r, out), s) == DigestFor(c, tx, s)
    ensures Verify(c, WithOutput(tx, r, out), s) == Verify(c, tx, s)
  {
    hide LockFor, Preimage;
    if Signable(tx, s.index, s.flag) {
      DigestLocal(c.hash, SigInputFor(c, tx, s), SigInputFor(c, WithOutput(tx, r, out), s));
    }
  }

  /** The buffers hashed for a call fit in memory. */
  ghost predicate Hashable(c: Crypto, tx: Transaction, s: SignCall)
  {
    Signable(tx, s.index, s.flag) && Fits(c.hash, SigInputFor(c, tx, s))
  }

  /** The digest is another one, or the hash collides on the inputs shown. */
  ghost predicate DigestMoves(c: Crypto, tx: Transaction, tx': Transaction, s: SignCall)
  {
    && Signable(tx, s.index, s.flag) && Signable(tx', s.index, s.flag)
    && (|| DigestFor(c, tx', s) != DigestFor(c, tx, s)
        || IsCollision(c.hash, Colliding(c.hash, SigInputFor(c, tx, s), SigInputFor(c, tx', s))))
  }

  /** Replacing an output a signature covers moves its digest: any output for 0x41, the own one for 0x43. */
  lemma CoveredOutputMoves(c: Crypto, tx: Transaction, s: SignCall, r: nat, out: TxOut)
    requires (s.flag == 0x43 && r == s.index) || s.flag == 0x41
    requires Hashable(c, tx, s) && r < |tx.outputs| && tx.outputs[r] != out
    ensures DigestMoves(c, tx, WithOutput(tx, r, out), s)
  {
    hide LockFor, Preimage, Colliding, IsCollision, SizesFit, Digest;
    var tx' := WithOutput(tx, r, out);
    if DigestFor(c, tx', s) == DigestFor(c, tx, s) {
      DigestBinds(c.hash, SigInputFor(c, tx, s), SigInputFor(c, tx', s));
      assert tx'.outputs[r] == out;
    }
  }

  /** The broadcaster's digest changes with any output. */
  lemma BroadcasterFixesOutputs(c: Crypto, tx: Transaction, s: SignCall, r: nat, out: TxOut)
    requires s.flag == BROADCASTER_FLAG && Hashable(c, tx, s)
    requires r < |tx.outputs| && tx.outputs[r] != out
    ensures DigestMoves(c, tx, WithOutput(tx, r, out), s)
  {
    hide Hashable, DigestMoves;
    CoveredOutputMoves(c, tx, s, r, out);
  }

  /** A member's digest changes with its own output. */
  lemma MemberFixesOwnOutput(c: Crypto, tx: Transaction, s: SignCall, out: TxOut)
    requires s.flag == MEMBER_FLAG && Hashable(c, tx, s)
    requires s.index < |tx.outputs| && tx.outputs[s.index] != out
    ensures DigestMoves(c, tx, WithOutput(tx, s.index, out), s)
  {
    hide Hashable, DigestMoves;
    CoveredOutputMoves(c, tx, s, s.index, out);
  }

  // --------------------------------------------------------------------------- building

  function InputFor(funding: OutPoint): TxIn
  {
    TxIn(funding, [], SEQ_FINAL)
  }

  /** The member's 1-of-2 output, byte by byte. */
  function MemberOutput(m: MemberSpec, broadcaster: PublicKey): (out: TxOut)
    ensures out.value == m.outputValue
    ensures out.locking == [0x51, 0x21] + m.pubkey + [0x21] + broadcaster + [0x52, 0xae]
  {
    PushSize(m.pubkey);
    PushSize(broadcaster);
    MultisigBytes(m.pubkey, broadcaster);
    TxOut(m.outputValue, BareMultisig(m.pubkey, broadcaster))
  }

  class SessionTx {
    var transaction: Transaction
    const memberCount: nat

    constructor (transaction: Transaction, memberCount: nat)
      ensures this.transaction == transaction && this.memberCount == memberCount
    {
      this.transaction := transaction;
      this.memberCount := memberCount;
    }

    /** `sign_member` / `sign_broadcaster`: overwrite one unlocking script, or fail and change nothing. */
    method SignInput(c: Crypto, s: SignCall)
        returns (result: Result<(), SesError>)
      modifies this
      ensures match Sign(c, old(transaction), s)
              case Err(e) => result == Err(e) && transaction == old(transaction)
              case Ok(tx) => result == Ok(()) && transaction == tx
    {
      var digest := ComputeSighash(c.hash, transaction, s.index, LockFor(c, s.pub), s.value, s.flag);
      assert digest == DigestFor(c, transaction, s);
      if digest.Err? {
        return Err(Bsv(digest.error));
      }
      var signature := c.sign(s.priv, digest.value);
      if signature.None? {
        return Err(Signing);
      }
      var unlock := PushData(signature.value + [s.flag]);
      unlock := unlock + PushData(s.pub);
      assert unlock == Unlocking(signature.value, s.flag, s.pub);
      var input := transaction.inputs[s.index].(unlocking := unlock);
      transaction := transaction.(inputs := transaction.inputs[s.index := input]);
      return Ok(());
    }
  }

  /** What `build_session` lays out: members first, then the broadcaster, then the payload. */
  ghost predicate Built(c: Crypto, members: seq<MemberSpec>, params: SessionParams, tx: Transaction)
  {
    var n := |members|;
    && |tx.inputs| == n + 1 && |tx.outputs| == n + 2 && tx.version == 1 && tx.locktime == 0
    && (forall i :: 0 <= i < n ==>
          && tx.inputs[i] == TxIn(members[i].funding, [], 0xffff_ffff)
          && tx.outputs[i].value == members[i].outputValue
          && tx.outputs[i].locking == [0x51, 0x21] + members[i].pubkey + [0x21] + params.pubkey + [0x52, 0xae])
    && tx.inputs[n] == TxIn(params.funding, [], 0xffff_ffff)
    && tx.outputs[n] == TxOut(params.outputValue, LockFor(c, params.pubkey))
    && tx.outputs[n + 1].value == 0 && tx.outputs[n + 1].locking == [0x00, 0x6a] + PushData(params.payload)
  }

  /** `build_session`. */
  method BuildSession(c: Crypto, members: seq<MemberSpec>, params: SessionParams)
      returns (result: Result<SessionTx, SesError>)
    requires |CarrierScript(params.payload)| <= USIZE_MAX
    ensures result.Err? <==> members == []
    ensures result.Err? ==> result == Err(BadStructure)
    ensures result.Ok? ==>
              && fresh(result.value) && result.value.memberCount == |members|
              && Built(c, members, params, result.value.transaction)
  {
    hide BareMultisig, CarrierScript, LockFor;
    if members == [] {
      return Err(BadStructure);
    }
    var inputs: seq<TxIn> := [];
    var outputs: seq<TxOut> := [];
    for i := 0 to |members|
      invariant |inputs| == |outputs| == i
      invariant forall j :: 0 <= j < i ==>
                  inputs[j] == InputFor(members[j].funding) && outputs[j] == MemberOutput(members[j], params.pubkey)
    {
      inputs := inputs + [InputFor(members[i].funding)];
      outputs := outputs + [MemberOutput(members[i], params.pubkey)];
    }
    inputs := inputs + [InputFor(params.funding)];
    outputs := outputs + [TxOut(params.outputValue, LockFor(c, params.pubkey))];
    outputs := outputs + [DataCarrier(params.payload)];
    var session := new SessionTx(Transaction(1, inputs, outputs, 0), |members|);
    return Ok(session);
  }

  /** The honest calls of a session. */
  predicate CallFor(members: seq<MemberSpec>, params: SessionParams, s: SignCall)
  {
    if s.index < |members| then
      s.pub == members[s.index].pubkey && s.value == members[s.index].inputValue && s.flag == MEMBER_FLAG
    else
      s.index == |members| && s.pub == params.pubkey && s.value == params.inputValue && s.flag == BROADCASTER_FLAG
  }

  /** Signing keeps everything but unlocking scripts, so every call of a session finds its index. */
  lemma {:induction false} SigningNeverMisses(
      c: Crypto, members: seq<MemberSpec>, params: SessionParams, tx: Transaction, calls: seq<SignCall>)
    requires Built(c, members, params, tx)
    requires forall j :: 0 <= j < |calls| ==> CallFor(members, params, calls[j])
    ensures SignAll(c, tx, calls).Ok? ==>
              && |SignAll(c, tx, calls).value.inputs| == |members| + 1
              && SignAll(c, tx, calls).value.outputs == tx.outputs
    ensures SignAll(c, tx, calls).Err? ==> SignAll(c, tx, calls).error == Signing
    decreases |calls|
  {
    hide LockFor, Preimage, Unlocking, PushData;
    if calls != [] {
      var n := |calls| - 1;
      SigningNeverMisses(c, members, params, tx, calls[..n]);
      assert CallFor(members, params, calls[n]);
    }
  }

  /** However a session was signed, a member's signature survives another payload. */
  lemma MemberSurvivesSwap(
      c: Crypto, members: seq<MemberSpec>, params: SessionParams, tx: Transaction, calls: seq<SignCall>,
      signed: Transaction, k: nat, out: TxOut)
    requires Correct(c) && Built(c, members, params, tx)
    requires (forall j :: 0 <= j < |calls| ==> CallFor(members, params, calls[j])) && SignAll(c, tx, calls) == Ok(signed)
    requires k < |calls| && calls[k].index < |members| && calls[k].pub == c.publicKey(calls[k].priv)
    requires forall j :: k < j < |calls| ==> calls[j].index != calls[k].index
    ensures |signed.outputs| == |members| + 2
    ensures Verify(c, WithOutput(signed, |members| + 1, out), calls[k]) == Ok(true)
  {
    hide Verify, DigestFor, LockFor, SignAll, Correct;
    SigningNeverMisses(c, members, params, tx, calls);
    assert CallFor(members, params, calls[k]);
    EveryOrderVerifies(c, tx, calls, k);
    MemberIgnoresOthers(c, signed, calls[k], |members| + 1, out);
  }

  /** And the broadcaster's does not: its digest is no longer the one that was signed. */
  lemma BroadcasterSeesSwap(
      c: Crypto, members: seq<MemberSpec>, params: SessionParams, tx: Transaction, calls: seq<SignCall>,
      signed: Transaction, s: SignCall, out: TxOut)
    requires Built(c, members, params, tx)
    requires (forall j :: 0 <= j < |calls| ==> CallFor(members, params, calls[j])) && SignAll(c, tx, calls) == Ok(signed)
    requires CallFor(members, params, s) && s.index == |members| && Hashable(c, signed, s)
    requires out != tx.outputs[|members| + 1]
    ensures |signed.outputs| == |members| + 2
    ensures DigestMoves(c, signed, WithOutput(signed, |members| + 1, out), s)
  {
    hide LockFor, SignAll, Hashable, DigestMoves;
    SigningNeverMisses(c, members, params, tx, calls);
    BroadcasterFixesOutputs(c, signed, s, |members| + 1, out);
  }

  /** However a session was signed, another output in a member's place is not what the member signed. */
  lemma MemberSeesOwnSwap(
      c: Crypto, members: seq<MemberSpec>, params: SessionParams, tx: Transaction, calls: seq<SignCall>,
      signed: Transaction, s: SignCall, out: TxOut)
    requires Built(c, members, params, tx)
    requires (forall j :: 0 <= j < |calls| ==> CallFor(members, params, calls[j])) && SignAll(c, tx, calls) == Ok(signed)
    requires CallFor(members, params, s) && s.index < |members| && Hashable(c, signed, s)
    requires out != MemberOutput(members[s.index], params.pubkey)
    ensures |signed.outputs| == |members| + 2
    ensures DigestMoves(c, signed, WithOutput(signed, s.index, out), s)
  {
    hide LockFor, SignAll, Hashable, DigestMoves, MemberOutput;
    SigningNeverMisses(c, members, params, tx, calls);
    MemberFixesOwnOutput(c, signed, s, out);
  }
}
