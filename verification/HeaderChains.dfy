/** The header chain and inclusion against it (crates/bsv/src/headerchain.rs, merkle.rs). */
module HeaderChains {
  import opened Wrappers
  import opened Bytes
  import opened Sighash
  import opened Headers
  import Merkle

  // ------------------------------------------------------------------- what a chain is

  /** Each header names its predecessor's hash and meets its own target. */
  ghost predicate Linked(hash: Hasher, headers: seq<BlockHeader>)
  {
    && (forall i :: 0 < i < |headers| ==> headers[i].prevBlockHash == BlockHash(hash, headers[i - 1]))
    && (forall i :: 0 <= i < |headers| ==> MeetsTarget(hash, headers[i]))
  }

  /** A linear scan for the last header with a merkle root. */
  function LastWithRoot(headers: seq<BlockHeader>, root: Hash256): (r: Option<nat>)
    ensures r.Some? ==> r.value < |headers| && headers[r.value].merkleRoot == root
    ensures forall i :: 0 <= i < |headers| && headers[i].merkleRoot == root ==> r.Some? && i <= r.value
  {
    if headers == [] then None
    else if headers[|headers| - 1].merkleRoot == root then Some(|headers| - 1)
    else LastWithRoot(headers[..|headers| - 1], root)
  }

  /** The root index agrees with the scan. */
  ghost predicate Indexed(headers: seq<BlockHeader>, start: nat, byRoot: map<Hash256, nat>)
  {
    forall root: Hash256 :: IndexedAt(headers, start, byRoot, root)
  }

  ghost predicate IndexedAt(headers: seq<BlockHeader>, start: nat, byRoot: map<Hash256, nat>, root: Hash256)
  {
    match LastWithRoot(headers, root)
    case None => root !in byRoot
    case Some(i) => root in byRoot && byRoot[root] == start + i
  }

  lemma IndexedStep(headers: seq<BlockHeader>, start: nat, byRoot: map<Hash256, nat>, h: BlockHeader)
    requires Indexed(headers, start, byRoot)
    ensures Indexed(headers + [h], start, byRoot[h.merkleRoot := start + |headers|])
  {
    var longer, byRoot' := headers + [h], byRoot[h.merkleRoot := start + |headers|];
    assert longer[..|headers|] == headers;
    forall root: Hash256
      ensures IndexedAt(longer, start, byRoot', root)
    {
      assert IndexedAt(headers, start, byRoot, root);
    }
  }

  // --------------------------------------------------------------- what a tip hash fixes

  function LastHash(hash: Hasher, headers: seq<BlockHeader>): Hash256
    requires headers != []
  {
    BlockHash(hash, headers[|headers| - 1])
  }

  /** The serialisations of the topmost pair of headers that differ. */
  function ChainCollision(a: seq<BlockHeader>, b: seq<BlockHeader>): (seq<Byte>, seq<Byte>)
    requires 0 < |a| <= |b|
    decreases |a|
  {
    var x, y := a[|a| - 1], b[|b| - 1];
    if x != y || |a| == 1 then (WriteHeader(x), WriteHeader(y))
    else ChainCollision(a[..|a| - 1], b[..|b| - 1])
  }

  lemma HeaderInjective(x: BlockHeader, y: BlockHeader)
    requires WriteHeader(x) == WriteHeader(y)
    ensures x == y
  {
    HeaderRoundTrip(x);
    HeaderRoundTrip(y);
  }

  /** Two chains with the same tip hash agree as far back as the shorter one goes, or the hash collides. */
  lemma {:induction false} TipFixesChain(hash: Hasher, a: seq<BlockHeader>, b: seq<BlockHeader>)
    requires Linked(hash, a) && Linked(hash, b) && 0 < |a| <= |b|
    requires LastHash(hash, a) == LastHash(hash, b)
    ensures a == b[|b| - |a|..] || IsCollision(hash, ChainCollision(a, b))
    decreases |a|
  {
    hide MeetsTarget, WriteHeader;
    var n, m := |a| - 1, |b| - 1;
    var x, y := a[n], b[m];
    if x != y {
      if WriteHeader(x) == WriteHeader(y) {
        HeaderInjective(x, y);
      }
    } else if n > 0 {
      TipFixesChain(hash, a[..n], b[..m]);
      if a[..n] == b[..m][m - n..] {
        SuffixSnoc(a, b, x);
      }
    } else {
      SuffixOne(a, b);
    }
  }

  function RootAt(headers: seq<BlockHeader>, start: nat, height: nat): Option<Hash256>
  {
    if start <= height < start + |headers| then Some(headers[height - start].merkleRoot) else None
  }

  /** The verdict on appending a header. */
  function Verdict(hash: Hasher, headers: seq<BlockHeader>, start: nat, header: BlockHeader): Result<(), BsvError>
  {
    if headers != [] && header.prevBlockHash != LastHash(hash, headers) then Err(ChainNotLinked)
    else if !MeetsTarget(hash, header) then Err(ChainBadPow)
    else if start + |headers| > U64_MAX then Err(OutOfRange)
    else Ok(())
  }

  lemma LinkedStep(hash: Hasher, headers: seq<BlockHeader>, header: BlockHeader)
    requires Linked(hash, headers)
    ensures Linked(hash, headers + [header]) <==>
            (headers != [] ==> header.prevBlockHash == LastHash(hash, headers)) && MeetsTarget(hash, header)
  {
    hide MeetsTarget, BlockHash;
    var longer := headers + [header];
    assert longer[|headers|] == header;
    if headers != [] {
      assert longer[|headers| - 1] == headers[|headers| - 1];
    }
  }

  lemma SuffixSnoc(a: seq<BlockHeader>, b: seq<BlockHeader>, x: BlockHeader)
    requires 1 < |a| <= |b| && a[|a| - 1] == b[|b| - 1] == x
    requires a[..|a| - 1] == b[..|b| - 1][|b| - |a|..]
    ensures a == b[|b| - |a|..]
  {
    forall i | 0 <= i < |a|
      ensures a[i] == b[|b| - |a| + i]
    {
      if i < |a| - 1 {
        assert a[..|a| - 1][i] == a[i];
      }
    }
  }

  lemma SuffixOne(a: seq<BlockHeader>, b: seq<BlockHeader>)
    requires |a| == 1 <= |b| && a[0] == b[|b| - 1]
    ensures a == b[|b| - |a|..]
  {
  }

  // ------------------------------------------------------------------- the mutable chain

  class HeaderChain {
    const hash: Hasher
    const startHeight: U64
    var headers: seq<BlockHeader>
    var byRoot: map<Hash256, nat>

    ghost predicate Valid()
      reads this
    {
      && Linked(hash, headers) && Indexed(headers, startHeight, byRoot)
      && startHeight + |headers| <= U64_MAX + 1
    }

    /** `new`. */
    constructor (hash: Hasher, startHeight: U64)
      ensures Valid() && headers == [] && this.startHeight == startHeight && this.hash == hash
    {
      this.hash := hash;
      this.startHeight := startHeight;
      headers := [];
      byRoot := map[];
    }

    /** `add`: exactly a linking header that meets its target, while heights last. */
    method Add(header: BlockHeader) returns (result: Result<(), BsvError>)
      requires Valid()
      modifies this
      ensures Valid()
      ensures result == Verdict(hash, old(headers), startHeight, header)
      ensures result.Ok? <==> Linked(hash, old(headers) + [header]) && startHeight + |old(headers)| <= U64_MAX
      ensures headers == if result.Ok? then old(headers) + [header] else old(headers)
      ensures byRoot == if result.Ok? then old(byRoot)[header.merkleRoot := startHeight + |old(headers)|] else old(byRoot)
    {
      hide MeetsTarget, Indexed, WriteHeader;
      LinkedStep(hash, headers, header);
      if headers != [] {
        var raw := SerializeHeader(headers[|headers| - 1]);
        if header.prevBlockHash != hash(raw[..]) {
          return Err(ChainNotLinked);
        }
      }
      var ok := CheckTarget(hash, header);
      if !ok {
        return Err(ChainBadPow);
      }
      var height := startHeight + |headers|;
      if height > U64_MAX {
        return Err(OutOfRange);
      }
      IndexedStep(headers, startHeight, byRoot, header);
      byRoot := byRoot[header.merkleRoot := height];
      headers := headers + [header];
      return Ok(());
    }

    /** `add_at_height`. */
    method AddAtHeight(header: BlockHeader, expected: U64) returns (result: Result<(), BsvError>)
      requires Valid()
      modifies this
      ensures Valid()
      ensures result ==
              if startHeight + |old(headers)| > U64_MAX then Err(OutOfRange)
              else if startHeight + |old(headers)| != expected then Err(ChainNonMonotonic)
              else Verdict(hash, old(headers), startHeight, header)
      ensures headers == if result.Ok? then old(headers) + [header] else old(headers)
    {
      var height := startHeight + |headers|;
      if height > U64_MAX {
        return Err(OutOfRange);
      }
      if height != expected {
        return Err(ChainNonMonotonic);
      }
      result := Add(header);
    }

    /** `merkle_root_at_height`. */
    function MerkleRootAtHeight(height: nat): Option<Hash256>
      reads this
    {
      RootAt(headers, startHeight, height)
    }

    /** `contains_merkle_root`: the greatest height that commits to a root. */
    method ContainsMerkleRoot(root: Hash256) returns (r: Option<nat>)
      requires Valid()
      ensures r.Some? ==> RootAt(headers, startHeight, r.value) == Some(root)
      ensures forall h: nat :: RootAt(headers, startHeight, h) == Some(root) ==> r.Some? && h <= r.value
    {
      hide Linked;
      assert IndexedAt(headers, startHeight, byRoot, root);
      r := if root in byRoot then Some(byRoot[root]) else None;
    }

    /** `tip_height`: the greatest height there is a header for. */
    method TipHeight() returns (r: Option<nat>)
      requires Valid()
      ensures r.Some? ==> r.value <= U64_MAX && RootAt(headers, startHeight, r.value).Some?
      ensures forall h: nat :: RootAt(headers, startHeight, h).Some? ==> r.Some? && h <= r.value
    {
      hide Linked, Indexed;
      r := if |headers| == 0 then None else Some(startHeight + (|headers| - 1));
    }
  }

  // ------------------------------------------------------------- inclusion against a chain

  /** `hash_pair`. */
  function Pair(hash: Hasher): (Hash256, Hash256) -> Hash256
  {
    (l: Hash256, r: Hash256) => hash(l + r)
  }

  /** `verify_against_chain`. */
  method VerifyAgainstChain(
      leaf: Hash256, proof: Merkle.MerkleProof<Hash256>, height: nat, chain: HeaderChain)
      returns (result: Result<(), BsvError>)
    ensures result.Ok? <==>
              && |proof.siblings| <= 64
              && chain.MerkleRootAtHeight(height) == Some(Merkle.Fold(Pair(chain.hash), leaf, proof.index, proof.siblings))
    ensures result.Err? ==>
              result == Err(if chain.MerkleRootAtHeight(height).Some? && |proof.siblings| > 64
                            then OutOfRange else MerkleMismatch)
  {
    var anchored := chain.MerkleRootAtHeight(height);
    if anchored.None? {
      return Err(MerkleMismatch);
    }
    var computed := Merkle.ComputeRootFromProof(Pair(chain.hash), leaf, proof);
    if computed.Err? {
      return Err(OutOfRange);
    }
    return if computed.value == anchored.value then Ok(()) else Err(MerkleMismatch);
  }

  /** The roots of two and of three transactions, written out with the hash itself. */
  lemma SmallRoots(hash: Hasher, a: Hash256, b: Hash256, c: Hash256)
    ensures Merkle.Root(Pair(hash), [a, b]) == hash(a + b)
    ensures Merkle.Root(Pair(hash), [a, b, c]) == hash(hash(a + b) + hash(c + c))
  {
    var pair := Pair(hash);
    AboveTwo(pair, [a, b]);
    Merkle.AboveAt(pair, [a, b, c], 0);
    Merkle.AboveAt(pair, [a, b, c], 1);
    var up := Merkle.Above(pair, [a, b, c]);
    assert up == [pair(a, b), pair(c, c)];
    AboveTwo(pair, up);
  }

  lemma AboveTwo<H>(pair: (H, H) -> H, s: seq<H>)
    requires |s| == 2
    ensures Merkle.Root(pair, s) == pair(s[0], s[1])
  {
    Merkle.AboveAt(pair, s, 0);
  }

  /** What is hashed for each side. */
  function Joined(c: ((Hash256, Hash256), (Hash256, Hash256))): (seq<Byte>, seq<Byte>)
  {
    var x: seq<Byte> := c.0.0 + c.0.1;
    var y: seq<Byte> := c.1.0 + c.1.1;
    (x, y)
  }

  /** A collision of the pair hash is a collision of the hash. */
  lemma PairCollides(hash: Hasher, c: ((Hash256, Hash256), (Hash256, Hash256)))
    requires Merkle.IsCollision(Pair(hash), c)
    ensures IsCollision(hash, Joined(c))
  {
    if c.0.0 + c.0.1 == c.1.0 + c.1.1 {
      Split(c.0.0, c.0.1, c.1.0, c.1.1);
    }
  }

  /**
   An accepted proof of full height, against a height whose header commits to the block's
   transactions, is for the transaction at its index, or the hash collides.
   */
  lemma AcceptedIsIncluded(hash: Hasher, leaves: seq<Hash256>, leaf: Hash256, proof: Merkle.MerkleProof<Hash256>)
    requires leaves != [] && |proof.siblings| == Merkle.Height(|leaves|) && proof.index < |leaves|
    requires Merkle.Fold(Pair(hash), leaf, proof.index, proof.siblings) == Merkle.Root(Pair(hash), leaves)
    ensures var c := Merkle.ProofCollision(Pair(hash), leaves, leaf, proof.index, proof.siblings);
            leaf == leaves[proof.index] || IsCollision(hash, Joined(c))
  {
    Merkle.ProofSound(Pair(hash), leaves, leaf, proof.index, proof.siblings);
    var c := Merkle.ProofCollision(Pair(hash), leaves, leaf, proof.index, proof.siblings);
    if leaf != leaves[proof.index] {
      PairCollides(hash, c);
    }
  }
}
