/**
 FROST-style threshold Schnorr (crates/custody/src/threshold.rs). The curve group of prime order
 q is represented by discrete logarithms: the point k*G is the scalar k, so point addition is
 scalar addition. The two hashes are parameters.
 */
module Frost {
  import opened Wrappers
  import opened NumberTheory
  import opened Fields
  import opened PrimeFields
  import opened Polynomials
  import opened Sequences
  import opened Lagrange
  import opened ScalarShamir

  type Point = int

  datatype SignError = Signing

  datatype GroupKey = GroupKey(public: Point)

  datatype NonceCommitment = NonceCommitment(index: int, commitment: int)

  datatype NonceReveal = NonceReveal(index: int, point: Point)

  datatype PartialSig = PartialSig(index: int, s: int)

  datatype ThresholdSignature = ThresholdSignature(r: Point, s: int)

  /** The digest of (R, P, message), before reduction modulo q. */
  type ChallengeHash = (Point, Point, seq<int>) -> int

  function ChallengeScalar(q: nat, hash: ChallengeHash, r: Point, public: Point, message: seq<int>): int
    requires q > 1
  {
    hash(r, public, message) % q
  }

  /** nonce + challenge * lambda * y. */
  function PartialValue(q: nat, hash: ChallengeHash, share: Share, nonce: int, message: seq<int>,
                        group: GroupKey, aggregated: Point, signingSet: seq<int>): int
    requires q > 1
  {
    var F := Zq(q);
    var e := ChallengeScalar(q, hash, aggregated, group.public, message);
    F.add(nonce, F.mul(F.mul(e, Coefficient(F, signingSet, share.x)), share.y))
  }

  class ThresholdParty {
    const share: Share
    var nonce: Option<int>
    var noncePoint: Option<Point>

    constructor (share: Share)
      ensures this.share == share && nonce == None && noncePoint == None
    {
      this.share := share;
      nonce, noncePoint := None, None;
    }

    /** Round one, with the drawn nonce. A second call replaces the first nonce. */
    method Commit(draw: int, commitHash: Point -> int) returns (c: NonceCommitment)
      modifies this
      ensures nonce == Some(draw) && noncePoint == Some(draw)
      ensures c == NonceCommitment(share.x, commitHash(draw))
    {
      nonce, noncePoint := Some(draw), Some(draw);
      c := NonceCommitment(share.x, commitHash(draw));
    }

    /** Round two. */
    method Reveal() returns (r: Result<NonceReveal, SignError>)
      ensures r == if noncePoint.None? then Err(Signing) else Ok(NonceReveal(share.x, noncePoint.value))
    {
      match noncePoint {
        case None => r := Err(Signing);
        case Some(point) => r := Ok(NonceReveal(share.x, point));
      }
    }

    /** Round three. */
    method PartialSign(q: nat, hash: ChallengeHash, message: seq<int>, group: GroupKey, aggregated: Point,
                       signingSet: seq<int>)
      returns (r: Result<PartialSig, SignError>)
      requires q > 1
      ensures nonce.None? ==> r == Err(Signing)
      ensures nonce.Some? ==>
                r == Ok(PartialSig(share.x, PartialValue(q, hash, share, nonce.value, message, group, aggregated, signingSet)))
    {
      if nonce.None? {
        return Err(Signing);
      }
      var F := Zq(q);
      var e := ChallengeScalar(q, hash, aggregated, group.public, message);
      var lambda := LagrangeCoefficient(q, signingSet, share.x);
      return Ok(PartialSig(share.x, F.add(nonce.value, F.mul(F.mul(e, lambda), share.y))));
    }
  }

  // -------------------------------------------------------------------- commitments

  function FindCommitment(commitments: seq<NonceCommitment>, index: int): Option<NonceCommitment>
  {
    if commitments == [] then None
    else if commitments[0].index == index then Some(commitments[0])
    else FindCommitment(commitments[1..], index)
  }

  predicate VerifyCommitments(commitHash: Point -> int, commitments: seq<NonceCommitment>, shown: seq<NonceReveal>)
  {
    && |commitments| == |shown|
    && forall i :: 0 <= i < |shown| ==>
         var found := FindCommitment(commitments, shown[i].index);
         found.Some? && found.value.commitment == commitHash(shown[i].point)
  }

  lemma {:induction false} FindAt(commitments: seq<NonceCommitment>, i: nat)
    requires i < |commitments|
    requires forall j, k :: 0 <= j < k < |commitments| ==> commitments[j].index != commitments[k].index
    ensures FindCommitment(commitments, commitments[i].index) == Some(commitments[i])
  {
    if i > 0 {
      assert commitments[0].index != commitments[i].index;
      FindAt(commitments[1..], i - 1);
    }
  }

  /** The first commitment with this reveal's index is to this reveal's point. */
  ghost predicate Matches(commitHash: Point -> int, commitments: seq<NonceCommitment>, opening: NonceReveal)
  {
    exists j ::
      && 0 <= j < |commitments| && IsFirst(commitments, j)
      && commitments[j] == NonceCommitment(opening.index, commitHash(opening.point))
  }

  ghost predicate IsFirst(commitments: seq<NonceCommitment>, j: nat)
    requires j < |commitments|
  {
    forall k :: 0 <= k < j ==> commitments[k].index != commitments[j].index
  }

  /** Accepted exactly when there are as many reveals as commitments and each reveal matches. */
  lemma CommitmentsAcceptedIff(commitHash: Point -> int, commitments: seq<NonceCommitment>, shown: seq<NonceReveal>)
    ensures VerifyCommitments(commitHash, commitments, shown) <==>
            && |commitments| == |shown|
            && forall i :: 0 <= i < |shown| ==> Matches(commitHash, commitments, shown[i])
  {
    forall i | 0 <= i < |shown|
      ensures (FindCommitment(commitments, shown[i].index).Some?
               && FindCommitment(commitments, shown[i].index).value.commitment == commitHash(shown[i].point)) <==>
              Matches(commitHash, commitments, shown[i])
    {
      MatchIff(commitHash, commitments, shown[i]);
    }
  }

  lemma MatchIff(commitHash: Point -> int, commitments: seq<NonceCommitment>, opening: NonceReveal)
    ensures Matches(commitHash, commitments, opening) <==>
            && FindCommitment(commitments, opening.index).Some?
            && FindCommitment(commitments, opening.index).value.commitment == commitHash(opening.point)
  {
    FindIsFirst(commitments, opening.index);
    var found := FindCommitment(commitments, opening.index);
    if found.Some? {
      var i :| 0 <= i < |commitments| && commitments[i] == found.value && commitments[i].index == opening.index
        && IsFirst(commitments, i);
      if Matches(commitHash, commitments, opening) {
        var j :| 0 <= j < |commitments| && IsFirst(commitments, j)
          && commitments[j] == NonceCommitment(opening.index, commitHash(opening.point));
        assert i == j;
      }
    }
  }

  lemma {:induction false} FindIsFirst(commitments: seq<NonceCommitment>, index: int)
    ensures FindCommitment(commitments, index).None? ==> forall j :: 0 <= j < |commitments| ==> commitments[j].index != index
    ensures FindCommitment(commitments, index).Some? ==>
              exists j ::
                && 0 <= j < |commitments| && commitments[j] == FindCommitment(commitments, index).value
                && commitments[j].index == index && IsFirst(commitments, j)
  {
    if commitments == [] {
    } else if commitments[0].index == index {
      assert IsFirst(commitments, 0);
    } else {
      FindIsFirst(commitments[1..], index);
      if FindCommitment(commitments, index).Some? {
        var rest := commitments[1..];
        var j :| 0 <= j < |rest| && rest[j] == FindCommitment(commitments, index).value && rest[j].index == index
          && IsFirst(rest, j);
        assert commitments[j + 1] == rest[j];
        assert IsFirst(commitments, j + 1);
      }
    }
  }

  /**
   A reveal that passes against the commitment made for another nonce exhibits two nonce points
   with one commitment hash; so, short of that, round two cannot change a committed nonce.
   */
  lemma CommitmentsBind(commitHash: Point -> int, points: seq<Point>, indices: seq<int>, shown: seq<NonceReveal>,
                        i: nat)
    requires |points| == |indices| == |shown| && Distinct(indices) && i < |shown|
    requires shown[i].index == indices[i]
    requires var commitments := seq(|points|, j requires 0 <= j < |points| => NonceCommitment(indices[j], commitHash(points[j])));
             VerifyCommitments(commitHash, commitments, shown)
    ensures shown[i].point == points[i]
         || (shown[i].point != points[i] && commitHash(shown[i].point) == commitHash(points[i]))
  {
    var commitments := seq(|points|, j requires 0 <= j < |points| => NonceCommitment(indices[j], commitHash(points[j])));
    FindAt(commitments, i);
  }

  // ---------------------------------------------------------- aggregation and checking

  function RevealPoints(shown: seq<NonceReveal>): seq<Point>
  {
    seq(|shown|, i requires 0 <= i < |shown| => shown[i].point)
  }

  function PartialScalars(partials: seq<PartialSig>): seq<int>
  {
    seq(|partials|, i requires 0 <= i < |partials| => partials[i].s)
  }

  function AggregatedNonce(q: nat, shown: seq<NonceReveal>): Point
    requires q > 1
  {
    Sum(Zq(q), RevealPoints(shown))
  }

  function Aggregate(q: nat, shown: seq<NonceReveal>, partials: seq<PartialSig>): ThresholdSignature
    requires q > 1
  {
    ThresholdSignature(AggregatedNonce(q, shown), Sum(Zq(q), PartialScalars(partials)))
  }

  /** s*G == R + e*P. */
  predicate Verify(q: nat, hash: ChallengeHash, group: GroupKey, message: seq<int>, signature: ThresholdSignature)
    requires q > 1
  {
    var e := ChallengeScalar(q, hash, signature.r, group.public, message);
    signature.s == Zq(q).add(signature.r, Zq(q).mul(group.public, e))
  }

  /** What honest parties reveal and sign in one round. */
  function HonestReveals(shares: seq<Share>, nonces: seq<int>): seq<NonceReveal>
    requires |shares| == |nonces|
  {
    seq(|shares|, i requires 0 <= i < |shares| => NonceReveal(shares[i].x, nonces[i]))
  }

  function HonestPartials(q: nat, hash: ChallengeHash, shares: seq<Share>, nonces: seq<int>, message: seq<int>,
                          group: GroupKey): seq<PartialSig>
    requires q > 1 && |shares| == |nonces|
  {
    var aggregated := AggregatedNonce(q, HonestReveals(shares, nonces));
    seq(|shares|, i requires 0 <= i < |shares| =>
      PartialSig(shares[i].x, PartialValue(q, hash, shares[i], nonces[i], message, group, aggregated, Xs(shares))))
  }

  /** The partial signatures are nonce plus challenge times additive share. */
  lemma PartialsCombine(q: nat, hash: ChallengeHash, shares: seq<Share>, nonces: seq<int>, message: seq<int>,
                        group: GroupKey)
    requires Prime(q) && |shares| == |nonces|
    ensures var F := Zq(q);
            var r := Sum(F, nonces);
            var e := ChallengeScalar(q, hash, r, group.public, message);
            && AggregatedNonce(q, HonestReveals(shares, nonces)) == r
            && PartialScalars(HonestPartials(q, hash, shares, nonces, message, group))
               == Combine(F, nonces, e, AdditiveShares(F, shares))
  {
    hide Lawful, Coefficient, Sum;
    var F := Zq(q);
    ZqLawful(q);
    assert RevealPoints(HonestReveals(shares, nonces)) == nonces;
    var e := ChallengeScalar(q, hash, Sum(F, nonces), group.public, message);
    var partials := PartialScalars(HonestPartials(q, hash, shares, nonces, message, group));
    forall i | 0 <= i < |shares|
      ensures partials[i] == Combine(F, nonces, e, AdditiveShares(F, shares))[i]
    {
      Fields.MulAssoc(F, e, Coefficient(F, Xs(shares), shares[i].x), shares[i].y);
    }
  }

  /**
   Whatever set signs, the aggregate verifies exactly when its additive shares add up to the
   group secret, or the challenge happens to be zero.
   */
  lemma AggregateVerifiesIff(q: nat, hash: ChallengeHash, x: int, shares: seq<Share>, nonces: seq<int>,
                             message: seq<int>)
    requires Prime(q) && |shares| == |nonces| && 0 <= x < q
    ensures var F := Zq(q);
            var group := GroupKey(x);
            var e := ChallengeScalar(q, hash, Sum(F, nonces), x, message);
            Verify(q, hash, group, message,
                   Aggregate(q, HonestReveals(shares, nonces), HonestPartials(q, hash, shares, nonces, message, group)))
            <==> e == 0 || Sum(F, AdditiveShares(F, shares)) == x
  {
    var F, group := Zq(q), GroupKey(x);
    var e := ChallengeScalar(q, hash, Sum(F, nonces), x, message);
    PartialsCombine(q, hash, shares, nonces, message, group);
    ZqLawful(q);
    assert F.has(e) && F.has(x) && F.zero == 0;
    SumCombine(F, nonces, e, AdditiveShares(F, shares));
    SumHas(F, AdditiveShares(F, shares));
    SameShiftIff(F, Sum(F, nonces), e, Sum(F, AdditiveShares(F, shares)), x);
  }

  /** r + e w = r + x e exactly when e = 0 or w = x. */
  lemma SameShiftIff(F: Field<int>, r: int, e: int, w: int, x: int)
    requires Lawful(F) && F.has(e) && F.has(w) && F.has(x)
    ensures F.add(r, F.mul(e, w)) == F.add(r, F.mul(x, e)) <==> e == F.zero || w == x
  {
    hide Lawful;
    Has(F, e, w);
    Has(F, x, e);
    AddComm(F, r, F.mul(e, w));
    AddComm(F, r, F.mul(x, e));
    Fields.MulComm(F, e, w);
    MulZero(F, w);
    MulZero(F, x);
    if F.add(r, F.mul(e, w)) == F.add(r, F.mul(x, e)) && e != F.zero {
      AddCancel(F, F.mul(e, w), F.mul(x, e), r);
      MulCancel(F, w, x, e);
    }
  }

  /** A completed round of any quorum of at least t parties of one split always verifies. */
  lemma QuorumSignatureVerifies(q: nat, hash: ChallengeHash, p: seq<int>, shares: seq<Share>, nonces: seq<int>,
                                message: seq<int>)
    requires Prime(q) && p != [] && Scalars(q, p) && SharesOf(q, p, shares) && |p| <= |shares| == |nonces|
    ensures var group := GroupKey(p[0]);
            Verify(q, hash, group, message,
                   Aggregate(q, HonestReveals(shares, nonces), HonestPartials(q, hash, shares, nonces, message, group)))
  {
    AdditiveSharesSum(q, p, shares);
    AggregateVerifiesIff(q, hash, p[0], shares, nonces, message);
  }

  // ------------------------------------------------------------------ what a signature binds

  /** Verification written out in the group: s = R + (digest of R, P and the message) P. */
  lemma VerifyIff(q: nat, hash: ChallengeHash, group: GroupKey, message: seq<int>, signature: ThresholdSignature)
    requires q > 1 && 0 <= signature.s < q
    ensures Verify(q, hash, group, message, signature) <==>
            Congruent(signature.s, signature.r + hash(signature.r, group.public, message) * group.public, q)
  {
    var e, h := hash(signature.r, group.public, message) % q, hash(signature.r, group.public, message);
    ModIdem(h, q);
    CongMul(h % q, h, group.public, q);
    NumberTheory.MulComm(h % q, group.public);
    ModIdem(group.public * e, q);
    CongAdd(signature.r, signature.r, (group.public * e) % q, h * group.public, q);
    DivModUnique(signature.s, q, 0, signature.s);
  }

  /**
   A signature that verifies for one message verifies for another exactly when the two digests agree
   modulo q (or the group key is the neutral point).
   */
  lemma VerifiesForOtherIff(
      q: nat, hash: ChallengeHash, group: GroupKey, a: seq<int>, b: seq<int>, signature: ThresholdSignature)
    requires Prime(q) && q > 1 && 0 <= signature.s < q && Verify(q, hash, group, a, signature)
    ensures Verify(q, hash, group, b, signature) <==>
            || group.public % q == 0
            || hash(signature.r, group.public, a) % q == hash(signature.r, group.public, b) % q
  {
    hide Verify, Prime;
    var r, p, x, y := signature.r, group.public, hash(signature.r, group.public, a), hash(signature.r, group.public, b);
    VerifyIff(q, hash, group, a, signature);
    VerifyIff(q, hash, group, b, signature);
    SumsAgreeIff(q, r, p, x, y);
  }

  lemma SumsAgreeIff(q: nat, r: int, p: int, x: int, y: int)
    requires Prime(q)
    ensures q > 1 && ((r + x * p) % q == (r + y * p) % q <==> p % q == 0 || x % q == y % q)
  {
    hide Prime;
    PrimeAboveOne(q);
    if (r + x * p) % q == (r + y * p) % q {
      CongAdd(r + x * p, r + y * p, r, r, q);
      if p % q != 0 {
        NumberTheory.MulComm(x, p);
        NumberTheory.MulComm(y, p);
        CancelMod(q, p, x, y);
      }
    }
    if p % q == 0 || x % q == y % q {
      TermsAgree(q, p, x, y);
      CongAdd(r, r, x * p, y * p, q);
    }
  }

  lemma TermsAgree(q: nat, p: int, x: int, y: int)
    requires q > 0 && (p % q == 0 || x % q == y % q)
    ensures (x * p) % q == (y * p) % q
  {
    if p % q == 0 {
      DivModUnique(0, q, 0, 0);
      CongMul(p, 0, x, q);
      CongMul(p, 0, y, q);
      NumberTheory.MulComm(x, p);
      NumberTheory.MulComm(y, p);
    } else {
      CongMul(x, y, p, q);
    }
  }

  lemma PrimeAboveOne(q: nat)
    requires Prime(q)
    ensures q > 1
  {
  }

  // -------------------------------------------------------------- one round over the parties

  function PartyShares(parties: seq<ThresholdParty>): (shares: seq<Share>)
    ensures |shares| == |parties|
  {
    seq(|parties|, i requires 0 <= i < |parties| => parties[i].share)
  }

  function HonestCommitments(commitHash: Point -> int, shares: seq<Share>, nonces: seq<int>): seq<NonceCommitment>
    requires |shares| == |nonces|
  {
    seq(|shares|, i requires 0 <= i < |shares| => NonceCommitment(shares[i].x, commitHash(nonces[i])))
  }

  /** Honest reveals pass against honest commitments. */
  lemma HonestCommitmentsPass(commitHash: Point -> int, shares: seq<Share>, nonces: seq<int>)
    requires |shares| == |nonces| && Distinct(Xs(shares))
    ensures VerifyCommitments(commitHash, HonestCommitments(commitHash, shares, nonces), HonestReveals(shares, nonces))
  {
    var commitments := HonestCommitments(commitHash, shares, nonces);
    assert forall j, k :: 0 <= j < k < |commitments| ==>
             commitments[j].index == Xs(shares)[j] != Xs(shares)[k] == commitments[k].index;
    forall i | 0 <= i < |shares|
      ensures FindCommitment(commitments, shares[i].x) == Some(commitments[i])
    {
      FindAt(commitments, i);
    }
  }

  /** Every party holds the nonce it drew. */
  ghost predicate Committed(parties: seq<ThresholdParty>, draws: seq<int>, n: nat)
    requires n <= |parties| == |draws|
    reads parties
  {
    forall i :: 0 <= i < n ==> parties[i].nonce == Some(draws[i]) && parties[i].noncePoint == Some(draws[i])
  }

  /** Round one. */
  method CommitAll(parties: seq<ThresholdParty>, draws: seq<int>, commitHash: Point -> int)
      returns (commitments: seq<NonceCommitment>)
    requires |parties| == |draws| && Distinct(parties)
    modifies parties
    ensures Committed(parties, draws, |parties|)
    ensures commitments == HonestCommitments(commitHash, PartyShares(parties), draws)
  {
    commitments := [];
    for i := 0 to |parties|
      invariant Committed(parties, draws, i)
      invariant commitments == HonestCommitments(commitHash, PartyShares(parties), draws)[..i]
    {
      var c := parties[i].Commit(draws[i], commitHash);
      commitments := commitments + [c];
    }
  }

  /** Round two. */
  method RevealAll(parties: seq<ThresholdParty>, ghost draws: seq<int>) returns (result: Result<seq<NonceReveal>, SignError>)
    requires |parties| == |draws| && Committed(parties, draws, |parties|)
    ensures result == Ok(HonestReveals(PartyShares(parties), draws))
  {
    var shown := [];
    for i := 0 to |parties|
      invariant shown == HonestReveals(PartyShares(parties), draws)[..i]
    {
      var r := parties[i].Reveal();
      if r.Err? {
        return Err(Signing);
      }
      shown := shown + [r.value];
    }
    assert shown == HonestReveals(PartyShares(parties), draws);
    return Ok(shown);
  }

  /** Round three. */
  method SignAll(q: nat, hash: ChallengeHash, parties: seq<ThresholdParty>, ghost draws: seq<int>, message: seq<int>,
                 group: GroupKey, shown: seq<NonceReveal>)
      returns (result: Result<seq<PartialSig>, SignError>)
    requires q > 1 && |parties| == |draws| && Committed(parties, draws, |parties|)
    requires shown == HonestReveals(PartyShares(parties), draws)
    ensures result == Ok(HonestPartials(q, hash, PartyShares(parties), draws, message, group))
  {
    hide PartialValue, AggregatedNonce;
    var aggregated := AggregatedNonce(q, shown);
    var signingSet := Xs(PartyShares(parties));
    var partials := [];
    for i := 0 to |parties|
      invariant partials == HonestPartials(q, hash, PartyShares(parties), draws, message, group)[..i]
    {
      var p := parties[i].PartialSign(q, hash, message, group, aggregated, signingSet);
      if p.Err? {
        return Err(Signing);
      }
      partials := partials + [p.value];
    }
    assert partials == HonestPartials(q, hash, PartyShares(parties), draws, message, group);
    return Ok(partials);
  }

  /**
   A whole round over the parties: commit, reveal, verify the commitments, sign, aggregate. It always
   completes, and for a quorum of at least t shares of one split the signature verifies.
   */
  method SignRound(q: nat, hash: ChallengeHash, commitHash: Point -> int, parties: seq<ThresholdParty>, draws: seq<int>,
                   message: seq<int>, group: GroupKey)
      returns (result: Result<ThresholdSignature, SignError>)
    requires Prime(q) && |parties| == |draws| && Distinct(parties) && Distinct(Xs(PartyShares(parties)))
    modifies parties
    ensures result.Ok? && Committed(parties, draws, |parties|)
    ensures forall p: seq<int> ::
              && p != [] && Scalars(q, p) && |p| <= |parties| && SharesOf(q, p, PartyShares(parties)) && group == GroupKey(p[0])
              ==> && Verify(q, hash, group, message, result.value)
                  && (p[0] != 0 ==>
                        forall other: seq<int> ::
                          Verify(q, hash, group, other, result.value) <==>
                          hash(result.value.r, p[0], message) % q == hash(result.value.r, p[0], other) % q)
  {
    hide Verify, Aggregate, HonestReveals, HonestPartials, VerifyCommitments, HonestCommitments, SharesOf, Scalars, Xs;
    var shares := PartyShares(parties);
    var commitments := CommitAll(parties, draws, commitHash);
    var shown := RevealAll(parties, draws);
    if shown.Err? {
      return Err(Signing);
    }
    HonestCommitmentsPass(commitHash, shares, draws);
    if !VerifyCommitments(commitHash, commitments, shown.value) {
      return Err(Signing);
    }
    PrimeAboveOne(q);
    var partials := SignAll(q, hash, parties, draws, message, group, shown.value);
    if partials.Err? {
      return Err(Signing);
    }
    forall p: seq<int> |
      && p != [] && Scalars(q, p) && |p| <= |parties| && SharesOf(q, p, shares) && group == GroupKey(p[0])
      ensures Verify(q, hash, group, message, Aggregate(q, shown.value, partials.value))
    {
      QuorumSignatureVerifies(q, hash, p, shares, draws, message);
    }
    ghost var signature := Aggregate(q, shown.value, partials.value);
    AggregateReduced(q, shown.value, partials.value);
    if Verify(q, hash, group, message, signature) {
      forall other: seq<int>
        ensures Verify(q, hash, group, other, signature) <==>
                || group.public % q == 0
                || hash(signature.r, group.public, message) % q == hash(signature.r, group.public, other) % q
      {
        VerifiesForOtherIff(q, hash, group, message, other, signature);
      }
    }
    forall p: seq<int> | p != [] && Scalars(q, p) && p[0] != 0
      ensures p[0] % q != 0
    {
      FirstNonzero(q, p);
    }
    return Ok(Aggregate(q, shown.value, partials.value));
  }

  lemma AggregateReduced(q: nat, shown: seq<NonceReveal>, partials: seq<PartialSig>)
    requires Prime(q) && q > 1
    ensures 0 <= Aggregate(q, shown, partials).s < q
  {
    hide Lawful, Sum;
    ZqLawful(q);
    SumHas(Zq(q), PartialScalars(partials));
  }

  lemma FirstNonzero(q: nat, p: seq<int>)
    requires q > 0 && p != [] && Scalars(q, p) && p[0] != 0
    ensures p[0] % q != 0
  {
    DivModUnique(p[0], q, 0, p[0]);
  }
}
