/** One instance of the inner protocol: a joint key, a joint signature, the seller's half key under
    a timed commitment, and the keys derived from the signature; and how the buyer gets out again. */
module SignatureKey {
  import opened Modular
  import opened Primes
  import opened Fermat
  import opened Wrappers
  import opened Ecdsa
  import opened JointSigning
  import opened SharedSignature
  import Paillier
  import opened CommitmentSpec
  import opened OrderExactness
  import opened TimedCommitment
  import opened SellInformation
  import BitUtils

  // ---------- the signature as key material ----------

  /** encode_signature: r and s in 32 bytes each. */
  function EncodeSignature(r: nat, s: nat): Bytes {
    BitUtils.Encode(r, 32) + BitUtils.Encode(s, 32)
  }

  /** The encoding loses nothing: whoever reads r and s from the chain derives the same keys, and
      no other signature has this encoding. */
  lemma SignatureRoundTrip(r: nat, s: nat)
    requires BitUtils.FitsIn32(r) && BitUtils.FitsIn32(s)
    ensures |EncodeSignature(r, s)| == 64
    ensures BitUtils.Decode(EncodeSignature(r, s)[..32]) == r
    ensures BitUtils.Decode(EncodeSignature(r, s)[32..]) == s
  {
    BitUtils.MinEncodedSizeFits(r, 32);
    BitUtils.MinEncodedSizeFits(s, 32);
    BitUtils.DecodeEncode(r, 32);
    BitUtils.DecodeEncode(s, 32);
    assert EncodeSignature(r, s)[..32] == BitUtils.Encode(r, 32);
    assert EncodeSignature(r, s)[32..] == BitUtils.Encode(s, 32);
  }

  /** verifyKeys compares as many bytes as the opened key has. */
  method VerifyKeys(hash: Bytes -> Bytes, signature: Bytes, keys: seq<Bytes>) returns (r: Result<()>)
    requires |keys| == L
    ensures r.Ok? <==> KeysMatch(hash, signature, keys)
    ensures r.Err? ==> r.error == InvalidKey
  {
    var expected := GenKeys(hash, signature);
    for i := 0 to L
      invariant forall j :: 0 <= j < i ==> keys[j] <= expected[j]
    {
      if !(keys[i] <= expected[i]) {
        return Err(InvalidKey);
      }
    }
    return Ok(());
  }

  // ---------- key recovery ----------

  lemma HalfKeyFits(ds: nat, n: nat, K: nat)
    requires ds <= n && BitUtils.FitsIn32(n) && K >= 9
    ensures |BitUtils.IntegerBits(ds)| <= Pow2(K - 1) <= Pow2(K)
  {
    BitUtils.SmallerFits(ds, n);
    LongLock(K);
  }

  lemma LongLock(K: nat)
    requires K >= 9
    ensures 256 <= Pow2(K - 1) <= Pow2(K)
  {
    BitUtils.Pow2Of8();
    Pow2IsPow(8);
    Pow2Ordered(8, K - 1);
  }

  lemma {:induction false} Pow2Ordered(j: nat, k: nat)
    requires j <= k
    ensures Pow2(j) <= Pow2(k)
  {
    if j < k { Pow2Ordered(j, k - 1); }
  }

  /** Key recovery end to end: squaring through the honest time lock yields the bits of the seller's
      half key, and with the buyer's half they are the private key of Q. */
  lemma KeyRecovery<Point>(c: Curve<Point>, n: pos, h: nat, ds: nat, db: nat, K: nat)
    requires c.Lawful() && ds < c.n && K >= 9
    ensures |BitUtils.IntegerBits(ds)| <= Pow2(K)
    ensures var bits := SmartOpened(Honest(K, n, h, BitUtils.IntegerBits(ds)));
      bits.Ok? && |bits.value| % 8 == 0 && BitUtils.Decode(BitUtils.BitsToBytes(bits.value)) == ds
    ensures 0 <= ds * db && c.At((ds * db) % c.n) == c.At(ds * db)
  {
    HalfKeyFits(ds, c.n, K);
    HonestSmartOpens(K, n, h, BitUtils.IntegerBits(ds));
    BitUtils.IntegerRoundTrip(ds);
    ReducedScalar(c, ds, db);
  }

  lemma ReducedScalar<Point>(c: Curve<Point>, ds: nat, db: nat)
    requires c.Lawful()
    ensures 0 <= ds * db && c.At((ds * db) % c.n) == c.At(ds * db)
  {
    MulMono(0, ds, db);
    ModMul(1, ds * db, c.n);
    AtInjective(c, (ds * db) % c.n, ds * db);
  }

  /** solve_time_lock up to the redeeming transaction: recover ds, multiply, reduce. */
  method SolveTimeLock<Point(==)>(b: B<Point>, r: Receiver) returns (d: Result<nat>)
    requires Shaped(r.com) && r.com.K >= 1 && |r.com.W| == r.com.K + 1
    ensures d == RecoveredKey(r.com, b.db, b.curve.n)
  {
    var bits, steps := r.ForceOpenSmart();
    if bits.Err? {
      return Err(bits.error);
    }
    var ds :- BitUtils.BitsToInteger(bits.value);
    return Ok((ds * b.db) % b.curve.n);
  }

  function RecoveredKey(com: Commitment, db: nat, n: pos): Result<nat>
    requires com.K >= 1 && |com.W| == com.K + 1
  {
    var bits :- SmartOpened(com);
    if |bits| % 8 != 0 then Err(BitCountNotMultipleOf8)
    else
      var ds := BitUtils.Decode(BitUtils.BitsToBytes(bits));
      MulMono(0, ds, db);
      Ok((ds * db) % n)
  }

  /** After an honest run the buyer's way out works: the recovered key is the key of Q. */
  lemma BuyerGetsOut<Point>(c: Curve<Point>, n: pos, h: nat, ds: nat, db: nat, K: nat)
    requires c.Lawful() && ds < c.n && K >= 9
    ensures |BitUtils.IntegerBits(ds)| <= Pow2(K)
    ensures var d := RecoveredKey(Honest(K, n, h, BitUtils.IntegerBits(ds)), db, c.n);
      d.Ok? && d.value < c.n && 0 <= ds * db && c.At(d.value) == c.At(ds * db)
  {
    KeyRecovery(c, n, h, ds, db, K);
  }

  // ---------- the inner protocol ----------

  /** What all instances of the inner protocol share: the curve, S's Paillier key, the commiter's
      primes, the length K of the time lock (29 in the program) and the hash that makes keys. */
  datatype Setting<!Point(==)> = Setting(
    curve: Curve<Point>, paillier: Paillier.Paillier, p: pos, q: pos, n: pos, phi: pos, K: nat, hash: Bytes -> Bytes)
  {
    ghost predicate Lawful() {
      && curve.Lawful() && Paillier.Sound(paillier) && LongEnough(paillier.n, curve.n)
      && SafePrime(p) && SafePrime(q) && p != q && phi == Phi(p, q) && Fits()
    }

    predicate Fits() {
      BitUtils.FitsIn32(curve.n) && paillier.p != 0 && paillier.q != 0 && p >= 7 && q >= 7 && n == p * q && K >= 9
    }

    /** The ranges that the parties sample from. */
    predicate Sampled(v: Samples)
      requires Fits()
    {
      && InScalarRange(curve, v.ds) && InScalarRange(curve, v.db)
      && InScalarRange(curve, v.ks) && InScalarRange(curve, v.kb) && v.mask < curve.n * curve.n
      && v.h % n != 0 && |v.values| == |v.alphas| == ROUNDS
      && forall j :: 0 <= j < ROUNDS ==>
           |v.values[j]| == K + 1 && AlphaInRange(K, v.alphas[j], FoundOrder(p, q, GetG(n, v.h)))
    }

    /** The rounds of the zero-knowledge check pass. */
    predicate RoundsPass(v: Samples)
      requires Fits() && Sampled(v)
    {
      Coprime(v.h, n) || forall j :: 0 <= j < ROUNDS ==> NoChallenge(K, v.values[j])
    }

    /** The joint public key. */
    function Q(v: Samples): Point {
      curve.At(curve.Times(v.ds, v.db))
    }

    /** exec of one instance: sign jointly, commit to ds, derive the keys. */
    function Outcome(v: Samples): Result<Deal>
      requires Fits() && Sampled(v)
    {
      var sig :- JointRun(curve, paillier, Q(v), v.data, v.ds, v.db, v.ks, v.kb, v.rho0, v.rho1, v.rho2, v.mask);
      HalfKeyFits(v.ds, curve.n, K);
      if RoundsPass(v)
      then Ok(Deal(sig.0, sig.1, Honest(K, n, v.h, BitUtils.IntegerBits(v.ds)),
                   Keys(hash, EncodeSignature(sig.0, sig.1))))
      else Err(ZVerificationFailed)
    }
  }

  /** Everything that the two parties sample in one instance, and the hash of T2 that they sign. */
  datatype Samples = Samples(
    ds: nat, db: nat, ks: nat, kb: nat, rho0: nat, rho1: nat, rho2: nat, mask: nat,
    h: nat, values: seq<seq<nat>>, alphas: seq<seq<nat>>, data: Bytes)

  /** What an executed instance leaves behind. */
  datatype Deal = Deal(r: nat, s: nat, com: Commitment, keys: seq<Bytes>)

  /** An instance succeeds exactly when the Paillier randomness consists of units, the one-signer
      signature exists and the rounds pass; then that is the signature, and it verifies. */
  lemma OutcomeExact<Point>(e: Setting<Point>, v: Samples)
    requires e.Lawful() && e.Sampled(v)
    ensures var sig := PlainSign(e.curve, e.curve.Times(v.ds, v.db), e.curve.Times(v.ks, v.kb), v.data);
      && (e.Outcome(v).Ok? <==> AllUnits(e.paillier.n, v.rho0, v.rho1, v.rho2) && sig.Ok? && e.RoundsPass(v))
      && (e.Outcome(v).Ok? ==> Ok((e.Outcome(v).value.r, e.Outcome(v).value.s)) == sig)
    ensures e.Outcome(v).Ok? ==> Verified(e, v, e.Outcome(v).value)
  {
    JointRunIsPlain(e.curve, e.paillier, v.data, v.ds, v.db, v.ks, v.kb, v.rho0, v.rho1, v.rho2, v.mask);
    ScalarProducts(e.curve, v.ds, v.db);
    ScalarProducts(e.curve, v.ks, v.kb);
    if e.Outcome(v).Ok? {
      PlainSignVerifies(e.curve, v.ds * v.db, v.ks * v.kb, v.data);
    }
  }

  /** The signature of a deal has a low s and verifies under Q. */
  predicate Verified<Point(==)>(e: Setting<Point>, v: Samples, deal: Deal)
    requires e.Fits()
  {
    0 < deal.s <= (e.curve.n - 1) / 2 && Verify(e.curve, e.Q(v), v.data, deal.r, deal.s) == Ok(true)
  }

  /** exec of the inner protocol on the parties' objects, without the calls to the Bitcoin client. */
  method SingleExec<Point(==)>(
    s: S<Point>, b: B<Point>, c: Commiter, r: Receiver, e: Setting<Point>, v: Samples, zkHash: nat -> Digest)
    returns (keys: Result<seq<Bytes>>)
    requires e.Lawful() && e.Sampled(v)
    requires s.curve == b.curve == e.curve && s.paillier == e.paillier
    requires b.paillier == Paillier.PublicKey(e.paillier.n, e.paillier.g)
    requires c.Valid() && c.p == e.p && c.q == e.q
    modifies s`data, s`ds, s`Qs, s`Qb, s`Q, s`ks, s`Ks, s`cs, s`r, s`s
    modifies b`data, b`db, b`Qb, b`Qs, b`Q, b`kb, b`K, b`r, b`cb
    modifies c`com, c`order, c`commits, c`alpha, r
    ensures s.Q == b.Q == e.Q(v) && s.ds == v.ds && b.db == v.db && s.data == b.data == v.data
    ensures keys.SameOutcome(e.Outcome(v)) && (keys.Ok? <==> e.Outcome(v).Ok?)
    ensures keys.Ok? ==> Ok(Deal(s.r, s.s, r.com, keys.value)) == e.Outcome(v) && c.com == r.com
  {
    var started := Init(s, b, v.ds, v.db);
    b.SetData(v.data);
    s.SetData(v.data);
    ScalarProducts(s.curve, v.ds, v.db);
    var signed :- Exec(s, b, v.ks, v.kb, v.rho0, v.rho1, v.rho2, v.mask);
    HalfKeyFits(v.ds, e.curve.n, e.K);
    var bits := BitUtils.IntegerToBits(s.ds);
    var committed :- RunCommit(c, r, e.K, bits.value, v.h, v.values, v.alphas, zkHash);
    var keyList := GenKeys(e.hash, EncodeSignature(s.r, s.s));
    return Ok(keyList);
  }

  /** What open reports: the verdict on the signature, unless an opening or the keys throw. The
      recovered bits are dropped. */
  function OpenResult(verified: Result<bool>, bits: Result<seq<bool>>, keysMatch: bool): Result<bool> {
    var v :- verified;
    var _ :- bits;
    if keysMatch then Ok(v) else Err(InvalidKey)
  }

  predicate KeysMatch(hash: Bytes -> Bytes, signature: Bytes, keys: seq<Bytes>)
    requires |keys| == L
  {
    forall i :: 0 <= i < L ==> keys[i] <= Keys(hash, signature)[i]
  }

  /** open of the inner protocol, from any state: keys and signature are the opened messages. A bad
      signature (r, s) is recorded and does not throw; a bad opening or key does. */
  method SingleOpen<Point(==)>(
    s: S<Point>, b: B<Point>, c: Commiter, r: Receiver, keys: seq<Bytes>, signature: Bytes, hash: Bytes -> Bytes)
    returns (res: Result<bool>)
    requires BitUtils.FitsIn32(b.curve.n) && |keys| == L
    requires c.com.l <= Pow2(c.com.K) && c.com.n == c.n && Shaped(r.com)
    modifies b`openVerified
    ensures res == OpenResult(Verify(b.curve, b.Q, b.data, s.r, s.s),
                              Opened(r.com, OpeningValue(c.phi, c.com)), KeysMatch(hash, signature, keys))
    ensures var verified := Verify(b.curve, b.Q, b.data, s.r, s.s);
      b.openVerified == if verified.Ok? then verified.value else old(b.openVerified)
    ensures res.Ok? ==> res.value == b.openVerified
    ensures res == Ok(true) ==> Verify(b.curve, b.Q, b.data, s.r, s.s) == Ok(true)
    ensures res.Ok? <==> |b.data| == 32 && Opened(r.com, OpeningValue(c.phi, c.com)).Ok? &&
                         KeysMatch(hash, signature, keys)
  {
    var opening :- SharedSignature.Open(s, b);
    var vp := c.Open();
    var bits :- r.Open(vp);
    var verified :- VerifyKeys(hash, signature, keys);
    return Ok(b.openVerified);
  }

  /** What open reports for the deal, when vp opens its time lock and signature is the committed one
      from which the keys are checked. */
  function OpeningOf<Point(==)>(e: Setting<Point>, v: Samples, deal: Deal, vp: nat, signature: Bytes): Result<bool>
    requires e.Fits() && |deal.keys| == L
  {
    OpenResult(Verify(e.curve, e.Q(v), v.data, deal.r, deal.s), Opened(deal.com, vp),
               KeysMatch(e.hash, signature, deal.keys))
  }

  /** An opening reports the verdict on the signature, and only if nothing throws: a good report means a
      signature that is valid under Q, a lock that opened, and keys that match. */
  lemma OpeningReports<Point>(e: Setting<Point>, v: Samples, deal: Deal, vp: nat, signature: Bytes, verdict: bool)
    requires e.Fits() && |deal.keys| == L
    ensures OpeningOf(e, v, deal, vp, signature) == Ok(verdict) <==>
      Verify(e.curve, e.Q(v), v.data, deal.r, deal.s) == Ok(verdict) && Opened(deal.com, vp).Ok? &&
      KeysMatch(e.hash, signature, deal.keys)
    ensures OpeningOf(e, v, deal, vp, signature) == Ok(true) ==>
      0 < deal.r < e.curve.n && 0 < deal.s < e.curve.n && e.Q(v) != e.curve.O
  {
    VerifyAdmits(e.curve, e.Q(v), v.data, deal.r, deal.s);
  }

  /** The same for an executed instance. */
  function Opening<Point(==)>(e: Setting<Point>, v: Samples, deal: Deal): Result<bool>
    requires e.Fits() && |deal.keys| == L && deal.com.l <= Pow2(deal.com.K)
  {
    OpeningOf(e, v, deal, OpeningValue(e.phi, deal.com), EncodeSignature(deal.r, deal.s))
  }

  /** Every instance that was executed opens well. */
  lemma DealOpens<Point>(e: Setting<Point>, v: Samples)
    requires e.Lawful() && e.Sampled(v) && e.Outcome(v).Ok?
    ensures var deal := e.Outcome(v).value;
      && |deal.keys| == L && deal.com.l <= Pow2(deal.com.K)
      && Opening(e, v, deal) == Ok(true)
  {
    OutcomeExact(e, v);
    HalfKeyFits(v.ds, e.curve.n, e.K);
    HonestValueOpens(e.p, e.q, e.n, e.K, v.h, BitUtils.IntegerBits(v.ds));
  }
}
