/** What an accepted opening of an instance says about it, and what it leaves unsaid: open drops the
    recovered bits, checks the keys as prefixes, and takes the signature they come from on trust. */
module Acceptance {
  import opened Modular
  import opened Primes
  import opened Wrappers
  import opened Ecdsa
  import opened SharedSignature
  import opened CommitmentSpec
  import opened Openings
  import opened ZeroKnowledge
  import opened TimedCommitment
  import opened SellInformation
  import opened SignatureKey
  import opened Trade
  import BitUtils

  // ---------- the time lock ----------

  function LockedInteger(bits: seq<bool>): nat
    requires |bits| % 8 == 0
  {
    BitUtils.Decode(BitUtils.BitsToBytes(bits))
  }

  lemma RecoveredValue(com: Commitment, db: nat, n: pos)
    requires com.K >= 1 && |com.W| == com.K + 1
    ensures RecoveredKey(com, db, n).Ok? <==> SmartOpened(com).Ok? && |SmartOpened(com).value| % 8 == 0
    ensures RecoveredKey(com, db, n).Ok? ==>
      RecoveredKey(com, db, n).value == (LockedInteger(SmartOpened(com).value) * db) % n
  {
  }

  /** The bits are whole bytes, and their integer times G is S's half Qs of the public key. */
  predicate LocksHalfKey<Point(==)>(c: Curve<Point>, Qs: Point, bits: seq<bool>) {
    |bits| % 8 == 0 && c.At(LockedInteger(bits)) == Qs
  }

  lemma SameProduct<Point>(c: Curve<Point>, x: nat, ds: nat, db: nat)
    requires c.Lawful() && 0 < db < c.n
    ensures 0 <= x * db && c.At((x * db) % c.n) == c.At(c.Times(ds, db)) <==> c.At(x) == c.At(ds)
  {
    MulMono(0, x, db);
    MulMono(0, ds, db);
    AtInjective(c, (x * db) % c.n, ds * db);
    AtInjective(c, x, ds);
    ModMul(1, x * db, c.n);
    UnitFromRange(c.n, db);
    if (x * db) % c.n == (ds * db) % c.n {
      assert x * db == db * x && ds * db == db * ds;
      CancelUnit(db, x, ds, c.n);
    }
    if x % c.n == ds % c.n {
      CongMul(x, ds, db, db, c.n);
    }
  }

  /** For any commitment: what the buyer recovers from it is the private key of Q exactly when the
      smart search succeeds with bits that lock S's half key. */
  lemma RecoveredExactly<Point>(e: Setting<Point>, v: Samples, com: Commitment)
    requires e.Lawful() && 0 < v.db < e.curve.n && com.K >= 1 && |com.W| == com.K + 1
    ensures IsKeyOf(e, v, RecoveredKey(com, v.db, e.curve.n)) <==>
      SmartOpened(com).Ok? && LocksHalfKey(e.curve, e.curve.At(v.ds), SmartOpened(com).value)
  {
    RecoveredValue(com, v.db, e.curve.n);
    if RecoveredKey(com, v.db, e.curve.n).Ok? {
      KeyOfProduct(e, v, LockedInteger(SmartOpened(com).value));
    }
  }

  lemma KeyOfProduct<Point>(e: Setting<Point>, v: Samples, x: nat)
    requires e.Lawful() && 0 < v.db < e.curve.n
    ensures 0 <= x * v.db
    ensures IsKeyOf(e, v, Ok((x * v.db) % e.curve.n)) <==> e.curve.At(x) == e.curve.At(v.ds)
  {
    SameProduct(e.curve, x, v.ds, v.db);
  }

  /** A lock made by the protocol for any bits works for the buyer exactly when the bits are whole
      bytes that encode ds modulo n. */
  lemma LockWorksExactly<Point>(e: Setting<Point>, v: Samples, h: nat, bits: seq<bool>)
    requires e.Lawful() && InScalarRange(e.curve, v.ds) && InScalarRange(e.curve, v.db)
    requires |bits| <= Pow2(e.K - 1)
    ensures |bits| <= Pow2(e.K)
    ensures IsKeyOf(e, v, RecoveredKey(Honest(e.K, e.n, h, bits), v.db, e.curve.n)) <==>
      |bits| % 8 == 0 && LockedInteger(bits) % e.curve.n == v.ds
  {
    HonestSmartOpens(e.K, e.n, h, bits);
    RecoveredExactly(e, v, Honest(e.K, e.n, h, bits));
    if |bits| % 8 == 0 {
      AtInjective(e.curve, LockedInteger(bits), v.ds);
      ModSmall(v.ds, e.curve.n);
    }
  }

  // ---------- the keys ----------

  /** All digests have the same length. */
  ghost predicate Digests(hash: Bytes -> Bytes, len: nat) {
    forall x :: |hash(x)| == len
  }

  /** The hash separates the inputs of the two key lists. */
  predicate Separates(hash: Bytes -> Bytes, a: Bytes, b: Bytes) {
    forall i :: 0 <= i < L && KeyAt(hash, a, i) == KeyAt(hash, b, i) ==> a == b
  }

  predicate WholeKeys(keys: seq<Bytes>, len: nat) {
    forall i :: 0 <= i < |keys| ==> |keys[i]| == len
  }

  /** Keys that were checked against signature' are the keys of signature exactly when they are whole
      and the two signatures are the same. */
  lemma KeysGenuine(hash: Bytes -> Bytes, len: nat, signature: Bytes, signature': Bytes, keys: seq<Bytes>)
    requires Digests(hash, len) && Separates(hash, signature, signature')
    requires |keys| == L && KeysMatch(hash, signature', keys)
    ensures keys == Keys(hash, signature) <==> WholeKeys(keys, len) && signature' == signature
  {
    if keys == Keys(hash, signature) {
      assert keys[0] == KeyAt(hash, signature, 0) && keys[0] <= KeyAt(hash, signature', 0);
    }
    if WholeKeys(keys, len) && signature' == signature {
      forall i | 0 <= i < L ensures keys[i] == Keys(hash, signature)[i] {
        assert keys[i] <= Keys(hash, signature')[i];
      }
    }
  }

  /** Empty keys always pass. */
  lemma EmptyKeysMatch(hash: Bytes -> Bytes, signature: Bytes)
    ensures KeysMatch(hash, signature, seq(L, i => []))
  {
  }

  // ---------- accepted openings ----------

  /** Any accepted opening: (r, s) is valid under Q, and the instance can be sold exactly when the opened
      signature is (r, s), the opened keys are whole, and the smart search yields bits that lock S's
      half key. */
  lemma AcceptedSellable<Point>(e: Setting<Point>, v: Samples, deal: Deal, vp: nat, signature: Bytes, len: nat)
    requires e.Lawful() && 0 < v.db < e.curve.n && |deal.keys| == L
    requires OpeningOf(e, v, deal, vp, signature) == Ok(true)
    requires Shaped(deal.com) && deal.com.K >= 1 && |deal.com.W| == deal.com.K + 1
    requires Digests(e.hash, len) && Separates(e.hash, EncodeSignature(deal.r, deal.s), signature)
    ensures Verify(e.curve, e.Q(v), v.data, deal.r, deal.s) == Ok(true)
    ensures Sellable(e, v, deal) <==>
      && signature == EncodeSignature(deal.r, deal.s) && WholeKeys(deal.keys, len)
      && SmartOpened(deal.com).Ok? && LocksHalfKey(e.curve, e.curve.At(v.ds), SmartOpened(deal.com).value)
  {
    OpeningReports(e, v, deal, vp, signature, true);
    KeysGenuine(e.hash, len, EncodeSignature(deal.r, deal.s), signature, deal.keys);
    RecoveredExactly(e, v, deal.com);
  }

  /** With the chain that the zero-knowledge check proves and W[K-1] reduced, the bits that the
      opening itself returns decide, instead of those that would be forced. */
  lemma OpenedBitsDecide<Point>(e: Setting<Point>, v: Samples, deal: Deal, vp: nat, signature: Bytes, len: nat)
    requires e.Lawful() && 0 < v.db < e.curve.n && |deal.keys| == L
    requires OpeningOf(e, v, deal, vp, signature) == Ok(true)
    requires Shaped(deal.com) && deal.com.n == e.n && Accepted(deal.com) && CongruentChain(deal.com)
    requires deal.com.K >= 1 && deal.com.l <= Pow2(deal.com.K - 1) && deal.com.W[deal.com.K - 1] < e.n
    requires Digests(e.hash, len) && Separates(e.hash, EncodeSignature(deal.r, deal.s), signature)
    ensures Verify(e.curve, e.Q(v), v.data, deal.r, deal.s) == Ok(true) && Opened(deal.com, vp).Ok?
    ensures Sellable(e, v, deal) <==>
      && signature == EncodeSignature(deal.r, deal.s) && WholeKeys(deal.keys, len)
      && LocksHalfKey(e.curve, e.curve.At(v.ds), Opened(deal.com, vp).value)
  {
    OpenedIsForced(e.p, e.q, deal.com, vp);
    AcceptedSellable(e, v, deal, vp, signature, len);
  }

  lemma OpenedIsForced(p: pos, q: pos, com: Commitment, vp: nat)
    requires BlumPrimes(p, q) && com.n == p * q && Shaped(com) && Accepted(com) && CongruentChain(com)
    requires com.K >= 1 && com.l <= Pow2(com.K - 1) && com.W[com.K - 1] < com.n
    requires Opened(com, vp).Ok?
    ensures SmartOpened(com) == Opened(com, vp)
  {
    DecodeNeverFails(com, GetG(com.n, vp));
    ModSmall(com.W[com.K - 1], com.n);
    ChainOpens(com);
    AcceptedOpeningsAgree(p, q, com, vp, vp);
  }

  // ---------- instances that are accepted and useless ----------

  /** With the signature of an honest instance, any locked bits, any committed signature and any
      prefixes of its keys are accepted. */
  lemma OtherMessagesAccepted<Point>(e: Setting<Point>, v: Samples, bits: seq<bool>, signature: Bytes, keys: seq<Bytes>)
    requires e.Lawful() && e.Sampled(v) && e.Outcome(v).Ok? && |bits| <= Pow2(e.K)
    requires |keys| == L && KeysMatch(e.hash, signature, keys)
    ensures var com := Honest(e.K, e.n, v.h, bits);
      var deal := Deal(e.Outcome(v).value.r, e.Outcome(v).value.s, com, keys);
      OpeningOf(e, v, deal, OpeningValue(e.phi, com), signature) == Ok(true)
  {
    OutcomeExact(e, v);
    HonestValueOpens(e.p, e.q, e.n, e.K, v.h, bits);
  }

  /** The honest deal with an empty time lock. */
  function EmptyLock<Point(==)>(e: Setting<Point>, v: Samples): Deal
    requires e.Fits() && e.Sampled(v) && e.Outcome(v).Ok?
  {
    e.Outcome(v).value.(com := Honest(e.K, e.n, v.h, []))
  }

  /** It is accepted with the genuine signature and keys, and the buyer recovers the wrong key. */
  lemma EmptyLockAccepted<Point>(e: Setting<Point>, v: Samples)
    requires e.Lawful() && e.Sampled(v) && e.Outcome(v).Ok?
    ensures |EmptyLock(e, v).keys| == L && EmptyLock(e, v).com.l <= Pow2(EmptyLock(e, v).com.K)
    ensures Opening(e, v, EmptyLock(e, v)) == Ok(true)
    ensures RecoveredKey(EmptyLock(e, v).com, v.db, e.curve.n).Ok? && !Sellable(e, v, EmptyLock(e, v))
  {
    var deal := e.Outcome(v).value;
    OtherMessagesAccepted(e, v, [], EncodeSignature(deal.r, deal.s), deal.keys);
    HonestSmartOpens(e.K, e.n, v.h, []);
    LockWorksExactly(e, v, v.h, []);
    ModSmall(0, e.curve.n);
  }

  /** The honest deal with empty keys. */
  function EmptyKeys<Point(==)>(e: Setting<Point>, v: Samples): Deal
    requires e.Fits() && e.Sampled(v) && e.Outcome(v).Ok?
  {
    e.Outcome(v).value.(keys := seq(L, i => []))
  }

  /** It is accepted whatever signature was committed to, and its keys are not those of (r, s). */
  lemma EmptyKeysAccepted<Point>(e: Setting<Point>, v: Samples, signature: Bytes, len: nat)
    requires e.Lawful() && e.Sampled(v) && e.Outcome(v).Ok? && Digests(e.hash, len) && len > 0
    ensures |EmptyKeys(e, v).keys| == L && EmptyKeys(e, v).com.l <= Pow2(EmptyKeys(e, v).com.K)
    ensures OpeningOf(e, v, EmptyKeys(e, v), OpeningValue(e.phi, EmptyKeys(e, v).com), signature) == Ok(true)
    ensures !Sellable(e, v, EmptyKeys(e, v))
  {
    OutcomeLock(e, v);
    EmptyKeysMatch(e.hash, signature);
    OtherMessagesAccepted(e, v, BitUtils.IntegerBits(v.ds), signature, seq(L, i => []));
    var deal := EmptyKeys(e, v);
    assert |deal.keys[0]| != |KeyAt(e.hash, EncodeSignature(deal.r, deal.s), 0)|;
  }

  // ---------- the published signature ----------

  /** (r, n - s) is valid whenever (r, s) is, and it is encoded differently. */
  lemma MirroredSignature<Point>(c: Curve<Point>, d: nat, k: nat, m: Bytes)
    requires c.Lawful() && d % c.n != 0 && k % c.n != 0 && PlainSign(c, d, k, m).Ok?
    ensures var (r, s) := PlainSign(c, d, k, m).value;
      s < c.n && Verify(c, c.At(d), m, r, c.n - s) == Ok(true) &&
      EncodeSignature(r, c.n - s) != EncodeSignature(r, s)
  {
    var (r, s) := PlainSign(c, d, k, m).value;
    PlainSignVerifies(c, d, k, m);
    MirroredVerifies(c, d, k, m, r, s);
    BitUtils.SmallerFits(r, c.n);
    BitUtils.SmallerFits(s, c.n);
    BitUtils.SmallerFits(c.n - s, c.n);
    SignatureRoundTrip(r, s);
    SignatureRoundTrip(r, c.n - s);
  }

  lemma MirroredVerifies<Point>(c: Curve<Point>, d: nat, k: nat, m: Bytes, r: nat, s: nat)
    requires c.Lawful() && d % c.n != 0 && k % c.n != 0 && PlainSign(c, d, k, m) == Ok((r, s))
    ensures 0 < r < c.n && s < c.n && c.n - s != s && Verify(c, c.At(d), m, r, c.n - s) == Ok(true)
  {
    var e := HashToInt(m, ByteCount(c)).value;
    var s0 := PlainS(c.n, d, k, r, e);
    OddPrime(c.n);
    PrimeCoprime(c.n, k);
    PlainSEquation(c.n, d, k, r, e);
    PlainSignVerifies(c, d, k, m);
    MirroredSign(s0, c.n);
    VerifyDecides(c, d, k, m, r, c.n - s, s0);
  }

  lemma MirroredSign(s0: nat, n: pos)
    requires n % 2 == 1 && 0 < s0 < n
    ensures var s := LowS(s0, n);
      n - s != s && ((n - s) % n == s0 % n || (n - s + s0) % n == 0)
  {
    ModMultiple(1, n);
  }

  /** If the mirrored one is published, factorise derives other keys at every index. */
  lemma MirroredKeysDiffer<Point>(c: Curve<Point>, d: nat, k: nat, m: Bytes, hash: Bytes -> Bytes)
    requires c.Lawful() && d % c.n != 0 && k % c.n != 0 && PlainSign(c, d, k, m).Ok?
    requires var (r, s) := PlainSign(c, d, k, m).value;
      s < c.n && Separates(hash, EncodeSignature(r, s), EncodeSignature(r, c.n - s))
    ensures var (r, s) := PlainSign(c, d, k, m).value;
      forall i :: 0 <= i < L ==>
        Keys(hash, EncodeSignature(r, s))[i] != Keys(hash, EncodeSignature(r, c.n - s))[i]
  {
    MirroredSignature(c, d, k, m);
  }
}
