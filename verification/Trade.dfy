/** The whole trade: instances under cut and choose, the openings, the payment, and what the buyer
    ends up with. */
module Trade {
  import opened Modular
  import opened SquareRoots
  import opened Factoring
  import opened Wrappers
  import opened Ecdsa
  import opened SharedSignature
  import opened CommitmentSpec
  import opened TimedCommitment
  import opened SellInformation
  import opened SignatureKey
  import opened CutAndChoose
  import BitUtils

  // ---------- the inner protocol under cut and choose ----------

  /** The buyer's side of one instance. */
  datatype Side = Waiting | Executed(deal: Deal, openVerified: bool)

  function ExecInstance<Point(==)>(e: Setting<Point>, v: Samples): Result<(Samples, Side)> {
    if e.Fits() && e.Sampled(v) then
      var deal :- e.Outcome(v);
      Ok((v, Executed(deal, false)))
    else Err(NeverSampled)
  }

  function OpenInstance<Point(==)>(e: Setting<Point>, v: Samples, side: Side): Result<(Samples, Side)> {
    if e.Fits() && side.Executed? && |side.deal.keys| == L && side.deal.com.l <= Pow2(side.deal.com.K) then
      var verified :- Opening(e, v, side.deal);
      Ok((v, side.(openVerified := verified)))
    else Err(NeverSampled)
  }

  /** The inner protocol as cut and choose sees it. */
  function Instances<Point(==)>(e: Setting<Point>): Protocol<Samples, Side> {
    Protocol((v: Samples, side: Side) => Ok((v, side)),
             (v: Samples, side: Side) => ExecInstance(e, v),
             (v: Samples, side: Side) => OpenInstance(e, v, side),
             (side: Side) => side.Executed? && side.openVerified)
  }

  /** An executed instance opens well exactly when its signature is valid under Q, its lock opens and its
      keys match; cut and choose stops at any other. */
  lemma OpensWellExactly<Point>(e: Setting<Point>, v: Samples, deal: Deal, verified: bool)
    requires e.Fits() && |deal.keys| == L && deal.com.l <= Pow2(deal.com.K)
    ensures Instances(e).OpensWell((v, Executed(deal, verified))) <==>
      Verify(e.curve, e.Q(v), v.data, deal.r, deal.s) == Ok(true) &&
      Opened(deal.com, OpeningValue(e.phi, deal.com)).Ok? &&
      KeysMatch(e.hash, EncodeSignature(deal.r, deal.s), deal.keys)
  {
    OpeningReports(e, v, deal, OpeningValue(e.phi, deal.com), EncodeSignature(deal.r, deal.s), true);
    OpeningReports(e, v, deal, OpeningValue(e.phi, deal.com), EncodeSignature(deal.r, deal.s), false);
  }

  predicate AllSampled<Point(==)>(e: Setting<Point>, tapes: seq<Samples>)
    requires e.Fits()
  {
    forall i :: 0 <= i < |tapes| ==> e.Sampled(tapes[i])
  }

  predicate AllSucceed<Point(==)>(e: Setting<Point>, tapes: seq<Samples>)
    requires e.Fits() && AllSampled(e, tapes)
  {
    forall i :: 0 <= i < |tapes| ==> e.Outcome(tapes[i]).Ok?
  }

  lemma InstanceRuns<Point>(e: Setting<Point>, v: Samples)
    requires e.Lawful() && e.Sampled(v)
    ensures var run := Instances(e).Run(v, Waiting);
      run.SameOutcome(e.Outcome(v)) &&
      (run.Ok? ==> run.value == (v, Executed(e.Outcome(v).value, false)) && Instances(e).OpensWell(run.value))
  {
    if e.Outcome(v).Ok? {
      DealOpens(e, v);
    }
  }

  /** Among honest instances, generation succeeds exactly when every instance does. */
  lemma GenerationExact<Point>(e: Setting<Point>, tapes: seq<Samples>, sides: seq<Side>, chosen: int)
    requires e.Lawful() && AllSampled(e, tapes)
    requires |sides| == |tapes| && forall i :: 0 <= i < |sides| ==> sides[i] == Waiting
    ensures AllRun(Instances(e), tapes, sides) <==> AllSucceed(e, tapes)
    ensures AllRun(Instances(e), tapes, sides) ==> OthersOpenWell(Instances(e), tapes, sides, chosen)
  {
    forall i | 0 <= i < |tapes|
      ensures Instances(e).Run(tapes[i], sides[i]).Ok? <==> e.Outcome(tapes[i]).Ok?
      ensures Instances(e).Run(tapes[i], sides[i]).Ok? ==>
        Instances(e).OpensWell(Instances(e).Run(tapes[i], sides[i]).value)
    {
      InstanceRuns(e, tapes[i]);
    }
  }

  /** The key generation: cut and choose over all instances leaves the chosen one unopened. */
  method GenerateKeys<Point(==)>(e: Setting<Point>, tapes: seq<Samples>, chosen: nat) returns (res: Result<Deal>)
    requires e.Lawful() && AllSampled(e, tapes) && chosen < |tapes|
    ensures res.Ok? <==> AllSucceed(e, tapes)
    ensures res.Ok? ==> res == e.Outcome(tapes[chosen])
  {
    var sides := seq(|tapes|, i => Waiting);
    var p := new Prover(tapes);
    var v := new Verifier(sides, chosen);
    GenerationExact(e, tapes, sides, chosen);
    var ran := CutAndChoose.CutAndChoose(Instances(e), p, v);
    if ran.Err? {
      return Err(ran.error);
    }
    if !v.res {
      return Err(KeyGenerationFailed);
    }
    InstanceRuns(e, tapes[chosen]);
    assert IsRun(Instances(e), tapes, sides, (p.v[chosen], v.v[chosen]), chosen);
    return Ok(v.v[chosen].deal);
  }

  // ---------- the trade ----------

  /** How the trade ends for the buyer: with the factors, or with the key that takes the payment back. */
  datatype Settled = Sold(p: nat, q: nat) | Redeemed(d: nat)

  predicate ChosenBelowHalf(n: pos, xs: seq<nat>, indices: seq<nat>)
    requires forall i :: 0 <= i < |indices| ==> indices[i] < |xs|
  {
    forall i :: 0 <= i < |indices| ==> xs[indices[i]] < n / 2
  }

  predicate IsKeyOf<Point(==)>(e: Setting<Point>, v: Samples, d: Result<nat>) {
    d.Ok? && d.value < e.curve.n && e.curve.At(d.value) == e.Q(v)
  }

  /** What the buyer relies on: the keys come from the signature, and the time lock holds the rest of
      the private key of Q. */
  predicate Sellable<Point(==)>(e: Setting<Point>, v: Samples, deal: Deal) {
    && deal.keys == Keys(e.hash, EncodeSignature(deal.r, deal.s))
    && Shaped(deal.com) && deal.com.K >= 1 && |deal.com.W| == deal.com.K + 1
    && IsKeyOf(e, v, RecoveredKey(deal.com, v.db, e.curve.n))
  }

  /** Every executed instance is such a deal. */
  lemma OutcomeSellable<Point>(e: Setting<Point>, v: Samples)
    requires e.Lawful() && e.Sampled(v) && e.Outcome(v).Ok?
    ensures Sellable(e, v, e.Outcome(v).value)
  {
    OutcomeLock(e, v);
    BuyerGetsOut(e.curve, e.n, v.h, v.ds, v.db, e.K);
  }

  lemma OutcomeLock<Point>(e: Setting<Point>, v: Samples)
    requires e.Fits() && e.Sampled(v) && e.Outcome(v).Ok?
    ensures |BitUtils.IntegerBits(v.ds)| <= Pow2(e.K)
    ensures e.Outcome(v).value.com == Honest(e.K, e.n, v.h, BitUtils.IntegerBits(v.ds))
  {
    HalfKeyFits(v.ds, e.curve.n, e.K);
  }

  /** The buyer's way out of the chosen instance: force the time lock open. */
  method Redeem<Point(==)>(e: Setting<Point>, v: Samples, com: Commitment) returns (d: Result<nat>)
    requires Shaped(com) && com.K >= 1 && |com.W| == com.K + 1
    ensures d == RecoveredKey(com, v.db, e.curve.n)
  {
    var b := new B(e.curve, e.paillier.n, e.paillier.g);
    b.StartInit(v.db);
    var r := new Receiver();
    var accepted := r.AcceptCommitment(com);
    d := SolveTimeLock(b, r);
  }

  /** From the chosen instance on: the openings, and what follows the payment. */
  method Settle<Point(==)>(
    e: Setting<Point>, v: Samples, deal: Deal, s: Seller, b: Buyer,
    msr: (int, pos) -> int, cipher: Cipher, xs: seq<nat>, swaps: seq<bool>, shuffled: seq<nat>, published: bool)
    returns (res: Result<Settled>)
    requires Sellable(e, v, deal) && s.keys == deal.keys
    requires CanTrade(s, b, msr, cipher) && |xs| == |swaps| == L
    requires |shuffled| >= L / 2 && GoodIndices(shuffled[..L / 2])
    modifies s`y, s`r1, s`r2, s`c1, s`c2, s`d1, s`d2
    modifies b`x, b`y, b`indices, b`signature, b`keys, b`d1, b`d2, b`p, b`q
    ensures res.Ok? <==>
      ChosenBelowHalf(b.n, xs, shuffled[..L / 2]) && (published ==> CanFactor(b.n, xs, shuffled[..L / 2]))
    ensures res.Ok? ==> EndsWell(e, v, s, b, published, res.value)
  {
    if published {
      var exchanged :- Exchange(s, b, msr, cipher, e.hash, xs, swaps, shuffled, EncodeSignature(deal.r, deal.s));
      return Ok(Sold(b.p, b.q));
    } else {
      var ready :- OpenAll(s, b, msr, cipher, xs, swaps, shuffled);
      var d := Redeem(e, v, deal.com);
      return Ok(Redeemed(d.value));
    }
  }

  /** Seller and buyer before the trade: they agree on n, and nothing is opened yet. */
  ghost predicate CanTrade(s: Seller, b: Buyer, msr: (int, pos) -> int, cipher: Cipher)
    reads b
  {
    && OddPrimes(s.p, s.q) && FindsRoots(msr, s.p) && FindsRoots(msr, s.q) && cipher.Lawful()
    && s.p * s.q > 0 && s.n == b.n == s.p * s.q && s.squareRoot == Make(s.p, s.q)
    && |b.keys| == L && b.d1 == b.d2 == seq(L, i => [])
  }

  /** The parties as the program makes them can trade. */
  method Begin(p: pos, q: pos, ghost msr: (int, pos) -> int, ghost cipher: Cipher) returns (s: Seller, b: Buyer)
    requires OddPrimes(p, q) && FindsRoots(msr, p) && FindsRoots(msr, q) && cipher.Lawful()
    ensures fresh(s) && fresh(b) && s.p == p && s.q == q && CanTrade(s, b, msr, cipher)
  {
    s := new Seller(p, q, []);
    b := new Buyer(s.n);
  }

  /** The buyer holds the factors of n if the signature was published, and the key of Q otherwise. */
  predicate EndsWell<Point(==)>(e: Setting<Point>, v: Samples, s: Seller, b: Buyer, published: bool, end: Settled)
    reads b
  {
    if published then end == Sold(b.p, b.q) && IsProper((b.p, b.q), s.p, s.q)
    else end.Redeemed? && IsKeyOf(e, v, Ok(end.d))
  }

  /** The honest trade. Generation succeeds when every instance does; then only a chosen x that
      reaches n/2 can stop the openings. After the payment the buyer ends with the factors of n if
      the seller publishes the signature, and with the private key of Q otherwise; the factors are
      missed only if no unopened x is a unit. */
  method Trade<Point(==)>(
    e: Setting<Point>, tapes: seq<Samples>, chosen: nat, s: Seller, b: Buyer,
    msr: (int, pos) -> int, cipher: Cipher, xs: seq<nat>, swaps: seq<bool>, shuffled: seq<nat>, published: bool)
    returns (res: Result<Settled>)
    requires e.Lawful() && AllSampled(e, tapes) && chosen < |tapes|
    requires CanTrade(s, b, msr, cipher) && |xs| == |swaps| == L
    requires |shuffled| >= L / 2 && GoodIndices(shuffled[..L / 2])
    modifies s`keys, s`y, s`r1, s`r2, s`c1, s`c2, s`d1, s`d2
    modifies b`x, b`y, b`indices, b`signature, b`keys, b`d1, b`d2, b`p, b`q
    ensures res.Ok? <==>
      AllSucceed(e, tapes) && ChosenBelowHalf(b.n, xs, shuffled[..L / 2]) &&
      (published ==> CanFactor(b.n, xs, shuffled[..L / 2]))
    ensures res.Ok? ==> EndsWell(e, tapes[chosen], s, b, published, res.value)
  {
    var deal :- GenerateKeys(e, tapes, chosen);
    s.keys := deal.keys;
    OutcomeSellable(e, tapes[chosen]);
    res := Settle(e, tapes[chosen], deal, s, b, msr, cipher, xs, swaps, shuffled, published);
  }
}
