/** The two signing parties S and B and the protocol that makes them sign together. */
module SharedSignature {
  import opened Modular
  import opened Primes
  import opened Wrappers
  import opened Paillier
  import opened Ecdsa
  import opened JointSigning
  import BitUtils

  class S<Point(==)> {
    const curve: Curve<Point>
    var paillier: Paillier
    var data: seq<BitUtils.byte>
    var ds: nat
    var ks: nat
    var Qs: Point
    var Qb: Point
    var Q: Point
    var Ks: Point
    var cs: nat
    var r: nat
    var s: nat

    /** p and q are the primes that the Paillier constructor sampled. */
    constructor (curve: Curve<Point>, p: pos, q: pos)
      ensures this.curve == curve && paillier == KeyGen(p, q)
    {
      this.curve := curve;
      paillier := KeyGen(p, q);
      data, ds, ks, cs, r, s := [], 0, 0, 0, 0, 0;
      Qs, Qb, Q, Ks := curve.O, curve.O, curve.O, curve.O;
    }

    method SetData(data: seq<BitUtils.byte>)
      modifies this`data
      ensures this.data == data
    {
      this.data := data;
    }

    method StartInit(d: nat)
      modifies this`ds, this`Qs
      ensures ds == d && Qs == curve.At(d)
    {
      ds := d;
      Qs := curve.mul(ds, curve.G);
    }

    method FinishInit(Qb: Point)
      modifies this`Qb, this`Q
      ensures this.Qb == Qb && Q == curve.mul(ds, Qb)
    {
      this.Qb := Qb;
      this.Q := curve.mul(ds, Qb);
    }

    method StartSig(k: nat, rho: nat) returns (res: Result<()>)
      modifies this`ks, this`Ks, this`cs
      ensures ks == k && Ks == curve.At(k)
      ensures res.Ok? <==> paillier.Enc(ds, rho).Ok?
      ensures if res.Ok? then cs == paillier.Enc(ds, rho).value
              else cs == old(cs) && res.error == paillier.Enc(ds, rho).error
    {
      ks := k;
      Ks := curve.mul(ks, curve.G);
      match paillier.Enc(ds, rho)
      case Err(e) => res := Err(e);
      case Ok(c) =>
        cs := c;
        res := Ok(());
    }

    /** Decrypt, divide by ks, take the smaller of s and n - s, and verify before releasing it. */
    method FinishSig(r: nat, cb: nat) returns (res: Result<()>)
      requires paillier.p != 0 && paillier.q != 0 && BitUtils.FitsIn32(curve.n)
      modifies this`r, this`s
      ensures this.r == r
      ensures res.SameOutcome(Judgement(curve, Q, data, r, FinishedS(paillier, curve.n, ks, cb)))
      ensures FinishedS(paillier, curve.n, ks, cb) == Ok(0) ==> res == Err(SIsZero)
      ensures FinishedS(paillier, curve.n, ks, cb).Ok? && FinishedS(paillier, curve.n, ks, cb).value > 0 ==>
        (data == [] ==> res == Err(DataIsEmpty)) &&
        (|data| == 32 ==> (res.Ok? <==> Verify(curve, Q, data, r, s) == Ok(true)) &&
                          (res.Err? ==> res.error == InvalidSignature))
      ensures res.Ok? ==> FinishedS(paillier, curve.n, ks, cb).Ok?
      ensures res.Ok? ==> s == LowS(FinishedS(paillier, curve.n, ks, cb).value, curve.n)
    {
      this.r := r;
      var m :- paillier.Dec(cb);
      var s2 := m % curve.n;
      s := (InverseMod(ks, curve.n) * s2) % curve.n;
      if s == 0 {
        return Err(SIsZero);
      }
      if s > curve.n - s {
        s := curve.n - s;
      }
      if data == [] {
        return Err(DataIsEmpty);
      }
      var valid :- Verify(curve, Q, data, r, s);
      if !valid {
        return Err(InvalidSignature);
      }
      return Ok(());
    }
  }

  class B<Point(==)> {
    const curve: Curve<Point>
    var paillier: Paillier
    var data: seq<BitUtils.byte>
    var db: nat
    var kb: nat
    var Qs: Point
    var Qb: Point
    var Q: Point
    var K: Point
    var r: nat
    var cb: nat
    var openVerified: bool

    constructor (curve: Curve<Point>, paillierN: pos, paillierG: nat)
      ensures this.curve == curve && paillier == PublicKey(paillierN, paillierG)
    {
      this.curve := curve;
      paillier := PublicKey(paillierN, paillierG);
      data, db, kb, r, cb, openVerified := [], 0, 0, 0, 0, false;
      Qs, Qb, Q, K := curve.O, curve.O, curve.O, curve.O;
    }

    /** B's construction from S's public Paillier key, which it refuses when it is too short. */
    static method Create(curve: Curve<Point>, paillierN: pos, paillierG: nat) returns (res: Result<B<Point>>)
      ensures if paillierN > 2 * curve.n * curve.n * curve.n * curve.n
        then res.Ok? && fresh(res.value) && res.value.curve == curve &&
             res.value.paillier == PublicKey(paillierN, paillierG)
        else res == Err(PaillierTooShort)
    {
      if paillierN <= 2 * curve.n * curve.n * curve.n * curve.n {
        return Err(PaillierTooShort);
      }
      var b := new B(curve, paillierN, paillierG);
      return Ok(b);
    }

    method SetData(data: seq<BitUtils.byte>)
      modifies this`data
      ensures this.data == data
    {
      this.data := data;
    }

    method StartInit(d: nat)
      modifies this`db, this`Qb
      ensures db == d && Qb == curve.At(d)
    {
      db := d;
      Qb := curve.mul(db, curve.G);
    }

    method FinishInit(Qs: Point)
      modifies this`Qs, this`Q
      ensures this.Qs == Qs && Q == curve.mul(db, Qs)
    {
      this.Qs := Qs;
      this.Q := curve.mul(db, Qs);
    }

    /** Compute on S's encrypted half key. */
    method ContSig(Ks: Point, cs: nat, m: seq<BitUtils.byte>, k: nat, rho1: nat, rho2: nat, mask: nat)
      returns (res: Result<()>)
      requires BitUtils.FitsIn32(curve.n)
      modifies this`kb, this`K, this`r, this`cb
      ensures kb == k && K == curve.mul(k, Ks) && r == curve.x(K) % curve.n
      ensures res.SameOutcome(Continued(curve, paillier, k, db, r, m, cs, rho1, rho2, mask))
      ensures res.Ok? ==> Ok(cb) == Continued(curve, paillier, k, db, r, m, cs, rho1, rho2, mask)
    {
      kb := k;
      K := curve.mul(kb, Ks);
      r := curve.x(K) % curve.n;
      if r == 0 {
        return Err(RIsZero);
      }
      var hi :- HashToInt(m, ByteCount(curve));
      var c1 :- paillier.Enc((InverseMod(kb, curve.n) * hi) % curve.n, rho1);
      var t := ((InverseMod(kb, curve.n) * r) % curve.n * db) % curve.n;
      var power := AExpBModC(cs, t, paillier.n2);
      var c2 := (c1 * power) % paillier.n2;
      var c3 :- paillier.Enc(mask * curve.n, rho2);
      cb := (c2 * c3) % paillier.n2;
      return Ok(());
    }
  }

  // ---------- the protocol ----------

  /** A number of [1, n-1], as the parties sample their halves. */
  predicate InScalarRange<Point>(c: Curve<Point>, k: nat) {
    0 < k < c.n
  }

  /** init: both parties end with the same public key Q = (ds db) G. */
  method Init<Point(==)>(s: S<Point>, b: B<Point>, d1: nat, d2: nat) returns (res: Result<()>)
    requires s.curve == b.curve && s.curve.Lawful()
    modifies s`ds, s`Qs, s`Qb, s`Q, b`db, b`Qb, b`Qs, b`Q
    ensures res.Ok? && s.ds == d1 && b.db == d2
    ensures 0 <= d1 * d2 && s.Q == b.Q == s.curve.At(d1 * d2)
  {
    s.StartInit(d1);
    b.StartInit(d2);
    s.FinishInit(b.Qb);
    b.FinishInit(s.Qs);
    ScalarProducts(s.curve, d1, d2);
    res := Ok(());
    if s.Q != b.Q {
      res := Err(MismatchingQ);
    }
  }

  /** The parties after init, holding halves of one key and agreeing on the data to sign. */
  ghost predicate Ready<Point>(s: S<Point>, b: B<Point>)
    reads s, b
  {
    && s.curve == b.curve && s.curve.Lawful()
    && Sound(s.paillier) && LongEnough(s.paillier.n, s.curve.n)
    && b.paillier == PublicKey(s.paillier.n, s.paillier.g)
    && InScalarRange(s.curve, s.ds) && InScalarRange(s.curve, b.db)
    && 0 <= s.ds * b.db && s.Q == b.Q == s.curve.At(s.ds * b.db)
    && s.data == b.data
  }

  /** exec: joint signing returns, or throws, exactly what one signer holding ds db and ks kb
      would, if the three values sampled for Paillier are units; otherwise it throws. */
  method Exec<Point(==)>(s: S<Point>, b: B<Point>, ks: nat, kb: nat, rho0: nat, rho1: nat, rho2: nat, mask: nat)
    returns (res: Result<()>)
    requires Ready(s, b) && InScalarRange(s.curve, ks) && InScalarRange(s.curve, kb)
    requires mask < s.curve.n * s.curve.n
    modifies s`ks, s`Ks, s`cs, s`r, s`s, b`kb, b`K, b`r, b`cb
    ensures Ready(s, b)
    ensures 0 <= ks * kb
    ensures AllUnits(s.paillier.n, rho0, rho1, rho2) ==>
      res.SameOutcome(PlainSign(s.curve, s.ds * b.db, ks * kb, s.data)) &&
      (res.Ok? <==> PlainSign(s.curve, s.ds * b.db, ks * kb, s.data).Ok?) &&
      (res.Ok? ==> Ok((s.r, s.s)) == PlainSign(s.curve, s.ds * b.db, ks * kb, s.data))
    ensures !AllUnits(s.paillier.n, rho0, rho1, rho2) ==> res.Err?
    ensures var run := JointRun(s.curve, s.paillier, s.Q, s.data, s.ds, b.db, ks, kb, rho0, rho1, rho2, mask);
      res.SameOutcome(run) && (res.Ok? ==> Ok((s.r, s.s)) == run)
  {
    JointRunIsPlain(s.curve, s.paillier, s.data, s.ds, b.db, ks, kb, rho0, rho1, rho2, mask);
    res := ExecSteps(s, b, ks, kb, rho0, rho1, rho2, mask);
  }

  /** The three steps of exec, in sequence. */
  method ExecSteps<Point(==)>(s: S<Point>, b: B<Point>, ks: nat, kb: nat,
                              rho0: nat, rho1: nat, rho2: nat, mask: nat)
    returns (res: Result<()>)
    requires s.curve == b.curve && BitUtils.FitsIn32(s.curve.n) && s.data == b.data
    requires s.paillier.p != 0 && s.paillier.q != 0 && b.paillier == PublicKey(s.paillier.n, s.paillier.g)
    modifies s`ks, s`Ks, s`cs, s`r, s`s, b`kb, b`K, b`r, b`cb
    ensures var run := JointRun(s.curve, s.paillier, s.Q, s.data, s.ds, b.db, ks, kb, rho0, rho1, rho2, mask);
      res.SameOutcome(run) && (res.Ok? ==> Ok((s.r, s.s)) == run)
  {
    res := s.StartSig(ks, rho0);
    if res.Ok? {
      res := b.ContSig(s.Ks, s.cs, b.data, kb, rho1, rho2, mask);
      if res.Ok? {
        res := s.FinishSig(b.r, b.cb);
      }
    }
  }

  /** open: B checks the published signature under its own Q. */
  method Open<Point(==)>(s: S<Point>, b: B<Point>) returns (res: Result<()>)
    requires BitUtils.FitsIn32(b.curve.n)
    modifies b`openVerified
    ensures res.SameOutcome(Verify(b.curve, b.Q, b.data, s.r, s.s))
    ensures if res.Ok? then Ok(b.openVerified) == Verify(b.curve, b.Q, b.data, s.r, s.s)
            else b.openVerified == old(b.openVerified)
  {
    var result :- Verify(b.curve, b.Q, b.data, s.r, s.s);
    b.openVerified := result;
    return Ok(());
  }
}
