/** The arithmetic of two-party signing: what travels under encryption and what comes out. */
module JointSigning {
  import opened Modular
  import opened Primes
  import opened Wrappers
  import opened Paillier
  import opened Ecdsa
  import BitUtils

  // ---------- sizes ----------

  function BitCount(n: nat): nat {
    if n == 0 then 0 else 1 + BitCount(n / 2)
  }

  lemma {:induction false} BitCountBound(n: nat)
    ensures n < Pow2(BitCount(n))
  {
    if n > 0 { BitCountBound(n / 2); }
  }

  /** The bit length that S asks of its Paillier primes. */
  function PrimeBits(n: nat): nat {
    2 * BitCount(n) + 3
  }

  /** The bound that both constructors test. */
  predicate LongEnough(N: nat, n: nat) {
    N > 2 * n * n * n * n
  }

  lemma SquareBelow(a: nat, b: nat)
    requires a <= b
    ensures a * a <= b * b
  {
    MulMono(a, b, a);
    MulMono(a, b, b);
  }

  /** Primes of the requested length always pass that test. */
  lemma KeysLongEnough(n: nat, p: nat, q: nat)
    requires Pow2(PrimeBits(n)) <= p && Pow2(PrimeBits(n)) <= q
    ensures LongEnough(p * q, n)
  {
    var x := Pow2(BitCount(n));
    BitCountBound(n);
    PrimeBitsValue(n);
    SquareBelow(n, x);
    SquareBelow(n * n, x * x);
    RegroupFourth(n);
    MulPos(x, x);
    ProductAbove(p, q, x * x, (n * n) * (n * n));
  }

  lemma PrimeBitsValue(n: nat)
    ensures Pow2(PrimeBits(n)) == 8 * (Pow2(BitCount(n)) * Pow2(BitCount(n)))
  {
    var b := BitCount(n);
    Pow2Add(b, b);
    assert PrimeBits(n) == (b + b) + 3;
    Pow2Plus3(b + b);
  }

  lemma Pow2Plus3(k: nat)
    ensures Pow2(k + 3) == 8 * Pow2(k)
  {
    assert Pow2(k + 1) == 2 * Pow2(k);
    assert Pow2(k + 2) == 2 * Pow2(k + 1);
  }

  lemma ProductAbove(p: nat, q: nat, x: pos, f: nat)
    requires 8 * x <= p && 8 * x <= q && f <= x * x
    ensures p * q > 2 * f
  {
    MulPos(x, x);
    MulMono(8 * x, q, 8 * x);
    MulMono(8 * x, p, q);
    MulSwap(8, x, 8, x);
  }

  lemma RegroupFourth(n: int)
    ensures 2 * n * n * n * n == 2 * ((n * n) * (n * n))
  {
  }

  // ---------- what B computes on S's encrypted half key ----------

  /** kb^-1 h mod n */
  function Share(n: pos, kb: nat, hi: nat): nat {
    (InverseMod(kb, n) * hi) % n
  }

  /** kb^-1 r db mod n */
  function Multiplier(n: pos, kb: nat, r: nat, db: nat): nat {
    ((InverseMod(kb, n) * r) % n * db) % n
  }

  /** cont_sig from the hash on: Enc(share) * cs^t * Enc(mask n) modulo N^2. */
  function Combined(k: Paillier, n: pos, kb: nat, db: nat, r: nat, hi: nat, cs: nat,
                    rho1: nat, rho2: nat, mask: nat): Result<nat>
  {
    var c1 :- k.Enc(Share(n, kb, hi), rho1);
    var c2 := (c1 * ModExp(cs, Multiplier(n, kb, r, db), k.n2)) % k.n2;
    var c3 :- k.Enc(mask * n, rho2);
    Ok((c2 * c3) % k.n2)
  }

  /** cont_sig after r is known. */
  function Continued<Point(==)>(c: Curve<Point>, k: Paillier, kb: nat, db: nat, r: nat,
                                m: seq<BitUtils.byte>, cs: nat, rho1: nat, rho2: nat, mask: nat): Result<nat>
    requires BitUtils.FitsIn32(c.n)
  {
    if r == 0 then Err(RIsZero)
    else
      var hi :- HashToInt(m, ByteCount(c));
      Combined(k, c.n, kb, db, r, hi, cs, rho1, rho2, mask)
  }

  /** The integer under the encryption before any reduction. */
  function PlainSum(n: pos, kb: nat, db: nat, r: nat, hi: nat, ds: nat, mask: nat): int {
    Share(n, kb, hi) + Multiplier(n, kb, r, db) * ds + mask * n
  }

  /** Every plaintext and the final sum stay below N, so nothing wraps around. */
  lemma NoWrapAround(N: nat, n: pos, kb: nat, db: nat, r: nat, hi: nat, ds: nat, mask: nat)
    requires n > 2 && LongEnough(N, n) && ds < n && mask < n * n
    ensures Share(n, kb, hi) < N && ds < N && 0 <= mask * n < N
    ensures 0 <= PlainSum(n, kb, db, r, hi, ds, mask) < N
  {
    var t := Multiplier(n, kb, r, db);
    MulMono(0, t, ds);
    MulMono(0, mask, n);
    ProductBelow(t, ds, n);
    MulMono(mask, n * n - 1, n);
    PowersBelowFourth(n);
    RegroupFourth(n);
    assert (n * n - 1) * n == (n * n) * n - n;
  }

  lemma ProductBelow(a: nat, b: nat, n: pos)
    requires a < n && b < n
    ensures a * b <= n * n - n
  {
    MulMono(a, n - 1, b);
    MulMono(b, n, n - 1);
    assert (n - 1) * n == n * n - n;
  }

  lemma PowersBelowFourth(n: pos)
    ensures n <= n * n <= (n * n) * (n * n) && (n * n) * n <= (n * n) * (n * n)
  {
    MulPos(n, n);
    MulPos(n * n, n * n);
    MulMono(n, n * n, n * n);
  }

  /** The product of the three ciphertexts decrypts to the unreduced sum; with a sampled value
      that is no unit it is no ciphertext. */
  lemma CombinedPlain(k: Paillier, n: pos, kb: nat, db: nat, r: nat, hi: nat, ds: nat,
                      rho0: nat, rho1: nat, rho2: nat, mask: nat)
    requires Sound(k) && n > 2 && LongEnough(k.n, n) && ds < n && mask < n * n
    requires Multiplier(n, kb, r, db) > 0
    ensures k.Enc(ds, rho0).Ok?
    ensures Combined(k, n, kb, db, r, hi, k.Enc(ds, rho0).value, rho1, rho2, mask).Ok?
    ensures var cb := Combined(k, n, kb, db, r, hi, k.Enc(ds, rho0).value, rho1, rho2, mask).value;
      if Coprime(rho0, k.n) && Coprime(rho1, k.n) && Coprime(rho2, k.n)
      then Ciphertext(k, cb) && Plain(k, cb) == Share(n, kb, hi) + Multiplier(n, kb, r, db) * ds + mask * n
      else !Ciphertext(k, cb)
  {
    NoWrapAround(k.n, n, kb, db, r, hi, ds, mask);
    var t := Multiplier(n, kb, r, db);
    PlainEnc(k, ds, rho0);
    PlainEnc(k, Share(n, kb, hi), rho1);
    PlainEnc(k, mask * n, rho2);
    var cs, c1, c3 := k.Enc(ds, rho0).value, k.Enc(Share(n, kb, hi), rho1).value, k.Enc(mask * n, rho2).value;
    var f := ModExp(cs, t, k.n2);
    EncIsReduced(k, ds, rho0);
    EncIsReduced(k, Share(n, kb, hi), rho1);
    EncIsReduced(k, mask * n, rho2);
    PowerIsCiphertext(k, cs, t);
    ProductIsCiphertext(k, c1, f);
    ProductIsCiphertext(k, (c1 * f) % k.n2, c3);
    if Ciphertext(k, cs) && Ciphertext(k, c1) && Ciphertext(k, c3) {
      PlainPow(k, cs, t);
      PlainMul(k, c1, f);
      PlainMul(k, (c1 * f) % k.n2, c3);
      SumUnderModulus(Share(n, kb, hi), t * ds, mask * n, k.n);
    }
  }

  lemma SumUnderModulus(a: int, b: int, c: int, n: pos)
    requires 0 <= a + b + c < n
    ensures ((a + b % n) % n + c) % n == a + b + c
  {
    ModAdd(a, b, n);
    ModAdd(a + b, c, n);
    ModSmall(a + b + c, n);
  }

  lemma EncIsReduced(k: Paillier, m: int, r: nat)
    requires Sound(k) && k.Enc(m, r).Ok?
    ensures k.Enc(m, r).value < k.n2
  {
  }

  lemma PowerIsCiphertext(k: Paillier, c: nat, t: nat)
    requires Sound(k) && c < k.n2 && t > 0
    ensures ModExp(c, t, k.n2) < k.n2
    ensures Ciphertext(k, ModExp(c, t, k.n2)) <==> Ciphertext(k, c)
  {
    CiphertextReduced(k, Pow(c, t));
    ModSmall(c, k.n2);
    CiphertextReduced(k, c);
    if Coprime(c, k.n) {
      CoprimePow(c, t, k.n);
    } else if Coprime(Pow(c, t), k.n) {
      CoprimeOfPow(c, t, k.n);
    }
  }

  lemma ProductIsCiphertext(k: Paillier, c: nat, d: nat)
    requires Sound(k) && c < k.n2 && d < k.n2
    ensures (c * d) % k.n2 < k.n2
    ensures Ciphertext(k, (c * d) % k.n2) <==> Ciphertext(k, c) && Ciphertext(k, d)
  {
    CiphertextReduced(k, c * d);
    ModSmall(c, k.n2);
    ModSmall(d, k.n2);
    CiphertextReduced(k, c);
    CiphertextReduced(k, d);
    CoprimeMul(c, d, k.n);
  }

  // ---------- what S makes of it ----------

  /** What finish_sig reports for the value it has computed. */
  function Judgement<Point(==)>(c: Curve<Point>, Q: Point, data: seq<BitUtils.byte>, r: nat,
                                finished: Result<nat>): Result<bool>
    requires BitUtils.FitsIn32(c.n)
    requires finished.Ok? ==> finished.value < c.n
  {
    var s :- finished;
    if s == 0 then Err(SIsZero)
    else if data == [] then Err(DataIsEmpty)
    else
      var valid :- Verify(c, Q, data, r, LowS(s, c.n));
      if valid then Ok(true) else Err(InvalidSignature)
  }

  /** finish_sig up to the test for zero. */
  function FinishedS(k: Paillier, n: pos, ks: nat, cb: int): (s: Result<nat>)
    requires k.p != 0 && k.q != 0
    ensures s.Ok? ==> s.value < n
  {
    var m :- k.Dec(cb);
    Ok((InverseMod(ks, n) * (m % n)) % n)
  }

  /** Two halves of a key and of a nonce give the signature that one signer with d = ds db and
      k = ks kb gives. */
  lemma JointIsPlain(n: pos, ks: nat, kb: nat, ds: nat, db: nat, r: nat, hi: nat, mask: nat)
    requires Coprime(ks, n) && Coprime(kb, n)
    ensures 0 <= ks * kb && 0 <= ds * db
    ensures (InverseMod(ks, n) * (PlainSum(n, kb, db, r, hi, ds, mask) % n)) % n ==
      PlainS(n, ds * db, ks * kb, r, hi)
  {
    MulMono(0, ks, kb);
    MulMono(0, ds, db);
    var s2 := PlainSum(n, kb, db, r, hi, ds, mask);
    var s0 := (InverseMod(ks, n) * (s2 % n)) % n;
    SumTimesKb(n, kb, db, r, hi, ds, mask);
    Unscale(ks, InverseMod(ks, n), s2 % n, n);
    assert (s2 % n) * InverseMod(ks, n) == InverseMod(ks, n) * (s2 % n);
    ModMul(1, s2, n);
    CongMul(ks * s0, s2, kb, kb, n);
    assert ks * s0 * kb == (ks * kb) * s0;
    CoprimeMul(ks, kb, n);
    PlainSEquation(n, ds * db, ks * kb, r, hi);
    assert PlainS(n, ds * db, ks * kb, r, hi) * (ks * kb) == (ks * kb) * PlainS(n, ds * db, ks * kb, r, hi);
    CancelUnit(ks * kb, s0, PlainS(n, ds * db, ks * kb, r, hi), n);
    ModSmall(s0, n);
    ModSmall(PlainS(n, ds * db, ks * kb, r, hi), n);
  }

  /** kb times the decrypted sum is h + r ds db. */
  lemma SumTimesKb(n: pos, kb: nat, db: nat, r: nat, hi: nat, ds: nat, mask: nat)
    requires Coprime(kb, n)
    ensures (PlainSum(n, kb, db, r, hi, ds, mask) * kb) % n == (hi + r * (ds * db)) % n
  {
    var t := Multiplier(n, kb, r, db);
    ShareTimesKb(n, kb, hi);
    MultiplierTimesKb(n, kb, r, db);
    CongMul(t * kb, r * db, ds, ds, n);
    MulRightSwap(t, kb, ds);
    MulRightSwap(r, db, ds);
    assert r * (ds * db) == r * ds * db;
    DropMask(n, Share(n, kb, hi), t * ds, mask, kb);
    CongAdd(Share(n, kb, hi) * kb, hi, t * ds * kb, r * (ds * db), n);
  }

  lemma DropMask(n: pos, a: int, b: int, mask: int, kb: int)
    ensures ((a + b + mask * n) * kb) % n == (a * kb + b * kb) % n
  {
    assert (a + b + mask * n) * kb == a * kb + b * kb + n * (mask * kb);
    ModShift(a * kb + b * kb, mask * kb, n);
  }

  lemma ShareTimesKb(n: pos, kb: nat, hi: nat)
    requires Coprime(kb, n)
    ensures (Share(n, kb, hi) * kb) % n == hi % n
  {
    Unscale(kb, InverseMod(kb, n), hi, n);
    assert hi * InverseMod(kb, n) == InverseMod(kb, n) * hi;
    assert kb * Share(n, kb, hi) == Share(n, kb, hi) * kb;
  }

  lemma MultiplierTimesKb(n: pos, kb: nat, r: nat, db: nat)
    requires Coprime(kb, n)
    ensures (Multiplier(n, kb, r, db) * kb) % n == (r * db) % n
  {
    var a := (InverseMod(kb, n) * r) % n;
    ShareTimesKb(n, kb, r);
    ModMulLeft(a * db, kb, n);
    assert a * db * kb == a * kb * db;
    CongMul(a * kb, r, db, db, n);
  }

  lemma MultiplierPositive(n: pos, kb: nat, r: nat, db: nat)
    requires IsPrime(n) && Coprime(kb, n) && r % n != 0 && db % n != 0
    ensures Multiplier(n, kb, r, db) > 0
  {
    if Multiplier(n, kb, r, db) == 0 {
      MultiplierTimesKb(n, kb, r, db);
      ModMultiple(0, n);
      PrimeDividesProduct(n, r, db);
    }
  }

  /** Joint signing is exactly single-signer signing, as long as the sampled Paillier values are
      units; otherwise decryption refuses. */
  lemma JointSignature(k: Paillier, n: pos, ks: nat, kb: nat, ds: nat, db: nat, r: nat, hi: nat,
                       rho0: nat, rho1: nat, rho2: nat, mask: nat)
    requires Sound(k) && IsPrime(n) && n > 2 && LongEnough(k.n, n) && mask < n * n
    requires 0 < ks < n && 0 < kb < n && 0 < ds < n && 0 < db < n && 0 < r < n
    ensures 0 <= ks * kb && 0 <= ds * db
    ensures k.Enc(ds, rho0).Ok?
    ensures Combined(k, n, kb, db, r, hi, k.Enc(ds, rho0).value, rho1, rho2, mask).Ok?
    ensures var cb := Combined(k, n, kb, db, r, hi, k.Enc(ds, rho0).value, rho1, rho2, mask).value;
      if Coprime(rho0, k.n) && Coprime(rho1, k.n) && Coprime(rho2, k.n)
      then FinishedS(k, n, ks, cb) == Ok(PlainS(n, ds * db, ks * kb, r, hi))
      else FinishedS(k, n, ks, cb).Err?
  {
    UnitFromRange(n, ks);
    UnitFromRange(n, kb);
    UnitFromRange(n, db);
    UnitFromRange(n, r);
    MultiplierPositive(n, kb, r, db);
    CombinedPlain(k, n, kb, db, r, hi, ds, rho0, rho1, rho2, mask);
    JointIsPlain(n, ks, kb, ds, db, r, hi, mask);
    DecValue(k, Combined(k, n, kb, db, r, hi, k.Enc(ds, rho0).value, rho1, rho2, mask).value);
  }

  // ---------- the whole protocol run, on values ----------

  /** exec: start_sig, cont_sig and finish_sig in sequence; Q is the joint public key. */
  function JointRun<Point(==)>(c: Curve<Point>, k: Paillier, Q: Point, m: seq<BitUtils.byte>,
                               ds: nat, db: nat, ks: nat, kb: nat,
                               rho0: nat, rho1: nat, rho2: nat, mask: nat): Result<(nat, nat)>
    requires BitUtils.FitsIn32(c.n) && k.p != 0 && k.q != 0
  {
    var cs :- k.Enc(ds, rho0);
    var r := c.x(c.mul(kb, c.At(ks))) % c.n;
    var cb :- Continued(c, PublicKey(k.n, k.g), kb, db, r, m, cs, rho1, rho2, mask);
    var finished := FinishedS(k, c.n, ks, cb);
    var valid :- Judgement(c, Q, m, r, finished);
    Ok((r, LowS(finished.value, c.n)))
  }

  predicate AllUnits(n: pos, rho0: nat, rho1: nat, rho2: nat) {
    Coprime(rho0, n) && Coprime(rho1, n) && Coprime(rho2, n)
  }

  lemma PublicCombined(k: Paillier, n: pos, kb: nat, db: nat, r: nat, hi: nat, cs: nat,
                       rho1: nat, rho2: nat, mask: nat)
    requires k.n2 == k.n * k.n
    ensures Combined(PublicKey(k.n, k.g), n, kb, db, r, hi, cs, rho1, rho2, mask) ==
      Combined(k, n, kb, db, r, hi, cs, rho1, rho2, mask)
  {
  }

  /** The verdict on a correct s0 is the reference's. */
  lemma JudgementIsPlain<Point>(c: Curve<Point>, d: nat, k: nat, m: seq<BitUtils.byte>, r: nat, e: nat)
    requires c.Lawful() && d % c.n != 0 && k % c.n != 0
    requires r == c.x(c.At(k)) % c.n && r > 0 && HashToInt(m, ByteCount(c)) == Ok(e)
    ensures var s := PlainS(c.n, d, k, r, e);
      Judgement(c, c.At(d), m, r, Ok(s)).SameOutcome(PlainSign(c, d, k, m)) &&
      (PlainSign(c, d, k, m).Ok? ==> PlainSign(c, d, k, m) == Ok((r, LowS(s, c.n))))
  {
    var s := PlainS(c.n, d, k, r, e);
    if s != 0 {
      OddPrime(c.n);
      PrimeCoprime(c.n, k);
      PlainSEquation(c.n, d, k, r, e);
      LowSFacts(s, c.n);
      VerifyDecides(c, d, k, m, r, LowS(s, c.n), s);
      if c.x(c.At(k)) < c.n {
        ModSmall(c.x(c.At(k)), c.n);
      }
    }
  }

  /** Two-party signing is single-signer signing with d = ds db and k = ks kb: same signature,
      same exceptions, if the sampled Paillier values are units; and an exception otherwise. */
  lemma JointRunIsPlain<Point>(c: Curve<Point>, k: Paillier, m: seq<BitUtils.byte>,
                               ds: nat, db: nat, ks: nat, kb: nat,
                               rho0: nat, rho1: nat, rho2: nat, mask: nat)
    requires c.Lawful() && Sound(k) && LongEnough(k.n, c.n) && mask < c.n * c.n
    requires 0 < ks < c.n && 0 < kb < c.n && 0 < ds < c.n && 0 < db < c.n
    ensures 0 <= ds * db && 0 <= ks * kb
    ensures AllUnits(k.n, rho0, rho1, rho2) ==>
      JointRun(c, k, c.At(ds * db), m, ds, db, ks, kb, rho0, rho1, rho2, mask) ==
      PlainSign(c, ds * db, ks * kb, m)
    ensures !AllUnits(k.n, rho0, rho1, rho2) ==>
      JointRun(c, k, c.At(ds * db), m, ds, db, ks, kb, rho0, rho1, rho2, mask).Err?
  {
    ScalarProducts(c, ds, db);
    ScalarProducts(c, kb, ks);
    assert kb * ks == ks * kb;
    NoWrapAround(k.n, c.n, kb, db, 0, 0, ds, mask);
    var r := c.x(c.At(ks * kb)) % c.n;
    var h := HashToInt(m, ByteCount(c));
    if r > 0 && h.Ok? {
      JointSignature(k, c.n, ks, kb, ds, db, r, h.value, rho0, rho1, rho2, mask);
      PublicCombined(k, c.n, kb, db, r, h.value, k.Enc(ds, rho0).value, rho1, rho2, mask);
      JudgementIsPlain(c, ds * db, ks * kb, m, r, h.value);
    }
  }

  lemma ScalarProducts<Point>(c: Curve<Point>, a: nat, b: nat)
    requires c.Lawful()
    ensures 0 <= a * b && 0 <= b * a
    ensures c.mul(a, c.At(b)) == c.At(a * b) == c.mul(b, c.At(a))
    ensures 0 < a < c.n && 0 < b < c.n ==> (a * b) % c.n != 0
  {
    MulMono(0, a, b);
    assert a * b == b * a;
    assert c.mul(a, c.At(b)) == c.At(c.Times(a, b));
    assert c.mul(b, c.At(a)) == c.At(c.Times(b, a));
    if 0 < a < c.n && 0 < b < c.n {
      UnitFromRange(c.n, a);
      UnitFromRange(c.n, b);
      PrimeDividesProduct(c.n, a, b);
    }
  }
}
