/** The theorems assume primes, a curve, a cipher and a root finder by contract. Each of these
    contracts can be met. */
module Assumptions {
  import opened Modular
  import opened Primes
  import opened Squares
  import opened OrderExactness
  import opened Openings
  import opened Paillier
  import opened Ecdsa
  import opened JointSigning
  import opened SquareRoots
  import opened TimedCommitment
  import opened SellInformation
  import opened SignatureKey
  import opened Generator
  import opened Wrappers
  import BitUtils

  /** 7 and 11 are safe primes that are 3 modulo 4. */
  lemma CommiterPrimesExist()
    ensures SafePrime(7) && SafePrime(11) && BlumPrimes(7, 11) && OddPrimes(7, 11)
  {
  }

  // ---------- a curve ----------

  /** The integers modulo a prime, where a and n - a share a (n - a). */
  function Residues(n: pos): Curve<nat> {
    var add: (nat, nat) -> nat := (a, b) => (a + b) % n;
    var mul: (nat, nat) -> nat := (k, a) => (k * a) % n;
    var x: nat -> nat := a => if a <= n then a * (n - a) else 0;
    Curve(n, 1, 0, add, mul, x)
  }

  lemma ResidueAt(n: pos, a: nat)
    ensures Residues(n).At(a) == a % n
  {
  }

  lemma ResiduesLawful(n: pos)
    requires IsPrime(n) && 2 < n && BitUtils.FitsIn32(n)
    ensures Residues(n).Lawful()
  {
    ResiduesAdd(n);
    ResiduesMul(n);
    ResiduesOrder(n);
    ResiduesOpposite(n);
  }

  lemma ResiduesAdd(n: pos)
    ensures Residues(n).AddLaw()
  {
    var c := Residues(n);
    forall a: nat, b: nat ensures c.add(c.At(a), c.At(b)) == c.At(a + b) {
      AddResidues(a, b, n);
    }
  }

  lemma AddResidues(a: nat, b: nat, n: pos)
    ensures (a % n + b % n) % n == (a + b) % n
    ensures Residues(n).At(a) == a % n && Residues(n).At(b) == b % n && Residues(n).At(a + b) == (a + b) % n
  {
    ModAdd(a, b, n);
    ResidueAt(n, a);
    ResidueAt(n, b);
    ResidueAt(n, a + b);
  }

  lemma ResiduesOrder(n: pos)
    ensures Residues(n).OrderLaw()
  {
    var c := Residues(n);
    forall a: nat ensures c.At(a) == c.O <==> a % n == 0 {
      ResidueAt(n, a);
    }
    forall a: nat, b: nat | c.SameScalar(a, b) ensures c.At(a) == c.At(b) {
      ResidueAt(n, a);
      ResidueAt(n, b);
    }
  }

  lemma ResiduesMul(n: pos)
    ensures Residues(n).MulLaw()
  {
    var c := Residues(n);
    forall a: nat, b: nat ensures c.mul(a, c.At(b)) == c.At(c.Times(a, b)) {
      MulResidue(a, b, n);
    }
  }

  lemma MulResidue(a: nat, b: nat, n: pos)
    ensures 0 <= a * b && (a * (b % n)) % n == (a * b) % n
    ensures Residues(n).At(b) == b % n && Residues(n).At(a * b) == (a * b) % n
  {
    MulMono(0, a, b);
    ModMul(a, b, n);
    ResidueAt(n, b);
    ResidueAt(n, a * b);
  }

  lemma ResiduesOpposite(n: pos)
    ensures Residues(n).OppositeLaw()
  {
    var c := Residues(n);
    forall a: nat, b: nat | c.Opposite(a, b) ensures c.x(c.At(a)) == c.x(c.At(b)) {
      OppositeResidues(a, b, n);
    }
  }

  lemma OppositeResidues(a: nat, b: nat, n: pos)
    requires (a + b) % n == 0
    ensures (a % n) * (n - a % n) == (b % n) * (n - b % n)
    ensures Residues(n).At(a) == a % n && Residues(n).At(b) == b % n
  {
    var r, s := a % n, b % n;
    ModAdd(a, b, n);
    ResidueAt(n, a);
    ResidueAt(n, b);
    if r + s >= n {
      ModUnique(r + s, n, 1, r + s - n);
    } else {
      ModSmall(r + s, n);
    }
  }

  /** Here x-coordinates determine points up to their sign. */
  lemma ResiduesDetermine(n: pos)
    requires IsPrime(n)
    ensures XDetermines(Residues(n))
  {
    var c := Residues(n);
    forall a: nat, b: nat | c.EqualX(a, b) ensures c.SameScalar(a, b) || c.Opposite(a, b) {
      ResidueAt(n, a);
      ResidueAt(n, b);
      EqualProducts(a % n, b % n, n);
      ModAdd(a, b, n);
      ModMultiple(1, n);
    }
  }

  lemma EqualProducts(r: nat, s: nat, n: pos)
    requires r < n && s < n && r * (n - r) == s * (n - s)
    ensures r == s || r + s == n
  {
    assert r * (n - r) - s * (n - s) == (r - s) * (n - r - s);
  }

  /** On a lawful curve whose x-coordinates reach n, the refusal happens: in the group of order 7
      above, 2G has the x-coordinate 10, and every correct signature with that nonce is refused. */
  lemma RefusalHappens(m: seq<BitUtils.byte>)
    requires |m| == 32 && m[0] % 7 != 4
    ensures BitUtils.FitsIn32(7) && Residues(7).Lawful()
    ensures var c, s := Residues(7), LowS(PlainS(7, 1, 2, 3, m[0]), 7);
      StandardVerify(c, c.At(1), m, 3, s) == Ok(true) && Verify(c, c.At(1), m, 3, s) == Ok(false)
    ensures PlainSign(Residues(7), 1, 2, m) == Err(InvalidSignature)
  {
    CurveOfOrder7();
    FirstByte(m);
    SignatureOfOrder7(m[0]);
    PointsOfOrder7();
    RefusedExactly(Residues(7), 1, 2, m, m[0]);
  }

  lemma PointsOfOrder7()
    ensures Residues(7).At(1) == 1 && Residues(7).At(2) == 2 && Residues(7).x(2) == 10
  {
    ResidueAt(7, 1);
    ResidueAt(7, 2);
  }

  lemma CurveOfOrder7()
    ensures BitUtils.FitsIn32(7) && Residues(7).Lawful() && ByteCount(Residues(7)) == 1
  {
    ResiduesLawful(7);
  }

  lemma FirstByte(m: seq<BitUtils.byte>)
    requires |m| == 32
    ensures BitUtils.Decode(m[..1]) == m[0]
  {
    assert m[..1][..0] == [] && m[..1][0] == m[0];
  }

  lemma SignatureOfOrder7(e: nat)
    requires e % 7 != 4
    ensures PlainS(7, 1, 2, 3, e) != 0
  {
    CoprimeFromInverse(2, 4, 7);
    PlainSEquation(7, 1, 2, 3, e);
    assert (e + 3 * 1) % 7 != 0;
  }

  // ---------- keys, roots and ciphers ----------

  /** 263 = 2 * 131 + 1 and 347 = 2 * 173 + 1. */
  lemma LargePrimesExist()
    ensures LargeSafePrime(263) && LargeSafePrime(347)
  {
    PrimesToHalve();
    Halves();
  }

  lemma PrimesToHalve()
    ensures IsPrime(131) && IsPrime(173)
  {
  }

  lemma Halves()
    ensures IsPrime(263) && IsPrime(347)
  {
  }

  /** A group of order 3. */
  lemma CurveExists()
    ensures Residues(3).Lawful()
  {
    ResiduesLawful(3);
  }

  /** A Paillier key that is long enough for it. */
  lemma PaillierKeyExists()
    ensures Sound(KeyGen(17, 19)) && LongEnough(17 * 19, 3)
  {
    SixteenIsPow2();
    assert IsPrime(17) && IsPrime(19);
    KeyGenSound(17, 19, 4);
  }

  lemma SixteenIsPow2()
    ensures Pow2(4) == 16 && Pow2(5) == 32
  {
  }

  ghost function RootOf(a: int, p: pos): int {
    if HasRoot(a, p) then var s :| SquareIs(s, a, p); s % p else 0
  }

  lemma RootFinderExists(p: pos)
    ensures exists msr: (int, pos) -> int :: FindsRoots(msr, p)
  {
    var msr := (a: int, p: pos) => RootOf(a, p);
    forall a | HasRoot(a, p) ensures 0 <= msr(a, p) < p && SquareIs(msr(a, p), a, p) {
      var s :| SquareIs(s, a, p) && msr(a, p) == s % p;
      ModMul(s, s, p);
    }
    assert FindsRoots(msr, p);
  }

  function Prefixed(): Cipher {
    Cipher((key: Bytes, m: Bytes) => [0] + m, (key: Bytes, c: Bytes) => if c == [] then [] else c[1..])
  }

  lemma CipherExists()
    ensures Prefixed().Lawful()
  {
  }

  // ---------- one setting for the whole trade ----------

  /** The group of order 3, the key above, the primes 7 and 11 and a lock of length 9. */
  function SmallSetting(hash: Bytes -> Bytes): Setting<nat> {
    Setting(Residues(3), KeyGen(17, 19), 7, 11, 77, 60, 9, hash)
  }

  /** One as every half key and nonce, h = 1, nothing challenged, a digest of zeros. */
  function SmallSamples(): Samples {
    var row: seq<nat> := seq(10, i => 0);
    Samples(1, 1, 1, 1, 1, 1, 1, 0, 1, seq(ROUNDS, i => row), seq(ROUNDS, i => row), seq(32, i => 0))
  }

  lemma SmallSettingLawful(hash: Bytes -> Bytes)
    ensures SmallSetting(hash).Lawful()
  {
    CurveExists();
    PaillierKeyExists();
    CommiterPrimesExist();
  }

  lemma SmallSamplesSampled(hash: Bytes -> Bytes)
    ensures SmallSetting(hash).Fits() && SmallSetting(hash).Sampled(SmallSamples())
  {
    SmallSettingLawful(hash);
  }

  lemma SmallSignature()
    ensures BitUtils.FitsIn32(3) && PlainSign(Residues(3), 1, 1, SmallSamples().data) == Ok((2, 1))
  {
    var m := SmallSamples().data;
    FirstByte(m);
    ResidueAt(3, 1);
    SmallPlainS();
  }

  lemma SmallPlainS()
    ensures PlainS(3, 1, 1, 2, 0) == 2
  {
    CoprimeFromInverse(1, 1, 3);
    PlainSEquation(3, 1, 1, 2, 0);
  }

  /** All assumptions of the trade hold together, and its instance succeeds. */
  lemma TradeCanHappen(hash: Bytes -> Bytes)
    ensures var e := SmallSetting(hash);
      e.Lawful() && e.Sampled(SmallSamples()) && e.Outcome(SmallSamples()).Ok?
  {
    var e, v := SmallSetting(hash), SmallSamples();
    SmallSettingLawful(hash);
    SmallSamplesSampled(hash);
    SmallSignature();
    CoprimeFromInverse(1, 1, e.paillier.n);
    CoprimeFromInverse(1, 1, e.n);
    OutcomeExact(e, v);
  }
}
