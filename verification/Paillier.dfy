/** The Paillier cryptosystem: keys, encryption, decryption, and why they fit together. */
module Paillier {
  import opened Modular
  import opened Primes
  import opened Fermat
  import opened Wrappers

  datatype Paillier = Paillier(p: int, q: int, n: pos, n2: pos, g: nat, y: nat, phi: nat, u: nat) {

    function L(x: int): int {
      (x - 1) / n
    }

    /** enc(m), with the random r as a parameter. */
    function Enc(m: int, r: nat): Result<nat> {
      if m >= n || m < 0 then Err(PlaintextOutOfRange)
      else Ok((ModExp(g, m, n2) * ModExp(r, n, n2)) % n2)
    }

    function Dec(c: int): Result<nat>
      requires p != 0 && q != 0
    {
      if p == -1 || q == -1 then Err(ClientCannotDecrypt)
      else if c <= 0 || c >= n2 then Err(CiphertextOutOfRange)
      else if c % p == 0 || c % q == 0 then Err(CiphertextNotInvertible)
      else Ok((L(ModExp(c, y, n2)) * u) % n)
    }
  }

  /** The key made from two sampled primes. */
  function KeyGen(p: pos, q: pos): Paillier {
    MulPos(p, q);
    MulPos(p * q, p * q);
    var n := p * q;
    var phi := (p - 1) * (q - 1);
    MulMono(0, p - 1, q - 1);
    Paillier(p, q, n, n * n, n + 1, phi, phi, InverseMod(phi, n))
  }

  /** The public key that the other party builds from n and g. */
  function PublicKey(n: pos, g: nat): Paillier {
    MulPos(n, n);
    Paillier(-1, -1, n, n * n, g, 0, 0, 0)
  }

  /** Keys whose inverse u exists. */
  ghost predicate Sound(k: Paillier) {
    k.p > 0 && k.q > 0 && TwoPrimes(k.p, k.q) && k == KeyGen(k.p, k.q) && Coprime(k.phi, k.n)
  }

  // ---------- key generation ----------

  lemma NoPrimeBelowNext(p: pos, q: pos)
    requires IsPrime(p) && IsPrime(q) && p != q && p > 4 && 4 < q <= 2 * p
    ensures (q - 1) % p != 0
  {
    assert p % 2 != 0 && q % 2 != 0;
    if (q - 1) % p == 0 {
      MultipleBelowTwice(p, q - 1);
    }
  }

  /** Any two different primes of the sampled size give a sound key: u always exists. */
  lemma KeyGenSound(p: pos, q: pos, bits: nat)
    requires IsPrime(p) && IsPrime(q) && p != q && bits >= 2
    requires Pow2(bits) <= p <= Pow2(bits + 1) && Pow2(bits) <= q <= Pow2(bits + 1)
    ensures Sound(KeyGen(p, q))
  {
    assert Pow2(bits + 1) == 2 * Pow2(bits);
    Pow2AtLeast4(bits);
    assert p != 4 && q != 4 by {
      assert 4 % 2 == 0;
    }
    NoPrimeBelowNext(p, q);
    NoPrimeBelowNext(q, p);
    ModUnique(p - 1, p, 0, p - 1);
    ModUnique(q - 1, q, 0, q - 1);
    PrimeDividesProduct(p, p - 1, q - 1);
    PrimeDividesProduct(q, p - 1, q - 1);
    CoprimePQ(p, q, (p - 1) * (q - 1));
  }

  lemma {:induction false} Pow2AtLeast4(k: nat)
    requires k >= 2
    ensures Pow2(k) >= 4
  {
    if k > 2 { Pow2AtLeast4(k - 1); } else { assert Pow2(1) == 2; }
  }

  // ---------- arithmetic modulo n^2 ----------

  /** (1 + na)(1 + nb) = 1 + n(a + b) modulo n^2. */
  lemma LinearMul(n: pos, n2: pos, a: int, b: int)
    requires n2 == n * n
    ensures ((1 + n * a) * (1 + n * b)) % n2 == (1 + n * (a + b)) % n2
  {
    assert (1 + n * a) * (1 + n * b) == 1 + n * (a + b) + n2 * (a * b) by {
      assert (n * a) * (n * b) == (n * n) * (a * b) by { MulSwap(n, a, n, b); }
      assert (1 + n * a) * (1 + n * b) == 1 + n * a + n * b + (n * a) * (n * b);
    }
    ModShift(1 + n * (a + b), a * b, n2);
  }

  lemma {:induction false} LinearPow(n: pos, n2: pos, a: int, e: nat)
    requires n2 == n * n
    ensures Pow(1 + n * a, e) % n2 == (1 + n * (a * e)) % n2
  {
    if e > 0 {
      LinearPow(n, n2, a, e - 1);
      LinearMul(n, n2, a, a * (e - 1));
      CongMul(1 + n * a, 1 + n * a, Pow(1 + n * a, e - 1), 1 + n * (a * (e - 1)), n2);
      assert a + a * (e - 1) == a * e;
    }
  }

  /** 1 + na determines a modulo n. */
  lemma LinearUnique(n: pos, n2: pos, a: int, b: int)
    requires n2 == n * n && (1 + n * a) % n2 == (1 + n * b) % n2
    ensures a % n == b % n
  {
    var k := CongWitness(1 + n * a, 1 + n * b, n2);
    assert n * a == n * (b + n * k);
    MulCancel(n, a, b + n * k);
    ModShift(b, k, n);
  }

  // ---------- the logarithm that decryption takes ----------

  function Log(k: Paillier, c: int): int {
    k.L(ModExp(c, k.phi, k.n2))
  }

  lemma SoundFacts(k: Paillier)
    requires Sound(k)
    ensures k.n2 == k.n * k.n && k.n2 % k.n == 0 && k.n > 1 && k.n2 > 1
    ensures k.n == k.p * k.q && k.phi == k.y == Phi(k.p, k.q) > 0 && k.g == k.n + 1
    ensures (k.phi * k.u) % k.n == 1
  {
    PhiFacts(k.p, k.q);
    ModMultiple(k.n, k.n);
    MulPos(k.n, k.n);
    ModSmall(1, k.n);
  }

  /** L divides exactly: c^phi = 1 + n Log(c), for every unit c. */
  lemma LogExact(k: Paillier, c: int)
    requires Sound(k) && Coprime(c, k.n)
    ensures 0 <= Log(k, c) < k.n
    ensures ModExp(c, k.phi, k.n2) == 1 + k.n * Log(k, c)
  {
    SoundFacts(k);
    Euler(k.p, k.q, c);
    var x := ModExp(c, k.phi, k.n2);
    ModMod(Pow(c, k.phi), k.n2, k.n);
    LExact(k.n, k.n2, x);
  }

  lemma LExact(n: pos, n2: pos, x: nat)
    requires n2 == n * n && x < n2 && n > 1 && x % n == 1
    ensures x == 1 + n * ((x - 1) / n) && 0 <= (x - 1) / n < n
  {
    ModUnique(x - 1, n, x / n, 0);
    if (x - 1) / n >= n { MulMono(n, (x - 1) / n, n); }
    if (x - 1) / n < 0 { MulMono((x - 1) / n, -1, n); }
  }

  lemma LogIs(k: Paillier, c: int, a: int)
    requires Sound(k) && Coprime(c, k.n) && Pow(c, k.phi) % k.n2 == (1 + k.n * a) % k.n2
    ensures Log(k, c) % k.n == a % k.n
  {
    LogExact(k, c);
    SoundFacts(k);
    ModMul(1, Pow(c, k.phi), k.n2);
    LinearUnique(k.n, k.n2, Log(k, c), a);
  }

  lemma LogCong(k: Paillier, c: int)
    ensures Log(k, c % k.n2) == Log(k, c)
  {
    PowResidue(c, k.phi, k.n2);
  }

  lemma LogMul(k: Paillier, c: int, d: int)
    requires Sound(k) && Coprime(c, k.n) && Coprime(d, k.n)
    ensures Log(k, c * d) % k.n == (Log(k, c) + Log(k, d)) % k.n
  {
    SoundFacts(k);
    LogExact(k, c);
    LogExact(k, d);
    CoprimeMul(c, d, k.n);
    PowBase(c, d, k.phi);
    ModMul(Pow(c, k.phi), Pow(d, k.phi), k.n2);
    LinearMul(k.n, k.n2, Log(k, c), Log(k, d));
    LogIs(k, c * d, Log(k, c) + Log(k, d));
  }

  lemma LogPow(k: Paillier, c: int, t: nat)
    requires Sound(k) && Coprime(c, k.n)
    ensures Coprime(Pow(c, t), k.n)
    ensures Log(k, Pow(c, t)) % k.n == (t * Log(k, c)) % k.n
  {
    CoprimePow(c, t, k.n);
    SoundFacts(k);
    LogExact(k, c);
    LinearisedPow(c, k.phi, t, k.n, k.n2, Log(k, c));
    LogIs(k, Pow(c, t), t * Log(k, c));
  }

  lemma LinearisedPow(c: int, phi: nat, t: nat, n: pos, n2: pos, a: int)
    requires n2 == n * n && ModExp(c, phi, n2) == 1 + n * a
    ensures Pow(Pow(c, t), phi) % n2 == (1 + n * (t * a)) % n2
  {
    SwapPowers(c, t, phi);
    PowResidue(Pow(c, phi), t, n2);
    LinearPow(n, n2, a, t);
    assert a * t == t * a;
  }

  lemma SwapPowers(a: int, e: nat, f: nat)
    ensures Pow(Pow(a, e), f) == Pow(Pow(a, f), e)
  {
    PowMul(a, e, f);
    PowMul(a, f, e);
    assert e * f == f * e;
  }

  /** The logarithm of the public base g = 1 + n is phi, and that of an n-th power is zero. */
  lemma LogBase(k: Paillier)
    requires Sound(k)
    ensures Coprime(k.g, k.n) && Log(k, k.g) % k.n == k.phi % k.n
  {
    SoundFacts(k);
    ModShift(1, 1, k.n);
    CoprimeFromInverse(k.g, 1, k.n);
    LinearPow(k.n, k.n2, 1, k.phi);
    LogIs(k, k.g, k.phi);
  }

  lemma LogNthPower(k: Paillier, r: int)
    requires Sound(k) && Coprime(r, k.n)
    ensures Coprime(Pow(r, k.n), k.n) && Log(k, Pow(r, k.n)) % k.n == 0
  {
    LogPow(k, r, k.n);
    ModMultiple(Log(k, r), k.n);
  }

  // ---------- decryption ----------

  /** What dec computes, without its range checks. */
  function Plain(k: Paillier, c: int): nat {
    (Log(k, c) * k.u) % k.n
  }

  /** Ciphertexts that dec accepts. */
  predicate Ciphertext(k: Paillier, c: int) {
    0 < c < k.n2 && Coprime(c, k.n)
  }

  lemma CiphertextReduced(k: Paillier, c: int)
    requires Sound(k)
    ensures Ciphertext(k, c % k.n2) <==> Coprime(c, k.n)
  {
    SoundFacts(k);
    ModMod(c, k.n2, k.n);
    CoprimeCong(c % k.n2, c, k.n);
    if c % k.n2 == 0 {
      ModSmall(0, k.n);
      assert Gcd(0, k.n) == k.n;
    }
  }

  lemma DecValue(k: Paillier, c: int)
    requires Sound(k)
    ensures Ciphertext(k, c) ==> k.Dec(c) == Ok(Plain(k, c))
    ensures c <= 0 || c >= k.n2 ==> k.Dec(c) == Err(CiphertextOutOfRange)
    ensures 0 < c < k.n2 && !Coprime(c, k.n) ==> k.Dec(c) == Err(CiphertextNotInvertible)
  {
    SoundFacts(k);
    CoprimePQ(k.p, k.q, c);
  }

  lemma PlainOf(k: Paillier, c: int, m: int)
    requires Sound(k) && Log(k, c) % k.n == (k.phi * m) % k.n
    ensures Plain(k, c) == m % k.n
  {
    SoundFacts(k);
    CongMul(Log(k, c), k.phi * m, k.u, k.u, k.n);
    UndoUnit(k.phi, k.u, m, k.n);
  }

  /** The logarithm is phi times the plaintext, for every unit. */
  lemma LogOfPlain(k: Paillier, c: int)
    requires Sound(k)
    ensures Log(k, c) % k.n == (k.phi * Plain(k, c)) % k.n
  {
    SoundFacts(k);
    Unscale(k.phi, k.u, Log(k, c), k.n);
  }

  lemma Unscale(f: int, u: int, a: int, n: pos)
    requires (f * u) % n == 1 % n
    ensures (f * ((a * u) % n)) % n == a % n
  {
    ModMul(f, a * u, n);
    assert f * (a * u) == f * a * u;
    UndoUnit(f, u, a, n);
  }

  /** Multiplying ciphertexts adds plaintexts. */
  lemma PlainMul(k: Paillier, c: int, d: int)
    requires Sound(k) && Ciphertext(k, c) && Ciphertext(k, d)
    ensures Ciphertext(k, (c * d) % k.n2)
    ensures Plain(k, (c * d) % k.n2) == (Plain(k, c) + Plain(k, d)) % k.n
  {
    CoprimeMul(c, d, k.n);
    CiphertextReduced(k, c * d);
    LogMul(k, c, d);
    LogOfPlain(k, c);
    LogOfPlain(k, d);
    LogCong(k, c * d);
    CongAdd(Log(k, c), k.phi * Plain(k, c), Log(k, d), k.phi * Plain(k, d), k.n);
    MulDistribute(k.phi, Plain(k, c), Plain(k, d));
    PlainOf(k, (c * d) % k.n2, Plain(k, c) + Plain(k, d));
  }

  /** Raising a ciphertext to t multiplies the plaintext by t. */
  lemma PlainPow(k: Paillier, c: int, t: nat)
    requires Sound(k) && Ciphertext(k, c)
    ensures Ciphertext(k, ModExp(c, t, k.n2))
    ensures Plain(k, ModExp(c, t, k.n2)) == (t * Plain(k, c)) % k.n
  {
    LogPow(k, c, t);
    CiphertextReduced(k, Pow(c, t));
    LogCong(k, Pow(c, t));
    LogOfPlain(k, c);
    CongMul(t, t, Log(k, c), k.phi * Plain(k, c), k.n);
    MulLeftSwap(t, k.phi, Plain(k, c));
    PlainOf(k, ModExp(c, t, k.n2), t * Plain(k, c));
  }

  /** Encryption by a unit r is a ciphertext of m; by any other r it is no ciphertext. */
  lemma PlainEnc(k: Paillier, m: int, r: nat)
    requires Sound(k) && 0 <= m < k.n
    ensures k.Enc(m, r).Ok?
    ensures Ciphertext(k, k.Enc(m, r).value) <==> Coprime(r, k.n)
    ensures Coprime(r, k.n) ==> Plain(k, k.Enc(m, r).value) == m
  {
    var x, z := Pow(k.g, m), Pow(r, k.n);
    ModMul(x, z, k.n2);
    LogBase(k);
    LogPow(k, k.g, m);
    CiphertextReduced(k, x * z);
    CoprimeMul(x, z, k.n);
    if Coprime(r, k.n) {
      LogNthPower(k, r);
      LogMul(k, x, z);
      LogCong(k, x * z);
      EncLog(k, m, x, z);
      PlainOf(k, (x * z) % k.n2, m);
      ModSmall(m, k.n);
    } else if Coprime(z, k.n) {
      CoprimeOfPow(r, k.n, k.n);
    }
  }

  lemma EncLog(k: Paillier, m: int, x: int, z: int)
    requires Log(k, k.g) % k.n == k.phi % k.n && Log(k, x) % k.n == (m * Log(k, k.g)) % k.n
    requires Log(k, z) % k.n == 0 && Log(k, x * z) % k.n == (Log(k, x) + Log(k, z)) % k.n
    ensures Log(k, x * z) % k.n == (k.phi * m) % k.n
  {
    CongMul(m, m, Log(k, k.g), k.phi, k.n);
    assert m * k.phi == k.phi * m;
    CongAdd(Log(k, x), k.phi * m, Log(k, z), 0, k.n);
  }

  /** Decryption inverts encryption exactly when the sampled r is invertible modulo n. */
  lemma DecInvertsEnc(k: Paillier, m: int, r: nat)
    requires Sound(k) && 0 <= m < k.n
    ensures k.Enc(m, r).Ok?
    ensures k.Dec(k.Enc(m, r).value) == Ok(m) <==> Coprime(r, k.n)
  {
    PlainEnc(k, m, r);
    DecValue(k, k.Enc(m, r).value);
  }

  /** Encryption is injective on plaintexts and units: no other pair gives the same ciphertext. */
  lemma EncInjective(k: Paillier, m: int, r: nat, m': int, r': nat)
    requires Sound(k) && 0 <= m < k.n && 0 <= m' < k.n && r < k.n && r' < k.n
    requires Coprime(r, k.n) && Coprime(r', k.n) && k.Enc(m, r) == k.Enc(m', r')
    ensures m == m' && r == r'
  {
    DecInvertsEnc(k, m, r);
    DecInvertsEnc(k, m', r');
    EncModN(k, m, r);
    EncModN(k, m', r');
    SoundFacts(k);
    CoprimeSymmetric(k.n, k.phi);
    RootUnique(k.p, k.q, r, r', k.n);
    ModSmall(r, k.n);
    ModSmall(r', k.n);
  }

  /** Modulo n a ciphertext is r^n, as g is one. */
  lemma EncModN(k: Paillier, m: int, r: nat)
    requires Sound(k) && 0 <= m < k.n
    ensures k.Enc(m, r).Ok? && k.Enc(m, r).value % k.n == ModExp(r, k.n, k.n)
  {
    SoundFacts(k);
    var x, z := ModExp(k.g, m, k.n2), ModExp(r, k.n, k.n2);
    ModMod(x * z, k.n2, k.n);
    ModMod(Pow(k.g, m), k.n2, k.n);
    ModMod(Pow(r, k.n), k.n2, k.n);
    ModShift(1, 1, k.n);
    CongPow(k.g, 1, m, k.n);
    PowOne(m);
    CongMul(x, 1, z, Pow(r, k.n), k.n);
  }

  /** enc refuses exactly what is out of range. */
  lemma EncRange(k: Paillier, m: int, r: nat)
    ensures k.Enc(m, r) == Err(PlaintextOutOfRange) <==> m < 0 || m >= k.n
    ensures k.Enc(m, r).Ok? <==> 0 <= m < k.n
  {
  }

  /** The public key encrypts exactly as the private one does, and cannot decrypt. */
  lemma PublicKeyAgrees(k: Paillier, m: int, r: nat)
    requires Sound(k)
    ensures PublicKey(k.n, k.g).Enc(m, r) == k.Enc(m, r) && PublicKey(k.n, k.g).n2 == k.n2
    ensures PublicKey(k.n, k.g).Dec(m) == Err(ClientCannotDecrypt)
  {
  }
}
