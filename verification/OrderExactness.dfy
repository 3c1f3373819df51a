/** When find_order returns the exact multiplicative order. */
module OrderExactness {
  import opened Modular
  import opened Primes
  import opened Fermat
  import opened OrderSearch

  /** e is the least positive exponent that sends g to one. */
  ghost predicate IsOrder(g: nat, e: nat, n: pos) {
    e > 0 && ModExp(g, e, n) == 1 && forall k :: 0 < k < e ==> ModExp(g, k, n) != 1
  }

  /** A prime p = 2a + 1 with a an odd prime. */
  ghost predicate SafePrime(p: int) {
    IsPrime(p) && IsPrime((p - 1) / 2) && p % 4 == 3
  }

  lemma SafePrimeBounds(p: pos)
    requires SafePrime(p)
    ensures p >= 7 && p == 2 * ((p - 1) / 2) + 1 && (p - 1) / 2 % 2 == 1
    ensures (p - 2) / 2 == (p - 1) / 2 - 1
  {
    HalfOf(p);
    assert (p - 1) / 2 >= 2;
  }

  lemma HalfOf(p: pos)
    requires p % 4 == 3
    ensures p == 2 * ((p - 1) / 2) + 1 && (p - 1) / 2 % 2 == 1
    ensures (p - 2) / 2 == (p - 1) / 2 - 1
  {
    var k := p / 4;
    assert p == 4 * k + 3;
    assert (p - 1) / 2 == 2 * k + 1 && (p - 2) / 2 == 2 * k;
  }

  lemma PhiOfSafePrimes(p: pos, q: pos)
    requires SafePrime(p) && SafePrime(q)
    ensures Phi(p, q) == 4 * (((p - 1) / 2) * ((q - 1) / 2))
  {
    var a, b := (p - 1) / 2, (q - 1) / 2;
    assert (2 * a) * (2 * b) == 4 * (a * b);
  }

  /** A divisor of 4ab above one is divisible by one of the primes 2, a and b. */
  lemma PrimeFactorOf4ab(m: pos, a: pos, b: pos)
    requires IsPrime(a) && IsPrime(b) && m > 1 && (4 * (a * b)) % m == 0
    ensures m % 2 == 0 || m % a == 0 || m % b == 0
  {
    if m % 2 != 0 && m % a != 0 && m % b != 0 {
      assert IsPrime(2);
      PrimeCoprime(2, m);
      PrimeCoprime(a, m);
      PrimeCoprime(b, m);
      CoprimeSymmetric(2, m);
      CoprimeSymmetric(a, m);
      CoprimeSymmetric(b, m);
      CoprimeMul(a, b, m);
      CoprimeMul(2, 2, m);
      CoprimeMul(4, a * b, m);
      assert Gcd(0, m) == m;
    }
  }

  /** An exponent that kills g, divides 4ab and is maximal for 2, a and b is the order. */
  lemma MaximalIsOrder(g: nat, e: pos, a: pos, b: pos, n: pos)
    requires n > 1 && IsPrime(a) && IsPrime(b) && (4 * (a * b)) % e == 0
    requires ModExp(g, e, n) == 1
    requires Maximal(e, 2, g, n) && Maximal(e, a, g, n) && Maximal(e, b, g, n)
    ensures IsOrder(g, e, n)
  {
    forall k | 0 < k < e ensures ModExp(g, k, n) != 1 {
      if ModExp(g, k, n) == 1 {
        var f := ProperPeriod(g, e, k, a, b, n);
      }
    }
  }

  /** A smaller period of g shows up as a prime factor of e that can still be taken out. */
  lemma ProperPeriod(g: nat, e: pos, k: pos, a: pos, b: pos, n: pos) returns (f: factor)
    requires n > 1 && IsPrime(a) && IsPrime(b) && (4 * (a * b)) % e == 0
    requires k < e && ModExp(g, e, n) == 1 && ModExp(g, k, n) == 1
    ensures (f == 2 || f == a || f == b) && !Maximal(e, f, g, n)
  {
    ModSmall(1, n);
    GcdPeriod(g, k, e, n);
    GcdDivides(k, e);
    var d := Gcd(k, e);
    DividesLe(d, k);
    var c: pos;
    f, c := FactorOut(e, d, a, b);
    PowPeriod(g, d, c, n);
  }

  /** Between a proper divisor d of e and e itself lies one of the primes 2, a and b. */
  lemma FactorOut(e: pos, d: pos, a: pos, b: pos) returns (f: factor, c: pos)
    requires IsPrime(a) && IsPrime(b) && (4 * (a * b)) % e == 0 && d < e && e % d == 0
    ensures (f == 2 || f == a || f == b) && e % f == 0 && e / f == d * c
  {
    var m := e / d;
    StripDivisor(e, d);
    DividesTrans(m, e, 4 * (a * b));
    PrimeFactorOf4ab(m, a, b);
    f := if m % 2 == 0 then 2 else if m % a == 0 then a else b;
    StripQuotient(m, f);
    c := m / f;
    RegroupQuotient(e, d, f, c);
  }

  lemma StripDivisor(e: pos, d: pos)
    requires d < e && e % d == 0
    ensures e / d > 1 && e == d * (e / d) && e % (e / d) == 0
  {
    var m := e / d;
    assert e == d * m;
    if m <= 1 { MulMono(m, 1, d); }
    ModMultiple(d, m);
  }

  lemma RegroupQuotient(e: pos, d: pos, f: factor, c: pos)
    requires e == d * (f * c)
    ensures e % f == 0 && e / f == d * c
  {
    assert e == f * (d * c);
    ModUnique(e, f, d * c, 0);
  }

  /** What find_order would return with q2 = (p2-1)/2, the prime that a safe prime calls for. */
  function IntendedOrder(p: pos, q: pos, g: nat): pos
    requires p >= 5 && q >= 5
  {
    MulPos(p, q);
    MulPos(p - 1, q - 1);
    StripAll(Phi(p, q), [(p - 1) / 2, (q - 1) / 2, 2], g, p * q)
  }

  /** Stripping with the intended divisors leaves the order. */
  lemma IntendedOrderExact(p: pos, q: pos, g: nat)
    requires SafePrime(p) && SafePrime(q) && p != q && Coprime(g, p * q)
    ensures IsOrder(g, IntendedOrder(p, q, g), p * q)
  {
    PhiFacts(p, q);
    PhiOfSafePrimes(p, q);
    Euler(p, q, g);
    var ds: seq<factor> := [(p - 1) / 2, (q - 1) / 2, 2];
    StripAllKeeps(Phi(p, q), ds, g, p * q);
    StripAllMaximal(Phi(p, q), ds, g, p * q, 0);
    StripAllMaximal(Phi(p, q), ds, g, p * q, 1);
    StripAllMaximal(Phi(p, q), ds, g, p * q, 2);
    MaximalIsOrder(g, IntendedOrder(p, q, g), ds[0], ds[1], p * q);
  }

  // ---------- the code as written ----------

  /** A prime that divides no divisor tried is never taken out. */
  lemma {:induction false} StripKeepsPrime(order: pos, d: factor, f: pos, g: nat, n: pos)
    requires IsPrime(f) && d % f != 0 && order % f == 0
    ensures Strip(order, d, g, n) % f == 0
    decreases order
  {
    if order % d == 0 {
      StripQuotient(order, d);
      PrimeDividesProduct(f, d, order / d);
      if ModExp(g, order / d, n) == 1 {
        StripKeepsPrime(order / d, d, f, g, n);
      }
    }
  }

  lemma {:induction false} StripAllKeepsPrime(order: pos, ds: seq<factor>, f: pos, g: nat, n: pos)
    requires IsPrime(f) && order % f == 0 && forall i :: 0 <= i < |ds| ==> ds[i] % f != 0
    ensures StripAll(order, ds, g, n) % f == 0
  {
    if ds != [] {
      StripAllKeepsPrime(order, ds[..|ds| - 1], f, g, n);
      StripKeepsPrime(StripAll(order, ds[..|ds| - 1], g, n), ds[|ds| - 1], f, g, n);
    }
  }

  /** The stripped exponent of find_order. */
  function FoundOrder(p: pos, q: pos, g: nat): pos
    requires p >= 5 && q >= 6
  {
    MulPos(p, q);
    MulPos(p - 1, q - 1);
    StripAll(Phi(p, q), Divisors(p, q), g, p * q)
  }

  /** What every caller of find_order relies on. */
  lemma FoundOrderFacts(p: pos, q: pos, g: nat)
    requires SafePrime(p) && SafePrime(q) && p != q
    ensures Phi(p, q) % FoundOrder(p, q, g) == 0
    ensures Coprime(g, p * q) ==> ModExp(g, FoundOrder(p, q, g), p * q) == 1
  {
    PhiFacts(p, q);
    if Coprime(g, p * q) {
      Euler(p, q, g);
    }
    StripAllKeeps(Phi(p, q), Divisors(p, q), g, p * q);
  }

  /** The factor (q-1)/2 survives, because the code tries (q-2)/2 in its place. */
  lemma FoundOrderKeepsQ(p: pos, q: pos, g: nat)
    requires SafePrime(p) && SafePrime(q) && p != q
    ensures FoundOrder(p, q, g) % ((q - 1) / 2) == 0
  {
    var a, b := (p - 1) / 2, (q - 1) / 2;
    SafePrimeBounds(p);
    SafePrimeBounds(q);
    PhiFacts(p, q);
    PhiOfSafePrimes(p, q);
    assert 4 * (a * b) == b * (4 * a);
    ModMultiple(4 * a, b);
    DistinctPrimes(b, a);
    ModSmall(b - 1, b);
    ModSmall(2, b);
    StripAllKeepsPrime(Phi(p, q), Divisors(p, q), b, g, p * q);
  }

  /** For units, the code's find_order returns the exact order if and only if g * g is not one
      modulo the second prime. */
  lemma FoundOrderExact(p: pos, q: pos, g: nat)
    requires SafePrime(p) && SafePrime(q) && p != q && Coprime(g, p * q)
    ensures IsOrder(g, FoundOrder(p, q, g), p * q) <==> (g * g) % q != 1
  {
    var n, b := p * q, (q - 1) / 2;
    var e := FoundOrder(p, q, g);
    PhiFacts(p, q);
    FoundOrderFacts(p, q, g);
    FoundOrderKeepsQ(p, q, g);
    StripQuotient(e, b);
    if (g * g) % q == 1 {
      KilledWithoutQ(p, q, g, e);
    } else {
      PhiOfSafePrimes(p, q);
      StripAllMaximal(Phi(p, q), Divisors(p, q), g, n, 0);
      StripAllMaximal(Phi(p, q), Divisors(p, q), g, n, 2);
      if ModExp(g, e / b, n) == 1 {
        SquareKilled(p, q, g, e);
      }
      MaximalIsOrder(g, e, (p - 1) / 2, b, n);
    }
  }

  /** If g * g is one modulo q then e still kills g after (q-1)/2 is taken out. */
  lemma KilledWithoutQ(p: pos, q: pos, g: nat, e: pos)
    requires SafePrime(p) && SafePrime(q) && p != q && Coprime(g, p * q)
    requires e % ((q - 1) / 2) == 0 && ModExp(g, e, p * q) == 1 && (g * g) % q == 1
    ensures ModExp(g, e / ((q - 1) / 2), p * q) == 1
  {
    var a, b := (p - 1) / 2, (q - 1) / 2;
    var k := e / b;
    StripQuotient(e, b);
    PowersPQ(p, q, g, b * k);
    PowersPQ(p, q, g, k);
    SafePrimeBounds(p);
    SafePrimeBounds(q);
    OddPrimesApart(a, b);
    KilledModFirst(p, g, a, b, k);
    KilledModSecond(q, g, b, k);
  }

  lemma KilledModFirst(p: pos, g: int, a: pos, b: pos, k: nat)
    requires IsPrime(p) && p == 2 * a + 1 && g % p != 0 && Coprime(b, 2 * a)
    requires b * k >= 0 && Pow(g, b * k) % p == 1
    ensures Pow(g, k) % p == 1
  {
    FermatLittle(p, g);
    KilledByPeriod(p, g, b, k, 2 * a);
  }

  lemma KilledModSecond(q: pos, g: int, b: pos, k: nat)
    requires q > 1 && b % 2 == 1 && (g * g) % q == 1
    requires b * k >= 0 && Pow(g, b * k) % q == 1
    ensures Pow(g, k) % q == 1
  {
    OddIsUnit(b);
    PowTwo(g);
    KilledByPeriod(q, g, b, k, 2);
  }

  lemma PowTwo(g: int)
    ensures Pow(g, 2) == g * g
  {
    assert Pow(g, 1) == g;
  }

  lemma KilledByPeriod(p: pos, g: int, b: nat, k: nat, j: pos)
    requires p > 1 && b * k >= 0 && Pow(g, b * k) % p == 1 && Pow(g, j) % p == 1 && Coprime(b, j)
    ensures Pow(g, k) % p == 1
  {
    ModSmall(1, p);
    DropCoprimeFactor(g, b, k, j, p);
  }

  /** For a unit, a power is one modulo n exactly when it is one modulo both primes. */
  lemma PowersPQ(p: pos, q: pos, g: int, k: nat)
    requires TwoPrimes(p, q)
    requires p * q > 0 && Coprime(g, p * q)
    ensures g % p != 0 && g % q != 0
    ensures ModExp(g, k, p * q) == 1 <==> Pow(g, k) % p == 1 && Pow(g, k) % q == 1
  {
    PhiFacts(p, q);
    CoprimePQ(p, q, g);
    ModSmall(1, p * q);
    ModSmall(1, p);
    ModSmall(1, q);
    CongPQ(p, q, Pow(g, k), 1);
  }

  lemma OddIsUnit(b: pos)
    requires b % 2 == 1
    ensures Coprime(b, 2)
  {
    CoprimeFromInverse(b, 1, 2);
  }

  /** b is prime to 2a when a and b are different odd primes. */
  lemma OddPrimesApart(a: pos, b: pos)
    requires IsPrime(a) && IsPrime(b) && a != b && b % 2 == 1
    ensures Coprime(b, 2 * a) && Coprime(2 * a, b)
  {
    ModSmall(2, b);
    DistinctPrimes(b, a);
    PrimeDividesProduct(b, 2, a);
    PrimeCoprime(b, 2 * a);
    CoprimeSymmetric(b, 2 * a);
  }

  /** Conversely, taking (q-1)/2 out is only possible when g * g is one modulo q. */
  lemma SquareKilled(p: pos, q: pos, g: nat, e: pos)
    requires SafePrime(p) && SafePrime(q) && p != q && Coprime(g, p * q)
    requires Phi(p, q) % e == 0 && e % ((q - 1) / 2) == 0
    requires ModExp(g, e / ((q - 1) / 2), p * q) == 1
    ensures (g * g) % q == 1
  {
    var a, b := (p - 1) / 2, (q - 1) / 2;
    SafePrimeBounds(p);
    SafePrimeBounds(q);
    PowersPQ(p, q, g, e / b);
    PhiOfSafePrimes(p, q);
    assert 4 * (a * b) == b * (4 * a);
    var c := QuotientDivides(e, b, 4 * a);
    FourthPower(q, g, a, e / b, c);
    OddPrimesApart(a, b);
    SquareOfUnit(q, g, a, b);
  }

  lemma QuotientDivides(e: pos, b: pos, m: nat) returns (c: nat)
    requires (b * m) % e == 0 && e % b == 0
    ensures m == (e / b) * c
  {
    c := (b * m) / e;
    var k := e / b;
    assert e == b * k;
    assert b * m == e * c;
    assert b * (k * c) == b * m;
    MulCancel(b, k * c, m);
    MulMono(0, m, b);
  }

  lemma FourthPower(q: pos, g: int, a: pos, k: nat, c: nat)
    requires q > 1 && Pow(g, k) % q == 1 && 4 * a == k * c
    ensures Pow(g * g, 2 * a) % q == 1
  {
    ModSmall(1, q);
    PowPeriod(g, k, c, q);
    PowTwo(g);
    PowMul(g, 2, 2 * a);
  }

  lemma SquareOfUnit(q: pos, g: int, a: pos, b: pos)
    requires IsPrime(q) && q == 2 * b + 1 && g % q != 0 && Coprime(2 * a, b)
    requires Pow(g * g, 2 * a) % q == 1
    ensures (g * g) % q == 1
  {
    FermatLittle(q, g);
    PowTwo(g);
    PowMul(g, 2, b);
    assert Pow(g * g, 1) == g * g;
    KilledByPeriod(q, g * g, 2 * a, 1, b);
  }
}
