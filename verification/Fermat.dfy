/** Fermat's little theorem, and what it says about exponents modulo a product of two primes. */
module Fermat {
  import opened Modular
  import opened Primes

  // ---------- products of permutations ----------

  function Prod(s: seq<int>): int {
    if s == [] then 1 else s[0] * Prod(s[1..])
  }

  function Fact(n: nat): int {
    if n == 0 then 1 else n * Fact(n - 1)
  }

  ghost predicate Distinct(s: seq<int>) {
    forall i, j :: 0 <= i < j < |s| ==> s[i] != s[j]
  }

  ghost predicate Within(s: seq<int>, m: int) {
    forall i :: 0 <= i < |s| ==> 1 <= s[i] <= m
  }

  ghost function Without(s: seq<int>, i: nat): seq<int>
    requires i < |s|
  {
    s[..i] + s[i + 1..]
  }

  lemma {:induction false} ProdWithout(s: seq<int>, i: nat)
    requires i < |s|
    ensures Prod(s) == s[i] * Prod(Without(s, i))
  {
    if i == 0 {
      assert Without(s, 0) == s[1..];
    } else {
      ProdWithout(s[1..], i - 1);
      var t := Without(s, i);
      assert t[0] == s[0] && t[1..] == Without(s[1..], i - 1);
      assert s[0] * (s[i] * Prod(t[1..])) == s[i] * (s[0] * Prod(t[1..]));
    }
  }

  lemma {:induction false} Pigeonhole(s: seq<int>, m: nat)
    requires Distinct(s) && Within(s, m)
    ensures |s| <= m
    decreases m
  {
    if |s| > 0 {
      assert 1 <= s[0] <= m;
      if i :| 0 <= i < |s| && s[i] == m {
        Pigeonhole(Without(s, i), m - 1);
      } else {
        Pigeonhole(s, m - 1);
      }
    }
  }

  /** Distinct numbers that fill 1..n multiply to n factorial. */
  lemma {:induction false} ProdPermutation(s: seq<int>)
    requires Distinct(s) && Within(s, |s|)
    ensures Prod(s) == Fact(|s|)
  {
    if |s| > 0 {
      if i :| 0 <= i < |s| && s[i] == |s| {
        ProdWithout(s, i);
        ProdPermutation(Without(s, i));
      } else {
        Pigeonhole(s, |s| - 1);
      }
    }
  }

  // ---------- Fermat ----------

  function Multiples(a: int, p: pos, k: nat): (s: seq<int>)
    ensures |s| == k
    ensures forall i :: 0 <= i < k ==> s[i] == (a * (k - i)) % p
  {
    if k == 0 then [] else [(a * k) % p] + Multiples(a, p, k - 1)
  }

  lemma {:induction false} ProdMultiples(a: int, p: pos, k: nat)
    ensures Prod(Multiples(a, p, k)) % p == (Pow(a, k) * Fact(k)) % p
  {
    if k > 0 {
      ProdMultiples(a, p, k - 1);
      var s := Multiples(a, p, k);
      assert s[1..] == Multiples(a, p, k - 1);
      ModMul(a * k, 1, p);
      CongMul(s[0], a * k, Prod(s[1..]), Pow(a, k - 1) * Fact(k - 1), p);
      MulSwap(a, k, Pow(a, k - 1), Fact(k - 1));
    }
  }

  lemma MultiplesPermute(a: int, p: pos)
    requires IsPrime(p) && a % p != 0
    ensures Distinct(Multiples(a, p, p - 1)) && Within(Multiples(a, p, p - 1), p - 1)
  {
    var s := Multiples(a, p, p - 1);
    PrimeCoprime(p, a);
    forall i | 0 <= i < |s| ensures 1 <= s[i] <= p - 1 {
      ModSmall(p - 1 - i, p);
      PrimeDividesProduct(p, a, p - 1 - i);
    }
    forall i, j | 0 <= i < j < |s| ensures s[i] != s[j] {
      if s[i] == s[j] {
        CancelUnit(a, p - 1 - i, p - 1 - j, p);
        ModSmall(p - 1 - i, p);
        ModSmall(p - 1 - j, p);
      }
    }
  }

  lemma {:induction false} FactCoprime(p: pos, k: nat)
    requires IsPrime(p) && k < p
    ensures Fact(k) % p != 0
  {
    if k == 0 {
      ModSmall(1, p);
    } else {
      FactCoprime(p, k - 1);
      ModSmall(k, p);
      PrimeDividesProduct(p, k, Fact(k - 1));
    }
  }

  lemma FermatLittle(p: pos, a: int)
    requires IsPrime(p) && a % p != 0
    ensures Pow(a, p - 1) % p == 1
  {
    MultiplesPermute(a, p);
    ProdPermutation(Multiples(a, p, p - 1));
    ProdMultiples(a, p, p - 1);
    FactCoprime(p, p - 1);
    CancelFactor(p, Pow(a, p - 1), Fact(p - 1));
  }

  lemma CancelFactor(p: pos, x: int, f: int)
    requires IsPrime(p) && f % p != 0 && (x * f) % p == f % p
    ensures x % p == 1
  {
    PrimeCoprime(p, f);
    assert f * x == x * f && f * 1 == f;
    CancelUnit(f, x, 1, p);
    ModSmall(1, p);
  }

  // ---------- exponents modulo a prime ----------

  /** Raising to a multiple of a known period gives one. */
  lemma PowPeriod(a: int, e: nat, k: nat, n: pos)
    requires Pow(a, e) % n == 1 % n
    ensures 0 <= e * k && Pow(a, e * k) % n == 1 % n
  {
    PowMul(a, e, k);
    CongPow(Pow(a, e), 1, k, n);
    PowOne(k);
  }

  lemma PowAddPeriod(a: int, e: nat, m: nat, n: pos)
    requires Pow(a, m) % n == 1 % n
    ensures Pow(a, e + m) % n == Pow(a, e) % n
  {
    PowAdd(a, e, m);
    CongMul(Pow(a, e), Pow(a, e), Pow(a, m), 1, n);
  }

  /** Exponents only matter modulo a period. */
  lemma PeriodReduce(a: int, m: pos, e: nat, f: nat, n: pos)
    requires Pow(a, m) % n == 1 % n && e % m == f % m
    ensures Pow(a, e) % n == Pow(a, f) % n
  {
    PeriodRemainder(a, m, e, n);
    PeriodRemainder(a, m, f, n);
  }

  lemma PeriodRemainder(a: int, m: pos, e: nat, n: pos)
    requires Pow(a, m) % n == 1 % n
    ensures Pow(a, e) % n == Pow(a, e % m) % n
  {
    var k, r := e / m, e % m;
    assert e == r + m * k;
    PowPeriod(a, m, k, n);
    PowAddPeriod(a, r, m * k, n);
  }

  /** Two periods have their greatest common divisor as a period. */
  lemma GcdPeriod(a: int, k: nat, m: pos, n: pos)
    requires Pow(a, k) % n == 1 % n && Pow(a, m) % n == 1 % n
    ensures Pow(a, Gcd(k, m)) % n == 1 % n
  {
    var (x, y) := Bezout(k, m);
    var s := x % m;
    PowPeriod(a, k, s, n);
    ModMul(k, x, m);
    ModShift(k * x, y, m);
    PeriodReduce(a, m, k * s, Gcd(k, m), n);
  }

  /** A factor prime to one period can be dropped from another. */
  lemma DropCoprimeFactor(a: int, b: nat, k: nat, j: pos, n: pos)
    requires b * k >= 0 && Pow(a, b * k) % n == 1 % n && Pow(a, j) % n == 1 % n
    requires Coprime(b, j)
    ensures Pow(a, k) % n == 1 % n
  {
    var s := InverseMod(b, j);
    PowPeriod(a, b * k, s, n);
    CongMul(b * s, 1, k, k, j);
    MulRightSwap(b, s, k);
    PeriodReduce(a, j, b * k * s, k, n);
  }

  /** A multiple of p - 1 can be added to any positive exponent, whatever the base. */
  lemma FermatShift(p: pos, a: int, e: nat, m: nat)
    requires IsPrime(p) && m % (p - 1) == 0
    requires e > 0 || a % p != 0
    ensures Pow(a, e + m) % p == Pow(a, e) % p
  {
    if a % p == 0 {
      DividesMul(p, a, Pow(a, e - 1));
      DividesMul(p, a, Pow(a, e + m - 1));
    } else {
      FermatLittle(p, a);
      ModSmall(1, p);
      var k := m / (p - 1);
      assert m == (p - 1) * k;
      PowPeriod(a, p - 1, k, p);
      PowAddPeriod(a, e, m, p);
    }
  }

  // ---------- exponents modulo n = p * q ----------

  /** p and q are the two different prime factors of n. */
  ghost predicate TwoPrimes(p: int, q: int) {
    IsPrime(p) && IsPrime(q) && p != q
  }

  function Phi(p: pos, q: pos): nat {
    (p - 1) * (q - 1)
  }

  lemma PhiFacts(p: pos, q: pos)
    requires TwoPrimes(p, q)
    ensures p * q > 1 && Phi(p, q) > 0
    ensures Phi(p, q) % (p - 1) == 0 && Phi(p, q) % (q - 1) == 0
  {
    MulPos(p, q);
    MulPos(p - 1, q - 1);
    ModMultiple(q - 1, p - 1);
    ModMultiple(p - 1, q - 1);
  }

  /** Exponents that agree modulo phi(n) give the same power modulo n. When both are positive
      this holds for every base, unit or not, because n is squarefree. */
  lemma ReduceExponent(p: pos, q: pos, a: int, e: nat, f: nat)
    requires TwoPrimes(p, q)
    requires Phi(p, q) > 0 && e % Phi(p, q) == f % Phi(p, q)
    requires (e > 0 && f > 0) || Coprime(a, p * q)
    ensures p * q > 0 && ModExp(a, e, p * q) == ModExp(a, f, p * q)
  {
    if e <= f {
      ReduceOrdered(p, q, a, e, f);
    } else {
      ReduceOrdered(p, q, a, f, e);
    }
  }

  lemma ReduceOrdered(p: pos, q: pos, a: int, e: nat, f: nat)
    requires TwoPrimes(p, q) && e <= f
    requires Phi(p, q) > 0 && e % Phi(p, q) == f % Phi(p, q)
    requires (e > 0 && f > 0) || Coprime(a, p * q)
    ensures p * q > 0 && ModExp(a, e, p * q) == ModExp(a, f, p * q)
  {
    PhiFacts(p, q);
    CoprimePQ(p, q, a);
    var m := f - e;
    ModDiff(f, e, Phi(p, q));
    DividesTrans(p - 1, Phi(p, q), m);
    DividesTrans(q - 1, Phi(p, q), m);
    FermatShift(p, a, e, m);
    FermatShift(q, a, e, m);
    CongPQ(p, q, Pow(a, f), Pow(a, e));
  }

  /** Euler's theorem for n = p * q. */
  lemma Euler(p: pos, q: pos, a: int)
    requires TwoPrimes(p, q) && Coprime(a, p * q)
    ensures p * q > 1 && ModExp(a, Phi(p, q), p * q) == 1
  {
    PhiFacts(p, q);
    ModMultiple(1, Phi(p, q));
    ReduceExponent(p, q, a, Phi(p, q), 0);
    ModSmall(1, p * q);
  }

  /** Roots of an exponent that is invertible modulo phi(n) are unique. */
  lemma RootUnique(p: pos, q: pos, a: nat, b: nat, d: nat)
    requires TwoPrimes(p, q)
    requires p * q > 0 && Coprime(a, p * q) && Coprime(b, p * q)
    requires Phi(p, q) > 0 && Coprime(d, Phi(p, q))
    requires ModExp(a, d, p * q) == ModExp(b, d, p * q)
    ensures a % (p * q) == b % (p * q)
  {
    RootRecovers(p, q, a, d);
    RootRecovers(p, q, b, d);
    CongPow(Pow(a, d), Pow(b, d), InverseMod(d, Phi(p, q)), p * q);
  }

  lemma PowFirst(a: int)
    ensures Pow(a, 1) == a
  {
  }

  lemma RootRecovers(p: pos, q: pos, a: nat, d: nat)
    requires TwoPrimes(p, q)
    requires p * q > 0 && Coprime(a, p * q) && Phi(p, q) > 0 && Coprime(d, Phi(p, q))
    ensures Pow(Pow(a, d), InverseMod(d, Phi(p, q))) % (p * q) == a % (p * q)
  {
    var e := InverseMod(d, Phi(p, q));
    PowMul(a, d, e);
    ReduceExponent(p, q, a, d * e, 1);
    PowFirst(a);
  }
}
