/** Greatest common divisors, inverses and primes. */
module Primes {
  import opened Modular

  // ---------- Euclid's algorithm ----------

  function Gcd(a: nat, b: nat): nat
    decreases b
  {
    if b == 0 then a else Gcd(b, a % b)
  }

  /** Bezout coefficients, computed along Euclid's algorithm. */
  function Bezout(a: nat, b: nat): (c: (int, int))
    ensures a * c.0 + b * c.1 == Gcd(a, b)
    decreases b
  {
    if b == 0 then (1, 0)
    else
      var (x, y) := Bezout(b, a % b);
      BezoutStep(a, b, x, y);
      (y, x - a / b * y)
  }

  lemma BezoutStep(a: nat, b: pos, x: int, y: int)
    ensures a * y + b * (x - a / b * y) == b * x + a % b * y
  {
    var k, r := a / b, a % b;
    assert a == b * k + r;
    calc {
      a * y + b * (x - k * y);
      (b * k + r) * y + b * x - b * (k * y);
      b * k * y + r * y + b * x - b * (k * y);
      b * x + r * y;
    }
  }

  lemma {:induction false} GcdDivides(a: nat, b: nat)
    requires a > 0 || b > 0
    ensures Gcd(a, b) > 0
    ensures a % Gcd(a, b) == 0 && b % Gcd(a, b) == 0
    decreases b
  {
    if b == 0 {
      ModMultiple(1, a);
      ModMultiple(0, a);
    } else {
      GcdDivides(b, a % b);
      var g := Gcd(a, b);
      DividesMul(g, b, a / b);
      DividesAdd(g, b * (a / b), a % b);
      assert a == b * (a / b) + a % b;
    }
  }

  /** Every common divisor divides the greatest one. */
  lemma GcdGreatest(a: nat, b: nat, d: pos)
    requires a % d == 0 && b % d == 0
    ensures Gcd(a, b) % d == 0
  {
    var (x, y) := Bezout(a, b);
    DividesMul(d, a, x);
    DividesMul(d, b, y);
    DividesAdd(d, a * x, b * y);
  }

  lemma GcdOne(a: nat, b: nat, x: int, y: int)
    requires a * x + b * y == 1
    ensures Gcd(a, b) == 1
  {
    assert a > 0 || b > 0;
    GcdDivides(a, b);
    var g := Gcd(a, b);
    DividesMul(g, a, x);
    DividesMul(g, b, y);
    DividesAdd(g, a * x, b * y);
    DividesLe(g, 1);
  }

  lemma {:induction false} GcdScale(k: pos, a: nat, b: nat)
    ensures k * a >= 0 && k * b >= 0
    ensures Gcd(k * a, k * b) == k * Gcd(a, b)
    decreases b
  {
    MulMono(0, a, k);
    MulMono(0, b, k);
    if b > 0 {
      MulPos(k, b);
      ScaleMod(k, a, b);
      GcdScale(k, b, a % b);
    }
  }

  lemma ScaleMod(k: pos, a: nat, b: pos)
    ensures k * b > 0 && (k * a) % (k * b) == k * (a % b)
  {
    MulPos(k, b);
    MulMono(a % b, b - 1, k);
    MulMono(0, a % b, k);
    MulDistribute(k, b, -1);
    ScaleDivMod(k, b, a / b, a % b);
    assert a == b * (a / b) + a % b;
    ModUnique(k * a, k * b, a / b, k * (a % b));
  }

  lemma ScaleDivMod(k: int, b: int, q: int, r: int)
    ensures k * (b * q + r) == (k * b) * q + k * r
  {
  }

  // ---------- units and inverses ----------

  /** a is invertible modulo n. */
  predicate Coprime(a: int, n: pos) {
    Gcd(a % n, n) == 1
  }

  /** The inverse in [0, n), and 0 when there is none. */
  function InverseMod(a: int, n: pos): (r: nat)
    ensures r < n
    ensures Coprime(a, n) ==> (a * r) % n == 1 % n
    ensures !Coprime(a, n) ==> r == 0
  {
    if Coprime(a, n) then
      var (x, y) := Bezout(a % n, n);
      InverseStep(a, n, x, y);
      x % n
    else 0
  }

  lemma InverseStep(a: int, n: pos, x: int, y: int)
    requires a % n * x + n * y == 1
    ensures (a * (x % n)) % n == 1 % n
  {
    ModMul(a, x, n);
    ModShift(1, -y, n);
    assert a % n * x == 1 + n * -y;
  }

  lemma InverseWitness(a: int, n: pos) returns (x: int, s: int)
    requires Coprime(a, n)
    ensures a * x - 1 == n * s
  {
    x := InverseMod(a, n);
    s := CongWitness(a * x, 1, n);
  }

  lemma CoprimeFromInverse(a: int, b: int, n: pos)
    requires (a * b) % n == 1 % n
    ensures Coprime(a, n)
  {
    ModMul(a, b, n);
    var k := CongWitness(a % n * b, 1, n);
    GcdOne(a % n, n, b, -k);
  }

  lemma CoprimeCong(a: int, b: int, n: pos)
    requires a % n == b % n
    ensures Coprime(a, n) <==> Coprime(b, n)
  {
  }

  lemma CoprimeMul(a: int, b: int, n: pos)
    ensures Coprime(a * b, n) <==> Coprime(a, n) && Coprime(b, n)
  {
    if Coprime(a, n) && Coprime(b, n) {
      var x, y := InverseMod(a, n), InverseMod(b, n);
      MulSwap(a, b, x, y);
      CongMul(a * x, 1, b * y, 1, n);
      CoprimeFromInverse(a * b, x * y, n);
    }
    if Coprime(a * b, n) {
      var z := InverseMod(a * b, n);
      assert a * b * z == a * (b * z);
      assert a * b * z == b * (a * z);
      CoprimeFromInverse(a, b * z, n);
      CoprimeFromInverse(b, a * z, n);
    }
  }

  lemma {:induction false} CoprimePow(a: int, e: nat, n: pos)
    requires Coprime(a, n)
    ensures Coprime(Pow(a, e), n)
  {
    if e == 0 {
      CoprimeFromInverse(1, 1, n);
    } else {
      CoprimePow(a, e - 1, n);
      CoprimeMul(a, Pow(a, e - 1), n);
    }
  }

  lemma CoprimeOfPow(a: int, e: nat, n: pos)
    requires e > 0 && Coprime(Pow(a, e), n)
    ensures Coprime(a, n)
  {
    CoprimeMul(a, Pow(a, e - 1), n);
  }

  /** A unit can be cancelled from both sides of a congruence. */
  lemma CancelUnit(c: int, a: int, b: int, n: pos)
    requires Coprime(c, n)
    requires (c * a) % n == (c * b) % n
    ensures a % n == b % n
  {
    var d := InverseMod(c, n);
    CongMul(c * a, c * b, d, d, n);
    UndoUnit(c, d, a, n);
    UndoUnit(c, d, b, n);
  }

  lemma UndoUnit(c: int, d: int, a: int, n: pos)
    requires (c * d) % n == 1 % n
    ensures (c * a * d) % n == a % n
  {
    assert c * a * d == c * d * a;
    CongMul(c * d, 1, a, a, n);
  }

  /** f and m have no common factor, seen from the other side. */
  lemma CoprimeSymmetric(f: pos, m: pos)
    requires Coprime(m, f)
    ensures Coprime(f, m)
  {
    var x, s := InverseWitness(m, f);
    NegateWitness(f, m, x, s);
    ModShift(1, -x, m);
    CoprimeFromInverse(f, -s, m);
  }

  lemma NegateWitness(f: int, m: int, x: int, s: int)
    requires m * x - 1 == f * s
    ensures f * -s == 1 + m * -x
  {
  }

  // ---------- primes ----------

  ghost predicate IsPrime(p: int) {
    2 <= p && forall d :: 2 <= d < p ==> p % d != 0
  }

  lemma PrimeCoprime(p: pos, a: int)
    requires IsPrime(p)
    ensures Coprime(a, p) <==> a % p != 0
  {
    var r := a % p;
    GcdDivides(r, p);
    var g := Gcd(r, p);
    DividesLe(g, p);
    if r != 0 {
      DividesLe(g, r);
      assert g < 2;
    } else {
      assert g == Gcd(p, 0) == p;
    }
  }

  /** Euclid's lemma. */
  lemma PrimeDividesProduct(p: pos, a: int, b: int)
    requires IsPrime(p)
    ensures (a * b) % p == 0 <==> a % p == 0 || b % p == 0
  {
    PrimeCoprime(p, a * b);
    PrimeCoprime(p, a);
    PrimeCoprime(p, b);
    CoprimeMul(a, b, p);
  }

  lemma {:induction false} PrimeDividesPow(p: pos, a: int, e: nat)
    requires IsPrime(p)
    requires Pow(a, e) % p == 0
    ensures a % p == 0
  {
    if e == 0 {
      ModSmall(1, p);
    } else {
      PrimeDividesProduct(p, a, Pow(a, e - 1));
      if a % p != 0 { PrimeDividesPow(p, a, e - 1); }
    }
  }

  lemma DistinctPrimes(p: pos, q: pos)
    requires IsPrime(p) && IsPrime(q) && p != q
    ensures q % p != 0 && Coprime(q, p)
  {
    if q % p == 0 {
      DividesLe(p, q);
    }
    PrimeCoprime(p, q);
  }

  /** Divisibility by two distinct primes is divisibility by their product. */
  lemma DividesPQ(p: pos, q: pos, x: int)
    requires IsPrime(p) && IsPrime(q) && p != q
    ensures p * q > 0
    ensures x % (p * q) == 0 <==> x % p == 0 && x % q == 0
  {
    MulPos(p, q);
    if x % (p * q) == 0 {
      FactorsDivide(p, q, x);
    }
    if x % p == 0 && x % q == 0 {
      QuotientDivisible(p, q, x);
      QuotientOfQuotient(p, q, x);
    }
  }

  lemma FactorsDivide(p: pos, q: pos, x: int)
    requires p * q > 0 && x % (p * q) == 0
    ensures x % p == 0 && x % q == 0
  {
    ModMultiple(p, q);
    ModMultiple(q, p);
    DividesTrans(p, p * q, x);
    DividesTrans(q, p * q, x);
  }

  lemma QuotientDivisible(p: pos, q: pos, x: int)
    requires IsPrime(p) && IsPrime(q) && p != q && x % p == 0 && x % q == 0
    ensures x / p % q == 0
  {
    DistinctPrimes(q, p);
    assert x == p * (x / p);
    PrimeDividesProduct(q, p, x / p);
  }

  lemma QuotientOfQuotient(p: pos, q: pos, x: int)
    requires x % p == 0 && x / p % q == 0
    ensures p * q > 0 && x % (p * q) == 0
  {
    MulPos(p, q);
    var k := x / p;
    assert x == p * k && k == q * (k / q);
    MulAssoc(p, q, k / q);
    ModMultiple(k / q, p * q);
  }

  lemma CongPQ(p: pos, q: pos, a: int, b: int)
    requires IsPrime(p) && IsPrime(q) && p != q
    ensures p * q > 0
    ensures a % (p * q) == b % (p * q) <==> a % p == b % p && a % q == b % q
  {
    DividesPQ(p, q, a - b);
    ModDiff(a, b, p);
    ModDiff(a, b, q);
    ModDiff(a, b, p * q);
  }

  function PrimePart(p: pos, a: int): pos {
    if a % p == 0 then p else 1
  }

  /** The common divisor with a product of two primes: exactly the primes that divide. */
  lemma GcdPQ(p: pos, q: pos, a: nat)
    requires IsPrime(p) && IsPrime(q) && p != q
    ensures p * q > 0
    ensures Gcd(a, p * q) == PrimePart(p, a) * PrimePart(q, a)
  {
    MulPos(p, q);
    if a % p == 0 {
      GcdPQDivided(p, q, a);
    } else if a % q == 0 {
      assert p * q == q * p;
      GcdPQDivided(q, p, a);
      assert PrimePart(p, a) == 1 && PrimePart(q, a) == q;
    } else {
      GcdPQCoprime(p, q, a);
    }
  }

  lemma GcdPQDivided(p: pos, q: pos, a: nat)
    requires IsPrime(p) && IsPrime(q) && p != q && a % p == 0
    ensures p * q > 0
    ensures Gcd(a, p * q) == p * PrimePart(q, a)
  {
    MulPos(p, q);
    var k := a / p;
    assert a == p * k;
    GcdScale(p, k, q);
    GcdPrime(q, k);
    DistinctPrimes(q, p);
    PrimeDividesProduct(q, p, k);
  }

  lemma GcdPQCoprime(p: pos, q: pos, a: nat)
    requires IsPrime(p) && IsPrime(q) && a % p != 0 && a % q != 0
    ensures p * q > 0
    ensures Gcd(a, p * q) == 1
  {
    MulPos(p, q);
    PrimeCoprime(p, a);
    PrimeCoprime(q, a);
    var x, s := InverseWitness(a, p);
    var y, t := InverseWitness(a, q);
    CoprimeBoth(a, p, q, x, y, s, t);
  }

  lemma GcdPrime(p: pos, a: nat)
    requires IsPrime(p)
    ensures Gcd(a, p) == PrimePart(p, a)
  {
    GcdDivides(a, p);
    var g := Gcd(a, p);
    DividesLe(g, p);
    assert g == 1 || g == p;
    if a % p == 0 {
      ModMultiple(1, p);
      GcdGreatest(a, p, p);
      DividesLe(p, g);
    }
  }

  lemma CoprimeBoth(a: nat, p: pos, q: pos, x: int, y: int, s: int, t: int)
    requires a * x - 1 == p * s && a * y - 1 == q * t
    requires p * q > 0
    ensures Gcd(a, p * q) == 1
  {
    // 1 = ax - ps = (ax - ps)(ay - qt)
    var c := a * x * y - x * (q * t) - y * (p * s);
    calc {
      a * c + (p * q) * (s * t);
      { CoprimeBothExpand(a, p * s, q * t, x, y); MulSwap(p, q, s, t); }
      (a * x - p * s) * (a * y - q * t);
      1;
    }
    GcdOne(a, p * q, c, s * t);
  }

  lemma CoprimeBothExpand(a: int, b: int, d: int, x: int, y: int)
    ensures (a * x - b) * (a * y - d) == a * (a * x * y - x * d - y * b) + b * d
  {
    calc {
      (a * x - b) * (a * y - d);
      (a * x) * (a * y) - (a * x) * d - b * (a * y) + b * d;
      a * (x * (a * y)) - a * (x * d) - a * (y * b) + b * d;
      a * (x * (a * y) - x * d - y * b) + b * d;
      { assert x * (a * y) == a * x * y; }
      a * (a * x * y - x * d - y * b) + b * d;
    }
  }

  /** Units modulo a product of two primes are the numbers that neither prime divides. */
  lemma CoprimePQ(p: pos, q: pos, a: int)
    requires IsPrime(p) && IsPrime(q) && p != q
    ensures p * q > 0
    ensures Coprime(a, p * q) <==> a % p != 0 && a % q != 0
  {
    MulPos(p, q);
    ModMultiple(p, q);
    ModMultiple(q, p);
    GcdPQ(p, q, a % (p * q));
    ModMod(a, p * q, p);
    ModMod(a, p * q, q);
    MulPos(PrimePart(p, a), PrimePart(q, a));
  }
}
