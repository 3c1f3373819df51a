/** Squares modulo a prime: how many roots they have, and where squaring is injective. */
module Squares {
  import opened Modular
  import opened Primes
  import opened Fermat

  predicate SquareIs(s: int, v: int, n: pos) {
    (s * s) % n == v % n
  }

  ghost predicate HasRoot(v: int, n: pos) {
    exists s :: SquareIs(s, v, n)
  }

  /** Equal squares modulo a prime have roots that are equal or opposite. */
  lemma EqualSquares(p: pos, a: int, b: int)
    requires IsPrime(p)
    ensures (a * a) % p == (b * b) % p <==> a % p == b % p || (a + b) % p == 0
  {
    ModDiff(a * a, b * b, p);
    ModDiff(a, b, p);
    DiffOfSquares(a, b);
    PrimeDividesProduct(p, a - b, a + b);
  }

  lemma NegatedSquare(w: int, n: pos)
    ensures (w * w) % n == ((n - w) * (n - w)) % n
  {
    assert (n - w) * (n - w) == w * w + n * (n - 2 * w);
    ModShift(w * w, n - 2 * w, n);
  }

  lemma DiffOfSquares(a: int, b: int)
    ensures a * a - b * b == (a - b) * (a + b)
  {
  }

  /** For p = 3 mod 4, minus one is no square: a sum of two squares vanishes only at zero. */
  lemma SumOfSquares(p: pos, a: int, b: int)
    requires IsPrime(p) && p % 4 == 3
    requires (a * a + b * b) % p == 0
    ensures a % p == 0 && b % p == 0
  {
    PrimeDividesProduct(p, a, a);
    PrimeDividesProduct(p, b, b);
    if (a * a) % p == 0 {
      DividesAdd(p, a * a + b * b, a * a);
    } else if (b * b) % p == 0 {
      DividesAdd(p, a * a + b * b, b * b);
    } else {
      NoOppositeSquares(p, a, b);
    }
  }

  lemma NoOppositeSquares(p: pos, a: int, b: int)
    requires IsPrime(p) && p % 4 == 3 && a % p != 0 && b % p != 0
    ensures (a * a + b * b) % p != 0
  {
    if (a * a + b * b) % p == 0 {
      var k := (p - 1) / 2;
      HalfPower(p, a);
      HalfPower(p, b);
      OppositePower(p, a * a, b * b, k);
      ModAdd(Pow(a * a, k), Pow(b * b, k), p);
      ModSmall(2, p);
    }
  }

  /** Odd powers of opposite numbers are opposite. */
  lemma OppositePower(p: pos, x: int, y: int, k: nat)
    requires (x + y) % p == 0 && k % 2 == 1
    ensures (Pow(x, k) + Pow(y, k)) % p == 0
  {
    ModDiff(x, -1 * y, p);
    CongPow(x, -1 * y, k, p);
    PowBase(-1, y, k);
    PowMinusOne(k);
    ModDiff(Pow(x, k), -1 * Pow(y, k), p);
  }

  lemma HalfPower(p: pos, a: int)
    requires IsPrime(p) && p % 2 == 1 && a % p != 0
    ensures Pow(a * a, (p - 1) / 2) % p == 1
  {
    FermatLittle(p, a);
    PowMul(a, 2, (p - 1) / 2);
    assert Pow(a, 2) == a * a by { assert Pow(a, 1) == a; }
  }

  lemma {:induction false} PowMinusOne(k: nat)
    ensures Pow(-1, k) == if k % 2 == 0 then 1 else -1
  {
    if k > 0 { PowMinusOne(k - 1); }
  }

  /** For p = 3 mod 4, repeated squaring is injective on the squares. */
  lemma {:induction false} SquaringInjective(p: pos, s: int, t: int, l: nat)
    requires IsPrime(p) && p % 4 == 3
    requires Pow(s * s, Pow2(l)) % p == Pow(t * t, Pow2(l)) % p
    ensures (s * s) % p == (t * t) % p
  {
    if l == 0 {
      assert Pow(s * s, 1) == s * s && Pow(t * t, 1) == t * t;
    } else {
      var e := Pow2(l - 1);
      SquareOfPow(s * s, e);
      SquareOfPow(t * t, e);
      EqualSquares(p, Pow(s * s, e), Pow(t * t, e));
      if Pow(s * s, e) % p != Pow(t * t, e) % p {
        PowBase(s, s, e);
        PowBase(t, t, e);
        SumOfSquares(p, Pow(s, e), Pow(t, e));
        DividesMul(p, Pow(s, e), Pow(s, e));
        DividesMul(p, Pow(t, e), Pow(t, e));
      }
      SquaringInjective(p, s, t, l - 1);
    }
  }

  lemma SquareOfPow(a: int, e: nat)
    ensures Pow(a, 2 * e) == Pow(a, e) * Pow(a, e)
  {
    PowAdd(a, e, e);
  }

  /** The same for n = p * q. */
  lemma SquaringInjectivePQ(p: pos, q: pos, s: int, t: int, l: nat)
    requires TwoPrimes(p, q) && p % 4 == 3 && q % 4 == 3
    requires p * q > 0
    requires ModExp(s * s, Pow2(l), p * q) == ModExp(t * t, Pow2(l), p * q)
    ensures (s * s) % (p * q) == (t * t) % (p * q)
  {
    CongPQ(p, q, Pow(s * s, Pow2(l)), Pow(t * t, Pow2(l)));
    SquaringInjective(p, s, t, l);
    SquaringInjective(q, s, t, l);
    CongPQ(p, q, s * s, t * t);
  }
}
