/** Factoring n from two square roots of the same number, with two gcds. */
module Factoring {
  import opened Modular
  import opened Primes
  import opened Fermat
  import opened Squares
  import opened SquareRoots

  function Abs(x: int): nat {
    if x < 0 then -x else x
  }

  /** The two gcds that factorise takes. */
  function Split(n: pos, r1: int, r2: int): (nat, nat) {
    (Gcd(Abs(n + r1 - r2), n), Gcd(Abs(r1 + r2), n))
  }

  /** The product test that factorise applies to them. */
  predicate Splits(n: pos, r1: int, r2: int) {
    Split(n, r1, r2).0 * Split(n, r1, r2).1 == n
  }

  lemma AbsDivides(x: int, d: pos)
    ensures Abs(x) % d == 0 <==> x % d == 0
  {
    if x < 0 {
      if x % d == 0 { CongNegate(x, 0, d); }
      if (-x) % d == 0 { CongNegate(-x, 0, d); }
    }
  }

  /** The gcds in terms of which prime divides the difference and which the sum. */
  lemma SplitValue(p: pos, q: pos, r1: int, r2: int)
    requires TwoPrimes(p, q)
    ensures p * q > 0
    ensures Split(p * q, r1, r2) ==
      (PrimePart(p, r1 - r2) * PrimePart(q, r1 - r2), PrimePart(p, r1 + r2) * PrimePart(q, r1 + r2))
  {
    MulPos(p, q);
    var n := p * q;
    GcdPQ(p, q, Abs(n + r1 - r2));
    GcdPQ(p, q, Abs(r1 + r2));
    AbsDivides(n + r1 - r2, p);
    AbsDivides(n + r1 - r2, q);
    AbsDivides(r1 + r2, p);
    AbsDivides(r1 + r2, q);
    ModShift(r1 - r2, q, p);
    ModShift(r1 - r2, p, q);
    assert n + r1 - r2 == r1 - r2 + p * q == r1 - r2 + q * p;
  }

  /** Which of the four combinations holds for one prime. */
  lemma PrimeSides(p: pos, r1: int, r2: int)
    requires IsPrime(p) && p > 2 && (r1 * r1) % p == (r2 * r2) % p
    ensures (r1 - r2) % p == 0 || (r1 + r2) % p == 0
    ensures (r1 - r2) % p == 0 && (r1 + r2) % p == 0 <==> r1 % p == 0
  {
    EqualSquares(p, r1, r2);
    ModDiff(r1, r2, p);
    DoubleResidue(p, r1);
    if (r1 - r2) % p == 0 && (r1 + r2) % p == 0 {
      DividesAdd(p, r1 - r2, r1 + r2);
    }
    if r1 % p == 0 {
      DividesMul(p, r1, r1);
      PrimeDividesProduct(p, r2, r2);
      DividesAdd(p, r1, r2);
    }
  }

  /** factorise accepts two roots of the same square exactly when they are units, and what it
      accepts is the factorisation exactly when they are neither equal nor opposite modulo n. */
  lemma SplitExact(p: pos, q: pos, r1: int, r2: int)
    requires OddPrimes(p, q)
    requires p * q > 0 && (r1 * r1) % (p * q) == (r2 * r2) % (p * q)
    ensures Splits(p * q, r1, r2) <==> Coprime(r1, p * q)
    ensures Split(p * q, r1, r2) == (p, q) || Split(p * q, r1, r2) == (q, p) <==>
      (r1 - r2) % (p * q) != 0 && (r1 + r2) % (p * q) != 0
  {
    CongPQ(p, q, r1 * r1, r2 * r2);
    SplitValue(p, q, r1, r2);
    PrimeSides(p, r1, r2);
    PrimeSides(q, r1, r2);
    CoprimePQ(p, q, r1);
    DividesPQ(p, q, r1 - r2);
    DividesPQ(p, q, r1 + r2);
    var a, b := PrimePart(p, r1 - r2), PrimePart(q, r1 - r2);
    var c, d := PrimePart(p, r1 + r2), PrimePart(q, r1 + r2);
    SplitProducts(p, q, a, b, c, d);
  }

  /** Arithmetic of the sixteen cases: each of the products is p q exactly when each prime is
      taken once. */
  lemma SplitProducts(p: pos, q: pos, a: pos, b: pos, c: pos, d: pos)
    requires p > 2 && q > 2 && p != q
    requires (a == 1 || a == p) && (c == 1 || c == p) && (a == p || c == p)
    requires (b == 1 || b == q) && (d == 1 || d == q) && (b == q || d == q)
    ensures (a * b) * (c * d) == p * q <==> !(a == p && c == p) && !(b == q && d == q)
    ensures ((a * b == p && c * d == q) || (a * b == q && c * d == p)) <==>
      !(a == p && b == q) && !(c == p && d == q)
  {
    MulSwap(a, b, c, d);
    ProductsApart(p, q);
    if a == p && c == p && b == q && d == q {
      FourFactors(p, q);
    } else if a == p && c == p {
      assert (a * c) * (b * d) == (p * p) * q;
      ThreeFactors(p, q);
    } else if b == q && d == q {
      assert (a * c) * (b * d) == p * (q * q);
      ThreeFactors(q, p);
    }
  }

  lemma ProductsApart(p: pos, q: pos)
    requires p > 2 && q > 2
    ensures p * q > p && p * q > q && p * q > 1
  {
    MulMono(2, p, q);
    MulMono(2, q, p);
  }

  lemma ThreeFactors(p: pos, q: pos)
    requires p > 2
    ensures (p * p) * q > p * q && q * (p * p) > p * q
  {
    MulPos(p, q);
    MulMono(2, p, p * q);
    assert (p * p) * q == p * (p * q);
  }

  lemma FourFactors(p: pos, q: pos)
    requires p > 2 && q > 2
    ensures (p * p) * (q * q) > p * q
  {
    MulPos(p, q);
    MulSwap(p, p, q, q);
    ProductsApart(p, q);
    MulMono(2, p * q, p * q);
  }

  /** The split is n = p q in some order, or n = n 1 in some order. */
  predicate IsProper(f: (nat, nat), p: nat, q: nat) {
    f == (p, q) || f == (q, p)
  }

  predicate IsTrivial(f: (nat, nat), n: nat) {
    f == (n, 1) || f == (1, n)
  }

  /** Two unit roots of the same square. */
  predicate RootPair(n: pos, r1: int, r2: int) {
    (r1 * r1) % n == (r2 * r2) % n && Coprime(r1, n)
  }

  /** Neither equal nor opposite modulo n. */
  predicate Apart(n: pos, r1: int, r2: int) {
    (r1 - r2) % n != 0 && (r1 + r2) % n != 0
  }

  /** For any two numbers: the product test holds exactly for unit roots of the same square, and what
      it accepts is the factorisation if they are apart, and the trivial splitting if not. */
  lemma SplitsExactly(p: pos, q: pos, n: pos, r1: int, r2: int)
    requires OddPrimes(p, q) && n == p * q
    ensures Splits(n, r1, r2) <==> RootPair(n, r1, r2)
    ensures Splits(n, r1, r2) ==>
      if Apart(n, r1, r2) then IsProper(Split(n, r1, r2), p, q) else IsTrivial(Split(n, r1, r2), n)
  {
    SplitValue(p, q, r1, r2);
    ProductsApart(p, q);
    if Splits(n, r1, r2) {
      EachPrimeOnce(p, q, PrimePart(p, r1 - r2), PrimePart(q, r1 - r2), PrimePart(p, r1 + r2), PrimePart(q, r1 + r2));
      SquaresAgree(p, q, r1, r2);
    }
    if (r1 * r1) % n == (r2 * r2) % n {
      SplitExact(p, q, r1, r2);
    }
  }

  lemma SquaresAgree(p: pos, q: pos, r1: int, r2: int)
    requires TwoPrimes(p, q)
    requires (r1 - r2) % p == 0 || (r1 + r2) % p == 0
    requires (r1 - r2) % q == 0 || (r1 + r2) % q == 0
    ensures p * q > 0 && (r1 * r1) % (p * q) == (r2 * r2) % (p * q)
  {
    CongPQ(p, q, r1 * r1, r2 * r2);
    EqualSquares(p, r1, r2);
    ModDiff(r1, r2, p);
    EqualSquares(q, r1, r2);
    ModDiff(r1, r2, q);
  }

  lemma EachPrimeOnce(p: pos, q: pos, a: pos, b: pos, c: pos, d: pos)
    requires p > 2 && q > 2 && p != q
    requires (a == 1 || a == p) && (c == 1 || c == p) && (b == 1 || b == q) && (d == 1 || d == q)
    ensures (a * b) * (c * d) == p * q ==> (a == p <==> c == 1) && (b == q <==> d == 1)
  {
    ProductsApart(p, q);
    MulSwap(a, b, c, d);
    if a == 1 && c == 1 {
      OnlyOnePrime(p, q, b * d);
    } else if b == 1 && d == 1 {
      OnlyOnePrime(q, p, a * c);
    } else {
      SplitBothPrimes(p, q, a, b, c, d);
    }
  }

  lemma OnlyOnePrime(p: pos, q: pos, x: int)
    requires p > 2 && q > 2 && p != q && (x == 1 || x == q || x == q * q)
    ensures x != p * q && x != q * p
  {
    ProductsApart(p, q);
    if q * q == p * q { MulCancel(q, q, p); }
  }

  lemma SplitBothPrimes(p: pos, q: pos, a: pos, b: pos, c: pos, d: pos)
    requires p > 2 && q > 2 && p != q
    requires (a == 1 || a == p) && (c == 1 || c == p) && (a == p || c == p)
    requires (b == 1 || b == q) && (d == 1 || d == q) && (b == q || d == q)
    ensures (a * b) * (c * d) == p * q ==> (a == p <==> c == 1) && (b == q <==> d == 1)
  {
    SplitProducts(p, q, a, b, c, d);
  }

  /** A unit's two smallest roots are neither equal nor opposite, so they split n. */
  lemma OfferedRootsSplit(p: pos, q: pos, msr: (int, pos) -> int, a: int, swap: bool)
    requires OddPrimes(p, q) && FindsRoots(msr, p) && FindsRoots(msr, q)
    requires p * q > 0 && IsSquareBelow(a, p * q)
    ensures var s := Make(p, q).AllRoots(msr, a);
      var (r1, r2) := if swap then (s[1], s[0]) else (s[0], s[1]);
      (Splits(p * q, r1, r2) <==> Coprime(a, p * q)) &&
      (Coprime(a, p * q) ==> Split(p * q, r1, r2) == (p, q) || Split(p * q, r1, r2) == (q, p))
  {
    var n, s := p * q, Make(p, q).AllRoots(msr, a);
    var (r1, r2) := if swap then (s[1], s[0]) else (s[0], s[1]);
    AllRootsComplete(p, q, msr, a);
    AllRootsDistinct(p, q, msr, a);
    SplitExact(p, q, r1, r2);
    CoprimeMul(r1, r1, n);
    CoprimeCong(r1 * r1, a, n);
    if Coprime(a, n) {
      SmallRootsApart(s[0], s[1], n);
    }
  }

  lemma SmallRootsApart(a: int, b: int, n: pos)
    requires 0 <= a < b && 2 * b < n
    ensures (a - b) % n != 0 && (b - a) % n != 0 && (a + b) % n != 0
  {
    ModSmall(b - a, n);
    ModSmall(a + b, n);
    ModUnique(a - b, n, -1, n + a - b);
  }

  /** The product test alone does not rule out the trivial splitting: equal unit roots pass it. */
  lemma EqualRootsSplitTrivially(p: pos, q: pos, r: int)
    requires OddPrimes(p, q)
    requires p * q > 0 && Coprime(r, p * q)
    ensures Splits(p * q, r, r) && Split(p * q, r, r) == (p * q, 1)
  {
    SplitExact(p, q, r, r);
    SplitValue(p, q, r, r);
    ModMultiple(0, p);
    ModMultiple(0, q);
    CoprimePQ(p, q, r);
    DoubleResidue(p, r);
    DoubleResidue(q, r);
  }

  /** A buyer's x below half of n is one of the two roots that the seller keeps. */
  lemma OwnRootIsOffered(p: pos, q: pos, msr: (int, pos) -> int, x: nat)
    requires OddPrimes(p, q) && FindsRoots(msr, p) && FindsRoots(msr, q)
    requires p * q > 0 && x < p * q / 2
    ensures IsSquareBelow((x * x) % (p * q), p * q)
    ensures var s := Make(p, q).AllRoots(msr, (x * x) % (p * q)); x == s[0] || x == s[1]
  {
    var n := p * q;
    ModMul(1, x * x, n);
    assert SquareIs(x, (x * x) % n, n);
    AllRootsComplete(p, q, msr, (x * x) % n);
  }
}
