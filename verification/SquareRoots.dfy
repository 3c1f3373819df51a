/** All four square roots modulo n = p * q, by the Chinese remainder theorem. */
module SquareRoots {
  import opened Modular
  import opened Primes
  import opened Fermat
  import opened Squares
  import opened Wrappers

  /** The library's CRT: the number that is xp modulo p and xq modulo q, where u = p^-1 mod q. */
  function Crt(xp: int, p: pos, xq: int, q: pos, u: int): int {
    p * ((u * (xq - xp)) % q) + xp
  }

  lemma CrtCongruences(xp: int, p: pos, xq: int, q: pos, u: int)
    requires (p * u) % q == 1 % q
    ensures Crt(xp, p, xq, q, u) % p == xp % p && Crt(xp, p, xq, q, u) % q == xq % q
  {
    var k := (u * (xq - xp)) % q;
    ModShift(xp, k, p);
    ModMul(p, u * (xq - xp), q);
    UndoUnit(p, u, xq - xp, q);
    assert p * (u * (xq - xp)) == p * (xq - xp) * u;
    CongAdd(p * k, xq - xp, xp, xp, q);
  }

  lemma CrtRange(xp: int, p: pos, xq: int, q: pos, u: int)
    ensures xp <= Crt(xp, p, xq, q, u) <= xp + p * q - p
  {
    var k := (u * (xq - xp)) % q;
    MulMono(0, k, p);
    MulMono(k, q - 1, p);
    assert p * (q - 1) == p * q - p;
  }

  /** What the library's ModularSquareRoot promises for a prime: a root in [0, p) if there is one. */
  ghost predicate FindsRoots(modularSquareRoot: (int, pos) -> int, p: pos) {
    forall a :: HasRoot(a, p) ==>
      0 <= modularSquareRoot(a, p) < p && SquareIs(modularSquareRoot(a, p), a, p)
  }

  datatype SquareRoot = SquareRoot(p: pos, q: pos, n: pos, u: nat) {

    /** The root with the given signs, before the final check. */
    function Candidate(msr: (int, pos) -> int, a: int, signX: int, signY: int): int {
      var xp, xq := msr(a, p), msr(a, q);
      Crt(if signX == -1 then p - xp else xp, p, if signY == -1 then q - xq else xq, q, u)
    }

    function Root(msr: (int, pos) -> int, a: int, signX: int, signY: int): int {
      var root := Candidate(msr, a, signX, signY);
      if (root * root) % n != a then -1 else root
    }

    /** square_root, which overwrites xp and xq by sign before combining them. */
    method ComputeRoot(msr: (int, pos) -> int, a: int, signX: int, signY: int) returns (r: Result<int>)
      ensures r == if signX in {-1, 1} && signY in {-1, 1} then Ok(Root(msr, a, signX, signY))
                   else Err(InvalidSign)
    {
      if signY != -1 && signY != 1 {
        return Err(InvalidSign);
      }
      if signX != -1 && signX != 1 {
        return Err(InvalidSign);
      }
      var xp := msr(a, p);
      var xq := msr(a, q);
      if signX == -1 {
        xp := p - xp;
      }
      if signY == -1 {
        xq := q - xq;
      }
      var root := Crt(xp, p, xq, q, u);
      if (root * root) % n != a {
        return Ok(-1);
      }
      return Ok(root);
    }

    function AllRoots(msr: (int, pos) -> int, a: int): seq<int> {
      Sort4(Root(msr, a, -1, -1), Root(msr, a, 1, -1), Root(msr, a, -1, 1), Root(msr, a, 1, 1))
    }

    method AllSquareRoots(msr: (int, pos) -> int, a: int) returns (res: seq<int>)
      ensures res == AllRoots(msr, a)
    {
      var r1 := ComputeRoot(msr, a, -1, -1);
      var r2 := ComputeRoot(msr, a, 1, -1);
      var r3 := ComputeRoot(msr, a, -1, 1);
      var r4 := ComputeRoot(msr, a, 1, 1);
      res := Sort4(r1.value, r2.value, r3.value, r4.value);
    }
  }

  /** The constructor: n = p q and u = p^-1 mod q. */
  function Make(p: pos, q: pos): SquareRoot {
    MulPos(p, q);
    SquareRoot(p, q, p * q, InverseMod(p, q))
  }

  // ---------- sorting ----------

  function Sort4(a: int, b: int, c: int, d: int): (s: seq<int>)
    ensures |s| == 4
  {
    var (a1, b1) := if a <= b then (a, b) else (b, a);
    var (c1, d1) := if c <= d then (c, d) else (d, c);
    var (a2, c2) := if a1 <= c1 then (a1, c1) else (c1, a1);
    var (b2, d2) := if b1 <= d1 then (b1, d1) else (d1, b1);
    var (b3, c3) := if b2 <= c2 then (b2, c2) else (c2, b2);
    [a2, b3, c3, d2]
  }

  function Occurrences(v: int, a: int, b: int, c: int, d: int): nat {
    (if v == a then 1 else 0) + (if v == b then 1 else 0) + (if v == c then 1 else 0) + (if v == d then 1 else 0)
  }

  /** Sort4 is a sort: its result is ordered, and every value occurs as often as before. */
  lemma Sort4Sorts(a: int, b: int, c: int, d: int, v: int)
    ensures var s := Sort4(a, b, c, d);
      s[0] <= s[1] <= s[2] <= s[3] &&
      Occurrences(v, s[0], s[1], s[2], s[3]) == Occurrences(v, a, b, c, d)
  {
  }

  /** Two pairs with the same sum sort into pairs around the middle. */
  lemma SortPairs(a: int, b: int, n: int)
    ensures var s := Sort4(n - a, b, n - b, a);
      s[0] + s[3] == n && s[1] + s[2] == n && 2 * s[1] <= n &&
      (s[0] == s[1] <==> a == b || a + b == n)
  {
  }

  // ---------- the four roots ----------

  ghost predicate OddPrimes(p: int, q: int) {
    TwoPrimes(p, q) && p > 2 && q > 2
  }

  lemma MakeFacts(p: pos, q: pos)
    requires OddPrimes(p, q)
    ensures Make(p, q).n == p * q > 1 && (p * q) % 2 == 1
    ensures (p * Make(p, q).u) % q == 1 % q
  {
    MulPos(p, q);
    assert p % 2 != 0 && q % 2 != 0;
    DistinctPrimes(q, p);
    ModUnique(p * q, 2, p / 2 * q + q / 2, 1) by {
      assert p == 2 * (p / 2) + 1 && q == 2 * (q / 2) + 1;
      assert p * q == 2 * (p / 2 * q) + q;
    }
  }

  /** A square modulo n, reduced. */
  ghost predicate IsSquareBelow(a: int, n: pos) {
    0 <= a < n && HasRoot(a, n)
  }

  lemma RootModFactor(a: int, n: pos, p: pos)
    requires HasRoot(a, n) && n % p == 0
    ensures HasRoot(a, p)
  {
    var s :| SquareIs(s, a, n);
    ModMod(s * s, n, p);
    ModMod(a, n, p);
    assert SquareIs(s, a, p);
  }

  /** Both residues of the oracle, and what the candidates are modulo p and q. */
  lemma Residues(p: pos, q: pos, msr: (int, pos) -> int, a: int)
    requires OddPrimes(p, q) && FindsRoots(msr, p) && FindsRoots(msr, q)
    requires p * q > 0 && HasRoot(a, p * q)
    ensures 0 <= msr(a, p) < p && 0 <= msr(a, q) < q
    ensures SquareIs(msr(a, p), a, p) && SquareIs(msr(a, q), a, q)
  {
    ModMultiple(p, q);
    ModMultiple(q, p);
    RootModFactor(a, p * q, p);
    RootModFactor(a, p * q, q);
  }

  /** Every candidate is a square root, so the final check passes. */
  lemma CandidateIsRoot(p: pos, q: pos, msr: (int, pos) -> int, a: int, signX: int, signY: int)
    requires OddPrimes(p, q) && FindsRoots(msr, p) && FindsRoots(msr, q)
    requires p * q > 0 && IsSquareBelow(a, p * q)
    ensures var sr := Make(p, q);
      sr.Root(msr, a, signX, signY) == sr.Candidate(msr, a, signX, signY) &&
      SquareIs(sr.Candidate(msr, a, signX, signY), a, p * q)
  {
    var sr := Make(p, q);
    MakeFacts(p, q);
    Residues(p, q, msr, a);
    NegatedSquare(msr(a, p), p);
    NegatedSquare(msr(a, q), q);
    var xp := if signX == -1 then p - msr(a, p) else msr(a, p);
    var xq := if signY == -1 then q - msr(a, q) else msr(a, q);
    var r := Crt(xp, p, xq, q, sr.u);
    CrtCongruences(xp, p, xq, q, sr.u);
    CongMul(r, xp, r, xp, p);
    CongMul(r, xq, r, xq, q);
    CongPQ(p, q, r * r, a);
    ModSmall(a, p * q);
  }

  /** Opposite signs give candidates that add up to n. */
  lemma OppositeCandidates(p: pos, q: pos, msr: (int, pos) -> int, a: int, signY: int)
    requires OddPrimes(p, q) && FindsRoots(msr, p) && FindsRoots(msr, q) && signY in {-1, 1}
    requires p * q > 0 && IsSquareBelow(a, p * q)
    ensures var sr := Make(p, q);
      0 <= sr.Candidate(msr, a, 1, signY) < p * q &&
      sr.Candidate(msr, a, 1, signY) + sr.Candidate(msr, a, -1, -signY) == p * q
  {
    var u, xp := Make(p, q).u, msr(a, p);
    var xq := if signY == -1 then q - msr(a, q) else msr(a, q);
    MakeFacts(p, q);
    Residues(p, q, msr, a);
    CrtOpposite(xp, p, xq, q, u);
  }

  lemma CrtOpposite(xp: int, p: pos, xq: int, q: pos, u: int)
    requires TwoPrimes(p, q) && (p * u) % q == 1 % q && 0 <= xp < p
    ensures 0 <= Crt(xp, p, xq, q, u) < p * q
    ensures Crt(xp, p, xq, q, u) + Crt(p - xp, p, q - xq, q, u) == p * q
  {
    var r, r' := Crt(xp, p, xq, q, u), Crt(p - xp, p, q - xq, q, u);
    CrtCongruences(xp, p, xq, q, u);
    CrtCongruences(p - xp, p, q - xq, q, u);
    CrtRange(xp, p, xq, q, u);
    CrtRange(p - xp, p, q - xq, q, u);
    CongAdd(r, xp, r', p - xp, p);
    CongAdd(r, xq, r', q - xq, q);
    ModMultiple(1, p);
    ModMultiple(1, q);
    DividesPQ(p, q, r + r');
    MultipleBelowTwice(p * q, r + r');
  }

  /** Any root x in [0, n) is one of the four candidates. */
  lemma RootIsCandidate(p: pos, q: pos, msr: (int, pos) -> int, a: int, x: int)
    requires OddPrimes(p, q) && FindsRoots(msr, p) && FindsRoots(msr, q)
    requires p * q > 0 && IsSquareBelow(a, p * q) && 0 <= x < p * q && SquareIs(x, a, p * q)
    ensures var sr := Make(p, q);
      x == sr.Candidate(msr, a, 1, 1) || x == sr.Candidate(msr, a, 1, -1) ||
      x == sr.Candidate(msr, a, -1, 1) || x == sr.Candidate(msr, a, -1, -1)
  {
    MakeFacts(p, q);
    Residues(p, q, msr, a);
    CongPQ(p, q, x * x, a);
    var sx, xp := SignOf(p, x, msr(a, p));
    var sy, xq := SignOf(q, x, msr(a, q));
    CrtIs(p, q, xp, xq, Make(p, q).u, x);
  }

  /** The sign with which the oracle's root is x modulo a prime, and the reduced residue. */
  lemma SignOf(p: pos, x: int, y: int) returns (sign: int, r: int)
    requires IsPrime(p) && 0 <= y < p && (x * x) % p == (y * y) % p
    ensures sign in {-1, 1} && 0 <= r < p && x % p == r % p
    ensures r == if sign == -1 then p - y else y
  {
    EqualSquares(p, x, y);
    ModDiff(x, -y, p);
    ModShift(-y, 1, p);
    if x % p == y % p {
      sign, r := 1, y;
    } else {
      sign, r := -1, p - y;
    }
  }

  lemma CrtIs(p: pos, q: pos, xp: int, xq: int, u: int, x: int)
    requires TwoPrimes(p, q) && (p * u) % q == 1 % q && 0 <= xp < p && 0 <= x < p * q
    requires x % p == xp % p && x % q == xq % q
    ensures x == Crt(xp, p, xq, q, u)
  {
    CrtCongruences(xp, p, xq, q, u);
    CrtRange(xp, p, xq, q, u);
    CongPQ(p, q, x, Crt(xp, p, xq, q, u));
    ModSmall(x, p * q);
    ModSmall(Crt(xp, p, xq, q, u), p * q);
  }

  /** The two candidates with a positive first sign; the other two are n minus these. */
  function First(p: pos, q: pos, msr: (int, pos) -> int, a: int): int {
    Make(p, q).Candidate(msr, a, 1, 1)
  }

  function Second(p: pos, q: pos, msr: (int, pos) -> int, a: int): int {
    Make(p, q).Candidate(msr, a, 1, -1)
  }

  lemma AllRootsAre(p: pos, q: pos, msr: (int, pos) -> int, a: int)
    requires OddPrimes(p, q) && FindsRoots(msr, p) && FindsRoots(msr, q)
    requires p * q > 0 && IsSquareBelow(a, p * q)
    ensures var x, y, n := First(p, q, msr, a), Second(p, q, msr, a), p * q;
      && 0 <= x < n && 0 <= y < n
      && Make(p, q).AllRoots(msr, a) == Sort4(n - x, y, n - y, x)
      && SquareIs(x, a, n) && SquareIs(y, a, n) && SquareIs(n - x, a, n) && SquareIs(n - y, a, n)
  {
    CandidateIsRoot(p, q, msr, a, -1, -1);
    CandidateIsRoot(p, q, msr, a, 1, -1);
    CandidateIsRoot(p, q, msr, a, -1, 1);
    CandidateIsRoot(p, q, msr, a, 1, 1);
    OppositeCandidates(p, q, msr, a, 1);
    OppositeCandidates(p, q, msr, a, -1);
  }

  lemma RootIsOneOfFour(p: pos, q: pos, msr: (int, pos) -> int, a: int, z: int)
    requires OddPrimes(p, q) && FindsRoots(msr, p) && FindsRoots(msr, q)
    requires p * q > 0 && IsSquareBelow(a, p * q) && 0 <= z < p * q && SquareIs(z, a, p * q)
    ensures var x, y, n := First(p, q, msr, a), Second(p, q, msr, a), p * q;
      z == x || z == y || z == n - x || z == n - y
  {
    OppositeCandidates(p, q, msr, a, 1);
    OppositeCandidates(p, q, msr, a, -1);
    RootIsCandidate(p, q, msr, a, z);
  }

  /** Sorted, symmetric around n/2, roots of a: what the caller of all_square_roots gets. */
  ghost predicate FourRoots(s: seq<int>, a: int, n: pos) {
    && |s| == 4
    && 0 <= s[0] <= s[1] <= s[2] <= s[3] <= n
    && s[0] + s[3] == n && s[1] + s[2] == n && 2 * s[1] < n
    && SquareIs(s[0], a, n) && SquareIs(s[1], a, n) && SquareIs(s[2], a, n) && SquareIs(s[3], a, n)
  }

  /** For every square a, unit or not: four roots in [0, n], and every root in [0, n) is there. */
  lemma AllRootsComplete(p: pos, q: pos, msr: (int, pos) -> int, a: int)
    requires OddPrimes(p, q) && FindsRoots(msr, p) && FindsRoots(msr, q)
    requires p * q > 0 && IsSquareBelow(a, p * q)
    ensures FourRoots(Make(p, q).AllRoots(msr, a), a, p * q)
    ensures forall z :: 0 <= z < p * q && SquareIs(z, a, p * q) ==> z in Make(p, q).AllRoots(msr, a)
  {
    var x, y, n := First(p, q, msr, a), Second(p, q, msr, a), p * q;
    MakeFacts(p, q);
    AllRootsAre(p, q, msr, a);
    SortedRoots(x, y, a, n);
    forall z | 0 <= z < n && SquareIs(z, a, n) ensures z in Make(p, q).AllRoots(msr, a) {
      RootIsOneOfFour(p, q, msr, a, z);
    }
  }

  lemma SortedRoots(x: int, y: int, a: int, n: pos)
    requires n % 2 == 1 && 0 <= x < n && 0 <= y < n
    requires SquareIs(x, a, n) && SquareIs(y, a, n) && SquareIs(n - x, a, n) && SquareIs(n - y, a, n)
    ensures var s := Sort4(n - x, y, n - y, x);
      FourRoots(s, a, n) && x in s && y in s && n - x in s && n - y in s
  {
    var s := Sort4(n - x, y, n - y, x);
    SortPairs(x, y, n);
    assert s == [s[0], s[1], s[2], s[3]];
  }

  /** The four roots are different exactly when a is a unit. */
  lemma AllRootsDistinct(p: pos, q: pos, msr: (int, pos) -> int, a: int)
    requires OddPrimes(p, q) && FindsRoots(msr, p) && FindsRoots(msr, q)
    requires p * q > 0 && IsSquareBelow(a, p * q)
    ensures var s := Make(p, q).AllRoots(msr, a);
      s[0] < s[1] < s[2] < s[3] <==> Coprime(a, p * q)
  {
    MakeFacts(p, q);
    AllRootsAre(p, q, msr, a);
    SortedStrictly(First(p, q, msr, a), Second(p, q, msr, a), p * q);
    CandidatesApart(p, q, msr, a);
  }

  lemma SortedStrictly(x: int, y: int, n: int)
    requires n % 2 == 1
    ensures var s := Sort4(n - x, y, n - y, x);
      s[0] < s[1] < s[2] < s[3] <==> !(x == y || x + y == n)
  {
    SortPairs(x, y, n);
  }

  lemma CandidatesApart(p: pos, q: pos, msr: (int, pos) -> int, a: int)
    requires OddPrimes(p, q) && FindsRoots(msr, p) && FindsRoots(msr, q)
    requires p * q > 0 && IsSquareBelow(a, p * q)
    ensures var x, y := Make(p, q).Candidate(msr, a, 1, 1), Make(p, q).Candidate(msr, a, 1, -1);
      (x == y || x + y == p * q) <==> !Coprime(a, p * q)
  {
    var u, xp, xq := Make(p, q).u, msr(a, p), msr(a, q);
    var x, y := Crt(xp, p, xq, q, u), Crt(xp, p, q - xq, q, u);
    MakeFacts(p, q);
    Residues(p, q, msr, a);
    OppositeCandidates(p, q, msr, a, 1);
    OppositeCandidates(p, q, msr, a, -1);
    CrtCongruences(xp, p, xq, q, u);
    CrtCongruences(xp, p, q - xq, q, u);
    CoprimePQ(p, q, a);
    DoubleResidue(p, xp);
    DoubleResidue(q, xq);
    PrimeDividesProduct(p, xp, xp);
    PrimeDividesProduct(q, xq, xq);
    ModDiff(xq, q - xq, q);
    assert xq - (q - xq) == 2 * xq - q;
    ModShift(2 * xq, -1, q);
    CongPQ(p, q, x, y);
    ModSmall(x, p * q);
    ModSmall(y, p * q);
    CongAdd(x, xp, y, xp, p);
    CongAdd(x, xq, y, q - xq, q);
    ModMultiple(1, q);
    DividesPQ(p, q, x + y);
    if (x + y) % (p * q) == 0 && x + y != p * q {
      if x + y > 0 { MultipleBelowTwice(p * q, x + y); }
    }
    ModMultiple(1, p * q);
  }

  lemma DoubleResidue(p: pos, x: int)
    requires IsPrime(p) && p > 2
    ensures (2 * x) % p == 0 <==> x % p == 0
  {
    ModSmall(2, p);
    PrimeDividesProduct(p, 2, x);
  }

  /** Anything that is no reduced square has no root: all four entries are -1. */
  lemma NoRoots(p: pos, q: pos, msr: (int, pos) -> int, a: int)
    requires p * q > 0 && !IsSquareBelow(a, p * q)
    ensures Make(p, q).AllRoots(msr, a) == [-1, -1, -1, -1]
  {
    NoRoot(p, q, msr, a, -1, -1);
    NoRoot(p, q, msr, a, 1, -1);
    NoRoot(p, q, msr, a, -1, 1);
    NoRoot(p, q, msr, a, 1, 1);
  }

  lemma NoRoot(p: pos, q: pos, msr: (int, pos) -> int, a: int, signX: int, signY: int)
    requires p * q > 0 && !IsSquareBelow(a, p * q)
    ensures Make(p, q).Root(msr, a, signX, signY) == -1
  {
    var r := Make(p, q).Candidate(msr, a, signX, signY);
    if (r * r) % (p * q) == a {
      ModSmall(a, p * q);
      assert SquareIs(r, a, p * q);
    }
  }
}
