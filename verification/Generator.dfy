/** What get_g makes of the sampled h, and with it find_order and the shortest time lock. */
module Generator {
  import opened Modular
  import opened Primes
  import opened Fermat
  import opened Squares
  import opened OrderExactness
  import opened CommitmentSpec
  import opened Openings
  import opened ZeroKnowledge
  import opened Wrappers

  // ---------- the exponent ----------

  predicate DividedBySmall(k: nat) {
    k % 2 == 0 || k % 3 == 0 || k % 5 == 0 || k % 7 == 0 || k % 11 == 0
  }

  lemma DividedIsNoPrime(k: nat)
    requires 2 <= k && DividedBySmall(k) && k != 2 && k != 3 && k != 5 && k != 7 && k != 11
    ensures !IsPrime(k)
  {
    assert k % 2 == 0 ==> 2 < k;
    assert k % 3 == 0 ==> 3 < k;
    assert k % 5 == 0 ==> 5 < k;
    assert k % 7 == 0 ==> 7 < k;
    assert k % 11 == 0 ==> 11 < k;
  }

  lemma PrimesFrom2()
    ensures forall i :: 0 <= i < 11 ==> IsPrime(PRIME_TABLE[i])
  {
  }

  lemma PrimesFrom37()
    ensures forall i :: 11 <= i < 16 ==> IsPrime(PRIME_TABLE[i])
  {
  }

  lemma PrimesFrom59()
    ensures forall i :: 16 <= i < 20 ==> IsPrime(PRIME_TABLE[i])
  {
  }

  lemma PrimesFrom73()
    ensures forall i :: 20 <= i < 24 ==> IsPrime(PRIME_TABLE[i])
  {
  }

  lemma PrimesFrom97()
    ensures forall i :: 24 <= i < 28 ==> IsPrime(PRIME_TABLE[i])
  {
  }

  lemma PrimesFrom109()
    ensures forall i :: 28 <= i < 31 ==> IsPrime(PRIME_TABLE[i])
  {
  }

  lemma OthersBelow32(k: nat)
    requires 2 <= k < 32 && k != 2 && k != 3 && k != 5 && k != 7 && k != 11 && k != 13
    requires k != 17 && k != 19 && k != 23 && k != 29 && k != 31
    ensures DividedBySmall(k)
  {
  }

  lemma OthersBelow64(k: nat)
    requires 32 <= k < 64 && k != 37 && k != 41 && k != 43 && k != 47 && k != 53 && k != 59 && k != 61
    ensures DividedBySmall(k)
  {
  }

  lemma OthersBelow96(k: nat)
    requires 64 <= k < 96 && k != 67 && k != 71 && k != 73 && k != 79 && k != 83 && k != 89
    ensures DividedBySmall(k)
  {
  }

  lemma OthersBelow128(k: nat)
    requires 96 <= k < 128 && k != 97 && k != 101 && k != 103 && k != 107 && k != 109 && k != 113 && k != 127
    ensures DividedBySmall(k)
  {
  }

  lemma OthersAreDivided(k: nat)
    requires 2 <= k < 128 && forall i :: 0 <= i < 31 ==> k != PRIME_TABLE[i]
    ensures !IsPrime(k)
  {
    var t := PRIME_TABLE;
    assert k != t[0] && k != t[1] && k != t[2] && k != t[3] && k != t[4];
    if k < 32 {
      assert k != t[5] && k != t[6] && k != t[7] && k != t[8] && k != t[9] && k != t[10];
      OthersBelow32(k);
    } else if k < 64 {
      assert k != t[11] && k != t[12] && k != t[13] && k != t[14] && k != t[15] && k != t[16] && k != t[17];
      OthersBelow64(k);
    } else if k < 96 {
      assert k != t[18] && k != t[19] && k != t[20] && k != t[21] && k != t[22] && k != t[23];
      OthersBelow96(k);
    } else {
      assert k != t[24] && k != t[25] && k != t[26] && k != t[27] && k != t[28] && k != t[29] && k != t[30];
      OthersBelow128(k);
    }
    DividedIsNoPrime(k);
  }

  lemma TableIsPrime(i: nat)
    requires i < 31
    ensures IsPrime(PRIME_TABLE[i]) && PRIME_TABLE[i] < B
  {
    PrimesFrom2();
    PrimesFrom37();
    PrimesFrom59();
    PrimesFrom73();
    PrimesFrom97();
    PrimesFrom109();
  }

  lemma TableIncreases(i: nat, j: nat)
    requires i < j < 31
    ensures PRIME_TABLE[i] < PRIME_TABLE[j]
  {
    if i + 1 < j {
      TableIncreases(i, j - 1);
    }
  }

  /** The table, up to the bound, holds exactly the primes below 128. */
  lemma TableIsExact(k: nat)
    ensures k in PRIME_TABLE[..31] <==> IsPrime(k) && k < 128
  {
    if k in PRIME_TABLE[..31] {
      var i :| 0 <= i < 31 && PRIME_TABLE[..31][i] == k;
      TableIsPrime(i);
    } else if 2 <= k < B {
      forall i | 0 <= i < 31 ensures k != PRIME_TABLE[i] {
        assert PRIME_TABLE[..31][i] == PRIME_TABLE[i];
      }
      OthersAreDivided(k);
    }
  }

  predicate Increasing(ps: seq<pos>) {
    forall i, j :: 0 <= i < j < |ps| ==> ps[i] < ps[j]
  }

  ghost predicate PrimeAt(ps: seq<pos>, i: nat)
    requires i < |ps|
  {
    IsPrime(ps[i])
  }

  ghost predicate DifferentPrimes(ps: seq<pos>) {
    Increasing(ps) && forall i :: 0 <= i < |ps| ==> PrimeAt(ps, i)
  }

  /** A product of powers of other primes is prime to q. */
  lemma {:induction false} PowerProductPrimeTo(ps: seq<pos>, bits: nat, q: pos)
    requires IsPrime(q) && DifferentPrimes(ps) && q !in ps
    ensures PowerProduct(ps, bits) % q != 0
  {
    if ps == [] {
      ModSmall(1, q);
    } else {
      var front, last := ps[..|ps| - 1], ps[|ps| - 1];
      assert PrimeAt(ps, |ps| - 1) && last in ps;
      FrontIsDifferent(ps);
      PowerProductPrimeTo(front, bits, q);
      PowerPrimeTo(q, last, bits, PowerProduct(front, bits));
    }
  }

  /** The power of one prime q of the list, split off. */
  lemma {:induction false} PowerProductSplit(ps: seq<pos>, bits: nat, q: pos) returns (m: int)
    requires IsPrime(q) && DifferentPrimes(ps) && q in ps
    ensures PowerProduct(ps, bits) == Pow(q, bits) * m && m % q != 0
  {
    var front, last := ps[..|ps| - 1], ps[|ps| - 1];
    assert PrimeAt(ps, |ps| - 1);
    FrontIsDifferent(ps);
    if last == q {
      PowerProductPrimeTo(front, bits, q);
      m := PowerProduct(front, bits);
    } else {
      var m' := PowerProductSplit(front, bits, q);
      m := m' * Pow(last, bits);
      PowerPrimeTo(q, last, bits, m');
      MulAssoc(Pow(q, bits), m', Pow(last, bits));
    }
  }

  lemma FrontIsDifferent(ps: seq<pos>)
    requires |ps| > 0 && DifferentPrimes(ps)
    ensures DifferentPrimes(ps[..|ps| - 1]) && ps[|ps| - 1] !in ps[..|ps| - 1]
    ensures forall q :: q in ps[..|ps| - 1] <==> q in ps && q != ps[|ps| - 1]
  {
    var front := ps[..|ps| - 1];
    assert ps == front + [ps[|ps| - 1]];
    forall i | 0 <= i < |front| ensures PrimeAt(front, i) {
      assert PrimeAt(ps, i);
    }
  }

  lemma PowerPrimeTo(q: pos, last: pos, bits: nat, m: int)
    requires IsPrime(q) && IsPrime(last) && q != last && m % q != 0
    ensures (m * Pow(last, bits)) % q != 0
  {
    DistinctPrimes(q, last);
    if Pow(last, bits) % q == 0 { PrimeDividesPow(q, last, bits); }
    PrimeDividesProduct(q, m, Pow(last, bits));
  }

  lemma ExactPower(q: pos, bits: nat, m: int)
    requires m % q != 0
    ensures Pow(q, bits) > 0 && Pow(q, bits + 1) > 0
    ensures (Pow(q, bits) * m) % Pow(q, bits) == 0 && (Pow(q, bits) * m) % Pow(q, bits + 1) != 0
  {
    PowPositive(q, bits);
    PowPositive(q, bits + 1);
    ModMultiple(m, Pow(q, bits));
    if (Pow(q, bits) * m) % Pow(q, bits + 1) == 0 {
      var k := (Pow(q, bits) * m) / Pow(q, bits + 1);
      NextPower(q, bits, k);
      MulCancel(Pow(q, bits), m, q * k);
      ModMultiple(k, q);
    }
  }

  lemma NextPower(q: pos, bits: nat, k: int)
    ensures Pow(q, bits + 1) * k == Pow(q, bits) * (q * k)
  {
    assert Pow(q, bits + 1) == q * Pow(q, bits);
    MulRightSwap(q, Pow(q, bits), k);
    MulAssoc(Pow(q, bits), q, k);
    assert q * k * Pow(q, bits) == Pow(q, bits) * (q * k);
  }

  /** get_g's exponent: every prime below 128 to the power 512 and not to the next, and no other prime. */
  lemma GExponentFactors(q: pos, bits: nat)
    requires IsPrime(q) && bits == 512
    ensures Pow(q, bits) > 0 && Pow(q, bits + 1) > 0
    ensures q < 128 ==> GExponent() % Pow(q, bits) == 0 && GExponent() % Pow(q, bits + 1) != 0
    ensures q >= 128 ==> GExponent() % q != 0
  {
    var ps := PRIME_TABLE[..31];
    TableIsDifferent(ps);
    TableIsExact(q);
    PowPositive(q, bits);
    PowPositive(q, bits + 1);
    if q < B {
      var m := PowerProductSplit(ps, bits, q);
      ExactPower(q, bits, m);
    } else {
      PowerProductPrimeTo(ps, bits, q);
    }
  }

  lemma TableIsDifferent(ps: seq<pos>)
    requires ps == PRIME_TABLE[..31]
    ensures DifferentPrimes(ps)
  {
    forall i | 0 <= i < |ps| ensures PrimeAt(ps, i) {
      TableIsPrime(i);
    }
    forall i, j | 0 <= i < j < |ps| ensures ps[i] < ps[j] {
      TableIncreases(i, j);
    }
  }

  /** The odd prime factor of p - 1 is above all primes of get_g's exponent. Primes of 512 bits are
      far above this bound. */
  ghost predicate LargeSafePrime(p: int) {
    SafePrime(p) && (p - 1) / 2 > 127
  }

  lemma {:induction false} PowerProductCoprime(ps: seq<pos>, bits: nat, a: pos)
    requires IsPrime(a) && forall i :: 0 <= i < |ps| ==> ps[i] < a
    ensures PowerProduct(ps, bits) % a != 0
  {
    if ps == [] {
      ModSmall(1, a);
    } else {
      var front, last := ps[..|ps| - 1], ps[|ps| - 1];
      PowerProductCoprime(front, bits, a);
      ModSmall(last, a);
      if Pow(last, bits) % a == 0 { PrimeDividesPow(a, last, bits); }
      PrimeDividesProduct(a, PowerProduct(front, bits), Pow(last, bits));
    }
  }

  lemma GExponentCoprime(a: pos)
    requires IsPrime(a) && a > 127
    ensures Coprime(GExponent(), a)
  {
    var ps := PRIME_TABLE[..31];
    assert forall i :: 0 <= i < |ps| ==> ps[i] < a;
    PowerProductCoprime(ps, BITS, a);
    PrimeCoprime(a, GExponent());
  }

  lemma EvenPower(x: int, e: nat, k: nat)
    requires e == 2 * k
    ensures Pow(x, e) == Pow(x * x, k) && Pow(x * x, e) == Pow(Pow(x, e), 2)
  {
    PowTwo(x);
    PowMul(x, 2, k);
    PowMul(x, 2, e);
    PowMul(x, e, 2);
  }

  /** Modulo a large safe prime, get_g's exponent kills exactly the elements whose square is one. */
  lemma KilledByGExponent(p: pos, x: int)
    requires LargeSafePrime(p) && x % p != 0
    ensures Pow(x, GExponent()) % p == 1 <==> (x * x) % p == 1
    ensures Pow(x * x, GExponent()) % p == 1 <==> (x * x) % p == 1
  {
    var e := GExponent();
    GExponentEven();
    EvenPower(x, e, e / 2);
    ModSmall(1, p);
    if (x * x) % p == 1 {
      CongPow(x * x, 1, e / 2, p);
      PowOne(e / 2);
      CongPow(x * x, 1, e, p);
      PowOne(e);
    }
    if Pow(x, e) % p == 1 {
      CongPow(Pow(x, e), 1, 2, p);
      PowOne(2);
    }
    if Pow(x * x, e) % p == 1 {
      SafePrimeBounds(p);
      GExponentCoprime((p - 1) / 2);
      HalfPower(p, x);
      PowFirst(x * x);
      DropCoprimeFactor(x * x, e, 1, (p - 1) / 2, p);
    }
  }

  /** get_g returns one exactly for the h whose square is one. */
  lemma GetGIsOne(p: pos, q: pos, n: pos, h: nat)
    requires LargeSafePrime(p) && LargeSafePrime(q) && p != q && n == p * q && Coprime(h, n)
    ensures GetG(n, h) == 1 <==> (h * h) % n == 1
  {
    PowersPQ(p, q, h, GExponent());
    KilledByGExponent(p, h);
    KilledByGExponent(q, h);
    PowTwo(h);
    PowersPQ(p, q, h, 2);
  }

  /** find_order returns the exact order of g = get_g(h) if and only if h * h is not one modulo the
      second prime. */
  lemma FoundOrderOfSample(p: pos, q: pos, n: pos, h: nat)
    requires SafePrime(p) && LargeSafePrime(q) && p != q && n == p * q && Coprime(h, n)
    ensures IsOrder(GetG(n, h), FoundOrder(p, q, GetG(n, h)), n) <==> (h * h) % q != 1
  {
    var e, g := GExponent(), GetG(n, h);
    GetGUnit(n, h);
    FoundOrderExact(p, q, g);
    PowersPQ(p, q, h, e);
    KilledByGExponent(q, h);
    SquareOfPower(p, q, n, h, e);
  }

  lemma SquareOfPower(p: pos, q: pos, n: pos, h: nat, e: nat)
    requires n == p * q && e > 0
    ensures (ModExp(h, e, n) * ModExp(h, e, n)) % q == Pow(h * h, e) % q
  {
    ModMultiple(p, q);
    ModMod(Pow(h, e), n, q);
    CongMul(ModExp(h, e, n), Pow(h, e), ModExp(h, e, n), Pow(h, e), q);
    PowBase(h, h, e);
  }

  /** h = n - 1 can be sampled; get_g sends it to one, whose order find_order misses. */
  lemma FoundOrderMisses(p: pos, q: pos, n: pos)
    requires SafePrime(p) && SafePrime(q) && p != q && n == p * q
    ensures 2 <= n - 1 && GetG(n, n - 1) == 1
    ensures !IsOrder(GetG(n, n - 1), FoundOrder(p, q, GetG(n, n - 1)), n)
  {
    PhiFacts(p, q);
    SafePrimeBounds(p);
    SafePrimeBounds(q);
    MulMono(2, q, p);
    GExponentEven();
    PowMinusOne(GExponent());
    ModShift(-1, 1, n);
    CongPow(n - 1, -1, GExponent(), n);
    ModSmall(1, n);
    ModSmall(1, q);
    CoprimeFromInverse(1, 1, n);
    FoundOrderExact(p, q, 1);
  }

  /** The shortest lock, one level with two bits: the smart search opens it only when g is one,
      that is, when h * h is one modulo n. */
  lemma ShortLock(p: pos, q: pos, n: pos, h: nat, m: seq<bool>)
    requires LargeSafePrime(p) && LargeSafePrime(q) && p != q && n == p * q && Coprime(h, n)
    requires |m| == 2
    ensures |m| <= Pow2(1)
    ensures SmartOpened(Honest(1, n, h, m)) == if (h * h) % n == 1 then Ok(m) else Err(OpenUMismatch)
  {
    var g := GetG(n, h);
    assert Pow2(0) == 1 && Pow2(1) == 2;
    HonestSmartExact(p, q, n, 1, h, m);
    GetGIsOne(p, q, n, h);
    GetGUnit(n, h);
    ChainSquares(g, n);
    KeyWithoutSquaring(g, 1, n);
    IdempotentUnit(g, n);
  }

  lemma IdempotentUnit(g: nat, n: pos)
    requires Coprime(g, n) && g < n && n > 1
    ensures (g * g) % n == g <==> g == 1
  {
    ModSmall(1, n);
    ModSmall(g, n);
    if (g * g) % n == g {
      CancelUnit(g, g, 1, n);
    }
  }
}
