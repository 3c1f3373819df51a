/** Residues and powers: the arithmetic that every other module computes with. */
module Modular {
  type pos = n: int | 1 <= n witness 1

  // ---------- quotient and remainder ----------

  lemma ModUnique(x: int, n: pos, q: int, r: int)
    requires x == n * q + r && 0 <= r < n
    ensures x / n == q && x % n == r
  {
    QuotientUnique(n, q, r, x / n, x % n);
  }

  lemma QuotientUnique(n: pos, q: int, r: int, q': int, r': int)
    requires n * q + r == n * q' + r'
    requires 0 <= r < n && 0 <= r' < n
    ensures q == q' && r == r'
  {
    var d := q - q';
    assert n * d == r' - r;
    if d > 0 {
      MulMono(1, d, n);
    } else if d < 0 {
      MulMono(d, -1, n);
    }
  }

  lemma ModShift(x: int, k: int, n: pos)
    ensures (x + n * k) % n == x % n
  {
    assert x + n * k == n * (x / n + k) + x % n;
    ModUnique(x + n * k, n, x / n + k, x % n);
  }

  lemma ModMultiple(k: int, n: pos)
    ensures (n * k) % n == 0 && (k * n) % n == 0
  {
    ModUnique(n * k, n, k, 0);
  }

  lemma ModSmall(x: int, n: pos)
    requires 0 <= x < n
    ensures x % n == x
  {
    ModUnique(x, n, 0, x);
  }

  /** Two integers leave the same remainder exactly when they differ by a multiple. */
  lemma ModDiff(a: int, b: int, n: pos)
    ensures a % n == b % n <==> (a - b) % n == 0
  {
    if a % n == b % n {
      assert a - b == n * (a / n - b / n);
      ModMultiple(a / n - b / n, n);
    }
    if (a - b) % n == 0 {
      assert a == b + n * ((a - b) / n);
      ModShift(b, (a - b) / n, n);
    }
  }

  lemma ModAdd(a: int, b: int, n: pos)
    ensures (a + b) % n == (a % n + b % n) % n
    ensures (a + b) % n == (a % n + b) % n
    ensures (a + b) % n == (a + b % n) % n
  {
    ModAddLeft(a, b, n);
    ModAddLeft(b, a, n);
    ModAddLeft(b, a % n, n);
  }

  lemma ModAddLeft(a: int, b: int, n: pos)
    ensures (a + b) % n == (a % n + b) % n
  {
    assert a + b == a % n + b + n * (a / n);
    ModShift(a % n + b, a / n, n);
  }

  lemma ModMul(a: int, b: int, n: pos)
    ensures (a * b) % n == ((a % n) * (b % n)) % n
    ensures (a * b) % n == ((a % n) * b) % n
    ensures (a * b) % n == (a * (b % n)) % n
  {
    ModMulLeft(a, b, n);
    ModMulLeft(b, a, n);
    assert b * a == a * b && (b % n) * a == a * (b % n);
    ModMulLeft(a, b % n, n);
  }

  lemma ModMulLeft(a: int, b: int, n: pos)
    ensures (a * b) % n == ((a % n) * b) % n
  {
    var q, r := a / n, a % n;
    assert a == n * q + r;
    calc {
      a * b;
      (n * q + r) * b;
      n * q * b + r * b;
      r * b + n * (q * b);
    }
    ModShift(r * b, q * b, n);
  }

  lemma CongMul(a: int, a': int, b: int, b': int, n: pos)
    requires a % n == a' % n && b % n == b' % n
    ensures (a * b) % n == (a' * b') % n
  {
    ModMul(a, b, n);
    ModMul(a', b', n);
  }

  lemma CongAdd(a: int, a': int, b: int, b': int, n: pos)
    requires a % n == a' % n && b % n == b' % n
    ensures (a + b) % n == (a' + b') % n
    ensures (a - b) % n == (a' - b') % n
  {
    ModAdd(a, b, n);
    ModAdd(a', b', n);
    CongNegate(b, b', n);
    ModAdd(a, -b, n);
    ModAdd(a', -b', n);
  }

  lemma CongNegate(b: int, b': int, n: pos)
    requires b % n == b' % n
    ensures (-b) % n == (-b') % n
  {
    var k := CongWitness(b, b', n);
    assert -b == -b' + n * -k;
    ModShift(-b', -k, n);
  }

  /** Congruent numbers differ by a multiple of n. */
  lemma CongWitness(a: int, b: int, n: pos) returns (k: int)
    requires a % n == b % n
    ensures a == b + n * k
  {
    k := a / n - b / n;
  }

  // ---------- divisibility ----------

  lemma DividesMul(d: pos, x: int, k: int)
    requires x % d == 0
    ensures (x * k) % d == 0 && (k * x) % d == 0
  {
    assert x * k == d * (x / d * k) by { assert x == d * (x / d); }
    ModMultiple(x / d * k, d);
  }

  lemma DividesAdd(d: pos, x: int, y: int)
    requires x % d == 0 && y % d == 0
    ensures (x + y) % d == 0 && (x - y) % d == 0
  {
    CongAdd(x, 0, y, 0, d);
  }

  lemma DividesTrans(a: pos, b: pos, c: int)
    requires b % a == 0 && c % b == 0
    ensures c % a == 0
  {
    DividesMul(a, b, c / b);
    assert c == b * (c / b);
  }

  lemma DividesLe(d: pos, x: int)
    requires x % d == 0 && x > 0
    ensures d <= x
  {
    assert x == d * (x / d);
    assert x / d >= 1;
    MulMono(1, x / d, d);
  }

  /** A remainder modulo n keeps its residue modulo every divisor of n. */
  lemma ModMod(x: int, n: pos, d: pos)
    requires n % d == 0
    ensures (x % n) % d == x % d
  {
    DividesMul(d, n, x / n);
    assert x == x % n + n * (x / n);
    CongAdd(x % n, x % n, n * (x / n), 0, d);
  }

  lemma MulMono(a: int, b: int, c: int)
    requires a <= b && 0 <= c
    ensures a * c <= b * c && c * a <= c * b
  {
  }

  lemma MulPos(a: int, b: int)
    requires 0 < a && 0 < b
    ensures 0 < a * b && a <= a * b && b <= a * b
  {
    MulMono(1, b, a);
    MulMono(1, a, b);
  }

  lemma MulCancel(c: int, a: int, b: int)
    requires c != 0 && c * a == c * b
    ensures a == b
  {
    assert c * (a - b) == 0;
  }

  lemma MulSwap(a: int, b: int, c: int, d: int)
    ensures (a * b) * (c * d) == (a * c) * (b * d)
  {
    calc {
      (a * b) * (c * d);
      a * (b * (c * d));
      a * (c * (b * d));
      (a * c) * (b * d);
    }
  }

  lemma MulAssoc(a: int, b: int, c: int)
    ensures a * (b * c) == (a * b) * c
  {
  }

  lemma MulDistribute(a: int, b: int, c: int)
    ensures a * (b + c) == a * b + a * c
  {
  }

  lemma MulLeftSwap(a: int, b: int, c: int)
    ensures a * (b * c) == b * (a * c)
  {
  }

  lemma MulRightSwap(a: int, b: int, c: int)
    ensures a * b * c == a * c * b
  {
  }

  /** Below twice n, only n itself is a positive multiple of n. */
  lemma MultipleBelowTwice(n: pos, x: int)
    requires x % n == 0 && 0 < x < 2 * n
    ensures x == n
  {
    var k := x / n;
    assert x == n * k;
    if k >= 2 { MulMono(2, k, n); }
    if k <= 0 { MulMono(k, 0, n); }
  }

  // ---------- powers ----------

  function Pow(a: int, e: nat): int {
    if e == 0 then 1 else a * Pow(a, e - 1)
  }

  lemma {:induction false} PowAdd(a: int, e: nat, f: nat)
    ensures Pow(a, e + f) == Pow(a, e) * Pow(a, f)
  {
    if e > 0 {
      PowAdd(a, e - 1, f);
      calc {
        Pow(a, e + f);
        a * Pow(a, e - 1 + f);
        a * (Pow(a, e - 1) * Pow(a, f));
        a * Pow(a, e - 1) * Pow(a, f);
      }
    }
  }

  lemma {:induction false} PowMul(a: int, e: nat, f: nat)
    ensures 0 <= e * f
    ensures Pow(Pow(a, e), f) == Pow(a, e * f)
    decreases f
  {
    if f > 0 {
      PowMul(a, e, f - 1);
      assert e * f == e + e * (f - 1);
      PowAdd(a, e, e * (f - 1));
    }
  }

  lemma {:induction false} PowBase(a: int, b: int, e: nat)
    ensures Pow(a * b, e) == Pow(a, e) * Pow(b, e)
  {
    if e > 0 {
      PowBase(a, b, e - 1);
      MulSwap(a, b, Pow(a, e - 1), Pow(b, e - 1));
    }
  }

  lemma {:induction false} PowPositive(a: int, e: nat)
    requires a > 0
    ensures Pow(a, e) > 0
  {
    if e > 0 {
      PowPositive(a, e - 1);
      MulPos(a, Pow(a, e - 1));
    }
  }

  lemma {:induction false} PowMono(a: int, e: nat, f: nat)
    requires a > 0 && e <= f
    ensures Pow(a, e) <= Pow(a, f)
  {
    PowPositive(a, e);
    PowPositive(a, f - e);
    PowAdd(a, e, f - e);
    MulPos(Pow(a, e), Pow(a, f - e));
  }

  lemma {:induction false} PowOne(e: nat)
    ensures Pow(1, e) == 1
  {
    if e > 0 { PowOne(e - 1); }
  }

  lemma {:induction false} PowResidue(a: int, e: nat, n: pos)
    ensures Pow(a % n, e) % n == Pow(a, e) % n
  {
    if e > 0 {
      PowResidue(a, e - 1, n);
      ModMul(a, Pow(a, e - 1), n);
      ModMul(a % n, Pow(a % n, e - 1), n);
    }
  }

  lemma CongPow(a: int, b: int, e: nat, n: pos)
    requires a % n == b % n
    ensures Pow(a, e) % n == Pow(b, e) % n
  {
    PowResidue(a, e, n);
    PowResidue(b, e, n);
  }

  function Pow2(k: nat): (r: nat)
    ensures r > 0
  {
    if k == 0 then 1 else 2 * Pow2(k - 1)
  }

  lemma {:induction false} Pow2IsPow(k: nat)
    ensures Pow2(k) == Pow(2, k)
  {
    if k > 0 { Pow2IsPow(k - 1); }
  }

  lemma {:induction false} Pow2Add(j: nat, k: nat)
    ensures Pow2(j + k) == Pow2(j) * Pow2(k)
  {
    Pow2IsPow(j);
    Pow2IsPow(k);
    Pow2IsPow(j + k);
    PowAdd(2, j, k);
  }

  // ---------- modular exponentiation ----------

  function ModExp(a: int, e: nat, n: pos): nat {
    Pow(a, e) % n
  }

  lemma ModExpMul(a: int, e: nat, f: nat, n: pos)
    ensures 0 <= e * f
    ensures ModExp(ModExp(a, e, n), f, n) == ModExp(a, e * f, n)
  {
    PowMul(a, e, f);
    PowResidue(Pow(a, e), f, n);
  }

  /** Square-and-multiply computes the power. */
  method AExpBModC(a: int, e: nat, n: pos) returns (r: nat)
    ensures r == ModExp(a, e, n)
  {
    var x, k := a % n, e;
    r := 1 % n;
    PowResidue(a, e, n);
    ghost var goal := ModExp(x, e, n);
    assert r * Pow(x, k) % n == goal by { ModMul(1, Pow(x, k), n); }
    while k > 0
      invariant r < n
      invariant r * Pow(x, k) % n == goal
      decreases k
    {
      ghost var r0 := r;
      SquareStep(x, k, n);
      if k % 2 == 1 {
        MulAssoc(r, x, Pow(x * x, k / 2));
        ModMul(r * x, Pow(x * x, k / 2), n);
        r := (r * x) % n;
      }
      assert r * Pow(x * x, k / 2) % n == goal;
      PowResidue(x * x, k / 2, n);
      CongMul(r, r, Pow(x * x, k / 2), Pow(x * x % n, k / 2), n);
      x, k := x * x % n, k / 2;
    }
    ModSmall(r, n);
  }

  lemma SquareStep(x: int, k: nat, n: pos)
    requires k > 0
    ensures Pow(x, k) == if k % 2 == 1 then x * Pow(x * x, k / 2) else Pow(x * x, k / 2)
  {
    PowMul(x, 2, k / 2);
    assert Pow(x, 2) == x * x by { assert Pow(x, 1) == x; }
    if k % 2 == 1 {
      PowAdd(x, 1, 2 * (k / 2));
      assert k == 1 + 2 * (k / 2);
    } else {
      assert k == 2 * (k / 2);
    }
  }
}
