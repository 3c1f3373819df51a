/** ECDSA over an abstract group of prime order: verification as the code does it, and the
    single-signer signature of SEC 1 v2.0 section 4.1.3 that joint signing is measured against. */
module Ecdsa {
  import opened Modular
  import opened Primes
  import opened Wrappers
  import BitUtils

  /** The part of a curve that the code uses: its group order, generator, identity, point
      addition, scalar multiplication and x-coordinate. */
  datatype Curve<!Point(==)> = Curve(
    n: pos, G: Point, O: Point,
    add: (Point, Point) -> Point, mul: (nat, Point) -> Point, x: Point -> nat)
  {
    function At(k: nat): Point {
      mul(k, G)
    }

    predicate Opposite(a: nat, b: nat) {
      (a + b) % n == 0
    }

    predicate EqualX(a: nat, b: nat) {
      x(At(a)) == x(At(b))
    }

    predicate SameScalar(a: nat, b: nat) {
      a % n == b % n
    }

    function Times(a: nat, b: nat): nat {
      a * b
    }

    ghost predicate AddLaw() {
      forall a: nat, b: nat {:trigger add(At(a), At(b))} :: add(At(a), At(b)) == At(a + b)
    }

    ghost predicate MulLaw() {
      forall a: nat, b: nat {:trigger mul(a, At(b))} :: mul(a, At(b)) == At(Times(a, b))
    }

    /** Scalars count modulo n. */
    ghost predicate OrderLaw() {
      && (forall a: nat {:trigger At(a)} :: At(a) == O <==> a % n == 0)
      && (forall a: nat, b: nat {:trigger SameScalar(a, b)} :: SameScalar(a, b) ==> At(a) == At(b))
    }

    /** Opposite points share their x-coordinate. */
    ghost predicate OppositeLaw() {
      forall a: nat, b: nat {:trigger Opposite(a, b)} :: Opposite(a, b) ==> x(At(a)) == x(At(b))
    }

    /** G generates a group of odd prime order n, and 32 bytes hold n. */
    ghost predicate Lawful() {
      IsPrime(n) && n > 2 && BitUtils.FitsIn32(n) && AddLaw() && MulLaw() && OrderLaw() && OppositeLaw()
    }
  }

  // ---------- the code's verify ----------

  /** hash_m_to_int: the leftmost bytes of a 32-byte digest. */
  function HashToInt(m: seq<BitUtils.byte>, byteCount: nat): Result<nat>
    requires byteCount <= 32
  {
    if |m| != 32 then Err(WrongDigestLength) else Ok(BitUtils.Decode(m[..byteCount]))
  }

  /** The integer consists of the most significant bytes of the digest: the rest is divided away. */
  lemma HashIsLeftmost(m: seq<BitUtils.byte>, byteCount: nat)
    requires |m| == 32 && byteCount <= 32
    ensures Pow(256, 32 - byteCount) > 0
    ensures HashToInt(m, byteCount) == Ok(BitUtils.Decode(m) / Pow(256, 32 - byteCount))
  {
    BitUtils.DecodePrefix(m, byteCount);
  }

  /** When all 32 bytes are used, different digests give different integers. */
  lemma HashInjective(m: seq<BitUtils.byte>, m': seq<BitUtils.byte>)
    requires |m| == |m'| == 32
    ensures HashToInt(m, 32) == HashToInt(m', 32) <==> m == m'
  {
    assert m[..32] == m && m'[..32] == m';
    BitUtils.EncodeDecode(m);
    BitUtils.EncodeDecode(m');
  }

  /** n.ByteCount() */
  function ByteCount<Point(==)>(c: Curve<Point>): (len: nat)
    requires BitUtils.FitsIn32(c.n)
    ensures len <= 32
  {
    BitUtils.MinEncodedSize(c.n)
  }

  /** The guards of verify: Q is a point of order n, r and s are in range. */
  predicate Admissible<Point(==)>(c: Curve<Point>, Q: Point, r: int, s: int) {
    Q != c.O && c.mul(c.n, Q) == c.O && 0 < r < c.n && 0 < s < c.n
  }

  /** The x-coordinate of the point that verify computes. */
  function VerificationX<Point(==)>(c: Curve<Point>, Q: Point, z: nat, r: int, s: int): nat {
    var w := InverseMod(s, c.n);
    var u1, u2 := (z * w) % c.n, (r * w) % c.n;
    c.x(c.add(c.mul(u1, c.G), c.mul(u2, Q)))
  }

  /** verify; the last comparison is with the unreduced x-coordinate. */
  function Verify<Point(==)>(c: Curve<Point>, Q: Point, m: seq<BitUtils.byte>, r: int, s: int): Result<bool>
    requires BitUtils.FitsIn32(c.n)
  {
    var z :- HashToInt(m, ByteCount(c));
    Ok(Admissible(c, Q, r, s) && VerificationX(c, Q, z, r, s) == r)
  }

  /** Verification as in SEC 1 v2.0 section 4.1.4, which reduces the x-coordinate modulo n. */
  function StandardVerify<Point(==)>(c: Curve<Point>, Q: Point, m: seq<BitUtils.byte>, r: int, s: int): Result<bool>
    requires BitUtils.FitsIn32(c.n)
  {
    var z :- HashToInt(m, ByteCount(c));
    Ok(Admissible(c, Q, r, s) && VerificationX(c, Q, z, r, s) % c.n == r)
  }

  // ---------- the reference signature ----------

  /** Low s: the smaller of s and n - s. */
  function LowS(s: nat, n: pos): nat
    requires s < n
  {
    if s > n - s then n - s else s
  }

  /** The signature equation s = k^-1 (e + r d). */
  function PlainS(n: pos, d: nat, k: nat, r: nat, e: nat): nat {
    (InverseMod(k, n) * (e + r * d)) % n
  }

  /** Signing with one key d and one nonce k, low s, refusing what the code refuses. */
  function PlainSign<Point(==)>(c: Curve<Point>, d: nat, k: nat, m: seq<BitUtils.byte>): Result<(nat, nat)>
    requires BitUtils.FitsIn32(c.n)
  {
    var xK := c.x(c.At(k));
    var r := xK % c.n;
    if r == 0 then Err(RIsZero)
    else
      var e :- HashToInt(m, ByteCount(c));
      var s := PlainS(c.n, d, k, r, e);
      if s == 0 then Err(SIsZero)
      else if xK >= c.n then Err(InvalidSignature)
      else Ok((r, LowS(s, c.n)))
  }

  lemma LowSFacts(s: nat, n: pos)
    requires n % 2 == 1 && 0 < s < n
    ensures 0 < LowS(s, n) <= (n - 1) / 2
    ensures LowS(s, n) % n == s % n || (LowS(s, n) + s) % n == 0
  {
    ModMultiple(1, n);
  }

  /** s k = e + r d. */
  lemma PlainSEquation(n: pos, d: nat, k: nat, r: nat, e: nat)
    requires Coprime(k, n)
    ensures (PlainS(n, d, k, r, e) * k) % n == (e + r * d) % n
  {
    var k', x := InverseMod(k, n), e + r * d;
    ModMul(k' * x, k, n);
    assert k' * x * k == k * x * k';
    UndoUnit(k, k', x, n);
  }

  /** The scalar of verify's point: u1 + u2 d = s^-1 (e + r d). */
  lemma VerifyScalar(n: pos, e: nat, r: nat, d: nat, w: nat)
    ensures 0 <= (r * w) % n * d
    ensures ((e * w) % n + (r * w) % n * d) % n == (w * (e + r * d)) % n
  {
    MulMono(0, (r * w) % n, d);
    ModMulLeft(r * w, d, n);
    ModMultiple(1, n);
    ModMod(e * w, n, n);
    CongAdd((e * w) % n, e * w, (r * w) % n * d, r * w * d, n);
    DistributeScalar(e, r, d, w);
  }

  lemma DistributeScalar(e: int, r: int, d: int, w: int)
    ensures e * w + r * w * d == w * (e + r * d)
  {
    assert r * w * d == w * (r * d);
  }

  /** From s k = x and w s = 1 follows w x = k; with -s in place of s it follows w x = -k. */
  lemma ScalarIsNonce(n: pos, s: int, s0: int, k: int, x: int, w: int)
    requires (s0 * k) % n == x % n && (s * w) % n == 1 % n
    ensures s % n == s0 % n ==> (w * x) % n == k % n
    ensures (s + s0) % n == 0 ==> (w * x + k) % n == 0
  {
    if s % n == s0 % n {
      ScalarSame(n, s, s0, k, x, w);
    }
    if (s + s0) % n == 0 {
      ModDiff(s, -s0, n);
      assert s - -s0 == s + s0;
      CongNegate(s0 * k, x, n);
      assert -s0 * k == -(s0 * k);
      ScalarSame(n, s, -s0, k, -x, w);
      assert w * -x == -(w * x);
      CongNegate(-(w * x), k, n);
      CongAdd(w * x, -k, k, k, n);
    }
  }

  lemma ScalarSame(n: pos, s: int, s0: int, k: int, x: int, w: int)
    requires (s0 * k) % n == x % n && (s * w) % n == 1 % n && s % n == s0 % n
    ensures (w * x) % n == k % n
  {
    CongMul(w, w, s0 * k, x, n);
    CongMul(s, s0, w, w, n);
    UndoUnit(s0, w, k, n);
    assert s0 * k * w == w * (s0 * k);
  }

  lemma UnitFromRange(n: pos, k: int)
    requires IsPrime(n) && 0 < k < n
    ensures Coprime(k, n) && k % n != 0
  {
    ModSmall(k, n);
    PrimeCoprime(n, k);
  }

  /** For s = +-s0 with s0 k = e + r d, the code's verify accepts (r, s) exactly when the x-coordinate
      of kG is r itself, and the standard's exactly when it is r modulo n. */
  lemma VerifyDecides<Point>(c: Curve<Point>, d: nat, k: nat, m: seq<BitUtils.byte>, r: nat, s: nat, s0: nat)
    requires c.Lawful() && d % c.n != 0 && 0 < r < c.n && 0 < s < c.n && |m| == 32
    requires s % c.n == s0 % c.n || (s + s0) % c.n == 0
    requires (s0 * k) % c.n == (HashToInt(m, ByteCount(c)).value + r * d) % c.n
    ensures Verify(c, c.At(d), m, r, s) == Ok(c.x(c.At(k)) == r)
    ensures StandardVerify(c, c.At(d), m, r, s) == Ok(c.x(c.At(k)) % c.n == r)
  {
    var e := HashToInt(m, ByteCount(c)).value;
    UnitFromRange(c.n, s);
    OnTheCurve(c, d);
    VerifyPointX(c, d, k, e, r, s, s0, InverseMod(s, c.n));
  }

  lemma VerifyPointX<Point>(c: Curve<Point>, d: nat, k: nat, e: nat, r: nat, s: nat, s0: nat, w: nat)
    requires c.Lawful() && (s * w) % c.n == 1 % c.n
    requires s % c.n == s0 % c.n || (s + s0) % c.n == 0
    requires (s0 * k) % c.n == (e + r * d) % c.n
    ensures c.x(c.add(c.mul((e * w) % c.n, c.G), c.mul((r * w) % c.n, c.At(d)))) == c.x(c.At(k))
  {
    var u1, u2 := (e * w) % c.n, (r * w) % c.n;
    VerifyPoint(c, u1, u2, d);
    VerifyScalar(c.n, e, r, d, w);
    ScalarIsNonce(c.n, s, s0, k, e + r * d, w);
    SameX(c, u1 + c.Times(u2, d), k, w * (e + r * d));
  }

  lemma SameX<Point>(c: Curve<Point>, f: nat, k: nat, g: int)
    requires c.Lawful() && f % c.n == g % c.n
    requires g % c.n == k % c.n || (g + k) % c.n == 0
    ensures c.x(c.At(f)) == c.x(c.At(k))
  {
    if g % c.n == k % c.n {
      assert c.SameScalar(f, k);
    } else {
      CongAdd(f, g, k, k, c.n);
      assert c.Opposite(f, k);
    }
  }

  lemma OnTheCurve<Point>(c: Curve<Point>, d: nat)
    requires c.Lawful() && d % c.n != 0
    ensures c.At(d) != c.O && c.mul(c.n, c.At(d)) == c.O
  {
    ModMultiple(d, c.n);
    assert c.mul(c.n, c.At(d)) == c.At(c.Times(c.n, d));
  }

  /** Points are equal exactly when their scalars are, modulo n. */
  lemma AtInjective<Point>(c: Curve<Point>, a: nat, b: nat)
    requires c.Lawful()
    ensures c.At(a) == c.At(b) <==> a % c.n == b % c.n
  {
    var b' := c.n - b % c.n;
    ModAdd(b, b', c.n);
    ModMultiple(1, c.n);
    assert (b + b') % c.n == 0;
    assert c.add(c.At(a), c.At(b')) == c.At(a + b');
    assert c.add(c.At(b), c.At(b')) == c.At(b + b');
    if c.At(a) == c.At(b) {
      assert (a + b') % c.n == 0;
      CongAdd(a + b', b + b', b', b', c.n);
    } else {
      assert !c.SameScalar(a, b);
    }
  }

  lemma VerifyPoint<Point>(c: Curve<Point>, u1: nat, u2: nat, d: nat)
    requires c.Lawful()
    ensures c.add(c.mul(u1, c.G), c.mul(u2, c.At(d))) == c.At(u1 + c.Times(u2, d))
  {
    assert c.mul(u2, c.At(d)) == c.At(c.Times(u2, d));
    assert c.add(c.At(u1), c.At(c.Times(u2, d))) == c.At(u1 + c.Times(u2, d));
  }

  /** Completeness of the reference: what it signs, the code's verify accepts, with low s. */
  lemma PlainSignVerifies<Point>(c: Curve<Point>, d: nat, k: nat, m: seq<BitUtils.byte>)
    requires c.Lawful() && d % c.n != 0 && k % c.n != 0
    requires PlainSign(c, d, k, m).Ok?
    ensures var (r, s) := PlainSign(c, d, k, m).value;
      0 < s <= (c.n - 1) / 2 && r == c.x(c.At(k)) && Verify(c, c.At(d), m, r, s) == Ok(true)
  {
    var (r, s) := PlainSign(c, d, k, m).value;
    var e := HashToInt(m, ByteCount(c)).value;
    var s0 := PlainS(c.n, d, k, r, e);
    OddPrime(c.n);
    PrimeCoprime(c.n, k);
    PlainSEquation(c.n, d, k, r, e);
    LowSFacts(s0, c.n);
    ModSmall(c.x(c.At(k)), c.n);
    VerifyDecides(c, d, k, m, r, s, s0);
  }

  /** A correct signature always passes the standard's verification, and the code's exactly when the
      x-coordinate of the nonce point is below n. */
  lemma RefusedExactly<Point>(c: Curve<Point>, d: nat, k: nat, m: seq<BitUtils.byte>, e: nat)
    requires c.Lawful() && d % c.n != 0 && k % c.n != 0 && HashToInt(m, ByteCount(c)) == Ok(e)
    requires c.x(c.At(k)) % c.n > 0 && PlainS(c.n, d, k, c.x(c.At(k)) % c.n, e) != 0
    ensures var r := c.x(c.At(k)) % c.n;
      var s := LowS(PlainS(c.n, d, k, r, e), c.n);
      StandardVerify(c, c.At(d), m, r, s) == Ok(true) &&
      Verify(c, c.At(d), m, r, s) == Ok(c.x(c.At(k)) < c.n)
  {
    var r := c.x(c.At(k)) % c.n;
    var s0 := PlainS(c.n, d, k, r, e);
    OddPrime(c.n);
    PrimeCoprime(c.n, k);
    PlainSEquation(c.n, d, k, r, e);
    LowSFacts(s0, c.n);
    VerifyDecides(c, d, k, m, r, LowS(s0, c.n), s0);
    if c.x(c.At(k)) < c.n { ModSmall(c.x(c.At(k)), c.n); }
  }

  /** x-coordinates determine points up to their sign, as on every curve y^2 = f(x). */
  ghost predicate XDetermines<Point>(c: Curve<Point>) {
    forall a: nat, b: nat {:trigger c.EqualX(a, b)} ::
      c.EqualX(a, b) ==> c.SameScalar(a, b) || c.Opposite(a, b)
  }

  /** A signature of m verifies for another digest m' exactly when the two integers are equal modulo n,
      or the verification point changes its sign. */
  lemma VerifiesForBoth<Point>(c: Curve<Point>, d: nat, m: seq<BitUtils.byte>, m': seq<BitUtils.byte>,
                                     r: nat, s: nat, z: nat, z': nat)
    requires c.Lawful() && XDetermines(c)
    requires HashToInt(m, ByteCount(c)) == Ok(z) && HashToInt(m', ByteCount(c)) == Ok(z')
    requires Verify(c, c.At(d), m, r, s) == Ok(true)
    ensures Verify(c, c.At(d), m', r, s) == Ok(true) <==>
      z % c.n == z' % c.n || (z + z' + 2 * (r * d)) % c.n == 0
  {
    VerifyAdmits(c, c.At(d), m, r, s);
    SameVerificationX(c, d, r, s, z, z');
  }

  lemma SameVerificationX<Point>(c: Curve<Point>, d: nat, r: nat, s: nat, z: nat, z': nat)
    requires c.Lawful() && XDetermines(c) && 0 < s < c.n
    ensures VerificationX(c, c.At(d), z, r, s) == VerificationX(c, c.At(d), z', r, s) <==>
      z % c.n == z' % c.n || (z + z' + 2 * (r * d)) % c.n == 0
  {
    ScalarsOfHashes(r, d, z, z');
    InverseIsUnit(c.n, s);
    SameScaledX(c, d, r, s, z, z', z + r * d, z' + r * d);
    SumOfShifts(c.n, z, z', r * d);
  }

  lemma SameScaledX<Point>(c: Curve<Point>, d: nat, r: nat, s: nat, z: nat, z': nat, a: nat, b: nat)
    requires c.Lawful() && XDetermines(c) && Coprime(InverseMod(s, c.n), c.n)
    requires a == z + r * d && b == z' + r * d
    ensures VerificationX(c, c.At(d), z, r, s) == VerificationX(c, c.At(d), z', r, s) <==>
      a % c.n == b % c.n || (a + b) % c.n == 0
  {
    VerificationXIs(c, d, z, r, s, a);
    VerificationXIs(c, d, z', r, s, b);
    SamePoint(c, InverseMod(s, c.n), a, b);
  }

  lemma ScalarsOfHashes(r: nat, d: nat, z: nat, z': nat)
    ensures 0 <= r * d && 0 <= z + r * d && 0 <= z' + r * d
  {
    MulMono(0, r, d);
  }

  lemma InverseIsUnit(n: pos, s: nat)
    requires IsPrime(n) && 0 < s < n
    ensures Coprime(InverseMod(s, n), n)
  {
    UnitFromRange(n, s);
    assert s * InverseMod(s, n) == InverseMod(s, n) * s;
    CoprimeFromInverse(InverseMod(s, n), s, n);
  }

  /** verify's point is w (z + r d) G, with w the inverse of s. */
  lemma VerificationXIs<Point>(c: Curve<Point>, d: nat, z: nat, r: nat, s: nat, a: nat)
    requires c.Lawful() && a == z + r * d
    ensures VerificationX(c, c.At(d), z, r, s) == c.x(c.At(c.Times(InverseMod(s, c.n), a)))
  {
    var w := InverseMod(s, c.n);
    VerifyPoint(c, (z * w) % c.n, (r * w) % c.n, d);
    VerifyScalar(c.n, z, r, d, w);
    AtInjective(c, (z * w) % c.n + c.Times((r * w) % c.n, d), c.Times(w, a));
  }

  /** For a unit w: wa and wb give points with one x-coordinate exactly when a is b or -b. */
  lemma SamePoint<Point>(c: Curve<Point>, w: nat, a: nat, b: nat)
    requires c.Lawful() && XDetermines(c) && Coprime(w, c.n)
    ensures c.EqualX(c.Times(w, a), c.Times(w, b)) <==> a % c.n == b % c.n || (a + b) % c.n == 0
  {
    var f, g := c.Times(w, a), c.Times(w, b);
    ScaledByUnit(w, a, b, c.n);
    if f % c.n == g % c.n {
      AtInjective(c, f, g);
    } else if (f + g) % c.n == 0 {
      assert c.Opposite(f, g);
    } else {
      assert !c.SameScalar(f, g) && !c.Opposite(f, g);
    }
  }

  lemma ScaledByUnit(w: nat, a: nat, b: nat, n: pos)
    requires Coprime(w, n)
    ensures (w * a) % n == (w * b) % n <==> a % n == b % n
    ensures (w * a + w * b) % n == 0 <==> (a + b) % n == 0
  {
    if a % n == b % n { CongMul(w, w, a, b, n); }
    if (w * a) % n == (w * b) % n { CancelUnit(w, a, b, n); }
    MulDistribute(w, a, b);
    ZeroFactor(w, a + b, n);
  }

  lemma ZeroFactor(w: nat, x: nat, n: pos)
    requires Coprime(w, n)
    ensures (w * x) % n == 0 <==> x % n == 0
  {
    assert w * 0 == 0;
    ModSmall(0, n);
    if (w * x) % n == 0 { CancelUnit(w, x, 0, n); }
    if x % n == 0 { DividesMul(n, x, w); }
  }

  lemma SumOfShifts(n: pos, z: int, z': int, y: int)
    ensures (z + y) % n == (z' + y) % n <==> z % n == z' % n
    ensures (z + y) + (z' + y) == z + z' + 2 * y
  {
    ModDiff(z + y, z' + y, n);
    ModDiff(z, z', n);
    assert z + y - (z' + y) == z - z';
  }

  /** verify accepts nothing out of range, and no public key outside the group of order n. */
  lemma VerifyAdmits<Point>(c: Curve<Point>, Q: Point, m: seq<BitUtils.byte>, r: int, s: int)
    requires BitUtils.FitsIn32(c.n)
    ensures Verify(c, Q, m, r, s) == Ok(true) ==>
      |m| == 32 && 0 < r < c.n && 0 < s < c.n && Q != c.O && c.mul(c.n, Q) == c.O
    ensures |m| != 32 <==> Verify(c, Q, m, r, s).Err?
  {
  }

  lemma OddPrime(n: pos)
    requires IsPrime(n) && n > 2
    ensures n % 2 == 1
  {
    assert n % 2 != 0;
  }
}
