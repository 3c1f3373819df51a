/** The five-step check that W[i] = g^(2^(2^i)): what honest runs pass and what passing proves. */
module ZeroKnowledge {
  import opened Modular
  import opened Primes
  import opened Fermat
  import opened OrderExactness
  import opened RepeatedSquaring
  import opened CommitmentSpec
  import opened Wrappers
  import opened Openings

  // ---------- the two equations of zk_5 ----------

  /** x^y * V^(-c) modulo n, as zk_5 computes it. */
  function Response(x: nat, y: nat, V: nat, c: nat, n: pos): nat {
    (ModExp(x, y, n) * ModExp(InverseMod(V, n), c, n)) % n
  }

  predicate ZOk(com: Commitment, i: nat, c: nat, y: nat, z: nat)
    requires 1 <= i < |com.W|
  {
    Response(com.g, y, com.W[i - 1], c, com.n) == z
  }

  predicate WOk(com: Commitment, i: nat, c: nat, y: nat, w: nat)
    requires 1 <= i < |com.W|
  {
    Response(com.W[i - 1], y, com.W[i], c, com.n) == w
  }

  /** The answer of zk_4 to challenge c. */
  function Answer(c: nat, i: nat, alpha: nat, order: pos): nat
    requires i >= 1
  {
    ((c * ModExp(2, Pow2(i - 1), order)) % order + alpha) % order
  }

  // ---------- completeness ----------

  lemma PowInverse(V: int, c: nat, n: pos)
    requires Coprime(V, n)
    ensures (Pow(V, c) * Pow(InverseMod(V, n), c)) % n == 1 % n
  {
    var v' := InverseMod(V, n);
    PowBase(V, v', c);
    CongPow(V * v', 1, c, n);
    PowOne(c);
  }

  lemma ResponseValue(x: nat, y: nat, V: nat, c: nat, n: pos)
    ensures Response(x, y, V, c, n) == (Pow(x, y) * Pow(InverseMod(V, n), c)) % n
  {
    ModMul(Pow(x, y), Pow(InverseMod(V, n), c), n);
  }

  /** With V = x^e and y = c e + alpha modulo a period of x, the response is x^alpha. */
  lemma ResponseCancels(x: nat, V: nat, e: nat, c: nat, alpha: nat, y: nat, order: pos, n: pos)
    requires Coprime(V, n) && V % n == Pow(x, e) % n
    requires Pow(x, order) % n == 1 % n && e * c >= 0 && y % order == (alpha + e * c) % order
    ensures Response(x, y, V, c, n) == ModExp(x, alpha, n)
  {
    ResponseValue(x, y, V, c, n);
    PowerOfPower(x, V, e, c, n);
    SplitResponse(x, Pow(V, c), e * c, alpha, y, order, n);
    PowInverse(V, c, n);
    CancelPair(Pow(x, y), Pow(x, alpha), Pow(V, c), Pow(InverseMod(V, n), c), n);
  }

  lemma SplitResponse(x: nat, b: int, f: nat, alpha: nat, y: nat, order: pos, n: pos)
    requires b % n == Pow(x, f) % n
    requires Pow(x, order) % n == 1 % n && y % order == (alpha + f) % order
    ensures Pow(x, y) % n == (Pow(x, alpha) * b) % n
  {
    PeriodReduce(x, order, y, alpha + f, n);
    PowAdd(x, alpha, f);
    CongMul(Pow(x, alpha), Pow(x, alpha), b, Pow(x, f), n);
  }

  lemma PowerOfPower(x: int, V: int, e: nat, c: nat, n: pos)
    requires V % n == Pow(x, e) % n
    ensures e * c >= 0 && Pow(V, c) % n == Pow(x, e * c) % n
  {
    PowMul(x, e, c);
    CongPow(V, Pow(x, e), c, n);
  }

  lemma CancelPair(s: int, a: int, b: int, b': int, n: pos)
    requires s % n == (a * b) % n && (b * b') % n == 1 % n
    ensures (s * b') % n == a % n
  {
    CongMul(s, a * b, b', b', n);
    CongMul(a, a, b * b', 1, n);
    assert a * b * b' == a * (b * b');
  }

  lemma AnswerValue(c: nat, i: nat, alpha: nat, order: pos)
    requires i >= 1
    ensures Pow2(Pow2(i - 1)) * c >= 0
    ensures Answer(c, i, alpha, order) < order
    ensures Answer(c, i, alpha, order) % order == (alpha + Pow2(Pow2(i - 1)) * c) % order
  {
    var e := Pow2(Pow2(i - 1));
    Pow2IsPow(Pow2(i - 1));
    ModMul(c, e, order);
    assert c * e == e * c;
    MulMono(0, c, e);
    ModAdd(c * e, alpha, order);
    ModSmall(Answer(c, i, alpha, order), order);
  }

  lemma ChainStep(g: nat, i: nat, n: pos)
    requires i >= 1
    ensures ChainAt(g, i, n) == ModExp(ChainAt(g, i - 1, n), Pow2(Pow2(i - 1)), n)
  {
    var k := Pow2(i - 1);
    ModExpMul(g, Pow2(k), Pow2(k), n);
    Pow2Add(k, k);
    assert Pow2(i) == k + k;
  }

  lemma ChainUnit(g: nat, i: nat, n: pos)
    ensures Coprime(ChainAt(g, i, n), n) <==> Coprime(g, n)
  {
    var e := Pow2(Pow2(i));
    ModMul(1, Pow(g, e), n);
    CoprimeCong(ChainAt(g, i, n), Pow(g, e), n);
    if Coprime(g, n) {
      CoprimePow(g, e, n);
    } else if Coprime(Pow(g, e), n) {
      CoprimeOfPow(g, e, n);
    }
  }

  lemma ChainPeriod(g: nat, i: nat, order: nat, n: pos)
    requires ModExp(g, order, n) == 1 % n
    ensures ModExp(ChainAt(g, i, n), order, n) == 1 % n
  {
    var e := Pow2(Pow2(i));
    PowPeriod(g, order, e, n);
    ModExpMul(g, e, order, n);
    assert e * order == order * e;
  }

  /** One honest index, with a unit g: both equations hold for every challenge and every alpha. */
  lemma HonestIndexPasses(g: nat, i: nat, c: nat, alpha: nat, order: pos, n: pos)
    requires n > 1 && i >= 1 && Coprime(g, n) && ModExp(g, order, n) == 1
    ensures var y, W, V := Answer(c, i, alpha, order), ChainAt(g, i - 1, n), ChainAt(g, i, n);
      Response(g, y, W, c, n) == ModExp(g, alpha, n) &&
      Response(W, y, V, c, n) == ModExp(W, alpha, n)
  {
    var e, y := Pow2(Pow2(i - 1)), Answer(c, i, alpha, order);
    var W, V := ChainAt(g, i - 1, n), ChainAt(g, i, n);
    ModSmall(1, n);
    AnswerValue(c, i, alpha, order);
    ChainUnit(g, i - 1, n);
    ChainUnit(g, i, n);
    ChainStep(g, i, n);
    ChainPeriod(g, i - 1, order, n);
    ModSmall(W, n);
    ModSmall(V, n);
    ResponseCancels(g, W, e, c, alpha, y, order, n);
    ResponseCancels(W, V, e, c, alpha, y, order, n);
  }

  /** Without a challenge the answer is alpha itself, and no inverse is used. */
  lemma NoChallengePasses(x: nat, V: nat, i: nat, alpha: nat, order: pos, n: pos)
    requires i >= 1 && alpha < order
    ensures Answer(0, i, alpha, order) == alpha
    ensures Response(x, alpha, V, 0, n) == ModExp(x, alpha, n)
  {
    ModSmall(0, order);
    ModSmall(alpha, order);
    ResponseValue(x, alpha, V, 0, n);
    assert Pow(x, alpha) * 1 == Pow(x, alpha);
  }

  /** A base that is no unit has no inverse: any real challenge turns the response into zero. */
  lemma NonUnitResponse(x: nat, y: nat, V: nat, c: nat, n: pos)
    requires c > 0 && !Coprime(V, n)
    ensures Response(x, y, V, c, n) == 0
  {
    ResponseValue(x, y, V, c, n);
    assert InverseMod(V, n) == 0;
    assert Pow(0, c) == 0 * Pow(0, c - 1);
    ModMultiple(0, n);
  }

  /** Powers of a number that n does not divide are not divisible by n, as n is squarefree. */
  lemma PowNotZero(p: pos, q: pos, h: int, e: nat)
    requires TwoPrimes(p, q)
    requires p * q > 0 && h % (p * q) != 0
    ensures ModExp(h, e, p * q) != 0
  {
    DividesPQ(p, q, h);
    DividesPQ(p, q, Pow(h, e));
    if h % p != 0 {
      if Pow(h, e) % p == 0 { PrimeDividesPow(p, h, e); }
    } else {
      if Pow(h, e) % q == 0 { PrimeDividesPow(q, h, e); }
    }
  }

  lemma GetGUnit(n: pos, h: nat)
    ensures Coprime(GetG(n, h), n) <==> Coprime(h, n)
  {
    ModMul(1, Pow(h, GExponent()), n);
    CoprimeCong(GetG(n, h), Pow(h, GExponent()), n);
    if Coprime(h, n) {
      CoprimePow(h, GExponent(), n);
    } else if Coprime(Pow(h, GExponent()), n) {
      CoprimeOfPow(h, GExponent(), n);
    }
  }

  /** The honest check at index i passes exactly when h is a unit or the challenge is zero. */
  lemma HonestIndexExact(p: pos, q: pos, n: pos, h: nat, i: nat, c: nat, alpha: nat)
    requires SafePrime(p) && SafePrime(q) && p != q && n == p * q
    requires h % n != 0 && i >= 1 && alpha < FoundOrder(p, q, GetG(n, h))
    ensures var g := GetG(n, h);
      var y, W, V := Answer(c, i, alpha, FoundOrder(p, q, g)), ChainAt(g, i - 1, n), ChainAt(g, i, n);
      (Response(g, y, W, c, n) == ModExp(g, alpha, n) <==> Coprime(h, n) || c == 0) &&
      (Coprime(h, n) || c == 0 ==> Response(W, y, V, c, n) == ModExp(W, alpha, n))
  {
    var g := GetG(n, h);
    var order := FoundOrder(p, q, g);
    var W, V := ChainAt(g, i - 1, n), ChainAt(g, i, n);
    PhiFacts(p, q);
    GetGUnit(n, h);
    FoundOrderFacts(p, q, g);
    if Coprime(h, n) {
      HonestIndexPasses(g, i, c, alpha, order, n);
    } else if c == 0 {
      NoChallengePasses(g, W, i, alpha, order, n);
      NoChallengePasses(W, V, i, alpha, order, n);
    } else {
      ChainUnit(g, i - 1, n);
      NonUnitResponse(g, Answer(c, i, alpha, order), W, c, n);
      PowNotZero(p, q, h, GExponent());
      ModSmall(g, n);
      PowNotZero(p, q, g, alpha);
    }
  }

  // ---------- extraction ----------

  /** Two responses to the same first move, with the inverses multiplied away. */
  lemma TwoResponses(x: nat, V: nat, y: nat, c: nat, y': nat, c': nat, n: pos)
    requires Coprime(V, n) && c >= c' && Response(x, y, V, c, n) == Response(x, y', V, c', n)
    ensures Pow(x, y) % n == (Pow(x, y') * Pow(V, c - c')) % n
  {
    ClearInverse(Pow(x, y), V, c, 0, n);
    ClearInverse(Pow(x, y'), V, c', c - c', n);
    ResponseValue(x, y, V, c, n);
    ResponseValue(x, y', V, c', n);
    CongMul(Pow(x, y) * Pow(InverseMod(V, n), c), Pow(x, y') * Pow(InverseMod(V, n), c'),
            Pow(V, c), Pow(V, c), n);
  }

  lemma ClearInverse(a: int, V: int, c: nat, d: nat, n: pos)
    requires Coprime(V, n)
    ensures (a * Pow(InverseMod(V, n), c) * Pow(V, c + d)) % n == (a * Pow(V, d)) % n
  {
    var b, b', f := Pow(V, c), Pow(InverseMod(V, n), c), Pow(V, d);
    PowAdd(V, c, d);
    PowInverse(V, c, n);
    assert a * b' * (b * f) == a * f * (b * b') by { MulSwap(a, b', f, b); }
    CongMul(a * f, a * f, b * b', 1, n);
  }

  /** The step that two accepting answers with challenges c > c' force: V = W^e when W = g^e. */
  lemma ExtractOrdered(p: pos, q: pos, n: pos, g: nat, W: nat, V: nat, e: nat,
                       c: nat, y: nat, c': nat, y': nat)
    requires TwoPrimes(p, q) && n == p * q
    requires W % n == Pow(g, e) % n && Coprime(W, n) && Coprime(V, n)
    requires c >= c' && Phi(p, q) > 0 && Coprime(c - c', Phi(p, q))
    requires Response(g, y, W, c, n) == Response(g, y', W, c', n)
    requires Response(W, y, V, c, n) == Response(W, y', V, c', n)
    ensures V % n == Pow(W, e) % n
  {
    var d := c - c';
    TwoResponses(g, W, y, c, y', c', n);
    TwoResponses(W, V, y, c, y', c', n);
    RaiseRelation(g, W, e, y, y', d, n);
    CoprimePow(W, y', n);
    CancelUnit(Pow(W, y'), Pow(Pow(W, e), d), Pow(V, d), n);
    CoprimePow(W, e, n);
    PowNonNegative(W, e);
    RootUnique(p, q, V, Pow(W, e), d);
  }

  lemma {:induction false} PowNonNegative(a: nat, e: nat)
    ensures Pow(a, e) >= 0
  {
    if e > 0 {
      PowNonNegative(a, e - 1);
      MulMono(0, Pow(a, e - 1), a);
    }
  }

  /** g^y = g^y' W^d raised to the e-th power, when W = g^e. */
  lemma RaiseRelation(g: nat, W: nat, e: nat, y: nat, y': nat, d: nat, n: pos)
    requires W % n == Pow(g, e) % n
    requires Pow(g, y) % n == (Pow(g, y') * Pow(W, d)) % n
    ensures Pow(W, y) % n == (Pow(W, y') * Pow(Pow(W, e), d)) % n
  {
    CongPow(Pow(g, y), Pow(g, y') * Pow(W, d), e, n);
    PowBase(Pow(g, y'), Pow(W, d), e);
    SwapExponents(g, W, e, y, n);
    SwapExponents(g, W, e, y', n);
    PowMul(W, d, e);
    PowMul(W, e, d);
    assert d * e == e * d;
    CongMul(Pow(Pow(g, y'), e), Pow(W, y'), Pow(Pow(W, d), e), Pow(Pow(W, e), d), n);
  }

  lemma SwapExponents(g: nat, W: nat, e: nat, y: nat, n: pos)
    requires W % n == Pow(g, e) % n
    ensures Pow(Pow(g, y), e) % n == Pow(W, y) % n
  {
    PowMul(g, y, e);
    PowMul(g, e, y);
    assert y * e == e * y;
    CongPow(W, Pow(g, e), y, n);
  }

  /** What two accepting answers at one index prove, in either order of the challenges: the step of
      the chain is right exactly when the next element is a unit. */
  lemma ExtractStep(p: pos, q: pos, n: pos, g: nat, W: nat, V: nat, e: nat,
                    c: nat, y: nat, c': nat, y': nat)
    requires TwoPrimes(p, q) && n == p * q
    requires W % n == Pow(g, e) % n && Coprime(W, n)
    requires Phi(p, q) > 0 && Coprime(c - c', Phi(p, q))
    requires Response(g, y, W, c, n) == Response(g, y', W, c', n)
    requires Response(W, y, V, c, n) == Response(W, y', V, c', n)
    ensures V % n == Pow(W, e) % n <==> Coprime(V, n)
  {
    CoprimePow(W, e, n);
    if V % n == Pow(W, e) % n {
      CoprimeCong(V, Pow(W, e), n);
    } else if Coprime(V, n) {
      ExtractUnordered(p, q, n, g, W, V, e, c, y, c', y');
    }
  }

  lemma ExtractUnordered(p: pos, q: pos, n: pos, g: nat, W: nat, V: nat, e: nat,
                         c: nat, y: nat, c': nat, y': nat)
    requires TwoPrimes(p, q) && n == p * q
    requires W % n == Pow(g, e) % n && Coprime(W, n) && Coprime(V, n)
    requires Phi(p, q) > 0 && Coprime(c - c', Phi(p, q))
    requires Response(g, y, W, c, n) == Response(g, y', W, c', n)
    requires Response(W, y, V, c, n) == Response(W, y', V, c', n)
    ensures V % n == Pow(W, e) % n
  {
    if c >= c' {
      ExtractOrdered(p, q, n, g, W, V, e, c, y, c', y');
    } else {
      NegatedDifference(c, c', Phi(p, q));
      ExtractOrdered(p, q, n, g, W, V, e, c', y', c, y);
    }
  }

  lemma NegatedDifference(c: int, c': int, phi: pos)
    requires Coprime(c - c', phi)
    ensures Coprime(c' - c, phi)
  {
    CoprimeMul(c - c', -1, phi);
    CoprimeFromInverse(-1, -1, phi);
    assert (c - c') * -1 == c' - c;
  }

  /** What one round of zk_1..zk_5 leaves behind: first moves, challenges and answers. */
  datatype Transcript = Transcript(z: seq<nat>, w: seq<nat>, c: seq<nat>, y: seq<nat>)

  predicate Sized(com: Commitment, t: Transcript) {
    |com.W| == |t.z| == |t.w| == |t.c| == |t.y| == com.K + 1
  }

  /** zk_5 accepts. */
  predicate Passes(com: Commitment, t: Transcript)
    requires Sized(com, t)
  {
    forall i :: 1 <= i <= com.K ==>
      ZOk(com, i, t.c[i], t.y[i], t.z[i]) && WOk(com, i, t.c[i], t.y[i], t.w[i])
  }

  /** The difference of two challenges is invertible modulo phi(n). */
  predicate Differ(c: int, c': int, phi: pos) {
    Coprime(c - c', phi)
  }

  /** Two rounds with the same first moves and challenges that differ invertibly everywhere. */
  ghost predicate Forked(com: Commitment, t: Transcript, t': Transcript, phi: pos)
    requires Sized(com, t) && Sized(com, t')
  {
    t.z == t'.z && t.w == t'.w && forall i :: 1 <= i <= com.K ==> Differ(t.c[i], t'.c[i], phi)
  }

  /** W is the chain of g modulo n. */
  ghost predicate CongruentChain(com: Commitment)
    requires |com.W| == com.K + 1
  {
    forall i :: 0 <= i <= com.K ==> com.W[i] % com.n == ChainAt(com.g, i, com.n)
  }

  ghost predicate IsChain(com: Commitment)
    requires |com.W| == com.K + 1
  {
    forall i :: 0 <= i <= com.K ==> com.W[i] == ChainAt(com.g, i, com.n)
  }

  ghost predicate Units(com: Commitment)
    requires |com.W| == com.K + 1
  {
    forall i :: 0 <= i <= com.K ==> Coprime(com.W[i], com.n)
  }

  ghost predicate Reduced(com: Commitment)
    requires |com.W| == com.K + 1
  {
    forall i :: 0 <= i <= com.K ==> com.W[i] < com.n
  }

  lemma {:induction false} ChainUpTo(p: pos, q: pos, com: Commitment, t: Transcript, t': Transcript, i: nat)
    requires TwoPrimes(p, q) && com.n == p * q && Phi(p, q) > 0
    requires Sized(com, t) && Sized(com, t') && i <= com.K && Accepted(com)
    requires Passes(com, t) && Passes(com, t') && Forked(com, t, t', Phi(p, q))
    requires Units(com)
    ensures com.W[i] % com.n == ChainAt(com.g, i, com.n)
  {
    if i == 0 {
      ChainSquares(com.g, com.n);
      ModSmall(com.W[0], com.n);
    } else {
      ChainUpTo(p, q, com, t, t', i - 1);
      var e, W := Pow2(Pow2(i - 1)), com.W[i - 1];
      assert ZOk(com, i, t.c[i], t.y[i], t.z[i]) && ZOk(com, i, t'.c[i], t'.y[i], t'.z[i]);
      assert Differ(t.c[i], t'.c[i], Phi(p, q));
      ModMul(1, Pow(com.g, e), com.n);
      ExtractStep(p, q, com.n, com.g, W, com.W[i], e, t.c[i], t.y[i], t'.c[i], t'.y[i]);
      ChainStep(com.g, i, com.n);
      ModMul(1, W, com.n);
      CongPow(W, ChainAt(com.g, i - 1, com.n), e, com.n);
    }
  }

  /** Soundness: two accepting rounds that fork at every index prove the whole chain exactly when
      its elements are units, which the receiver could test. */
  lemma ExtractedChain(p: pos, q: pos, com: Commitment, t: Transcript, t': Transcript)
    requires TwoPrimes(p, q) && com.n == p * q && Phi(p, q) > 0
    requires Sized(com, t) && Sized(com, t') && Accepted(com)
    requires Passes(com, t) && Passes(com, t') && Forked(com, t, t', Phi(p, q))
    ensures Units(com) <==> CongruentChain(com) && Coprime(com.g, com.n)
    ensures Units(com) && Reduced(com) <==> IsChain(com) && Coprime(com.g, com.n)
  {
    if Units(com) {
      forall i | 0 <= i <= com.K ensures com.W[i] % com.n == ChainAt(com.g, i, com.n) {
        ChainUpTo(p, q, com, t, t', i);
      }
      FirstIsUnit(com);
    }
    if Coprime(com.g, com.n) {
      ChainOfUnit(com);
    }
    if IsChain(com) || (CongruentChain(com) && Reduced(com)) {
      ReducedChain(com);
    }
  }

  lemma FirstIsUnit(com: Commitment)
    requires Accepted(com) && Coprime(com.W[0], com.n)
    ensures Coprime(com.g, com.n)
  {
    ChainSquares(com.g, com.n);
    ChainUnit(com.g, 0, com.n);
  }

  lemma ChainOfUnit(com: Commitment)
    requires |com.W| == com.K + 1 && Coprime(com.g, com.n)
    ensures CongruentChain(com) ==> Units(com)
  {
    if CongruentChain(com) {
      forall i | 0 <= i <= com.K ensures Coprime(com.W[i], com.n) {
        ChainUnit(com.g, i, com.n);
        ModMul(1, com.W[i], com.n);
        CoprimeCong(com.W[i], ChainAt(com.g, i, com.n), com.n);
      }
    }
  }

  lemma ReducedChain(com: Commitment)
    requires |com.W| == com.K + 1
    ensures IsChain(com) <==> CongruentChain(com) && Reduced(com)
  {
    forall i | 0 <= i <= com.K
      ensures com.W[i] == ChainAt(com.g, i, com.n) <==>
        com.W[i] % com.n == ChainAt(com.g, i, com.n) && com.W[i] < com.n
    {
      if com.W[i] < com.n { ModSmall(com.W[i], com.n); }
    }
  }

  // ---------- what a proved chain is good for ----------

  /** The search from g succeeds exactly when u is the end of the chain. */
  lemma ForceOpenedExact(com: Commitment)
    requires Accepted(com) && com.l <= Pow2(com.K)
    ensures ForceOpened(com).Ok? <==> com.u == ChainAt(com.g, com.K, com.n)
    ensures ForceOpened(com).Ok? ==>
      ForceOpened(com).value == Mask(Masked(com), KeyOf(com.g, com.K, com.l, com.n), com.n)
  {
    var v := Squarings(com.g, Steps(com.K, com.l), com.n);
    SquaringsPower(com.g, Pow2(com.K) - com.l, com.n);
    ChainFromKey(com.g, com.K, com.l, com.n);
    DecodeNeverFails(com, v);
  }

  lemma SquaringsCong(v: nat, v': nat, k: nat, n: pos)
    requires k > 0 && v % n == v' % n
    ensures Squarings(v, k, n) == Squarings(v', k, n)
  {
    SquaringsPower(v, k, n);
    SquaringsPower(v', k, n);
    CongPow(v, v', Pow2(k), n);
  }

  /** With a chain modulo n, both forced openings succeed exactly when u is reduced. They agree
      unless the smart one does not square and W[K-1] has another parity than its remainder. */
  lemma ChainOpens(com: Commitment)
    requires Accepted(com) && CongruentChain(com) && Shaped(com)
    requires com.K >= 1 && com.l <= Pow2(com.K - 1)
    ensures ForceOpened(com).Ok? <==> com.u < com.n
    ensures SmartOpened(com).Ok? <==> com.u < com.n
    ensures com.u < com.n ==>
      (SmartOpened(com) == ForceOpened(com) <==>
       com.l < Pow2(com.K - 1) || Odd(com.W[com.K - 1]) == Odd(com.W[com.K - 1] % com.n))
  {
    var n, K, l := com.n, com.K, com.l;
    var middle := com.W[K - 1];
    var v := Squarings(middle, Steps(K - 1, l), n);
    KeyFromMiddle(com.g, K, l, n);
    ForceOpenedExact(com);
    SmartOpenedFrom(com, v);
    DecodeNeverFails(com, v);
    EndOfChain(com);
    ModMul(1, middle, n);
    ModMul(1, Pow(com.g, Pow2(Pow2(K) - l)), n);
    ChainFromKey(com.g, K, l, n);
    if l < Pow2(K - 1) {
      SquaringsCong(middle, ChainAt(com.g, K - 1, n), Pow2(K - 1) - l, n);
    } else {
      CongPow(v, KeyOf(com.g, K, l, n), Pow2(l), n);
      CongMul(v, KeyOf(com.g, K, l, n), v, KeyOf(com.g, K, l, n), n);
      MaskSquares(Masked(com), v, KeyOf(com.g, K, l, n), n);
    }
  }

  lemma EndOfChain(com: Commitment)
    requires Accepted(com) && CongruentChain(com)
    ensures com.u == ChainAt(com.g, com.K, com.n) <==> com.u < com.n
  {
    if com.u < com.n { ModSmall(com.u, com.n); }
  }

  /** What the check buys the receiver when all W[i] are units: squaring through the lock yields what
      every opening that the commiter could still send yields, from g always, and from the middle
      of the chain unless W[K-1] is unreduced and not squared. */
  lemma CheckedCommitmentBinds(p: pos, q: pos, com: Commitment, t: Transcript, t': Transcript, vp: nat)
    requires BlumPrimes(p, q) && com.n == p * q && Phi(p, q) > 0
    requires com.l <= Pow2(com.K)
    requires Sized(com, t) && Sized(com, t') && Accepted(com) && Units(com)
    requires Passes(com, t) && Passes(com, t') && Forked(com, t, t', Phi(p, q))
    ensures ForceOpened(com).Ok? <==> com.u < com.n
    ensures Opened(com, vp).Ok? ==> Opened(com, vp) == ForceOpened(com)
    ensures com.K >= 1 && com.l <= Pow2(com.K - 1) && Shaped(com) && com.u < com.n ==>
      (SmartOpened(com) == ForceOpened(com) <==>
       com.l < Pow2(com.K - 1) || Odd(com.W[com.K - 1]) == Odd(com.W[com.K - 1] % com.n))
  {
    ExtractedChain(p, q, com, t, t');
    ForceOpenedExact(com);
    EndOfChain(com);
    if com.K >= 1 && com.l <= Pow2(com.K - 1) && Shaped(com) {
      ChainOpens(com);
    }
    AcceptedOpeningsAgree(p, q, com, vp, vp);
    if Opened(com, vp).Ok? {
      DecodeNeverFails(com, GetG(com.n, vp));
    }
  }

  // ---------- where the check does not reach ----------

  /** zk_5 reads W modulo n only. */
  lemma PassesCong(com: Commitment, com': Commitment, t: Transcript)
    requires Sized(com, t) && Sized(com', t) && com'.n == com.n && com'.g == com.g
    requires forall i :: 0 <= i <= com.K ==> com'.W[i] % com.n == com.W[i] % com.n
    ensures Passes(com', t) <==> Passes(com, t)
  {
    forall i | 1 <= i <= com.K
      ensures ZOk(com', i, t.c[i], t.y[i], t.z[i]) <==> ZOk(com, i, t.c[i], t.y[i], t.z[i])
      ensures WOk(com', i, t.c[i], t.y[i], t.w[i]) <==> WOk(com, i, t.c[i], t.y[i], t.w[i])
    {
      CongPow(com'.W[i - 1], com.W[i - 1], t.y[i], com.n);
      InverseCong(com'.W[i - 1], com.W[i - 1], com.n);
      InverseCong(com'.W[i], com.W[i], com.n);
    }
  }

  lemma InverseCong(a: int, b: int, n: pos)
    requires a % n == b % n
    ensures InverseMod(a, n) == InverseMod(b, n)
  {
  }

  lemma ShiftedParity(w: nat, n: pos)
    requires n % 2 == 1
    ensures Odd(w + n) != Odd(w)
  {
  }

  lemma ShiftedSquare(w: int, n: pos)
    ensures (w * w) % n == ((w + n) * (w + n)) % n
  {
    ModShift(w, 1, n);
    CongMul(w, w + n, w, w + n, n);
  }

  /** Adding n to W[K-1] is not noticed by any passing transcript either. When l is at least 2^(K-1),
      the two searches then succeed with different first bits: only the check together with
      W[K-1] < n pins W[K-1] down. */
  lemma SmartUnreducedDisagrees(com: Commitment, bits: seq<bool>)
    requires com.n % 2 == 1 && com.K >= 2 && com.l >= Pow2(com.K - 1)
    requires Shaped(com) && Accepted(com)
    requires ForceOpened(com) == SmartOpened(com) == Ok(bits)
    ensures var altered := WithMiddle(com, com.W[com.K - 1] + com.n);
      Accepted(altered) && ForceOpened(altered) == Ok(bits) &&
      SmartOpened(altered).Ok? && AgreeAfterFirst(bits, SmartOpened(altered).value) &&
      SmartOpened(altered).value[0] != bits[0]
  {
    var w := com.W[com.K - 1];
    ShiftedParity(w, com.n);
    ShiftedSquare(w, com.n);
    MiddleReplaced(com, bits, w + com.n);
    SameTail(bits, SmartOpened(WithMiddle(com, w + com.n)).value);
  }

  lemma UnreducedStillPasses(com: Commitment, t: Transcript)
    requires com.K >= 2 && Sized(com, t)
    ensures Passes(WithMiddle(com, com.W[com.K - 1] + com.n), t) <==> Passes(com, t)
  {
    ModShift(com.W[com.K - 1], 1, com.n);
    PassesCong(com, WithMiddle(com, com.W[com.K - 1] + com.n), t);
  }

  /** A commitment whose inner elements are zero, and so no units, with any end u at all. */
  predicate ZeroChain(com: Commitment) {
    Accepted(com) && com.K >= 2 && forall i :: 1 <= i < com.K ==> com.W[i] == 0
  }

  /** First moves for such a commitment, chosen before the challenges, and answers to them. */
  function ZeroTranscript(com: Commitment, alpha: nat, c: seq<nat>): (t: Transcript)
    requires com.K >= 2 && |com.W| == |c| == com.K + 1
    ensures Sized(com, t) && t.c == c
  {
    Transcript(
      seq(com.K + 1, i requires 0 <= i <= com.K => if i == 1 then ModExp(com.g, alpha, com.n) else 0),
      seq(com.K + 1, i => 0),
      c,
      seq(com.K + 1, i requires 0 <= i <= com.K => alpha + 2 * c[i]))
  }

  predicate AllPositive(c: seq<nat>) {
    forall i :: 1 <= i < |c| ==> c[i] > 0
  }

  /** zk_5 accepts it for all positive challenges, because the inverse of zero is zero. */
  lemma ZeroChainPasses(p: pos, q: pos, com: Commitment, alpha: nat, c: seq<nat>)
    requires TwoPrimes(p, q) && com.n == p * q && ZeroChain(com) && Coprime(com.g, com.n)
    requires |c| == com.K + 1 && AllPositive(c)
    ensures Passes(com, ZeroTranscript(com, alpha, c))
  {
    var t := ZeroTranscript(com, alpha, c);
    PhiFacts(p, q);
    ZeroIsNoUnit(com.n);
    FirstResponse(p, q, com, alpha, c[1]);
    forall i | 1 <= i <= com.K
      ensures ZOk(com, i, t.c[i], t.y[i], t.z[i]) && WOk(com, i, t.c[i], t.y[i], t.w[i])
    {
      if i > 1 { NonUnitResponse(com.g, t.y[i], com.W[i - 1], c[i], com.n); }
      if i < com.K {
        NonUnitResponse(com.W[i - 1], t.y[i], com.W[i], c[i], com.n);
      } else {
        ZeroBaseResponse(t.y[i], com.W[i], c[i], com.n);
      }
    }
  }

  lemma ZeroIsNoUnit(n: pos)
    requires n > 1
    ensures !Coprime(0, n)
  {
    ModSmall(0, n);
    assert Gcd(0, n) == Gcd(n, 0) == n;
  }

  lemma ZeroBaseResponse(y: nat, V: nat, c: nat, n: pos)
    requires y > 0
    ensures Response(0, y, V, c, n) == 0
  {
    assert Pow(0, y) == 0;
    ModMultiple(0, n);
  }

  lemma FirstResponse(p: pos, q: pos, com: Commitment, alpha: nat, c: nat)
    requires TwoPrimes(p, q) && com.n == p * q && Accepted(com) && Coprime(com.g, com.n)
    ensures Response(com.g, alpha + 2 * c, com.W[0], c, com.n) == ModExp(com.g, alpha, com.n)
  {
    PhiFacts(p, q);
    Euler(p, q, com.g);
    ModSmall(1, com.n);
    ChainSquares(com.g, com.n);
    ChainUnit(com.g, 0, com.n);
    ModMul(1, Pow(com.g, 2), com.n);
    assert Pow2(Pow2(0)) == 2;
    ResponseCancels(com.g, com.W[0], 2, c, alpha, alpha + 2 * c, Phi(p, q), com.n);
  }

  /** Accepted, with forked passing transcripts, and still not the chain. */
  lemma ZeroChainForks(p: pos, q: pos, phi: pos, com: Commitment, alpha: nat, c: seq<nat>, c': seq<nat>)
    requires TwoPrimes(p, q) && com.n == p * q && phi == Phi(p, q) && ZeroChain(com) && Coprime(com.g, com.n)
    requires |c| == |c'| == com.K + 1 && AllPositive(c) && AllPositive(c')
    requires forall i :: 1 <= i <= com.K ==> Differ(c[i], c'[i], phi)
    ensures var t, t' := ZeroTranscript(com, alpha, c), ZeroTranscript(com, alpha, c');
      Passes(com, t) && Passes(com, t') && Forked(com, t, t', phi)
    ensures !CongruentChain(com) && !IsChain(com) && !Units(com)
  {
    PhiFacts(p, q);
    ZeroChainPasses(p, q, com, alpha, c);
    ZeroChainPasses(p, q, com, alpha, c');
    ZeroIsNoUnit(com.n);
    ChainOfUnit(com);
    ReducedChain(com);
    assert !Coprime(com.W[1], com.n);
  }

  /** The smart search then fails for every u but zero, and the plain one for every u but the true
      end of the chain. */
  lemma ZeroChainNeverOpens(com: Commitment)
    requires ZeroChain(com) && com.n > 1 && com.u != 0
    ensures SmartOpened(com) == Err(OpenUMismatch)
    ensures com.l <= Pow2(com.K) && com.u != ChainAt(com.g, com.K, com.n) ==> ForceOpened(com).Err?
  {
    var v := Squarings(com.W[com.K - 1], Steps(com.K - 1, com.l), com.n);
    ZeroSquarings(Steps(com.K - 1, com.l), com.n);
    SmartOpenedFrom(com, v);
    assert Pow(0, Pow2(com.l)) == 0;
    ModSmall(0, com.n);
    if com.l <= Pow2(com.K) {
      ForceOpenedExact(com);
    }
  }

  lemma {:induction false} ZeroSquarings(k: nat, n: pos)
    ensures Squarings(0, k, n) == 0
  {
    if k > 0 {
      ZeroSquarings(k - 1, n);
      ModSmall(0, n);
    }
  }
}
