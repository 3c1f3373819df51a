/** The two parties of the timed commitment and the protocol between them. */
module TimedCommitment {
  import opened Modular
  import opened Primes
  import opened Fermat
  import opened OrderSearch
  import opened OrderExactness
  import opened RepeatedSquaring
  import opened CommitmentSpec
  import opened ZeroKnowledge
  import opened Wrappers
  import BitUtils

  type Digest = seq<BitUtils.byte>

  /** exp: binary powering without a modulus. */
  method Exp(x: int, n: nat) returns (res: int)
    ensures res == Pow(x, n)
  {
    var b, k := x, n;
    res := 1;
    while k > 0
      invariant res * Pow(b, k) == Pow(x, n)
    {
      SquareStep(b, k, 1);
      MulAssoc(res, b, Pow(b * b, k / 2));
      if k % 2 == 1 {
        res := res * b;
      }
      b, k := b * b, k / 2;
    }
  }

  /** get_g: raise h to the product of all small primes, each to the power BITS. */
  method ComputeG(n: pos, h: nat) returns (g: nat)
    ensures g == GetG(n, h)
  {
    var mult: int := 1;
    var i := 0;
    while PRIME_TABLE[i] < B
      invariant 0 <= i <= 31
      invariant mult == PowerProduct(PRIME_TABLE[..i], BITS)
      decreases 31 - i
    {
      var power := Exp(PRIME_TABLE[i], BITS);
      assert PRIME_TABLE[..i + 1][..i] == PRIME_TABLE[..i];
      mult := mult * power;
      i := i + 1;
    }
    g := AExpBModC(h, mult, n);
  }

  // ---------- exponents reduced modulo phi ----------

  /** No power of two is a multiple of phi(n), because an odd prime divides phi(n). */
  lemma PowerOfTwoRemains(p: pos, q: pos, k: nat)
    requires SafePrime(p) && SafePrime(q)
    ensures Phi(p, q) > 0 && Pow2(k) % Phi(p, q) > 0
  {
    var a, b := (p - 1) / 2, (q - 1) / 2;
    SafePrimeBounds(p);
    MulPos(p - 1, q - 1);
    PhiOfSafePrimes(p, q);
    if Pow2(k) % Phi(p, q) == 0 {
      assert 4 * (a * b) == a * (4 * b);
      ModMultiple(4 * b, a);
      DividesTrans(a, Phi(p, q), Pow2(k));
      Pow2IsPow(k);
      PrimeDividesPow(a, 2, k);
      ModSmall(2, a);
    }
  }

  /** Jumping ahead: the exponent 2^k may be reduced modulo phi(n), for every base g. */
  lemma JumpAhead(p: pos, q: pos, g: nat, k: nat)
    requires SafePrime(p) && SafePrime(q) && p != q
    ensures p * q > 0 && Phi(p, q) > 0
    ensures ModExp(g, ModExp(2, k, Phi(p, q)), p * q) == ModExp(g, Pow2(k), p * q)
  {
    PhiFacts(p, q);
    PowerOfTwoRemains(p, q, k);
    Pow2IsPow(k);
    ModMul(1, Pow2(k), Phi(p, q));
    ReduceExponent(p, q, g, Pow2(k) % Phi(p, q), Pow2(k));
  }

  /** The value that Commiter's open sends. */
  function OpeningValue(phi: pos, com: Commitment): nat
    requires com.l <= Pow2(com.K)
  {
    ModExp(com.h, ModExp(2, Pow2(com.K) - com.l, phi), com.n)
  }

  /** The commit round trip: the honest opening and both searches return the committed bits. */
  lemma CommitRoundTrip(p: pos, q: pos, n: pos, K: nat, h: nat, m: seq<bool>)
    requires SafePrime(p) && SafePrime(q) && p != q && n == p * q && |m| <= Pow2(K)
    ensures Accepted(Honest(K, n, h, m))
    ensures Phi(p, q) > 0
    ensures Opened(Honest(K, n, h, m), OpeningValue(Phi(p, q), Honest(K, n, h, m))) == Ok(m)
    ensures ForceOpened(Honest(K, n, h, m)) == Ok(m)
    ensures K >= 1 && |m| <= Pow2(K - 1) ==> SmartOpened(Honest(K, n, h, m)) == Ok(m)
  {
    HonestAccepted(K, n, h, m);
    HonestForceOpens(K, n, h, m);
    if K >= 1 && |m| <= Pow2(K - 1) {
      HonestSmartOpens(K, n, h, m);
    }
    HonestValueOpens(p, q, n, K, h, m);
  }

  lemma HonestValueOpens(p: pos, q: pos, n: pos, K: nat, h: nat, m: seq<bool>)
    requires SafePrime(p) && SafePrime(q) && p != q && n == p * q && |m| <= Pow2(K)
    ensures Phi(p, q) > 0
    ensures Opened(Honest(K, n, h, m), OpeningValue(Phi(p, q), Honest(K, n, h, m))) == Ok(m)
  {
    PhiFacts(p, q);
    JumpAhead(p, q, GetG(n, h), Pow2(K) - |m|);
    HonestOpens(K, n, h, m, ModExp(2, Pow2(K) - |m|, Phi(p, q)));
  }

  // ---------- the commiter ----------

  /** The loop that masks m with the low bits of u and squares u along. */
  method MaskBits(m: seq<bool>, v: nat, n: pos) returns (S: seq<bool>, u: nat)
    ensures S == Mask(m, v, n) && u == Squarings(v, |m|, n)
    ensures forall i :: 0 <= i < |m| ==>
      (S[i] != m[i] <==> (if i == 0 then v else ModExp(v, Pow2(i), n)) % 2 == 1)
  {
    forall i | 0 <= i < |m|
      ensures Mask(m, v, n)[i] != m[i] <==> (if i == 0 then v else ModExp(v, Pow2(i), n)) % 2 == 1
    {
      MaskBit(m, v, n, i);
    }
    S, u := [], v;
    for i := 0 to |m|
      invariant S == Mask(m, v, n)[..i] && u == Squarings(v, i, n)
    {
      S := S + [m[i] != Odd(u)];
      u := (u * u) % n;
    }
  }

  lemma KeyReachesEnd(g: nat, K: nat, l: nat, n: pos)
    requires l <= Pow2(K)
    ensures Squarings(KeyOf(g, K, l, n), l, n) == ChainAt(g, K, n)
  {
    ChainFromKey(g, K, l, n);
    SquaringsPower(KeyOf(g, K, l, n), l, n);
  }

  lemma ChainPassesChecks(g: nat, K: nat, n: pos)
    requires K >= 1
    ensures Chain(g, K, n)[0] == (g * g) % n && Chain(g, K, n)[1] == (g * g * g * g) % n
    ensures Chain(g, K, n)[K] == ChainAt(g, K, n)
  {
    ChainSquares(g, n);
    ChainIndex(g, K, n, 0);
    ChainIndex(g, K, n, 1);
    ChainIndex(g, K, n, K);
  }

  const NO_COMMITMENT: Commitment := Commitment(0, 1, 0, 0, 0, [], [0], 0)

  class Commiter {
    var p: pos
    var q: pos
    var n: pos
    var phi: pos
    var com: Commitment
    var order: pos
    var commits: seq<Digest>
    var alpha: seq<nat>

    ghost predicate Valid()
      reads this
    {
      SafePrime(p) && SafePrime(q) && p != q && n == p * q && phi == Phi(p, q)
    }

    /** p and q are what gen_prime returned: safe primes that are 3 modulo 4. */
    constructor (p: pos, q: pos)
      requires SafePrime(p) && SafePrime(q) && p != q
      ensures Valid() && this.p == p && this.q == q
    {
      PhiFacts(p, q);
      this.p, this.q := p, q;
      n := p * q;
      phi := (p - 1) * (q - 1);
      com, order, commits, alpha := NO_COMMITMENT, 1, [], [];
    }

    /** Commits to m with 2^K squarings, jumping ahead with phi(n). No sanity check can fail,
        whatever h was sampled. */
    method Commit(K: nat, m: seq<bool>, h: nat) returns (r: Result<Commitment>)
      requires Valid() && K >= 1 && |m| <= Pow2(K)
      modifies this`com, this`order
      ensures r == Ok(Honest(K, n, h, m)) && com == Honest(K, n, h, m)
      ensures p >= 7 && q >= 7 && order == FoundOrder(p, q, GetG(n, h))
      ensures MaskedFrom(com.S, m, GetG(n, h), Pow2(K) - |m|, n)
    {
      SafePrimeBounds(p);
      SafePrimeBounds(q);
      var l := |m|;
      var g := ComputeG(n, h);
      order := FindOrder(p, q, g);
      var a0 := AExpBModC(2, Pow2(K) - l, phi);
      var a := AExpBModC(2, Pow2(K), phi);
      var u0 := AExpBModC(g, a0, n);
      JumpAhead(p, q, g, Pow2(K) - l);
      JumpAhead(p, q, g, Pow2(K));
      var S, u := MaskBits(m, u0, n);
      KeyReachesEnd(g, K, l, n);
      var check := AExpBModC(g, a, n);
      if u != check {
        r := Err(UIsNotGPowerA);
      } else {
        var chain := CheckedChain(K, g, u);
        match chain {
          case Err(e) =>
            r := Err(e);
          case Ok(W) =>
            com := Commitment(K, n, h, g, u, S, W, l);
            r := Ok(com);
        }
        HonestMask(K, n, h, m);
      }
    }

    /** W and the sanity check on it. */
    method CheckedChain(K: nat, g: nat, u: nat) returns (r: Result<seq<nat>>)
      requires Valid() && K >= 1 && u == ChainAt(g, K, n)
      ensures r == Ok(Chain(g, K, n))
    {
      var W := BuildChain(K, g);
      ChainPassesChecks(g, K, n);
      if W[0] != (g * g) % n || W[1] != (g * g * g * g) % n || W[K] != u {
        r := Err(InvalidW);
      } else {
        r := Ok(W);
      }
    }

    /** The loop that fills W, with the exponent 2^(2^i) reduced modulo phi. */
    method BuildChain(K: nat, g: nat) returns (W: seq<nat>)
      requires Valid()
      ensures W == Chain(g, K, n)
    {
      W := [];
      for i := 0 to K + 1
        invariant W == Chain(g, K, n)[..i]
      {
        var e := AExpBModC(2, Pow2(i), phi);
        JumpAhead(p, q, g, Pow2(i));
        var w := AExpBModC(g, e, n);
        ChainIndex(g, K, n, i);
        W := W + [w];
      }
    }

    /** First moves z and w for the sampled alpha. */
    method Zk2(commits: seq<Digest>, alpha: seq<nat>) returns (r: Result<(seq<nat>, seq<nat>)>)
      requires |com.W| == |alpha| == com.K + 1
      modifies this`commits, this`alpha
      ensures |commits| != com.K + 1 ==>
        r == Err(WrongNumberOfCommits) && this.commits == old(this.commits) && this.alpha == old(this.alpha)
      ensures |commits| == com.K + 1 ==>
        r.Ok? && this.commits == commits && this.alpha == alpha &&
        FirstMoves(com, n, alpha, r.value.0, r.value.1)
    {
      if |commits| != com.K + 1 {
        return Err(WrongNumberOfCommits);
      }
      this.commits, this.alpha := commits, alpha;
      var z: seq<nat>, w: seq<nat> := [0], [0];
      for i := 1 to com.K + 1
        invariant this.commits == commits && this.alpha == alpha
        invariant |z| == |w| == i
        invariant forall j :: 1 <= j < i ==> z[j] == ModExp(com.g, alpha[j], n)
        invariant forall j :: 1 <= j < i ==> w[j] == ModExp(com.W[j - 1], alpha[j], n)
      {
        var zi := AExpBModC(com.g, alpha[i], n);
        var wi := AExpBModC(com.W[i - 1], alpha[i], n);
        z, w := z + [zi], w + [wi];
      }
      return Ok((z, w));
    }

    /** Answers to the opened challenges. */
    method Zk4(values: seq<nat>, hash: nat -> Digest) returns (r: Result<seq<nat>>)
      requires |commits| == |alpha| == com.K + 1
      ensures |values| != com.K + 1 ==> r == Err(WrongNumberOfValues)
      ensures |values| == com.K + 1 ==>
        (r == Err(RegularCommitmentMismatch) <==> exists i :: 1 <= i <= com.K && commits[i] != hash(values[i]))
      ensures |values| == com.K + 1 && Reveals(com.K, commits, values, hash) ==>
        r.Ok? && Answers(com.K, values, alpha, order, r.value)
    {
      if |values| != com.K + 1 {
        return Err(WrongNumberOfValues);
      }
      for i := 1 to com.K + 1
        invariant forall j :: 1 <= j < i ==> commits[j] == hash(values[j])
      {
        if commits[i] != hash(values[i]) {
          return Err(RegularCommitmentMismatch);
        }
      }
      var y: seq<nat> := [0];
      for i := 1 to com.K + 1
        invariant |y| == i
        invariant forall j :: 1 <= j < i ==> y[j] == Answer(values[j], j, alpha[j], order)
      {
        var power := AExpBModC(2, Pow2(i - 1), order);
        var yi := (values[i] * power) % order;
        yi := yi + alpha[i];
        yi := yi % order;
        y := y + [yi];
      }
      return Ok(y);
    }

    method Open() returns (vp: nat)
      requires com.l <= Pow2(com.K) && com.n == n
      ensures vp == OpeningValue(phi, com)
    {
      var e := AExpBModC(2, Pow2(com.K) - com.l, phi);
      vp := AExpBModC(com.h, e, n);
    }
  }

  /** The opened values are the ones that the digests commit to. */
  predicate Reveals(K: nat, commits: seq<Digest>, values: seq<nat>, hash: nat -> Digest)
    requires |commits| == |values| == K + 1
  {
    forall i :: 1 <= i <= K ==> commits[i] == hash(values[i])
  }

  /** Without a collision, the revealed challenges are the ones that were committed to. */
  lemma RevealedAreCommitted(K: nat, commits: seq<Digest>, values: seq<nat>, values': seq<nat>, hash: nat -> Digest)
    requires |commits| == |values| == |values'| == K + 1 && Reveals(K, commits, values, hash)
    requires forall i :: 1 <= i <= K && hash(values[i]) == hash(values'[i]) ==> values[i] == values'[i]
    ensures Reveals(K, commits, values', hash) <==> values'[1..] == values[1..]
  {
    if Reveals(K, commits, values', hash) {
      forall i | 0 <= i < K ensures values'[1..][i] == values[1..][i] {
        assert commits[i + 1] == hash(values[i + 1]) == hash(values'[i + 1]);
      }
    }
    if values'[1..] == values[1..] {
      forall i | 1 <= i <= K ensures commits[i] == hash(values'[i]) {
        assert values'[1..][i - 1] == values[1..][i - 1];
      }
    }
  }

  predicate FirstMoves(com: Commitment, n: pos, alpha: seq<nat>, z: seq<nat>, w: seq<nat>)
    requires |com.W| == |alpha| == com.K + 1
  {
    && |z| == |w| == com.K + 1
    && (forall i :: 1 <= i <= com.K ==> z[i] == ModExp(com.g, alpha[i], n))
    && (forall i :: 1 <= i <= com.K ==> w[i] == ModExp(com.W[i - 1], alpha[i], n))
  }

  predicate Answers(K: nat, values: seq<nat>, alpha: seq<nat>, order: pos, y: seq<nat>)
    requires |values| == |alpha| == K + 1
  {
    |y| == K + 1 && forall i :: 1 <= i <= K ==> y[i] == Answer(values[i], i, alpha[i], order)
  }

  // ---------- the receiver ----------

  /** Index i is the first whose equations fail, and e is what zk_5 throws there. */
  predicate FailsFirstAt(com: Commitment, t: Transcript, i: nat, e: Error)
    requires Sized(com, t)
  {
    && 1 <= i <= com.K
    && (forall j :: 1 <= j < i ==>
          ZOk(com, j, t.c[j], t.y[j], t.z[j]) && WOk(com, j, t.c[j], t.y[j], t.w[j]))
    && if !ZOk(com, i, t.c[i], t.y[i], t.z[i]) then e == ZVerificationFailed
       else !WOk(com, i, t.c[i], t.y[i], t.w[i]) && e == WVerificationFailed
  }

  /** r is the verdict of zk_5 on the transcript: it accepts exactly when both equations hold at
      every index, and otherwise throws for the first index at which one fails. */
  ghost predicate Decides(com: Commitment, t: Transcript, r: Result<()>)
    requires Sized(com, t)
  {
    if r.Ok? then Passes(com, t) else exists i: nat :: FailsFirstAt(com, t, i, r.error)
  }

  class Receiver {
    var com: Commitment
    var commitValues: seq<nat>
    var zw: (seq<nat>, seq<nat>)

    constructor ()
      ensures com == NO_COMMITMENT
    {
      com, commitValues, zw := NO_COMMITMENT, [], ([], []);
    }

    method AcceptCommitment(com: Commitment) returns (r: Result<()>)
      modifies this`com
      ensures this.com == com
      ensures r.Ok? <==> Accepted(com)
      ensures com.g != GetG(com.n, com.h) ==> r == Err(GIsNotGetG)
      ensures com.g == GetG(com.n, com.h) && |com.W| != com.K + 1 ==> r == Err(WrongWSize)
      ensures com.g == GetG(com.n, com.h) && |com.W| == com.K + 1 && r.Err? ==> r.error == InvalidW
    {
      this.com := com;
      var g := ComputeG(com.n, com.h);
      if com.g != g {
        return Err(GIsNotGetG);
      }
      if |com.W| != com.K + 1 {
        return Err(WrongWSize);
      }
      if com.W[0] != (com.g * com.g) % com.n || com.W[com.K] != com.u {
        return Err(InvalidW);
      }
      return Ok(());
    }

    /** Commit to the sampled challenges; entry 0 is never used. */
    method Zk1(values: seq<nat>, hash: nat -> Digest) returns (res: seq<Digest>)
      requires |values| == com.K + 1
      modifies this`commitValues
      ensures commitValues == values[0 := 0]
      ensures |res| == com.K + 1 && forall i :: 1 <= i <= com.K ==> res[i] == hash(values[i])
    {
      res := [[]];
      commitValues := [0];
      for i := 1 to com.K + 1
        invariant commitValues == values[0 := 0][..i]
        invariant |res| == i && forall j :: 1 <= j < i ==> res[j] == hash(values[j])
      {
        commitValues := commitValues + [values[i]];
        res := res + [hash(values[i])];
      }
    }

    method Zk3(zw: (seq<nat>, seq<nat>)) returns (r: Result<seq<nat>>)
      modifies this`zw
      ensures if |zw.0| == |zw.1| == com.K + 1
        then r == Ok(commitValues) && this.zw == zw
        else r == Err(WrongZWSize) && this.zw == old(this.zw)
    {
      if |zw.0| != com.K + 1 || |zw.1| != com.K + 1 {
        return Err(WrongZWSize);
      }
      this.zw := zw;
      return Ok(commitValues);
    }

    /** Check both equations at every index, in order. */
    method Zk5(y: seq<nat>) returns (r: Result<()>)
      requires |com.W| == |commitValues| == |zw.0| == |zw.1| == com.K + 1
      ensures |y| != com.K + 1 ==> r == Err(WrongYSize)
      ensures |y| == com.K + 1 ==> Decides(com, Transcript(zw.0, zw.1, commitValues, y), r)
    {
      if |y| != com.K + 1 {
        return Err(WrongYSize);
      }
      ghost var t := Transcript(zw.0, zw.1, commitValues, y);
      for i := 1 to com.K + 1
        invariant forall j :: 1 <= j < i ==>
          ZOk(com, j, commitValues[j], y[j], zw.0[j]) && WOk(com, j, commitValues[j], y[j], zw.1[j])
      {
        var z1 := AExpBModC(com.g, y[i], com.n);
        var z2 := AExpBModC(InverseMod(com.W[i - 1], com.n), commitValues[i], com.n);
        if (z1 * z2) % com.n != zw.0[i] {
          assert FailsFirstAt(com, t, i, ZVerificationFailed);
          return Err(ZVerificationFailed);
        }
        var w1 := AExpBModC(com.W[i - 1], y[i], com.n);
        var w2 := AExpBModC(InverseMod(com.W[i], com.n), commitValues[i], com.n);
        if (w1 * w2) % com.n != zw.1[i] {
          assert FailsFirstAt(com, t, i, WVerificationFailed);
          return Err(WVerificationFailed);
        }
      }
      return Ok(());
    }

    method Decode(v: nat) returns (r: Result<seq<bool>>)
      requires Shaped(com)
      ensures r == Decoded(com, v)
      ensures r.Ok? ==> |r.value| == com.l
      ensures r.Ok? ==> forall i :: 0 <= i < com.l ==>
        (r.value[i] != com.S[i] <==> (if i == 0 then v else ModExp(v, Pow2(i), com.n)) % 2 == 1)
    {
      var x := v;
      var res: seq<bool> := [];
      for i := 0 to com.l
        invariant res == Mask(Masked(com), v, com.n)[..i] && x == Squarings(v, i, com.n)
      {
        res := res + [com.S[i] != Odd(x)];
        x := (x * x) % com.n;
      }
      assert res == Mask(Masked(com), v, com.n);
      if x != com.u {
        return Err(DecodeUMismatch);
      }
      forall i | 0 <= i < com.l
        ensures res[i] != com.S[i] <==> (if i == 0 then v else ModExp(v, Pow2(i), com.n)) % 2 == 1
      {
        MaskBit(Masked(com), v, com.n, i);
      }
      return Ok(res);
    }

    method DecodeChecked(v: nat) returns (r: Result<seq<bool>>)
      requires Shaped(com)
      ensures r == OpenedWith(com, v)
    {
      var u := AExpBModC(v, Pow2(com.l), com.n);
      if u != com.u {
        return Err(OpenUMismatch);
      }
      r := Decode(v);
    }

    method Open(vp: nat) returns (r: Result<seq<bool>>)
      requires Shaped(com)
      ensures r == Opened(com, vp)
    {
      var v := ComputeG(com.n, vp);
      r := DecodeChecked(v);
    }

    /** Square from g; steps counts the squarings of the search loop. */
    method ForceOpen() returns (r: Result<seq<bool>>, ghost steps: nat)
      requires Shaped(com)
      ensures r == ForceOpened(com) && steps == Steps(com.K, com.l)
    {
      var v, i := com.g, 0;
      while i < Pow2(com.K) - com.l
        invariant 0 <= i <= Steps(com.K, com.l) && v == Squarings(com.g, i, com.n)
      {
        v := (v * v) % com.n;
        i := i + 1;
      }
      steps := i;
      r := DecodeChecked(v);
    }

    /** Square from W[K-1] instead. */
    method ForceOpenSmart() returns (r: Result<seq<bool>>, ghost steps: nat)
      requires Shaped(com) && com.K >= 1 && |com.W| == com.K + 1
      ensures r == SmartOpened(com) && steps == Steps(com.K - 1, com.l)
    {
      var v, i := com.W[com.K - 1], 0;
      while i < Pow2(com.K - 1) - com.l
        invariant 0 <= i <= Steps(com.K - 1, com.l) && v == Squarings(com.W[com.K - 1], i, com.n)
      {
        v := (v * v) % com.n;
        i := i + 1;
      }
      steps := i;
      r := DecodeChecked(v);
    }
  }

  // ---------- the protocol ----------

  const ROUNDS: nat := 10

  predicate NoChallenge(K: nat, values: seq<nat>)
    requires |values| == K + 1
  {
    forall i :: 1 <= i <= K ==> values[i] == 0
  }

  predicate AlphaInRange(K: nat, alpha: seq<nat>, order: pos) {
    |alpha| == K + 1 && forall i :: 1 <= i <= K ==> alpha[i] < order
  }

  /** The round between honest parties: c holds the honest commitment and answers for itself. */
  ghost predicate HonestRound(p: pos, q: pos, com: Commitment, h: nat, m: seq<bool>,
                              alpha: seq<nat>, order: pos, t: Transcript)
  {
    && SafePrime(p) && SafePrime(q) && p != q && p >= 7 && q >= 7
    && com.n == p * q && h % com.n != 0
    && |m| <= Pow2(com.K) && com == Honest(com.K, com.n, h, m)
    && order == FoundOrder(p, q, com.g) && AlphaInRange(com.K, alpha, order)
    && Sized(com, t)
    && FirstMoves(com, com.n, alpha, t.z, t.w)
    && Answers(com.K, t.c, alpha, order, t.y)
  }

  lemma HonestIndexOfRound(p: pos, q: pos, com: Commitment, h: nat, m: seq<bool>,
                           alpha: seq<nat>, order: pos, t: Transcript, i: nat)
    requires HonestRound(p, q, com, h, m, alpha, order, t) && 1 <= i <= com.K
    ensures ZOk(com, i, t.c[i], t.y[i], t.z[i]) <==> Coprime(h, com.n) || t.c[i] == 0
    ensures ZOk(com, i, t.c[i], t.y[i], t.z[i]) ==> WOk(com, i, t.c[i], t.y[i], t.w[i])
  {
    HonestIndexExact(p, q, com.n, h, i, t.c[i], alpha[i]);
    HonestChain(com.K, com.n, h, m, i - 1);
    HonestChain(com.K, com.n, h, m, i);
  }

  /** An honest round is accepted exactly when h is a unit or nothing was challenged; otherwise
      zk_5 stops at its first equation for z. */
  lemma HonestVerdict(p: pos, q: pos, com: Commitment, h: nat, m: seq<bool>,
                      alpha: seq<nat>, order: pos, t: Transcript, r: Result<()>)
    requires HonestRound(p, q, com, h, m, alpha, order, t)
    requires Decides(com, t, r)
    ensures r.Ok? <==> Coprime(h, com.n) || NoChallenge(com.K, t.c)
    ensures r.Err? ==> r.error == ZVerificationFailed
  {
    forall i: nat | 1 <= i <= com.K ensures Judged(com, t, i, Coprime(h, com.n)) {
      HonestIndexOfRound(p, q, com, h, m, alpha, order, t, i);
    }
    Verdict(com, t, Coprime(h, com.n), r);
  }

  /** The extraction applies to every honest commiter: two of its rounds from the same alpha, with
      challenges that differ invertibly, meet all that the soundness theorem asks. */
  lemma HonestForks(p: pos, q: pos, phi: pos, com: Commitment, h: nat, m: seq<bool>,
                    alpha: seq<nat>, order: pos, t: Transcript, t': Transcript)
    requires HonestRound(p, q, com, h, m, alpha, order, t) && HonestRound(p, q, com, h, m, alpha, order, t')
    requires phi == Phi(p, q) && Coprime(h, com.n) && t.z[0] == t'.z[0] && t.w[0] == t'.w[0]
    requires forall i :: 1 <= i <= com.K ==> Differ(t.c[i], t'.c[i], phi)
    ensures Accepted(com) && Units(com) && Reduced(com)
    ensures Passes(com, t) && Passes(com, t') && Forked(com, t, t', phi)
  {
    HonestAccepted(com.K, com.n, h, m);
    HonestUnits(com.K, com.n, h, m);
    HonestPasses(p, q, com, h, m, alpha, order, t);
    HonestPasses(p, q, com, h, m, alpha, order, t');
    assert t.z == t'.z && t.w == t'.w;
  }

  lemma HonestUnits(K: nat, n: pos, h: nat, m: seq<bool>)
    requires |m| <= Pow2(K) && Coprime(h, n)
    ensures Units(Honest(K, n, h, m)) && Reduced(Honest(K, n, h, m))
  {
    GetGUnit(n, h);
    forall i: nat | i <= K ensures Honest(K, n, h, m).W[i] < n && Coprime(Honest(K, n, h, m).W[i], n) {
      HonestChain(K, n, h, m, i);
      ChainUnit(GetG(n, h), i, n);
    }
  }

  lemma HonestPasses(p: pos, q: pos, com: Commitment, h: nat, m: seq<bool>,
                     alpha: seq<nat>, order: pos, t: Transcript)
    requires HonestRound(p, q, com, h, m, alpha, order, t) && Coprime(h, com.n)
    ensures Passes(com, t)
  {
    forall i: nat | 1 <= i <= com.K
      ensures ZOk(com, i, t.c[i], t.y[i], t.z[i]) && WOk(com, i, t.c[i], t.y[i], t.w[i])
    {
      HonestIndexOfRound(p, q, com, h, m, alpha, order, t, i);
    }
  }

  /** How zk_5 judges index i of an honest round. */
  predicate Judged(com: Commitment, t: Transcript, i: nat, unit: bool)
    requires Sized(com, t) && 1 <= i <= com.K
  {
    && (ZOk(com, i, t.c[i], t.y[i], t.z[i]) <==> unit || t.c[i] == 0)
    && (ZOk(com, i, t.c[i], t.y[i], t.z[i]) ==> WOk(com, i, t.c[i], t.y[i], t.w[i]))
  }

  lemma Verdict(com: Commitment, t: Transcript, unit: bool, r: Result<()>)
    requires Sized(com, t) && forall i: nat :: 1 <= i <= com.K ==> Judged(com, t, i, unit)
    requires Decides(com, t, r)
    ensures r.Ok? <==> unit || NoChallenge(com.K, t.c)
    ensures r.Err? ==> r.error == ZVerificationFailed
  {
    if r.Err? {
      var i: nat :| FailsFirstAt(com, t, i, r.error);
      assert Judged(com, t, i, unit);
    } else if !unit {
      forall i: nat | 1 <= i <= com.K ensures t.c[i] == 0 {
        assert Judged(com, t, i, unit) && ZOk(com, i, t.c[i], t.y[i], t.z[i]);
      }
    }
  }

  /** One round of the check between an honest commiter and an honest receiver. */
  method ZkRound(c: Commiter, r: Receiver, ghost h: nat, ghost m: seq<bool>,
                 values: seq<nat>, alpha: seq<nat>, hash: nat -> Digest) returns (res: Result<()>)
    requires c.Valid() && c.p >= 7 && c.q >= 7 && h % c.n != 0
    requires |m| <= Pow2(c.com.K) && c.com == r.com == Honest(c.com.K, c.n, h, m)
    requires c.order == FoundOrder(c.p, c.q, GetG(c.n, h))
    requires |values| == c.com.K + 1 && AlphaInRange(c.com.K, alpha, c.order)
    modifies c`commits, c`alpha, r`commitValues, r`zw
    ensures res.Ok? <==> Coprime(h, c.n) || NoChallenge(c.com.K, values)
    ensures res.Err? ==> res.error == ZVerificationFailed
  {
    var commits := r.Zk1(values, hash);
    var zw := c.Zk2(commits, alpha);
    var challenges := r.Zk3(zw.value);
    var y := c.Zk4(challenges.value, hash);
    res := r.Zk5(y.value);
    HonestVerdict(c.p, c.q, c.com, h, m, alpha, c.order,
                  Transcript(zw.value.0, zw.value.1, challenges.value, y.value), res);
  }

  /** commit: the commitment, its acceptance and ten rounds. */
  method RunCommit(c: Commiter, r: Receiver, K: nat, m: seq<bool>, h: nat,
                   values: seq<seq<nat>>, alphas: seq<seq<nat>>, hash: nat -> Digest)
    returns (res: Result<Commitment>)
    requires c.Valid() && c.p >= 7 && c.q >= 7 && K >= 1 && |m| <= Pow2(K) && h % c.n != 0
    requires |values| == |alphas| == ROUNDS
    requires forall j :: 0 <= j < ROUNDS ==>
      |values[j]| == K + 1 && AlphaInRange(K, alphas[j], FoundOrder(c.p, c.q, GetG(c.n, h)))
    modifies c`com, c`order, c`commits, c`alpha, r
    ensures c.com == r.com == Honest(K, c.n, h, m)
    ensures res == if Coprime(h, c.n) || forall j :: 0 <= j < 10 ==> NoChallenge(K, values[j])
                   then Ok(Honest(K, c.n, h, m)) else Err(ZVerificationFailed)
  {
    var com := c.Commit(K, m, h);
    HonestAccepted(K, c.n, h, m);
    var accepted := r.AcceptCommitment(com.value);
    var rounds := RunRounds(c, r, h, m, values, alphas, hash);
    res := if rounds.Err? then Err(rounds.error) else com;
  }

  /** The loop of commit: rounds until one throws. */
  method RunRounds(c: Commiter, r: Receiver, ghost h: nat, ghost m: seq<bool>,
                   values: seq<seq<nat>>, alphas: seq<seq<nat>>, hash: nat -> Digest)
    returns (res: Result<()>)
    requires c.Valid() && c.p >= 7 && c.q >= 7 && h % c.n != 0
    requires |m| <= Pow2(c.com.K) && c.com == r.com == Honest(c.com.K, c.n, h, m)
    requires c.order == FoundOrder(c.p, c.q, GetG(c.n, h)) && |values| == |alphas| == ROUNDS
    requires forall j :: 0 <= j < ROUNDS ==>
      |values[j]| == c.com.K + 1 && AlphaInRange(c.com.K, alphas[j], c.order)
    modifies c`commits, c`alpha, r`commitValues, r`zw
    ensures res.Ok? <==> Coprime(h, c.n) || forall j :: 0 <= j < 10 ==> NoChallenge(c.com.K, values[j])
    ensures res.Err? ==> res.error == ZVerificationFailed
  {
    var i := 0;
    res := Ok(());
    while i < ROUNDS && res.Ok?
      invariant 0 <= i <= ROUNDS
      invariant res.Ok? <==> Coprime(h, c.n) || forall j :: 0 <= j < i ==> NoChallenge(c.com.K, values[j])
      invariant res.Err? ==> res.error == ZVerificationFailed
    {
      res := ZkRound(c, r, h, m, values[i], alphas[i], hash);
      i := i + 1;
    }
  }

  /** open_commitment: after an honest commit the receiver reads m. */
  method OpenCommitment(c: Commiter, r: Receiver, ghost K: nat, ghost h: nat, ghost m: seq<bool>)
    returns (res: Result<seq<bool>>)
    requires c.Valid() && |m| <= Pow2(K) && c.com == r.com == Honest(K, c.n, h, m)
    ensures res == Ok(m)
  {
    CommitRoundTrip(c.p, c.q, c.n, K, h, m);
    var vp := c.Open();
    res := r.Open(vp);
  }
}
