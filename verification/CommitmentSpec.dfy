/** What a timed commitment and its openings mean, in terms of plain repeated squaring. */
module CommitmentSpec {
  import opened Modular
  import opened RepeatedSquaring
  import opened Wrappers

  // ---------- parameters ----------

  const B: nat := 128
  const BITS: nat := 512

  /** The library's prime table, cut after the first prime that is not below B. */
  const PRIME_TABLE: seq<pos> := [
    2, 3, 5, 7, 11, 13, 17, 19, 23, 29, 31, 37, 41, 43, 47, 53, 59, 61, 67, 71, 73, 79, 83, 89, 97,
    101, 103, 107, 109, 113, 127, 131]

  function PowerProduct(ps: seq<pos>, bits: nat): pos {
    if ps == [] then 1
    else
      PowPositive(ps[|ps| - 1], bits);
      MulPos(PowerProduct(ps[..|ps| - 1], bits), Pow(ps[|ps| - 1], bits));
      PowerProduct(ps[..|ps| - 1], bits) * Pow(ps[|ps| - 1], bits)
  }

  /** The exponent of get_g: all primes below B, each to the power BITS. */
  function GExponent(): pos {
    PowerProduct(PRIME_TABLE[..31], BITS)
  }

  function GetG(n: pos, h: nat): nat {
    ModExp(h, GExponent(), n)
  }

  lemma {:induction false} PowerProductEven(ps: seq<pos>, bits: nat)
    requires |ps| > 0 && ps[0] == 2 && bits > 0
    ensures PowerProduct(ps, bits) % 2 == 0
  {
    var front, last := ps[..|ps| - 1], ps[|ps| - 1];
    if |ps| == 1 {
      DividesMul(2, 2, Pow(2, bits - 1));
      DividesMul(2, Pow(2, bits), PowerProduct(front, bits));
    } else {
      PowerProductEven(front, bits);
      DividesMul(2, PowerProduct(front, bits), Pow(last, bits));
    }
  }

  lemma GExponentEven()
    ensures GExponent() % 2 == 0
  {
    PowerProductEven(PRIME_TABLE[..31], BITS);
  }

  // ---------- the commitment ----------

  datatype Commitment = Commitment(
    K: nat, n: pos, h: nat, g: nat, u: nat, S: seq<bool>, W: seq<nat>, l: nat)

  /** g^(2^(2^i)) modulo n. */
  function ChainAt(g: nat, i: nat, n: pos): nat {
    ModExp(g, Pow2(Pow2(i)), n)
  }

  /** The vector W. */
  function Chain(g: nat, K: nat, n: pos): (W: seq<nat>)
    ensures |W| == K + 1
  {
    seq(K + 1, i requires 0 <= i <= K => ChainAt(g, i, n))
  }

  lemma ChainIndex(g: nat, K: nat, n: pos, i: nat)
    requires i <= K
    ensures Chain(g, K, n)[i] == ChainAt(g, i, n)
  {
  }

  /** The key v: g after 2^K - l squarings. */
  function KeyOf(g: nat, K: nat, l: nat, n: pos): nat
    requires l <= Pow2(K)
  {
    ModExp(g, Pow2(Pow2(K) - l), n)
  }

  /** The commitment to m with 2^K squarings, as anyone could compute it by squaring. */
  function Honest(K: nat, n: pos, h: nat, m: seq<bool>): Commitment
    requires |m| <= Pow2(K)
  {
    var g := GetG(n, h);
    Commitment(K, n, h, g, ChainAt(g, K, n), Mask(m, KeyOf(g, K, |m|, n), n),
               Chain(g, K, n), |m|)
  }

  /** Bit i of S differs from bit i of m exactly when g^(2^(e + i)) modulo n is odd. */
  predicate MaskedFrom(S: seq<bool>, m: seq<bool>, g: nat, e: nat, n: pos) {
    |S| == |m| && forall i :: 0 <= i < |m| ==> (S[i] != m[i] <==> ModExp(g, Pow2(e + i), n) % 2 == 1)
  }

  lemma MaskBitAt(g: nat, e: nat, m: seq<bool>, n: pos, i: nat)
    requires i < |m|
    ensures Mask(m, ModExp(g, Pow2(e), n), n)[i] != m[i] <==> ModExp(g, Pow2(e + i), n) % 2 == 1
  {
    var v := ModExp(g, Pow2(e), n);
    MaskBit(m, v, n, i);
    SquaringsOfPower(g, e, i, n);
    SquaringsPower(v, i, n);
  }

  /** The mask of a commitment starts 2^K - l squarings after g. */
  lemma HonestMask(K: nat, n: pos, h: nat, m: seq<bool>)
    requires |m| <= Pow2(K)
    ensures MaskedFrom(Honest(K, n, h, m).S, m, GetG(n, h), Pow2(K) - |m|, n)
  {
    KeyMask(GetG(n, h), Pow2(K) - |m|, m, n);
  }

  lemma KeyMask(g: nat, e: nat, m: seq<bool>, n: pos)
    ensures MaskedFrom(Mask(m, ModExp(g, Pow2(e), n), n), m, g, e, n)
  {
    forall i | 0 <= i < |m|
      ensures Mask(m, ModExp(g, Pow2(e), n), n)[i] != m[i] <==> ModExp(g, Pow2(e + i), n) % 2 == 1
    {
      MaskBitAt(g, e, m, n, i);
    }
  }

  /** The shape every opening relies on: at least one masked bit per committed bit. */
  predicate Shaped(com: Commitment) {
    com.l <= |com.S|
  }

  /** The masked bits that an opening reads. */
  function Masked(com: Commitment): seq<bool> {
    if Shaped(com) then com.S[..com.l] else com.S
  }

  predicate Accepted(com: Commitment) {
    && com.g == GetG(com.n, com.h)
    && |com.W| == com.K + 1
    && com.W[0] == (com.g * com.g) % com.n
    && com.W[com.K] == com.u
  }

  // ---------- openings ----------

  /** decode: unmask with v, then check that l squarings of v reach u. */
  function Decoded(com: Commitment, v: nat): Result<seq<bool>> {
    if Squarings(v, com.l, com.n) == com.u then Ok(Mask(Masked(com), v, com.n)) else Err(DecodeUMismatch)
  }

  function OpenedWith(com: Commitment, v: nat): Result<seq<bool>> {
    if ModExp(v, Pow2(com.l), com.n) != com.u then Err(OpenUMismatch) else Decoded(com, v)
  }

  /** open(vp) */
  function Opened(com: Commitment, vp: nat): Result<seq<bool>> {
    OpenedWith(com, GetG(com.n, vp))
  }

  /** How often the search loops square: 2^k - l times, or never when l is larger. */
  function Steps(k: nat, l: nat): nat {
    if l <= Pow2(k) then Pow2(k) - l else 0
  }

  function ForceOpened(com: Commitment): Result<seq<bool>> {
    OpenedWith(com, Squarings(com.g, Steps(com.K, com.l), com.n))
  }

  function SmartOpened(com: Commitment): Result<seq<bool>>
    requires com.K >= 1 && |com.W| == com.K + 1
  {
    OpenedWith(com, Squarings(com.W[com.K - 1], Steps(com.K - 1, com.l), com.n))
  }

  /** The check inside decode can only repeat what the check before it has established. */
  lemma DecodeNeverFails(com: Commitment, v: nat)
    requires v < com.n || com.l > 0
    ensures OpenedWith(com, v) ==
      if ModExp(v, Pow2(com.l), com.n) == com.u then Ok(Mask(Masked(com), v, com.n)) else Err(OpenUMismatch)
  {
    SquaringsPower(v, com.l, com.n);
  }

  /** The three search results are reduced or l is positive, so decode never throws. */
  lemma NoDecodeException(com: Commitment, vp: nat)
    ensures Opened(com, vp) != Err(DecodeUMismatch)
    ensures Accepted(com) ==> ForceOpened(com) != Err(DecodeUMismatch)
    ensures com.K >= 1 && |com.W| == com.K + 1 ==> SmartOpened(com) != Err(DecodeUMismatch)
  {
    DecodeNeverFails(com, GetG(com.n, vp));
    if Accepted(com) {
      SquaringsPower(com.g, Steps(com.K, com.l), com.n);
      DecodeNeverFails(com, Squarings(com.g, Steps(com.K, com.l), com.n));
    }
    if com.K >= 1 && |com.W| == com.K + 1 {
      SquaringsPower(com.W[com.K - 1], Steps(com.K - 1, com.l), com.n);
      DecodeNeverFails(com, Squarings(com.W[com.K - 1], Steps(com.K - 1, com.l), com.n));
    }
  }

  // ---------- honest commitments open to what was committed ----------

  lemma ChainSquares(g: nat, n: pos)
    ensures ChainAt(g, 0, n) == (g * g) % n
    ensures ChainAt(g, 1, n) == (g * g * g * g) % n
  {
    assert Pow(g, 2) == g * g by { assert Pow(g, 1) == g; }
    PowAdd(g, 2, 2);
    assert Pow2(0) == 1 && Pow2(1) == 2 && Pow2(2) == 4;
    assert (g * g) * (g * g) == g * g * g * g;
  }

  lemma HonestAccepted(K: nat, n: pos, h: nat, m: seq<bool>)
    requires |m| <= Pow2(K)
    ensures Shaped(Honest(K, n, h, m)) && Accepted(Honest(K, n, h, m))
  {
    ChainSquares(GetG(n, h), n);
    HonestChain(K, n, h, m, 0);
    HonestChain(K, n, h, m, K);
  }

  /** Whoever holds the value that masked the bits, and reaches u from it, gets the bits. */
  lemma KeyOpens(com: Commitment, v: nat, m: seq<bool>)
    requires v < com.n && com.l == |m|
    requires com.S == Mask(m, v, com.n) && com.u == ModExp(v, Pow2(|m|), com.n)
    ensures OpenedWith(com, v) == Ok(m)
  {
    DecodeNeverFails(com, v);
    assert Masked(com) == com.S;
    MaskTwice(m, v, com.n);
  }

  lemma HonestKeyOpens(K: nat, n: pos, h: nat, m: seq<bool>)
    requires |m| <= Pow2(K)
    ensures OpenedWith(Honest(K, n, h, m), KeyOf(GetG(n, h), K, |m|, n)) == Ok(m)
  {
    ChainFromKey(GetG(n, h), K, |m|, n);
    KeyOpens(Honest(K, n, h, m), KeyOf(GetG(n, h), K, |m|, n), m);
  }

  /** l squarings lead from the key to the end of the chain. */
  lemma ChainFromKey(g: nat, K: nat, l: nat, n: pos)
    requires l <= Pow2(K)
    ensures ModExp(KeyOf(g, K, l, n), Pow2(l), n) == ChainAt(g, K, n)
  {
    var v := KeyOf(g, K, l, n);
    SquaringsOfPower(g, Pow2(K) - l, l, n);
    SquaringsPower(v, l, n);
  }

  /** Squaring all the way from g recovers the committed bits. */
  lemma HonestForceOpens(K: nat, n: pos, h: nat, m: seq<bool>)
    requires |m| <= Pow2(K)
    ensures ForceOpened(Honest(K, n, h, m)) == Ok(m)
  {
    SquaringsPower(GetG(n, h), Pow2(K) - |m|, n);
    HonestKeyOpens(K, n, h, m);
  }

  /** The smart search squares 2^(K-1) times less often. */
  lemma SmartSavesHalf(K: nat, l: nat)
    requires K >= 1 && l <= Pow2(K - 1)
    ensures Steps(K, l) - Steps(K - 1, l) == Pow2(K - 1)
  {
    assert Pow2(K) == 2 * Pow2(K - 1);
  }

  /** Squaring from W[K-1] recovers the committed bits too. */
  lemma HonestSmartOpens(K: nat, n: pos, h: nat, m: seq<bool>)
    requires K >= 1 && |m| <= Pow2(K - 1)
    ensures |m| <= Pow2(K) && SmartOpened(Honest(K, n, h, m)) == Ok(m)
  {
    KeyFromMiddle(GetG(n, h), K, |m|, n);
    HonestChain(K, n, h, m, K - 1);
    HonestKeyOpens(K, n, h, m);
    SmartOpenedFrom(Honest(K, n, h, m), KeyOf(GetG(n, h), K, |m|, n));
  }

  lemma SmartOpenedFrom(com: Commitment, v: nat)
    requires com.K >= 1 && |com.W| == com.K + 1
    requires v == Squarings(com.W[com.K - 1], Steps(com.K - 1, com.l), com.n)
    ensures SmartOpened(com) == OpenedWith(com, v)
  {
  }

  lemma HonestChain(K: nat, n: pos, h: nat, m: seq<bool>, i: nat)
    requires i <= K && |m| <= Pow2(K)
    ensures Honest(K, n, h, m).W[i] == ChainAt(GetG(n, h), i, n)
  {
    ChainIndex(GetG(n, h), K, n, i);
  }

  lemma KeyFromMiddle(g: nat, K: nat, l: nat, n: pos)
    requires K >= 1 && l <= Pow2(K - 1)
    ensures Pow2(K) == 2 * Pow2(K - 1)
    ensures Squarings(ChainAt(g, K - 1, n), Pow2(K - 1) - l, n) == KeyOf(g, K, l, n)
  {
    var half := Pow2(K - 1);
    SquaringsOfPower(g, half, half - l, n);
    assert half + (half - l) == Pow2(K) - l;
  }

  /** The opening value h^(2^(2^K - l)), whatever exponent e it is computed with. */
  lemma HonestOpens(K: nat, n: pos, h: nat, m: seq<bool>, e: nat)
    requires |m| <= Pow2(K)
    requires ModExp(GetG(n, h), e, n) == KeyOf(GetG(n, h), K, |m|, n)
    ensures Opened(Honest(K, n, h, m), ModExp(h, e, n)) == Ok(m)
  {
    var x := GExponent();
    assert e * x == x * e;
    ModExpMul(h, e, x, n);
    ModExpMul(h, x, e, n);
    HonestKeyOpens(K, n, h, m);
  }
}
