/** Every way to open an accepted timed commitment yields the same bits. */
module Openings {
  import opened Modular
  import opened Fermat
  import opened Squares
  import opened RepeatedSquaring
  import opened CommitmentSpec
  import opened Wrappers

  /** p and q are different primes that are 3 modulo 4, as gen_prime checks. */
  ghost predicate BlumPrimes(p: int, q: int) {
    TwoPrimes(p, q) && p % 4 == 3 && q % 4 == 3
  }

  lemma EvenPowerHasRoot(x: int, e: nat, n: pos)
    requires e % 2 == 0
    ensures HasRoot(ModExp(x, e, n), n)
  {
    var s := Pow(x, e / 2);
    SquareOfPow(x, e / 2);
    ModMul(1, Pow(x, e), n);
    assert SquareIs(s, ModExp(x, e, n), n);
  }

  /** get_g forces its result into the squares, because the exponent contains 2^512. */
  lemma GetGHasRoot(n: pos, x: nat)
    ensures HasRoot(GetG(n, x), n)
  {
    GExponentEven();
    EvenPowerHasRoot(x, GExponent(), n);
  }

  lemma SquaringsHasRoot(v: nat, k: nat, n: pos)
    requires k > 0
    ensures HasRoot(Squarings(v, k, n), n)
  {
    var w := Squarings(v, k - 1, n);
    ModMul(1, w * w, n);
    assert SquareIs(w, Squarings(v, k, n), n);
  }

  /** A square is determined by where l more squarings take it. */
  lemma RootedKeyUnique(p: pos, q: pos, v: nat, v': nat, l: nat)
    requires BlumPrimes(p, q)
    requires p * q > 0 && v < p * q && v' < p * q
    requires HasRoot(v, p * q) && HasRoot(v', p * q)
    requires ModExp(v, Pow2(l), p * q) == ModExp(v', Pow2(l), p * q)
    ensures v == v'
  {
    var n := p * q;
    var s :| SquareIs(s, v, n);
    var t :| SquareIs(t, v', n);
    CongPow(s * s, v, Pow2(l), n);
    CongPow(t * t, v', Pow2(l), n);
    SquaringInjectivePQ(p, q, s, t, l);
    ModSmall(v, n);
    ModSmall(v', n);
  }

  /** Two squares that both pass the u check open to the same bits. */
  lemma RootedOpeningsAgree(p: pos, q: pos, com: Commitment, v: nat, v': nat)
    requires BlumPrimes(p, q) && com.n == p * q
    requires v < com.n && v' < com.n && HasRoot(v, com.n) && HasRoot(v', com.n)
    requires OpenedWith(com, v).Ok? && OpenedWith(com, v').Ok?
    ensures v == v' && OpenedWith(com, v) == OpenedWith(com, v')
  {
    RootedKeyUnique(p, q, v, v', com.l);
  }

  lemma SearchHasRoot(com: Commitment)
    requires Accepted(com)
    ensures var v := Squarings(com.g, Steps(com.K, com.l), com.n); v < com.n && HasRoot(v, com.n)
  {
    GetGHasRoot(com.n, com.h);
    if Steps(com.K, com.l) > 0 {
      SquaringsHasRoot(com.g, Steps(com.K, com.l), com.n);
    }
  }

  lemma SmartSearchHasRoot(com: Commitment)
    requires com.K >= 1 && |com.W| == com.K + 1 && com.l < Pow2(com.K - 1)
    ensures var v := Squarings(com.W[com.K - 1], Steps(com.K - 1, com.l), com.n);
      v < com.n && HasRoot(v, com.n)
  {
    SquaringsHasRoot(com.W[com.K - 1], Steps(com.K - 1, com.l), com.n);
  }

  /** Accepted openings are unique: whatever vp the commiter sends, an opening that is accepted
      gives the same bits as any other one and as the forced openings. */
  lemma AcceptedOpeningsAgree(p: pos, q: pos, com: Commitment, vp: nat, vp': nat)
    requires BlumPrimes(p, q) && com.n == p * q && Accepted(com)
    ensures Opened(com, vp).Ok? && Opened(com, vp').Ok? ==> Opened(com, vp) == Opened(com, vp')
    ensures Opened(com, vp).Ok? && ForceOpened(com).Ok? ==> Opened(com, vp) == ForceOpened(com)
  {
    var v, v' := GetG(com.n, vp), GetG(com.n, vp');
    var w := Squarings(com.g, Steps(com.K, com.l), com.n);
    GetGHasRoot(com.n, vp);
    GetGHasRoot(com.n, vp');
    SearchHasRoot(com);
    if Opened(com, vp).Ok? && Opened(com, vp').Ok? {
      RootedOpeningsAgree(p, q, com, v, v');
    }
    if Opened(com, vp).Ok? && ForceOpened(com).Ok? {
      RootedOpeningsAgree(p, q, com, v, w);
    }
  }

  // ---------- any two keys that open ----------

  /** Numbers with equal squares stay equal from the first squaring on. */
  lemma SquaringsOfSquares(v: nat, w: nat, k: nat, n: pos)
    requires k > 0 && (v * v) % n == (w * w) % n
    ensures Squarings(v, k, n) == Squarings(w, k, n)
  {
    SquaringsFromSquare(v, k, n);
    SquaringsFromSquare(w, k, n);
    CongPow(v * v, w * w, Pow2(k - 1), n);
  }

  lemma SquaringsFromSquare(v: nat, k: nat, n: pos)
    requires k > 0
    ensures Squarings(v, k, n) == ModExp(v, Pow2(k), n) == ModExp(v * v, Pow2(k - 1), n)
  {
    SquaringsPower(v, k, n);
    SquareOfPow(v, Pow2(k - 1));
    PowBase(v, v, Pow2(k - 1));
  }

  /** Bit strings that differ in the first bit at most. */
  predicate AgreeAfterFirst(a: seq<bool>, b: seq<bool>) {
    |a| == |b| > 0 && a[1..] == b[1..]
  }

  lemma MaskSquares(m: seq<bool>, v: nat, w: nat, n: pos)
    requires |m| > 0 && (v * v) % n == (w * w) % n
    ensures AgreeAfterFirst(Mask(m, v, n), Mask(m, w, n))
    ensures Mask(m, v, n) == Mask(m, w, n) <==> Odd(v) == Odd(w)
  {
    forall i | 1 <= i < |m| ensures Mask(m, v, n)[i] == Mask(m, w, n)[i] {
      SquaringsOfSquares(v, w, i, n);
    }
    FirstBit(m, v, n);
    FirstBit(m, w, n);
  }

  /** Whatever has the same square as a key that opens, opens too; the bits agree but for the first,
      which agrees exactly when the parity does. */
  lemma EqualSquaresOpen(com: Commitment, v: nat, w: nat)
    requires com.l > 0 && Shaped(com) && (v * v) % com.n == (w * w) % com.n
    requires OpenedWith(com, v).Ok?
    ensures OpenedWith(com, w).Ok?
    ensures AgreeAfterFirst(OpenedWith(com, v).value, OpenedWith(com, w).value)
    ensures OpenedWith(com, v) == OpenedWith(com, w) <==> Odd(v) == Odd(w)
  {
    DecodeNeverFails(com, v);
    DecodeNeverFails(com, w);
    SquaringsFromSquare(v, com.l, com.n);
    SquaringsFromSquare(w, com.l, com.n);
    SquaringsOfSquares(v, w, com.l, com.n);
    MaskSquares(Masked(com), v, w, com.n);
  }

  /** Next to one key that opens, exactly the numbers with the same square open. */
  lemma KeysExact(p: pos, q: pos, com: Commitment, v: nat, w: nat)
    requires BlumPrimes(p, q) && com.n == p * q && com.l > 0 && Shaped(com)
    requires OpenedWith(com, v).Ok?
    ensures OpenedWith(com, w).Ok? <==> (v * v) % com.n == (w * w) % com.n
  {
    if OpenedWith(com, w).Ok? {
      SquaringsFromSquare(v, com.l, com.n);
      SquaringsFromSquare(w, com.l, com.n);
      SquaringInjectivePQ(p, q, v, w, com.l - 1);
    }
    if (v * v) % com.n == (w * w) % com.n {
      EqualSquaresOpen(com, v, w);
    }
  }

  /** The smart search squares at least once, or it starts from a number with the parity of the
      key v that the other opening uses. */
  predicate SmartAgrees(com: Commitment, v: nat)
    requires com.K >= 1 && |com.W| == com.K + 1
  {
    com.l < Pow2(com.K - 1) || Odd(com.W[com.K - 1]) == Odd(v)
  }

  /** The smart search and any other opening with a reduced square v, when both succeed. */
  lemma SmartAgreesExactly(p: pos, q: pos, com: Commitment, v: nat)
    requires BlumPrimes(p, q) && com.n == p * q && com.K >= 1 && |com.W| == com.K + 1 && Shaped(com)
    requires v < com.n && HasRoot(v, com.n) && OpenedWith(com, v).Ok? && SmartOpened(com).Ok?
    ensures SmartOpened(com) == OpenedWith(com, v) <==> SmartAgrees(com, v)
    ensures SmartOpened(com) == OpenedWith(com, v) || AgreeAfterFirst(SmartOpened(com).value, OpenedWith(com, v).value)
  {
    var w := Squarings(com.W[com.K - 1], Steps(com.K - 1, com.l), com.n);
    SmartOpenedFrom(com, w);
    if com.l < Pow2(com.K - 1) {
      SmartSearchHasRoot(com);
      RootedOpeningsAgree(p, q, com, v, w);
    } else {
      KeysExact(p, q, com, v, w);
      EqualSquaresOpen(com, v, w);
    }
  }

  /** For every accepted commitment: the smart search gives the bits of any other successful opening
      exactly when it squares, or W[K-1] has the parity of the key of that opening. Otherwise it
      gives a wrong first bit and nothing else. */
  lemma SmartOpeningAgrees(p: pos, q: pos, com: Commitment, vp: nat)
    requires BlumPrimes(p, q) && com.n == p * q && Accepted(com)
    requires com.K >= 1 && Shaped(com) && SmartOpened(com).Ok?
    ensures Opened(com, vp).Ok? ==> (SmartOpened(com) == Opened(com, vp) <==> SmartAgrees(com, GetG(com.n, vp)))
    ensures ForceOpened(com).Ok? ==>
      (SmartOpened(com) == ForceOpened(com) <==>
       SmartAgrees(com, Squarings(com.g, Steps(com.K, com.l), com.n)))
    ensures ForceOpened(com).Ok? && SmartOpened(com) != ForceOpened(com) ==>
      AgreeAfterFirst(SmartOpened(com).value, ForceOpened(com).value)
  {
    SearchHasRoot(com);
    GetGHasRoot(com.n, vp);
    if Opened(com, vp).Ok? {
      SmartAgreesExactly(p, q, com, GetG(com.n, vp));
    }
    if ForceOpened(com).Ok? {
      SmartAgreesExactly(p, q, com, Squarings(com.g, Steps(com.K, com.l), com.n));
    }
  }

  // ---------- the bound on the length of m ----------

  lemma ChainHasRoot(g: nat, i: nat, n: pos)
    ensures ChainAt(g, i, n) < n && HasRoot(ChainAt(g, i, n), n)
  {
    EvenPowerHasRoot(g, Pow2(Pow2(i)), n);
  }

  lemma KeyHasRoot(h: nat, K: nat, l: nat, n: pos)
    requires l <= Pow2(K)
    ensures KeyOf(GetG(n, h), K, l, n) < n && HasRoot(KeyOf(GetG(n, h), K, l, n), n)
  {
    var g := GetG(n, h);
    if Pow2(K) == l {
      GetGHasRoot(n, h);
      KeyWithoutSquaring(g, K, n);
    } else {
      Pow2Even(Pow2(K) - l);
      EvenPowerHasRoot(g, Pow2(Pow2(K) - l), n);
    }
  }

  lemma Pow2Even(k: nat)
    requires k > 0
    ensures Pow2(k) % 2 == 0
  {
  }

  lemma KeyWithoutSquaring(g: nat, K: nat, n: pos)
    requires g < n
    ensures KeyOf(g, K, Pow2(K), n) == g
  {
    assert Pow(g, 1) == g;
    ModSmall(g, n);
  }

  /** The smart opening of an honest commitment gives m back exactly when m is no longer than the
      half of the chain that it squares through, or W[K-1] happens to be the key itself. */
  lemma HonestSmartExact(p: pos, q: pos, n: pos, K: nat, h: nat, m: seq<bool>)
    requires BlumPrimes(p, q) && n == p * q && K >= 1 && |m| <= Pow2(K)
    ensures SmartOpened(Honest(K, n, h, m)) ==
      if |m| <= Pow2(K - 1) || ChainAt(GetG(n, h), K - 1, n) == KeyOf(GetG(n, h), K, |m|, n)
      then Ok(m)
      else Err(OpenUMismatch)
  {
    if |m| <= Pow2(K - 1) {
      HonestSmartOpens(K, n, h, m);
    } else {
      var com, v := Honest(K, n, h, m), ChainAt(GetG(n, h), K - 1, n);
      var key := KeyOf(GetG(n, h), K, |m|, n);
      HonestChain(K, n, h, m, K - 1);
      SmartOpenedFrom(com, v);
      HonestKeyOpens(K, n, h, m);
      DecodeNeverFails(com, v);
      if v != key && OpenedWith(com, v).Ok? {
        ChainHasRoot(GetG(n, h), K - 1, n);
        KeyHasRoot(h, K, |m|, n);
        RootedOpeningsAgree(p, q, com, v, key);
      }
    }
  }

  lemma FirstBit(m: seq<bool>, v: nat, n: pos)
    requires |m| > 0
    ensures Mask(m, v, n)[0] == (m[0] != Odd(v))
  {
  }

  /** The commitment with W[K-1] replaced. */
  function WithMiddle(com: Commitment, w: nat): Commitment
    requires com.K >= 2 && |com.W| == com.K + 1
  {
    com.(W := com.W[com.K - 1 := w])
  }

  /** Only the smart search looks at W[K-1], and as it is when l is at least 2^(K-1). */
  lemma OnlySmartReadsMiddle(com: Commitment, w: nat)
    requires com.K >= 2 && Accepted(com) && com.l >= Pow2(com.K - 1)
    ensures Accepted(WithMiddle(com, w)) && ForceOpened(WithMiddle(com, w)) == ForceOpened(com)
    ensures SmartOpened(WithMiddle(com, w)) == OpenedWith(com, w)
  {
    SmartOpenedFrom(WithMiddle(com, w), w);
  }

  /** Replacing W[K-1] by any number with the same square is not noticed, and spoils the first bit of
      the smart search exactly when the parity changes. */
  lemma MiddleReplaced(com: Commitment, bits: seq<bool>, w: nat)
    requires com.K >= 2 && com.l >= Pow2(com.K - 1) && Shaped(com) && Accepted(com)
    requires ForceOpened(com) == SmartOpened(com) == Ok(bits)
    requires (com.W[com.K - 1] * com.W[com.K - 1]) % com.n == (w * w) % com.n
    ensures var altered := WithMiddle(com, w);
      Accepted(altered) && ForceOpened(altered) == Ok(bits) &&
      SmartOpened(altered).Ok? && AgreeAfterFirst(bits, SmartOpened(altered).value) &&
      (SmartOpened(altered) == Ok(bits) <==> Odd(w) == Odd(com.W[com.K - 1]))
  {
    SmartOpenedFrom(com, com.W[com.K - 1]);
    OnlySmartReadsMiddle(com, w);
    EqualSquaresOpen(com, com.W[com.K - 1], w);
  }

  /** So the negative of W[K-1] makes the two searches succeed with different first bits. */
  lemma SmartUnrootedDisagrees(com: Commitment, bits: seq<bool>)
    requires com.n % 2 == 1 && com.K >= 2 && com.l >= Pow2(com.K - 1)
    requires Shaped(com) && Accepted(com) && 0 < com.W[com.K - 1] < com.n
    requires ForceOpened(com) == SmartOpened(com) == Ok(bits)
    ensures var altered := WithMiddle(com, com.n - com.W[com.K - 1]);
      Accepted(altered) && ForceOpened(altered) == Ok(bits) &&
      SmartOpened(altered).Ok? && AgreeAfterFirst(bits, SmartOpened(altered).value) &&
      SmartOpened(altered).value[0] != bits[0]
  {
    var w := com.W[com.K - 1];
    NegatedParity(w, com.n);
    NegatedSquare(w, com.n);
    MiddleReplaced(com, bits, com.n - w);
    SameTail(bits, SmartOpened(WithMiddle(com, com.n - w)).value);
  }

  lemma NegatedParity(w: nat, n: pos)
    requires n % 2 == 1 && w < n
    ensures Odd(n - w) != Odd(w)
  {
  }

  lemma SameTail(a: seq<bool>, b: seq<bool>)
    requires AgreeAfterFirst(a, b)
    ensures a == b <==> a[0] == b[0]
  {
    assert a == [a[0]] + a[1..] && b == [b[0]] + b[1..];
  }
}
