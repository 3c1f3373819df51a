/** Squaring again and again modulo n, and the bits that are masked with it. */
module RepeatedSquaring {
  import opened Modular

  /** v after k squarings modulo n. */
  function Squarings(v: nat, k: nat, n: pos): nat {
    if k == 0 then v else
      var w := Squarings(v, k - 1, n);
      (w * w) % n
  }

  /** k squarings raise to the power 2^k. */
  lemma {:induction false} SquaringsPower(v: nat, k: nat, n: pos)
    ensures Squarings(v, k, n) % n == ModExp(v, Pow2(k), n)
    ensures k > 0 || v < n ==> Squarings(v, k, n) == ModExp(v, Pow2(k), n)
  {
    if k == 0 {
      assert Pow(v, 1) == v;
      if v < n { ModSmall(v, n); }
    } else {
      SquaringsPower(v, k - 1, n);
      var w, e := Squarings(v, k - 1, n), Pow2(k - 1);
      PowAdd(v, e, e);
      CongMul(w, Pow(v, e), w, Pow(v, e), n);
      ModSmall((w * w) % n, n);
    }
  }

  /** Squaring on from a power of g: 2^e becomes 2^(e + k). */
  lemma SquaringsOfPower(g: nat, e: nat, k: nat, n: pos)
    ensures Squarings(ModExp(g, Pow2(e), n), k, n) == ModExp(g, Pow2(e + k), n)
  {
    var v := ModExp(g, Pow2(e), n);
    SquaringsPower(v, k, n);
    ModExpMul(g, Pow2(e), Pow2(k), n);
    Pow2Add(e, k);
  }

  predicate Odd(v: nat) {
    v % 2 == 1
  }

  /** Each bit is flipped by the lowest bit of the next square of v. */
  function Mask(m: seq<bool>, v: nat, n: pos): (s: seq<bool>)
    ensures |s| == |m|
  {
    seq(|m|, i requires 0 <= i < |m| => m[i] != Odd(Squarings(v, i, n)))
  }

  /** Bit i is flipped exactly when v^(2^i) modulo n is odd; the first time v is taken as it is. */
  lemma MaskBit(m: seq<bool>, v: nat, n: pos, i: nat)
    requires i < |m|
    ensures Mask(m, v, n)[i] != m[i] <==> (if i == 0 then v else ModExp(v, Pow2(i), n)) % 2 == 1
  {
    SquaringsPower(v, i, n);
  }

  lemma MaskTwice(m: seq<bool>, v: nat, n: pos)
    ensures Mask(Mask(m, v, n), v, n) == m
  {
  }
}
