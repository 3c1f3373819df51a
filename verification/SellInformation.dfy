/** Selling the factors of n: the seller offers encrypted square roots, the buyer checks half of
    them and factors n with the rest once the published signature reveals the keys. */
module SellInformation {
  import opened Modular
  import opened Primes
  import opened Squares
  import opened SquareRoots
  import opened Factoring
  import opened Wrappers
  import opened BitUtils

  /** How many squares the buyer sends. */
  const L: nat := 10

  type Bytes = seq<byte>

  /** The block cipher, by contract: decryption inverts encryption, ciphertexts are not empty. */
  datatype Cipher = Cipher(enc: (Bytes, Bytes) -> Bytes, dec: (Bytes, Bytes) -> Bytes) {
    ghost predicate Lawful() {
      forall k, m {:trigger enc(k, m)} :: dec(k, enc(k, m)) == m && enc(k, m) != []
    }
  }

  function KeyAt(hash: Bytes -> Bytes, signature: Bytes, i: nat): Bytes {
    hash(signature + ToBytes(i))
  }

  /** genKeys: one key per index, from the signature. */
  function Keys(hash: Bytes -> Bytes, signature: Bytes): (keys: seq<Bytes>)
    ensures |keys| == L
  {
    seq(L, i requires 0 <= i < L => KeyAt(hash, signature, i))
  }

  /** What is hashed for key i: the signature, and one byte that is the index. */
  predicate IsKeyInput(x: Bytes, signature: Bytes, i: nat) {
    |x| == |signature| + 1 && x[..|signature|] == signature && x[|signature|] == i
  }

  /** The key is the hash of the input for index i. */
  ghost predicate IsIndexKey(hash: Bytes -> Bytes, signature: Bytes, i: nat, key: Bytes) {
    exists x :: IsKeyInput(x, signature, i) && key == hash(x)
  }

  /** Every key is the hash of the input for its own index. */
  lemma KeyIsHashed(hash: Bytes -> Bytes, signature: Bytes, i: nat)
    requires i < L
    ensures IsIndexKey(hash, signature, i, Keys(hash, signature)[i])
  {
    assert ToBytes(i) == [i];
    assert IsKeyInput(signature + ToBytes(i), signature, i);
  }

  /** The hash has no collision among the inputs of one signature. */
  ghost predicate CollisionFree(hash: Bytes -> Bytes, signature: Bytes) {
    forall x, y, i, j ::
      IsKeyInput(x, signature, i) && IsKeyInput(y, signature, j) && hash(x) == hash(y) ==> x == y
  }

  /** Then the keys of different indices differ. */
  lemma KeysDiffer(hash: Bytes -> Bytes, signature: Bytes, i: nat, j: nat)
    requires i < L && j < L && i != j && CollisionFree(hash, signature)
    ensures Keys(hash, signature)[i] != Keys(hash, signature)[j]
  {
    KeyIsHashed(hash, signature, i);
    KeyIsHashed(hash, signature, j);
    var x :| IsKeyInput(x, signature, i) && Keys(hash, signature)[i] == hash(x);
    var y :| IsKeyInput(y, signature, j) && Keys(hash, signature)[j] == hash(y);
  }

  /** The keys that the buyer holds are the seller's at the chosen indices and the earlier ones
      elsewhere. */
  predicate HoldsChosenKeys(indices: seq<nat>, full: seq<Bytes>, before: seq<Bytes>, keys: seq<Bytes>) {
    |full| == |before| == |keys| == L &&
    forall i :: 0 <= i < L ==> keys[i] == if i in indices then full[i] else before[i]
  }

  /** So the key of an index that was not chosen is not among them, unless it was before. */
  lemma UnchosenKeysHidden(hash: Bytes -> Bytes, signature: Bytes, indices: seq<nat>,
                           before: seq<Bytes>, keys: seq<Bytes>, i: nat)
    requires HoldsChosenKeys(indices, Keys(hash, signature), before, keys)
    requires CollisionFree(hash, signature) && i < L && i !in indices
    requires Keys(hash, signature)[i] !in before
    ensures Keys(hash, signature)[i] !in keys
  {
    forall j | 0 <= j < L ensures keys[j] != Keys(hash, signature)[i] {
      if j in indices {
        KeysDiffer(hash, signature, i, j);
      } else {
        assert keys[j] in before;
      }
    }
  }

  method GenKeys(hash: Bytes -> Bytes, signature: Bytes) returns (keys: seq<Bytes>)
    ensures keys == Keys(hash, signature) && |keys| == 10
    ensures forall i :: 0 <= i < L ==> IsIndexKey(hash, signature, i, keys[i])
  {
    keys := [];
    for i := 0 to L
      invariant |keys| == i && forall j :: 0 <= j < i ==> keys[j] == KeyAt(hash, signature, j)
    {
      var encoded := Encode(i, MinEncodedSize(i));
      keys := keys + [hash(signature + encoded)];
    }
    forall i | 0 <= i < L ensures IsIndexKey(hash, signature, i, keys[i]) {
      KeyIsHashed(hash, signature, i);
    }
  }

  /** to_bytes writes the magnitude. */
  function RootBytes(r: int): Bytes {
    ToBytes(Abs(r))
  }

  /** The two smaller roots, in the order that the seller's coin decides. */
  function Offered(sr: SquareRoot, msr: (int, pos) -> int, a: int, swap: bool): (int, int) {
    var s := sr.AllRoots(msr, a);
    if swap then (s[1], s[0]) else (s[0], s[1])
  }

  /** How acceptSubset judges one value: which ciphertext is to be opened, 5 for neither. */
  function Judge(n: pos, y: int, r1: int, r2: int, val: int): Result<nat> {
    if val >= n / 2 then Err(RootTooLarge)
    else if (val * val) % n != y then Err(NotASquareRoot)
    else Ok(if val == r2 then 2 else if val == r1 then 1 else 5)
  }

  // ---------- the seller ----------

  class Seller {
    const p: pos
    const q: pos
    const n: pos
    const squareRoot: SquareRoot
    var y: seq<int>
    var r1: seq<int>
    var r2: seq<int>
    var c1: seq<Bytes>
    var c2: seq<Bytes>
    var keys: seq<Bytes>
    var d1: seq<Bytes>
    var d2: seq<Bytes>

    /** keys are the messages of the key commitments. */
    constructor (p: pos, q: pos, keys: seq<Bytes>)
      ensures this.p == p && this.q == q && p * q > 0 && n == p * q && squareRoot == Make(p, q)
      ensures this.keys == keys
    {
      MulPos(p, q);
      this.p, this.q, this.n := p, q, p * q;
      this.squareRoot := Make(p, q);
      this.keys := keys;
      y, r1, r2, c1, c2, d1, d2 := [], [], [], [], [], [], [];
    }

    method AcceptSquares(y: seq<int>)
      modifies this`y
      ensures this.y == y
    {
      this.y := y;
    }

    method FindRoots(msr: (int, pos) -> int, swaps: seq<bool>)
      requires |y| == |swaps| == L
      modifies this`r1, this`r2
      ensures |r1| == |r2| == L
      ensures forall i :: 0 <= i < L ==> (r1[i], r2[i]) == Offered(squareRoot, msr, y[i], swaps[i])
      ensures forall i :: 0 <= i < L ==>
        var all := squareRoot.AllRoots(msr, y[i]);
        r1[i] == (if swaps[i] then all[1] else all[0]) && r2[i] == (if swaps[i] then all[0] else all[1])
    {
      r1, r2 := [], [];
      for i := 0 to L
        invariant |r1| == |r2| == i
        invariant forall j :: 0 <= j < i ==> (r1[j], r2[j]) == Offered(squareRoot, msr, y[j], swaps[j])
      {
        var roots := squareRoot.AllSquareRoots(msr, y[i]);
        r1, r2 := r1 + [roots[0]], r2 + [roots[1]];
        if swaps[i] {
          var t := r1[i];
          r1 := r1[i := r2[i]];
          r2 := r2[i := t];
        }
      }
    }

    method EncryptRoots(cipher: Cipher)
      requires |r1| == |r2| == |keys| == L
      modifies this`c1, this`c2
      ensures |c1| == |c2| == L
      ensures forall i :: 0 <= i < L ==> c1[i] == cipher.enc(keys[i], RootBytes(r1[i]))
      ensures forall i :: 0 <= i < L ==> c2[i] == cipher.enc(keys[i], RootBytes(r2[i]))
    {
      c1, c2 := [], [];
      for i := 0 to L
        invariant |c1| == |c2| == i
        invariant forall j :: 0 <= j < i ==> c1[j] == cipher.enc(keys[j], RootBytes(r1[j]))
        invariant forall j :: 0 <= j < i ==> c2[j] == cipher.enc(keys[j], RootBytes(r2[j]))
      {
        c1 := c1 + [cipher.enc(keys[i], RootBytes(r1[i]))];
        c2 := c2 + [cipher.enc(keys[i], RootBytes(r2[i]))];
      }
    }

    method SetupCommit()
      requires |c1| == |c2| == L
      modifies this`d1, this`d2
      ensures d1 == c1 && d2 == c2
    {
      d1, d2 := c1, c2;
    }

    function Judgement(ind: nat, val: int): Result<nat>
      requires ind < |y| == |r1| == |r2|
      reads this
    {
      Judge(n, y[ind], r1[ind], r2[ind], val)
    }

    /** A root below n/2, answered with 2 for r2, with 1 for r1 alone and with 5 for neither. */
    predicate AnsweredWith(ind: nat, val: int, which: nat)
      requires ind < |y| == |r1| == |r2|
      reads this
    {
      && val < n / 2 && (val * val) % n == y[ind] && which in {1, 2, 5}
      && (which == 2 <==> val == r2[ind])
      && (which == 1 <==> val == r1[ind] && val != r2[ind])
    }

    /** Value i is the first that is not such a root, and e says what is wrong with it. */
    predicate RefusedFirst(indices: seq<nat>, values: seq<int>, i: int, e: Error)
      requires |indices| == |values| && |y| == |r1| == |r2| == L
      requires forall j :: 0 <= j < |indices| ==> indices[j] < L
      reads this
    {
      && 0 <= i < |indices|
      && (if values[i] >= n / 2 then e == RootTooLarge
          else (values[i] * values[i]) % n != y[indices[i]] && e == NotASquareRoot)
      && forall j :: 0 <= j < i ==> values[j] < n / 2 && (values[j] * values[j]) % n == y[indices[j]]
    }

    /** Judge the buyer's values in order; the first bad one throws. */
    method AcceptSubset(indices: seq<nat>, values: seq<int>) returns (r: Result<seq<nat>>)
      requires |indices| == |values| && |y| == |r1| == |r2| == L
      requires forall i :: 0 <= i < |indices| ==> indices[i] < L
      ensures r.Ok? ==> |r.value| == |indices|
      ensures r.Ok? ==> forall i :: 0 <= i < |indices| ==> Judgement(indices[i], values[i]) == Ok(r.value[i])
      ensures r.Ok? ==> forall i :: 0 <= i < |indices| ==> AnsweredWith(indices[i], values[i], r.value[i])
      ensures r.Err? ==> exists i :: RefusedFirst(indices, values, i, r.error)
    {
      var res: seq<nat> := [];
      for i := 0 to |indices|
        invariant |res| == i && forall j :: 0 <= j < i ==> Judgement(indices[j], values[j]) == Ok(res[j])
        invariant forall j :: 0 <= j < i ==> AnsweredWith(indices[j], values[j], res[j])
      {
        var ind, val := indices[i], values[i];
        if val >= n / 2 {
          assert RefusedFirst(indices, values, i, RootTooLarge);
          return Err(RootTooLarge);
        }
        if (val * val) % n != y[ind] {
          assert RefusedFirst(indices, values, i, NotASquareRoot);
          return Err(NotASquareRoot);
        }
        var which: nat := 5;
        if val == r1[ind] {
          which := 1;
        }
        if val == r2[ind] {
          which := 2;
        }
        res := res + [which];
      }
      return Ok(res);
    }
  }

  // ---------- the buyer ----------

  /** The factorisation that index i gives to whoever holds both ciphertexts, if any. */
  function TryIndex(cipher: Cipher, n: pos, key: Bytes, m1: Bytes, m2: Bytes): Result<(nat, nat)> {
    if m1 == [] || m2 == [] then Err(FactorizationFailed)
    else
      var r1, r2 := BitUtils.Decode(cipher.dec(key, m1)), BitUtils.Decode(cipher.dec(key, m2));
      if Splits(n, r1, r2) then Ok(Split(n, r1, r2)) else Err(FactorizationFailed)
  }

  /** factorise from index i on: the first index that gives a factorisation. */
  function FactoriseFrom(cipher: Cipher, n: pos, keys: seq<Bytes>, d1: seq<Bytes>, d2: seq<Bytes>, i: nat):
    Result<(nat, nat)>
    requires |d1| == |d2| == |keys| && i <= |keys|
    decreases |keys| - i
  {
    if i == |keys| then Err(FactorizationFailed)
    else if TryIndex(cipher, n, keys[i], d1[i], d2[i]).Ok? then TryIndex(cipher, n, keys[i], d1[i], d2[i])
    else FactoriseFrom(cipher, n, keys, d1, d2, i + 1)
  }

  /** The body of factorise's loop, for an index with both ciphertexts. */
  method TrySplit(cipher: Cipher, n: pos, key: Bytes, m1: Bytes, m2: Bytes) returns (f: Result<(nat, nat)>)
    requires m1 != [] && m2 != []
    ensures f == TryIndex(cipher, n, key, m1, m2)
  {
    var r1 := BitUtils.Decode(cipher.dec(key, m1));
    var r2 := BitUtils.Decode(cipher.dec(key, m2));
    var f1 := Gcd(Abs(n + r1 - r2), n);
    var f2 := Gcd(Abs(r1 + r2), n);
    if f1 * f2 == n {
      return Ok((f1, f2));
    }
    return Err(FactorizationFailed);
  }

  class Buyer {
    const n: pos
    var x: seq<nat>
    var y: seq<int>
    var indices: seq<nat>
    var signature: Bytes
    var p: nat
    var q: nat
    var keys: seq<Bytes>
    var d1: seq<Bytes>
    var d2: seq<Bytes>

    /** Nothing is opened yet. */
    constructor (n: pos)
      ensures this.n == n
      ensures keys == d1 == d2 == seq(L, i => [])
    {
      this.n := n;
      x, y, indices, signature, p, q := [], [], [], [], 0, 0;
      keys, d1, d2 := seq(L, i => []), seq(L, i => []), seq(L, i => []);
    }

    method GenSquares(xs: seq<nat>)
      requires |xs| == L
      modifies this`x, this`y
      ensures x == xs && |y| == L && forall i :: 0 <= i < L ==> y[i] == (xs[i] * xs[i]) % n
    {
      x, y := [], [];
      for i := 0 to L
        invariant x == xs[..i] && |y| == i && forall j :: 0 <= j < i ==> y[j] == (xs[j] * xs[j]) % n
      {
        x := x + [xs[i]];
        y := y + [(x[i] * x[i]) % n];
      }
    }

    /** The first half of a shuffle of 0..L-1. */
    method PickSubset(shuffled: seq<nat>)
      requires |shuffled| >= L / 2
      modifies this`indices
      ensures indices == shuffled[..L / 2]
    {
      indices := shuffled[..L / 2];
    }

    method GetSubsetValues() returns (res: seq<nat>)
      requires |x| == L && |indices| == L / 2 && forall i :: 0 <= i < |indices| ==> indices[i] < L
      ensures |res| == L / 2 && forall i :: 0 <= i < L / 2 ==> res[i] == x[indices[i]]
    {
      res := [];
      for i := 0 to L / 2
        invariant |res| == i && forall j :: 0 <= j < i ==> res[j] == x[indices[j]]
      {
        res := res + [x[indices[i]]];
      }
    }

    method VerifyRoot(cipher: Cipher, ind: nat, key: Bytes, c: Bytes) returns (r: Result<()>)
      requires ind < |x|
      ensures r.Ok? <==> BitUtils.Decode(cipher.dec(key, c)) == x[ind]
      ensures r.Err? ==> r.error == VerifyRootFailed
    {
      var decoded := cipher.dec(key, c);
      var v := BitUtils.Decode(decoded);
      if v != x[ind] {
        return Err(VerifyRootFailed);
      }
      return Ok(());
    }

    method Factorise(cipher: Cipher, hash: Bytes -> Bytes) returns (r: Result<()>)
      requires |d1| == |d2| == L
      modifies this`p, this`q
      ensures var f := FactoriseFrom(cipher, n, Keys(hash, signature), d1, d2, 0);
        (r.Ok? <==> f.Ok?) && (r.Err? ==> r.error == FactorizationFailed) &&
        if f.Ok? then (p, q) == f.value else p == old(p) && q == old(q)
    {
      var keyList := GenKeys(hash, signature);
      ghost var goal := FactoriseFrom(cipher, n, keyList, d1, d2, 0);
      var i := 0;
      while i < L
        invariant 0 <= i <= L && p == old(p) && q == old(q)
        invariant FactoriseFrom(cipher, n, keyList, d1, d2, i) == goal
      {
        if d1[i] != [] && d2[i] != [] {
          var found := TrySplit(cipher, n, keyList[i], d1[i], d2[i]);
          if found.Ok? {
            p, q := found.value.0, found.value.1;
            return Ok(());
          }
        }
        i := i + 1;
      }
      return Err(FactorizationFailed);
    }
  }

  // ---------- what honest parties hold ----------

  /** What an honest seller commits to for any y: the two encrypted roots, in the coin's order. */
  ghost predicate OffersAt(p: pos, q: pos, msr: (int, pos) -> int, cipher: Cipher, key: Bytes,
                           y: int, swap: bool, m1: Bytes, m2: Bytes)
  {
    p * q > 0 &&
    var (r1, r2) := Offered(Make(p, q), msr, y, swap);
    m1 == cipher.enc(key, RootBytes(r1)) && m2 == cipher.enc(key, RootBytes(r2))
  }

  /** Index i after an honest preparation: the buyer's x, the seller's roots and ciphertexts. */
  ghost predicate HonestIndex(p: pos, q: pos, msr: (int, pos) -> int, cipher: Cipher, key: Bytes,
                              x: nat, swap: bool, m1: Bytes, m2: Bytes)
  {
    p * q > 0 && OffersAt(p, q, msr, cipher, key, (x * x) % (p * q), swap, m1, m2)
  }

  lemma SquareIsBelow(n: pos, x: nat)
    ensures IsSquareBelow((x * x) % n, n)
  {
    ModMul(1, x * x, n);
    assert SquareIs(x, (x * x) % n, n);
  }

  /** With both ciphertexts of index i the buyer factors n exactly when x is a unit. */
  lemma HonestTry(p: pos, q: pos, msr: (int, pos) -> int, cipher: Cipher, key: Bytes,
                  x: nat, swap: bool, m1: Bytes, m2: Bytes)
    requires OddPrimes(p, q) && FindsRoots(msr, p) && FindsRoots(msr, q) && cipher.Lawful()
    requires HonestIndex(p, q, msr, cipher, key, x, swap, m1, m2)
    ensures var f := TryIndex(cipher, p * q, key, m1, m2);
      if Coprime(x, p * q) then f == Ok((p, q)) || f == Ok((q, p)) else f == Err(FactorizationFailed)
  {
    var n := p * q;
    var a := (x * x) % n;
    var (r1, r2) := Offered(Make(p, q), msr, a, swap);
    SquareIsBelow(n, x);
    AllRootsComplete(p, q, msr, a);
    OfferedRootsSplit(p, q, msr, a, swap);
    DecodeToBytes(r1);
    DecodeToBytes(r2);
    CoprimeMul(x, x, n);
    ModMul(1, x * x, n);
    CoprimeCong(a, x * x, n);
  }

  /** Any value for any y, judged by an honest seller: too large, no root, a negative root, which is
      answered with 5, or one of the two offered roots; and then the ciphertext that the answer names
      decrypts to that value, so the buyer learns no root it did not reveal. */
  lemma HonestSellerJudges(p: pos, q: pos, msr: (int, pos) -> int, cipher: Cipher, key: Bytes,
                           y: int, swap: bool, m1: Bytes, m2: Bytes, val: int)
    requires OddPrimes(p, q) && FindsRoots(msr, p) && FindsRoots(msr, q) && cipher.Lawful()
    requires OffersAt(p, q, msr, cipher, key, y, swap, m1, m2)
    ensures var n := p * q;
      var (r1, r2) := Offered(Make(p, q), msr, y, swap);
      var j := Judge(n, y, r1, r2, val);
      if val >= n / 2 then j == Err(RootTooLarge)
      else if (val * val) % n != y then j == Err(NotASquareRoot)
      else if val < 0 then j == Ok(5)
      else (j == Ok(1) && BitUtils.Decode(cipher.dec(key, m1)) == val) ||
           (j == Ok(2) && BitUtils.Decode(cipher.dec(key, m2)) == val)
  {
    if val < p * q / 2 && (val * val) % (p * q) == y {
      RevealedRoot(p, q, msr, y, val);
      DecodeToBytes(Abs(val));
    }
  }

  /** A root below n/2 is offered exactly when it is not negative. */
  lemma RevealedRoot(p: pos, q: pos, msr: (int, pos) -> int, y: int, val: int)
    requires OddPrimes(p, q) && FindsRoots(msr, p) && FindsRoots(msr, q)
    requires p * q > 0 && val < p * q / 2 && (val * val) % (p * q) == y
    ensures var s := Make(p, q).AllRoots(msr, y); (val == s[0] || val == s[1]) <==> val >= 0
  {
    ModMul(1, val * val, p * q);
    assert SquareIs(val, y, p * q);
    AllRootsComplete(p, q, msr, y);
    if val >= 0 {
      OwnRootIsOffered(p, q, msr, val);
    }
  }

  /** The value that the buyer reveals for a chosen index, if it is below n/2, is one of the two
      offered roots, and the ciphertext that the seller then opens decrypts to it. */
  lemma HonestReveal(p: pos, q: pos, msr: (int, pos) -> int, cipher: Cipher, key: Bytes,
                     x: nat, swap: bool, m1: Bytes, m2: Bytes)
    requires OddPrimes(p, q) && FindsRoots(msr, p) && FindsRoots(msr, q) && cipher.Lawful()
    requires HonestIndex(p, q, msr, cipher, key, x, swap, m1, m2)
    ensures var n := p * q;
      var (r1, r2) := Offered(Make(p, q), msr, (x * x) % n, swap);
      var j := Judge(n, (x * x) % n, r1, r2, x);
      if x >= n / 2 then j == Err(RootTooLarge)
      else (j == Ok(1) && BitUtils.Decode(cipher.dec(key, m1)) == x) ||
           (j == Ok(2) && BitUtils.Decode(cipher.dec(key, m2)) == x)
  {
    HonestSellerJudges(p, q, msr, cipher, key, (x * x) % (p * q), swap, m1, m2, x);
  }

  /** Both ciphertexts are open outside the chosen set, exactly one inside it. */
  ghost predicate OpenedAs(chosen: set<nat>, full1: seq<Bytes>, full2: seq<Bytes>, d1: seq<Bytes>, d2: seq<Bytes>)
    requires |full1| == |full2| == |d1| == |d2|
  {
    forall i :: 0 <= i < |d1| ==>
      if i in chosen then (d1[i], d2[i]) == (full1[i], []) || (d1[i], d2[i]) == ([], full2[i])
      else (d1[i], d2[i]) == (full1[i], full2[i])
  }

  /** A search step that finds the factors exactly when it should. */
  predicate FindsFactors(f: Result<(nat, nat)>, p: nat, q: nat, should: bool) {
    if should then f == Ok((p, q)) || f == Ok((q, p)) else f == Err(FactorizationFailed)
  }

  lemma HonestTryOpened(
    p: pos, q: pos, msr: (int, pos) -> int, cipher: Cipher, keys: seq<Bytes>, xs: seq<nat>, swaps: seq<bool>,
    chosen: set<nat>, full1: seq<Bytes>, full2: seq<Bytes>, d1: seq<Bytes>, d2: seq<Bytes>, i: nat)
    requires OddPrimes(p, q) && FindsRoots(msr, p) && FindsRoots(msr, q) && cipher.Lawful() && p * q > 0
    requires |keys| == |xs| == |swaps| == |full1| == |full2| == |d1| == |d2| && i < |keys|
    requires HonestIndex(p, q, msr, cipher, keys[i], xs[i], swaps[i], full1[i], full2[i])
    requires OpenedAs(chosen, full1, full2, d1, d2)
    ensures FindsFactors(TryIndex(cipher, p * q, keys[i], d1[i], d2[i]), p, q,
                         i !in chosen && Coprime(xs[i], p * q))
  {
    HonestTry(p, q, msr, cipher, keys[i], xs[i], swaps[i], full1[i], full2[i]);
  }

  /** The search finds the factors as soon as one index from i on does. */
  lemma {:induction false} SearchFinds(cipher: Cipher, n: pos, p: nat, q: nat, keys: seq<Bytes>,
                                       d1: seq<Bytes>, d2: seq<Bytes>, good: seq<bool>, i: nat)
    requires |keys| == |d1| == |d2| == |good| && i <= |keys|
    requires forall j :: 0 <= j < |keys| ==>
      FindsFactors(TryIndex(cipher, n, keys[j], d1[j], d2[j]), p, q, good[j])
    ensures FindsFactors(FactoriseFrom(cipher, n, keys, d1, d2, i), p, q, true in good[i..])
    decreases |keys| - i
  {
    if i < |keys| {
      SearchFinds(cipher, n, p, q, keys, d1, d2, good, i + 1);
      assert good[i..] == [good[i]] + good[i + 1..];
    }
  }

  /** The indices at which the buyer can factor: not chosen for the check, and x a unit. */
  function GoodAt(xs: seq<nat>, n: pos, chosen: set<nat>): (good: seq<bool>)
    ensures |good| == |xs|
    ensures forall i :: 0 <= i < |xs| ==> good[i] == (i !in chosen && Coprime(xs[i], n))
  {
    seq(|xs|, i requires 0 <= i < |xs| => i !in chosen && Coprime(xs[i], n))
  }

  /** factorise skips the chosen indices and those whose x is no unit, stops with the factors of n
      at the first other one, and throws if there is none. */
  lemma HonestFactorise(
    p: pos, q: pos, msr: (int, pos) -> int, cipher: Cipher, keys: seq<Bytes>, xs: seq<nat>, swaps: seq<bool>,
    chosen: set<nat>, full1: seq<Bytes>, full2: seq<Bytes>, d1: seq<Bytes>, d2: seq<Bytes>)
    requires OddPrimes(p, q) && FindsRoots(msr, p) && FindsRoots(msr, q) && cipher.Lawful() && p * q > 0
    requires |keys| == |xs| == |swaps| == |full1| == |full2| == |d1| == |d2|
    requires forall j :: 0 <= j < |keys| ==>
      HonestIndex(p, q, msr, cipher, keys[j], xs[j], swaps[j], full1[j], full2[j])
    requires OpenedAs(chosen, full1, full2, d1, d2)
    ensures FindsFactors(FactoriseFrom(cipher, p * q, keys, d1, d2, 0), p, q,
                         exists i :: 0 <= i < |xs| && i !in chosen && Coprime(xs[i], p * q))
  {
    var good := GoodAt(xs, p * q, chosen);
    forall j | 0 <= j < |keys|
      ensures FindsFactors(TryIndex(cipher, p * q, keys[j], d1[j], d2[j]), p, q, good[j])
    {
      HonestTryOpened(p, q, msr, cipher, keys, xs, swaps, chosen, full1, full2, d1, d2, j);
    }
    SearchFinds(cipher, p * q, p, q, keys, d1, d2, good, 0);
    assert good[0..] == good;
    if i :| 0 <= i < |xs| && i !in chosen && Coprime(xs[i], p * q) {
      assert good[i];
    }
  }

  // ---------- with arbitrary ciphertexts at the other indices ----------

  function RootIn(cipher: Cipher, key: Bytes, m: Bytes): nat {
    BitUtils.Decode(cipher.dec(key, m))
  }

  /** The buyer holds both ciphertexts, and they contain unit roots of one square. */
  predicate Usable(cipher: Cipher, n: pos, key: Bytes, m1: Bytes, m2: Bytes) {
    m1 != [] && m2 != [] && RootPair(n, RootIn(cipher, key, m1), RootIn(cipher, key, m2))
  }

  /** The first usable index from i on, or |keys|. */
  function FirstUsable(cipher: Cipher, n: pos, keys: seq<Bytes>, d1: seq<Bytes>, d2: seq<Bytes>, i: nat): (k: nat)
    requires |d1| == |d2| == |keys| && i <= |keys|
    ensures i <= k <= |keys| && (k < |keys| ==> Usable(cipher, n, keys[k], d1[k], d2[k]))
    ensures forall t :: i <= t < k ==> !Usable(cipher, n, keys[t], d1[t], d2[t])
    decreases |keys| - i
  {
    if i == |keys| || Usable(cipher, n, keys[i], d1[i], d2[i]) then i
    else FirstUsable(cipher, n, keys, d1, d2, i + 1)
  }

  /** The roots at index k are neither equal nor opposite. */
  predicate ApartAt(cipher: Cipher, n: pos, keys: seq<Bytes>, d1: seq<Bytes>, d2: seq<Bytes>, k: nat)
    requires |d1| == |d2| == |keys| && k < |keys|
  {
    Apart(n, RootIn(cipher, keys[k], d1[k]), RootIn(cipher, keys[k], d2[k]))
  }

  /** factorise against arbitrary ciphertexts: it throws exactly when no index is usable, and ends
      with the factors exactly when the roots at the first usable index are apart. */
  lemma {:induction false} FirstUsableDecides(p: pos, q: pos, n: pos, cipher: Cipher, keys: seq<Bytes>,
                                              d1: seq<Bytes>, d2: seq<Bytes>, i: nat)
    requires OddPrimes(p, q) && n == p * q && |d1| == |d2| == |keys| && i <= |keys|
    ensures var k := FirstUsable(cipher, n, keys, d1, d2, i);
      var f := FactoriseFrom(cipher, n, keys, d1, d2, i);
      && (f.Ok? <==> k < |keys|)
      && (f.Ok? ==> if ApartAt(cipher, n, keys, d1, d2, k) then IsProper(f.value, p, q) else IsTrivial(f.value, n))
    decreases |keys| - i
  {
    if i < |keys| {
      SplitsExactly(p, q, n, RootIn(cipher, keys[i], d1[i]), RootIn(cipher, keys[i], d2[i]));
      FirstUsableDecides(p, q, n, cipher, keys, d1, d2, i + 1);
    }
  }

  /** The two endings exclude each other. */
  lemma ProperIsNotTrivial(p: pos, q: pos, f: (nat, nat))
    requires OddPrimes(p, q)
    ensures !(IsProper(f, p, q) && IsTrivial(f, p * q))
  {
  }

  /** One honest index that was not chosen and whose x is a unit is usable: factorise then never throws. */
  lemma HonestIndexUsable(
    p: pos, q: pos, n: pos, msr: (int, pos) -> int, cipher: Cipher, keys: seq<Bytes>, x: nat, swap: bool,
    d1: seq<Bytes>, d2: seq<Bytes>, j: nat)
    requires OddPrimes(p, q) && n == p * q && FindsRoots(msr, p) && FindsRoots(msr, q) && cipher.Lawful()
    requires |d1| == |d2| == |keys| && j < |keys|
    requires HonestIndex(p, q, msr, cipher, keys[j], x, swap, d1[j], d2[j]) && Coprime(x, n)
    ensures Usable(cipher, n, keys[j], d1[j], d2[j]) && ApartAt(cipher, n, keys, d1, d2, j)
    ensures FirstUsable(cipher, n, keys, d1, d2, 0) <= j && FactoriseFrom(cipher, n, keys, d1, d2, 0).Ok?
  {
    HonestTry(p, q, msr, cipher, keys[j], x, swap, d1[j], d2[j]);
    SplitsExactly(p, q, n, RootIn(cipher, keys[j], d1[j]), RootIn(cipher, keys[j], d2[j]));
    ProperIsNotTrivial(p, q, TryIndex(cipher, n, keys[j], d1[j], d2[j]).value);
    FirstUsableDecides(p, q, n, cipher, keys, d1, d2, 0);
  }

  /** Indices at which the buyer lacks a ciphertext are skipped. */
  lemma {:induction false} SkipClosed(cipher: Cipher, n: pos, keys: seq<Bytes>, d1: seq<Bytes>, d2: seq<Bytes>, i: nat)
    requires |d1| == |d2| == |keys| && i <= |keys| && forall t :: 0 <= t < i ==> d1[t] == [] || d2[t] == []
    ensures FactoriseFrom(cipher, n, keys, d1, d2, 0) == FactoriseFrom(cipher, n, keys, d1, d2, i)
  {
    if i > 0 {
      SkipClosed(cipher, n, keys, d1, d2, i - 1);
    }
  }

  /** A seller who encrypts the same unit twice at the first index that is not chosen makes factorise
      stop there with (n, 1), whatever follows. */
  lemma EqualRootsStopFactorise(p: pos, q: pos, n: pos, cipher: Cipher, keys: seq<Bytes>, r: nat,
                                d1: seq<Bytes>, d2: seq<Bytes>, i: nat)
    requires OddPrimes(p, q) && n == p * q && cipher.Lawful() && Coprime(r, n)
    requires |d1| == |d2| == |keys| && i < |keys| && d1[i] == d2[i] == cipher.enc(keys[i], RootBytes(r))
    requires forall t :: 0 <= t < i ==> d1[t] == [] || d2[t] == []
    ensures FactoriseFrom(cipher, n, keys, d1, d2, 0) == Ok((n, 1))
  {
    SkipClosed(cipher, n, keys, d1, d2, i);
    DecodeToBytes(r);
    EqualRootsSplitTrivially(p, q, r);
  }

  /** For a y that is no reduced square the seller offers -1 twice, which is encrypted as 1: the answer
      to any value is an exception, and with both ciphertexts the split is trivial. */
  lemma NonSquareOffer(p: pos, q: pos, msr: (int, pos) -> int, cipher: Cipher, key: Bytes,
                       y: int, swap: bool, m1: Bytes, m2: Bytes, val: int)
    requires OddPrimes(p, q) && cipher.Lawful() && OffersAt(p, q, msr, cipher, key, y, swap, m1, m2)
    requires !IsSquareBelow(y, p * q)
    ensures Offered(Make(p, q), msr, y, swap) == (-1, -1) && Judge(p * q, y, -1, -1, val).Err?
    ensures TryIndex(cipher, p * q, key, m1, m2) == Ok((p * q, 1))
  {
    NoRoots(p, q, msr, y);
    DecodeToBytes(1);
    CoprimeFromInverse(1, 1, p * q);
    EqualRootsSplitTrivially(p, q, 1);
    if (val * val) % (p * q) == y {
      ModMul(1, val * val, p * q);
      assert SquareIs(val, y, p * q);
    }
  }

  // ---------- the protocol ----------

  /** The seller's state after roots were found, encrypted and committed for arbitrary y. */
  ghost predicate Committed(s: Seller, msr: (int, pos) -> int, cipher: Cipher, swaps: seq<bool>)
    reads s
  {
    && OddPrimes(s.p, s.q) && FindsRoots(msr, s.p) && FindsRoots(msr, s.q) && cipher.Lawful()
    && s.p * s.q > 0 && s.n == s.p * s.q
    && |s.y| == |s.r1| == |s.r2| == |s.keys| == |s.d1| == |s.d2| == |swaps| == L
    && (forall i :: 0 <= i < L ==> (s.r1[i], s.r2[i]) == Offered(Make(s.p, s.q), msr, s.y[i], swaps[i]))
    && (forall i :: 0 <= i < L ==>
          OffersAt(s.p, s.q, msr, cipher, s.keys[i], s.y[i], swaps[i], s.d1[i], s.d2[i]))
  }

  /** Whatever the buyer sent as squares and as values: the seller answers 1 or 2 exactly for the
      non-negative roots below n/2, and the ciphertext it then opens contains the value revealed. */
  lemma OnlyRevealedOpened(s: Seller, msr: (int, pos) -> int, cipher: Cipher, swaps: seq<bool>, ind: nat, val: int)
    requires Committed(s, msr, cipher, swaps) && ind < L
    ensures s.Judgement(ind, val) == Ok(1) || s.Judgement(ind, val) == Ok(2) <==>
      0 <= val < s.n / 2 && (val * val) % s.n == s.y[ind]
    ensures s.Judgement(ind, val) == Ok(1) ==> BitUtils.Decode(cipher.dec(s.keys[ind], s.d1[ind])) == val
    ensures s.Judgement(ind, val) == Ok(2) ==> BitUtils.Decode(cipher.dec(s.keys[ind], s.d2[ind])) == val
  {
    HonestSellerJudges(s.p, s.q, msr, cipher, s.keys[ind], s.y[ind], swaps[ind], s.d1[ind], s.d2[ind], val);
  }

  /** The seller's state after roots were found, encrypted and committed for the squares of xs. */
  ghost predicate Prepared(s: Seller, xs: seq<nat>, msr: (int, pos) -> int, cipher: Cipher, swaps: seq<bool>)
    reads s
  {
    && OddPrimes(s.p, s.q) && FindsRoots(msr, s.p) && FindsRoots(msr, s.q) && cipher.Lawful()
    && s.p * s.q > 0 && s.n == s.p * s.q
    && |xs| == |s.y| == |s.r1| == |s.r2| == |s.keys| == |s.d1| == |s.d2| == |swaps| == L
    && (forall i :: 0 <= i < L ==> s.y[i] == (xs[i] * xs[i]) % s.n)
    && (forall i :: 0 <= i < L ==> (s.r1[i], s.r2[i]) == Offered(Make(s.p, s.q), msr, s.y[i], swaps[i]))
    && (forall i :: 0 <= i < L ==> HonestIndex(s.p, s.q, msr, cipher, s.keys[i], xs[i], swaps[i], s.d1[i], s.d2[i]))
  }

  /** From the buyer's squares to the seller's committed ciphertexts. */
  method Prepare(s: Seller, b: Buyer, msr: (int, pos) -> int, cipher: Cipher, xs: seq<nat>, swaps: seq<bool>)
    requires OddPrimes(s.p, s.q) && FindsRoots(msr, s.p) && FindsRoots(msr, s.q) && cipher.Lawful()
    requires s.p * s.q > 0 && s.n == b.n == s.p * s.q && s.squareRoot == Make(s.p, s.q)
    requires |xs| == |swaps| == |s.keys| == L
    modifies b`x, b`y, s`y, s`r1, s`r2, s`c1, s`c2, s`d1, s`d2
    ensures Prepared(s, xs, msr, cipher, swaps) && b.x == xs && |b.y| == L
  {
    b.GenSquares(xs);
    AnswerSquares(s, b.y, msr, cipher, swaps);
  }

  /** What the seller does with any squares y: find roots, encrypt them and commit to the ciphertexts. */
  method AnswerSquares(s: Seller, y: seq<int>, msr: (int, pos) -> int, cipher: Cipher, swaps: seq<bool>)
    requires OddPrimes(s.p, s.q) && FindsRoots(msr, s.p) && FindsRoots(msr, s.q) && cipher.Lawful()
    requires s.p * s.q > 0 && s.n == s.p * s.q && s.squareRoot == Make(s.p, s.q)
    requires |y| == |swaps| == |s.keys| == L
    modifies s`y, s`r1, s`r2, s`c1, s`c2, s`d1, s`d2
    ensures Committed(s, msr, cipher, swaps) && s.y == y
  {
    s.AcceptSquares(y);
    s.FindRoots(msr, swaps);
    s.EncryptRoots(cipher);
    s.SetupCommit();
  }

  predicate IsShuffle(shuffled: seq<nat>) {
    |shuffled| == L && (forall i :: 0 <= i < L ==> shuffled[i] < L) && Unrepeated(shuffled)
  }

  /** Half of a shuffle of 0..L-1 always passes the checks on the indices. */
  lemma ShuffleIsGood(shuffled: seq<nat>)
    requires IsShuffle(shuffled)
    ensures GoodIndices(shuffled[..L / 2])
  {
  }

  predicate Unrepeated(indices: seq<nat>) {
    forall i, j :: 0 <= i < j < |indices| ==> indices[i] != indices[j]
  }

  /** The indices are a subset of 0..L-1 of size L/2, without repetition. */
  predicate GoodIndices(indices: seq<nat>) {
    |indices| == L / 2 &&
    (forall i :: 0 <= i < |indices| ==> indices[i] < L) &&
    Unrepeated(indices)
  }

  function IndexSet(indices: seq<nat>): set<nat> {
    set i | i in indices
  }

  /** What the buyer holds after the indices in done were handled: the key and exactly one
      ciphertext there, nothing anywhere else. */
  ghost predicate HalfOpened(done: seq<nat>, s: Seller, keys: seq<Bytes>, d1: seq<Bytes>, d2: seq<Bytes>)
    reads s
  {
    && |s.d1| == |s.d2| == |s.keys| == |keys| == |d1| == |d2| == L
    && forall ind :: 0 <= ind < L ==>
         if ind in done
         then keys[ind] == s.keys[ind] &&
              ((d1[ind], d2[ind]) == (s.d1[ind], []) || (d1[ind], d2[ind]) == ([], s.d2[ind]))
         else (d1[ind], d2[ind]) == ([], [])
  }

  /** One chosen index: the key and the ciphertext that matches are opened, then verified. */
  method OpenOne(s: Seller, b: Buyer, cipher: Cipher, ind: nat, which: nat) returns (r: Result<()>)
    requires |s.d1| == |s.d2| == |s.keys| == |b.keys| == |b.d1| == |b.d2| == |b.x| == L && ind < L
    modifies b`keys, b`d1, b`d2
    ensures b.keys == old(b.keys)[ind := s.keys[ind]]
    ensures b.d1 == if which == 1 then old(b.d1)[ind := s.d1[ind]] else old(b.d1)
    ensures b.d2 == if which == 2 then old(b.d2)[ind := s.d2[ind]] else old(b.d2)
    ensures which == 1 ==> (r.Ok? <==> BitUtils.Decode(cipher.dec(s.keys[ind], s.d1[ind])) == b.x[ind])
    ensures which == 2 ==> (r.Ok? <==> BitUtils.Decode(cipher.dec(s.keys[ind], s.d2[ind])) == b.x[ind])
    ensures which != 1 && which != 2 ==> r == Err(RootsDoNotMatch)
  {
    b.keys := b.keys[ind := s.keys[ind]];
    var key := b.keys[ind];
    var c: Bytes;
    match which {
      case 1 =>
        b.d1 := b.d1[ind := s.d1[ind]];
        c := b.d1[ind];
      case 2 =>
        b.d2 := b.d2[ind := s.d2[ind]];
        c := b.d2[ind];
      case _ =>
        return Err(RootsDoNotMatch);
    }
    r := b.VerifyRoot(cipher, ind, key, c);
  }

  /** The seller's judgement of x at index ind, and what the ciphertext that it opens contains. */
  ghost predicate JudgedWell(s: Seller, cipher: Cipher, ind: nat, x: nat)
    requires |s.y| == |s.r1| == |s.r2| == |s.d1| == |s.d2| == |s.keys| == L && ind < L
    reads s
  {
    var j := s.Judgement(ind, x);
    if x >= s.n / 2 then j == Err(RootTooLarge)
    else (j == Ok(1) && BitUtils.Decode(cipher.dec(s.keys[ind], s.d1[ind])) == x) ||
         (j == Ok(2) && BitUtils.Decode(cipher.dec(s.keys[ind], s.d2[ind])) == x)
  }

  lemma HonestJudgement(s: Seller, xs: seq<nat>, msr: (int, pos) -> int, cipher: Cipher, swaps: seq<bool>)
    requires Prepared(s, xs, msr, cipher, swaps)
    ensures forall ind :: 0 <= ind < L ==> JudgedWell(s, cipher, ind, xs[ind])
  {
    forall ind | 0 <= ind < L ensures JudgedWell(s, cipher, ind, xs[ind]) {
      HonestReveal(s.p, s.q, msr, cipher, s.keys[ind], xs[ind], swaps[ind], s.d1[ind], s.d2[ind]);
    }
  }

  /** The chosen indices: the seller opens the key and the ciphertext that matches the buyer's
      value, and the buyer verifies it. Only a value of at least n/2 can stop this. */
  method OpenChosen(s: Seller, b: Buyer, cipher: Cipher) returns (r: Result<()>)
    requires |s.y| == |s.r1| == |s.r2| == |s.d1| == |s.d2| == |s.keys| == |b.x| == L
    requires forall ind :: 0 <= ind < L ==> JudgedWell(s, cipher, ind, b.x[ind])
    requires GoodIndices(b.indices) && HalfOpened([], s, b.keys, b.d1, b.d2)
    modifies b`keys, b`d1, b`d2
    ensures r.Ok? <==> forall i :: 0 <= i < |b.indices| ==> b.x[b.indices[i]] < s.n / 2
    ensures r.Err? ==> r.error == RootTooLarge && b.keys == old(b.keys) && b.d1 == old(b.d1) && b.d2 == old(b.d2)
    ensures r.Ok? ==> HalfOpened(b.indices, s, b.keys, b.d1, b.d2)
    ensures r.Ok? ==> HoldsChosenKeys(b.indices, s.keys, old(b.keys), b.keys)
  {
    var values := b.GetSubsetValues();
    var which :- s.AcceptSubset(b.indices, values);
    r := Ok(());
    var i := 0;
    while i < |b.indices| && r.Ok?
      invariant 0 <= i <= |b.indices| && r.Ok?
      invariant HalfOpened(b.indices[..i], s, b.keys, b.d1, b.d2)
      invariant HoldsChosenKeys(b.indices[..i], s.keys, old(b.keys), b.keys)
    {
      assert s.Judgement(b.indices[i], values[i]) == Ok(which[i]);
      ghost var keys, d1, d2 := b.keys, b.d1, b.d2;
      r := OpenOne(s, b, cipher, b.indices[i], which[i]);
      HalfOpenedNext(s, b.indices, i, which[i], keys, d1, d2);
      KeysNext(b.indices, i, s.keys, old(b.keys), keys);
      i := i + 1;
    }
    assert b.indices[..|b.indices|] == b.indices;
  }

  lemma NextIndex(indices: seq<nat>, i: nat)
    requires GoodIndices(indices) && i < |indices|
    ensures indices[i] !in indices[..i]
    ensures forall ind :: ind in indices[..i + 1] <==> ind in indices[..i] || ind == indices[i]
  {
    assert indices[..i + 1] == indices[..i] + [indices[i]];
  }

  /** One more index is half opened. */
  lemma HalfOpenedNext(s: Seller, indices: seq<nat>, i: nat, which: nat,
                       keys: seq<Bytes>, d1: seq<Bytes>, d2: seq<Bytes>)
    requires GoodIndices(indices) && i < |indices| && (which == 1 || which == 2)
    requires HalfOpened(indices[..i], s, keys, d1, d2)
    ensures var ind := indices[i];
      HalfOpened(indices[..i + 1], s, keys[ind := s.keys[ind]],
                 if which == 1 then d1[ind := s.d1[ind]] else d1,
                 if which == 2 then d2[ind := s.d2[ind]] else d2)
  {
    NextIndex(indices, i);
  }

  lemma KeysNext(indices: seq<nat>, i: nat, full: seq<Bytes>, before: seq<Bytes>, keys: seq<Bytes>)
    requires GoodIndices(indices) && i < |indices| && HoldsChosenKeys(indices[..i], full, before, keys)
    ensures HoldsChosenKeys(indices[..i + 1], full, before, keys[indices[i] := full[indices[i]]])
  {
    NextIndex(indices, i);
  }

  /** The other indices: both ciphertexts are opened. */
  method OpenRest(s: Seller, b: Buyer)
    requires HalfOpened(b.indices, s, b.keys, b.d1, b.d2)
    modifies b`d1, b`d2
    ensures |b.d1| == |b.d2| == |s.d1| == |s.d2| == L
    ensures OpenedAs(IndexSet(b.indices), s.d1, s.d2, b.d1, b.d2)
  {
    for ind := 0 to L
      invariant |b.d1| == |b.d2| == L
      invariant forall j :: 0 <= j < L ==>
        if j in b.indices then b.d1[j] == old(b.d1[j]) && b.d2[j] == old(b.d2[j])
        else if j < ind then b.d1[j] == s.d1[j] && b.d2[j] == s.d2[j]
        else b.d1[j] == [] && b.d2[j] == []
    {
      if ind !in b.indices {
        b.d1 := b.d1[ind := s.d1[ind]];
        b.d2 := b.d2[ind := s.d2[ind]];
      }
    }
  }

  lemma {:induction false} IndexSetSize(s: seq<nat>)
    ensures |IndexSet(s)| <= |s|
    ensures |IndexSet(s)| == |s| <==> forall i, j :: 0 <= i < j < |s| ==> s[i] != s[j]
  {
    if s == [] {
      assert IndexSet(s) == {};
    } else {
      var front, last := s[..|s| - 1], s[|s| - 1];
      IndexSetSize(front);
      assert IndexSet(s) == IndexSet(front) + {last};
      if last in front {
        assert IndexSet(s) == IndexSet(front);
        var i :| 0 <= i < |front| && front[i] == last;
        assert s[i] == s[|s| - 1];
      }
    }
  }

  /** What the buyer can do with the seller's keys once the openings are over. */
  lemma HonestBuyer(s: Seller, b: Buyer, msr: (int, pos) -> int, cipher: Cipher, swaps: seq<bool>)
    requires Prepared(s, b.x, msr, cipher, swaps) && |b.d1| == |b.d2| == L
    requires OpenedAs(IndexSet(b.indices), s.d1, s.d2, b.d1, b.d2)
    ensures FindsFactors(FactoriseFrom(cipher, s.n, s.keys, b.d1, b.d2, 0), s.p, s.q,
                         CanFactor(s.n, b.x, b.indices))
  {
    HonestFactorise(s.p, s.q, msr, cipher, s.keys, b.x, swaps, IndexSet(b.indices), s.d1, s.d2, b.d1, b.d2);
    if CanFactor(s.n, b.x, b.indices) {
      var i :| 0 <= i < L && i !in b.indices && Coprime(b.x[i], s.n);
      assert i !in IndexSet(b.indices);
    }
  }

  /** Both opening loops, after which the buyer can factor n if any index allows it. */
  method OpenCiphertexts(s: Seller, b: Buyer, ghost msr: (int, pos) -> int, cipher: Cipher, ghost swaps: seq<bool>)
    returns (r: Result<()>)
    requires Prepared(s, b.x, msr, cipher, swaps)
    requires GoodIndices(b.indices) && HalfOpened([], s, b.keys, b.d1, b.d2)
    modifies b`keys, b`d1, b`d2
    ensures r.Ok? <==> forall i :: 0 <= i < |b.indices| ==> b.x[b.indices[i]] < s.n / 2
    ensures r.Err? ==> r.error == RootTooLarge
    ensures r.Ok? ==> HoldsChosenKeys(b.indices, s.keys, old(b.keys), b.keys)
    ensures r.Ok? ==> |b.d1| == |b.d2| == |s.d1| == |s.d2| == L &&
                      OpenedAs(IndexSet(b.indices), s.d1, s.d2, b.d1, b.d2)
    ensures r.Ok? ==>
      FindsFactors(FactoriseFrom(cipher, s.n, s.keys, b.d1, b.d2, 0), s.p, s.q, CanFactor(s.n, b.x, b.indices))
  {
    HonestJudgement(s, b.x, msr, cipher, swaps);
    r := OpenChosen(s, b, cipher);
    if r.Ok? {
      OpenRest(s, b);
      HonestBuyer(s, b, msr, cipher, swaps);
    }
  }

  /** The exchange up to the openings: everything that happens before the payment. */
  method OpenAll(s: Seller, b: Buyer, msr: (int, pos) -> int, cipher: Cipher,
                 xs: seq<nat>, swaps: seq<bool>, shuffled: seq<nat>)
    returns (r: Result<()>)
    requires OddPrimes(s.p, s.q) && FindsRoots(msr, s.p) && FindsRoots(msr, s.q) && cipher.Lawful()
    requires s.p * s.q > 0 && s.n == b.n == s.p * s.q && s.squareRoot == Make(s.p, s.q)
    requires |xs| == |swaps| == |s.keys| == L && |shuffled| >= L / 2
    requires |b.keys| == L && b.d1 == b.d2 == seq(L, i => [])
    modifies s`y, s`r1, s`r2, s`c1, s`c2, s`d1, s`d2
    modifies b`x, b`y, b`indices, b`keys, b`d1, b`d2
    ensures b.indices == shuffled[..L / 2] && b.x == xs
    ensures !Unrepeated(b.indices) ==> r == Err(InvalidIndicesSize)
    ensures Unrepeated(b.indices) && !GoodIndices(b.indices) ==> r == Err(InvalidIndexValue)
    ensures GoodIndices(b.indices) ==>
      (r.Ok? <==> forall i :: 0 <= i < |b.indices| ==> xs[b.indices[i]] < b.n / 2) &&
      (r.Err? ==> r.error == RootTooLarge)
    ensures r.Ok? ==> HoldsChosenKeys(b.indices, s.keys, old(b.keys), b.keys)
    ensures r.Ok? ==> |b.d1| == |b.d2| == |s.d1| == |s.d2| == L &&
                      OpenedAs(IndexSet(b.indices), s.d1, s.d2, b.d1, b.d2)
    ensures r.Ok? ==>
      FindsFactors(FactoriseFrom(cipher, b.n, s.keys, b.d1, b.d2, 0), s.p, s.q, CanFactor(b.n, xs, b.indices))
  {
    Prepare(s, b, msr, cipher, xs, swaps);
    b.PickSubset(shuffled);
    IndexSetSize(b.indices);
    if |IndexSet(b.indices)| != L / 2 {
      return Err(InvalidIndicesSize);
    }
    if exists i :: 0 <= i < |b.indices| && b.indices[i] >= L {
      return Err(InvalidIndexValue);
    }
    r := OpenCiphertexts(s, b, msr, cipher, swaps);
  }

  /** Some index was not chosen for the check and has a unit x. */
  ghost predicate CanFactor(n: pos, xs: seq<nat>, indices: seq<nat>) {
    exists i :: 0 <= i < |xs| && i !in indices && Coprime(xs[i], n)
  }

  /** The honest exchange, from the buyer's squares to the factors of n. It fails only if a chosen
      x reaches n/2, or if none of the other x is a unit. */
  method Exchange(s: Seller, b: Buyer, msr: (int, pos) -> int, cipher: Cipher, hash: Bytes -> Bytes,
                  xs: seq<nat>, swaps: seq<bool>, shuffled: seq<nat>, signature: Bytes)
    returns (r: Result<()>)
    requires OddPrimes(s.p, s.q) && FindsRoots(msr, s.p) && FindsRoots(msr, s.q) && cipher.Lawful()
    requires s.p * s.q > 0 && s.n == b.n == s.p * s.q && s.squareRoot == Make(s.p, s.q)
    requires |xs| == |swaps| == L && |shuffled| >= L / 2 && GoodIndices(shuffled[..L / 2])
    requires s.keys == Keys(hash, signature) && |b.keys| == L && b.d1 == b.d2 == seq(L, i => [])
    modifies s`y, s`r1, s`r2, s`c1, s`c2, s`d1, s`d2
    modifies b`x, b`y, b`indices, b`signature, b`keys, b`d1, b`d2, b`p, b`q
    ensures b.indices == shuffled[..L / 2]
    ensures r.Ok? <==>
      (forall i :: 0 <= i < |b.indices| ==> xs[b.indices[i]] < b.n / 2) && CanFactor(b.n, xs, b.indices)
    ensures r.Ok? ==> (b.p == s.p && b.q == s.q) || (b.p == s.q && b.q == s.p)
    ensures r.Err? ==> r.error == RootTooLarge || r.error == FactorizationFailed
  {
    r := OpenAll(s, b, msr, cipher, xs, swaps, shuffled);
    if r.Ok? {
      b.signature := signature;
      r := b.Factorise(cipher, hash);
    }
  }
}
