/** Stripping phi(n) down to the order of an element, as Commiter's find_order does. */
module OrderSearch {
  import opened Modular
  import opened Fermat

  type factor = d: nat | d >= 2 witness 2

  /** The inner loop: divide by d as long as the quotient still sends g to one. */
  function Strip(order: pos, d: factor, g: nat, n: pos): pos
  {
    if order % d != 0 then order
    else
      StripQuotient(order, d);
      if ModExp(g, order / d, n) == 1 then Strip(order / d, d, g, n) else order
  }

  lemma StripQuotient(order: pos, d: factor)
    requires order % d == 0
    ensures 1 <= order / d < order
    ensures order == d * (order / d)
  {
    var k := order / d;
    assert order == d * k;
    if k <= 0 { MulMono(k, 0, d); }
    MulMono(2, d, k);
  }

  function StripAll(order: pos, ds: seq<factor>, g: nat, n: pos): pos
  {
    if ds == [] then order else Strip(StripAll(order, ds[..|ds| - 1], g, n), ds[|ds| - 1], g, n)
  }

  /** The divisors that the code tries: q1 = (p1-1)/2, q2 = (p2-2)/2 and 2. */
  function Divisors(p1: nat, p2: nat): (ds: seq<factor>)
    requires p1 >= 5 && p2 >= 6
  {
    [(p1 - 1) / 2, (p2 - 2) / 2, 2]
  }

  /** find_order, with its loop over the three divisors and the loop over their multiplicity. */
  method FindOrder(p1: nat, p2: nat, g: nat) returns (order: pos)
    requires p1 >= 5 && p2 >= 6
    ensures p1 * p2 > 0 && Phi(p1, p2) > 0
    ensures order == StripAll(Phi(p1, p2), Divisors(p1, p2), g, p1 * p2)
  {
    MulPos(p1, p2);
    MulPos(p1 - 1, p2 - 1);
    var n := p1 * p2;
    var phi := (p1 - 1) * (p2 - 1);
    var primes: seq<factor> := [(p1 - 1) / 2, (p2 - 2) / 2, 2];
    order := phi;
    for i := 0 to |primes|
      invariant order == StripAll(phi, primes[..i], g, n)
    {
      var q := primes[i];
      ghost var goal := Strip(order, q, g, n);
      while true
        invariant Strip(order, q, g, n) == goal
        decreases order
      {
        var rest, quotient := order % q, order / q;
        if rest != 0 {
          break;
        }
        StripQuotient(order, q);
        var power := AExpBModC(g, quotient, n);
        if power == 1 {
          order := quotient;
        } else {
          break;
        }
      }
      assert primes[..i + 1][..i] == primes[..i];
    }
    assert primes[..|primes|] == primes;
  }

  // ---------- what the result keeps ----------

  /** e is a multiple of the order that still divides phi and, for a unit, still kills g. */
  lemma {:induction false} StripKeeps(order: pos, d: factor, g: nat, n: pos)
    ensures order % Strip(order, d, g, n) == 0
    ensures ModExp(g, order, n) == 1 ==> ModExp(g, Strip(order, d, g, n), n) == 1
    decreases order
  {
    ModMultiple(1, order);
    if order % d == 0 {
      StripQuotient(order, d);
      var k := order / d;
      if ModExp(g, k, n) == 1 {
        StripKeeps(k, d, g, n);
        ModMultiple(d, k);
        DividesTrans(Strip(k, d, g, n), k, order);
      }
    }
  }

  lemma {:induction false} StripAllKeeps(order: pos, ds: seq<factor>, g: nat, n: pos)
    ensures order % StripAll(order, ds, g, n) == 0
    ensures ModExp(g, order, n) == 1 ==> ModExp(g, StripAll(order, ds, g, n), n) == 1
  {
    ModMultiple(1, order);
    if ds != [] {
      var front, d := ds[..|ds| - 1], ds[|ds| - 1];
      StripAllKeeps(order, front, g, n);
      var r := StripAll(order, front, g, n);
      StripKeeps(r, d, g, n);
      DividesTrans(Strip(r, d, g, n), r, order);
    }
  }

  /** d cannot be taken out of e: either it is no factor or the quotient no longer kills g. */
  ghost predicate Maximal(e: pos, d: factor, g: nat, n: pos)
  {
    e % d == 0 ==> ModExp(g, e / d, n) != 1
  }

  lemma {:induction false} StripMaximal(order: pos, d: factor, g: nat, n: pos)
    ensures Maximal(Strip(order, d, g, n), d, g, n)
    decreases order
  {
    if order % d == 0 {
      StripQuotient(order, d);
      if ModExp(g, order / d, n) == 1 {
        StripMaximal(order / d, d, g, n);
      }
    }
  }

  /** What was maximal stays maximal when other divisors are stripped later. */
  lemma MaximalStays(e: pos, f: pos, d: factor, g: nat, n: pos)
    requires n > 1
    requires e % f == 0 && Maximal(e, d, g, n)
    ensures Maximal(f, d, g, n)
  {
    if f % d == 0 && ModExp(g, f / d, n) == 1 {
      StripQuotient(f, d);
      var k := e / f;
      assert e == f * k;
      assert k > 0 by { if k <= 0 { MulMono(k, 0, f); } }
      DividesTrans(d, f, e);
      StripQuotient(e, d);
      assert d * (f / d * k) == d * (e / d);
      MulCancel(d, f / d * k, e / d);
      ModSmall(1, n);
      PowPeriod(g, f / d, k, n);
    }
  }

  lemma {:induction false} StripAllMaximal(order: pos, ds: seq<factor>, g: nat, n: pos, i: nat)
    requires n > 1
    requires i < |ds|
    ensures Maximal(StripAll(order, ds, g, n), ds[i], g, n)
  {
    var front, d := ds[..|ds| - 1], ds[|ds| - 1];
    var r := StripAll(order, front, g, n);
    if i == |ds| - 1 {
      StripMaximal(r, d, g, n);
    } else {
      assert front[i] == ds[i];
      StripAllMaximal(order, front, g, n, i);
      StripKeeps(r, d, g, n);
      MaximalStays(r, Strip(r, d, g, n), ds[i], g, n);
    }
  }
}
