/** Cut and choose: run many instances of a two-party protocol and open all but one. */
module CutAndChoose {
  import opened Wrappers

  /** A protocol between parties with states A and B. What a party samples is part of its state. */
  datatype Protocol<!A(==), !B(==)> = Protocol(
    init: (A, B) -> Result<(A, B)>,
    exec: (A, B) -> Result<(A, B)>,
    open: (A, B) -> Result<(A, B)>,
    openVerified: B -> bool)
  {
    function Run(a: A, b: B): Result<(A, B)> {
      var s :- init(a, b);
      exec(s.0, s.1)
    }

    /** An executed instance that opens, and whose opening the second party accepts. */
    predicate OpensWell(s: (A, B)) {
      open(s.0, s.1).Ok? && openVerified(open(s.0, s.1).value.1)
    }
  }

  class Prover<A(==)> {
    var v: seq<A>

    constructor (v: seq<A>)
      ensures this.v == v
    {
      this.v := v;
    }
  }

  class Verifier<B(==)> {
    var v: seq<B>
    const i: int
    var res: bool

    constructor (v: seq<B>, i: int)
      ensures this.v == v && this.i == i
    {
      this.v, this.i, res := v, i, false;
    }
  }

  /** Every instance runs without an exception. */
  predicate AllRun<A, B>(proto: Protocol<A, B>, a: seq<A>, b: seq<B>)
    requires |a| == |b|
  {
    forall j :: 0 <= j < |a| ==> proto.Run(a[j], b[j]).Ok?
  }

  /** Instance j after the first loop. */
  predicate IsRun<A, B>(proto: Protocol<A, B>, a: seq<A>, b: seq<B>, s: (A, B), j: nat)
    requires |a| == |b| && j < |a|
  {
    Ok(s) == proto.Run(a[j], b[j])
  }

  /** Instance j after its successful opening. */
  predicate IsOpened<A, B>(proto: Protocol<A, B>, a: seq<A>, b: seq<B>, s: (A, B), j: nat)
    requires |a| == |b| && j < |a|
  {
    var run := proto.Run(a[j], b[j]);
    run.Ok? && Ok(s) == proto.open(run.value.0, run.value.1) && proto.openVerified(s.1)
  }

  predicate OthersOpenWell<A, B>(proto: Protocol<A, B>, a: seq<A>, b: seq<B>, chosen: int)
    requires |a| == |b| && AllRun(proto, a, b)
  {
    forall j :: 0 <= j < |a| && j != chosen ==> proto.OpensWell(proto.Run(a[j], b[j]).value)
  }

  /** Instance bad was opened without being accepted, and nothing after it was opened. */
  predicate StoppedAt<A, B>(proto: Protocol<A, B>, a: seq<A>, b: seq<B>, a': seq<A>, b': seq<B>, bad: int)
    requires |a| == |b| == |a'| == |b'|
  {
    && 0 <= bad < |a|
    && !proto.openVerified(b'[bad])
    && forall j :: bad < j < |a| ==> IsRun(proto, a, b, (a'[j], b'[j]), j)
  }

  /** What both loops leave behind, in terms of the instances alone. */
  lemma CompleteRun<A, B>(proto: Protocol<A, B>, a: seq<A>, b: seq<B>, a': seq<A>, b': seq<B>, chosen: int)
    requires |a| == |b| == |a'| == |b'|
    requires forall j :: 0 <= j < |a| && j != chosen ==> IsOpened(proto, a, b, (a'[j], b'[j]), j)
    requires 0 <= chosen < |a| ==> IsRun(proto, a, b, (a'[chosen], b'[chosen]), chosen)
    ensures AllRun(proto, a, b) && OthersOpenWell(proto, a, b, chosen)
  {
    forall j | 0 <= j < |a| ensures proto.Run(a[j], b[j]).Ok? {
      if j != chosen { assert IsOpened(proto, a, b, (a'[j], b'[j]), j); }
    }
    forall j | 0 <= j < |a| && j != chosen ensures proto.OpensWell(proto.Run(a[j], b[j]).value) {
      assert IsOpened(proto, a, b, (a'[j], b'[j]), j);
    }
  }

  /** cut_and_choose without the flag for testing: it succeeds with a positive result exactly when
      every instance runs and every instance but the chosen one opens well; the chosen instance is
      never opened, and nothing after the first bad opening is. */
  method CutAndChoose<A(==), B(==)>(proto: Protocol<A, B>, p: Prover<A>, v: Verifier<B>) returns (r: Result<()>)
    requires |p.v| == |v.v|
    modifies p`v, v`v, v`res
    ensures |p.v| == |v.v| == old(|p.v|)
    ensures r.Ok? && v.res <==>
      AllRun(proto, old(p.v), old(v.v)) && OthersOpenWell(proto, old(p.v), old(v.v), v.i)
    ensures r.Ok? && v.res ==> forall j :: 0 <= j < |p.v| && j != v.i ==>
      IsOpened(proto, old(p.v), old(v.v), (p.v[j], v.v[j]), j)
    ensures r.Ok? && 0 <= v.i < |p.v| ==> IsRun(proto, old(p.v), old(v.v), (p.v[v.i], v.v[v.i]), v.i)
    ensures r.Ok? && !v.res ==>
      exists bad :: bad != v.i && StoppedAt(proto, old(p.v), old(v.v), p.v, v.v, bad)
  {
    for i := 0 to |p.v|
      invariant |p.v| == |v.v| == old(|p.v|)
      invariant forall j :: 0 <= j < i ==> IsRun(proto, old(p.v), old(v.v), (p.v[j], v.v[j]), j)
      invariant forall j :: i <= j < |p.v| ==> p.v[j] == old(p.v[j]) && v.v[j] == old(v.v[j])
    {
      var started :- proto.init(p.v[i], v.v[i]);
      var ended :- proto.exec(started.0, started.1);
      p.v, v.v := p.v[i := ended.0], v.v[i := ended.1];
    }
    v.res := true;
    for i := 0 to |p.v|
      invariant |p.v| == |v.v| == old(|p.v|) && v.res
      invariant forall j :: 0 <= j < i && j != v.i ==> IsOpened(proto, old(p.v), old(v.v), (p.v[j], v.v[j]), j)
      invariant forall j :: (i <= j < |p.v| || (j == v.i && 0 <= j < |p.v|)) ==>
        IsRun(proto, old(p.v), old(v.v), (p.v[j], v.v[j]), j)
    {
      if i != v.i {
        assert IsRun(proto, old(p.v), old(v.v), (p.v[i], v.v[i]), i);
        var opening :- proto.open(p.v[i], v.v[i]);
        p.v, v.v := p.v[i := opening.0], v.v[i := opening.1];
        if !proto.openVerified(v.v[i]) {
          v.res := false;
          assert StoppedAt(proto, old(p.v), old(v.v), p.v, v.v, i);
          return Ok(());
        }
      }
    }
    CompleteRun(proto, old(p.v), old(v.v), p.v, v.v, v.i);
    return Ok(());
  }
}
