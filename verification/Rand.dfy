/** Integer ranges by rejection sampling, over an arbitrary supply of 64-bit draws. */
module Rand {
  import opened Ir
  import opened SysValues

  const TWO64: nat := 0x1_0000_0000_0000_0000
  type Draw = n: nat | n < 0x1_0000_0000_0000_0000

  /** The size of the incomplete block at the top, as 64-bit arithmetic can compute it. */
  function Reject(span: nat): nat
    requires 0 < span
  {
    ((TWO64 - 1) % span + 1) % span
  }

  predicate Accepts(span: nat, v: Draw)
    requires 0 < span
  {
    Reject(span) == 0 || v <= TWO64 - 1 - Reject(span)
  }

  // ---- The accepted draws --------------------------------------------------------------------------------

  lemma RejectIsRemainder(span: nat)
    requires 0 < span
    ensures Reject(span) == 0x1_0000_0000_0000_0000 % span
  {
    var q, r := (TWO64 - 1) / span, (TWO64 - 1) % span;
    assert TWO64 == span * q + r + 1;
    if r + 1 == span {
      assert TWO64 == span * (q + 1) + 0 by { Distribute(span, q); }
      Divided(span, q + 1, 0, TWO64);
      Divided(span, 1, 0, span);
    } else {
      Divided(span, q, r + 1, TWO64);
      Divided(span, 0, r + 1, r + 1);
    }
  }

  lemma Distribute(s: nat, q: nat)
    ensures s * (q + 1) == s * q + s
  {
  }

  lemma Divided(s: nat, q: nat, r: nat, n: nat)
    requires 0 < s && n == s * q + r && r < s
    ensures n / s == q && n % s == r
  {
    var q2, r2 := n / s, n % s;
    assert n == s * q2 + r2 && 0 <= r2 < s;
    if q2 < q {
      MulMono(s, q2 + 1, q);
      Distribute(s, q2);
    } else if q < q2 {
      MulMono(s, q + 1, q2);
      Distribute(s, q);
    }
  }

  lemma MulMono(s: nat, a: nat, b: nat)
    requires a <= b
    ensures s * a <= s * b
  {
  }

  /** Accepted draws are those below the largest multiple of span that 64 bits can count to. */
  lemma AcceptedBelow(span: nat, v: Draw)
    requires 0 < span
    ensures Accepts(span, v) <==> v < span * (0x1_0000_0000_0000_0000 / span)
  {
    RejectIsRemainder(span);
  }

  /** More than half of all draws are accepted. */
  lemma MostAccepted(span: nat)
    requires 0 < span <= TWO64
    ensures 2 * (span * (0x1_0000_0000_0000_0000 / span)) > 0x1_0000_0000_0000_0000
  {
    var q := TWO64 / span;
    assert TWO64 == span * q + TWO64 % span;
    assert q >= 1;
    MulMono(span, 1, q);
  }

  predicate Hits(v: nat, span: nat, r: nat)
    requires 0 < span
  {
    v % span == r
  }

  ghost function Below(n: nat, span: nat, r: nat): set<nat>
    requires 0 < span
  {
    set v: nat | v < n && Hits(v, span, r)
  }

  lemma {:induction false} CountBelow(q: nat, span: nat, r: nat)
    requires r < span
    ensures |Below(span * q, span, r)| == q
  {
    if q == 0 {
      assert Below(0, span, r) == {};
    } else {
      var p := q - 1;
      CountBelow(p, span, r);
      Distribute(span, p);
      forall v: nat
        ensures v in Below(span * q, span, r) <==> v in Below(span * p, span, r) || v == span * p + r
      {
        Divided(span, p, r, span * p + r);
        if span * p <= v < span * q { Divided(span, p, v - span * p, v); }
      }
      assert Below(span * q, span, r) == Below(span * p, span, r) + {span * p + r};
    }
  }

  /** The draws that are accepted and give residue r. */
  ghost function Preimages(span: nat, r: nat): set<nat>
    requires 0 < span
  {
    set v: nat | v < TWO64 && Hits(v, span, r) && Accepts(span, v)
  }

  /** Every residue has exactly as many accepted draws as every other: no bias. */
  lemma ExactlyUniform(span: nat, r: nat)
    requires 0 < span <= TWO64 && r < span
    ensures |Preimages(span, r)| == 0x1_0000_0000_0000_0000 / span
  {
    var q := TWO64 / span;
    CountBelow(q, span, r);
    forall v: nat ensures v in Preimages(span, r) <==> v in Below(span * q, span, r) {
      assert span * q <= TWO64;
      if v < TWO64 { AcceptedBelow(span, v); }
    }
    assert Preimages(span, r) == Below(span * q, span, r);
  }

  // ---- Drawing ------------------------------------------------------------------------------------------

  /** i is the first accepted draw. */
  ghost predicate FirstAccepted(span: nat, draws: seq<Draw>, i: nat)
    requires 0 < span
  {
    i < |draws| && Accepts(span, draws[i]) && forall j | 0 <= j < i :: !Accepts(span, draws[j])
  }

  /** Redraws until a draw is accepted; None when the supply fails first. */
  method UniformBelow(span: Draw, draws: seq<Draw>) returns (r: Option<Draw>, used: nat)
    requires 0 < span
    ensures r.Some? ==> used > 0 && FirstAccepted(span, draws, used - 1) && r.value == draws[used - 1] % span
    ensures r.None? <==> forall j | 0 <= j < |draws| :: !Accepts(span, draws[j])
  {
    var reject := ((TWO64 - 1) % span + 1) % span;
    used := 0;
    while used < |draws|
      invariant used <= |draws|
      invariant forall j | 0 <= j < used :: !Accepts(span, draws[j])
    {
      var value := draws[used];
      used := used + 1;
      if reject == 0 || value <= TWO64 - 1 - reject {
        assert Accepts(span, draws[used - 1]);
        return Some(value % span), used;
      }
    }
    r := None;
  }

  datatype Drawn = InvalidArgument | SupplyFailed | Value(i: Int64)

  /** The draw v, if accepted, stands for this integer of [lo, hi). */
  function Stands(lo: Int64, hi: Int64, v: Draw): (i: Int64)
    requires lo < hi
    ensures lo <= i < hi
  {
    lo + v % (hi - lo)
  }

  /**
   * An integer of [lo, hi) for all bounds. A span is at most 2^64 - 1, since hi is excluded, so it always
   * fits 64 bits and the case of a span of 2^64 does not arise.
   */
  method RandInt(lo: Int64, hi: Int64, draws: seq<Draw>) returns (r: Drawn, ghost used: nat)
    ensures r.InvalidArgument? <==> lo >= hi
    ensures r.Value? ==> lo <= r.i < hi && used > 0 && FirstAccepted(hi - lo, draws, used - 1) && r.i == Stands(lo, hi, draws[used - 1])
    ensures r.SupplyFailed? ==> forall j | 0 <= j < |draws| :: !Accepts(hi - lo, draws[j])
  {
    used := 0;
    if lo >= hi { return InvalidArgument, 0; }
    var o, n := UniformBelow(hi - lo, draws);
    used := n;
    if o.None? { return SupplyFailed, n; }
    r := Value(lo + o.value);
  }

  ghost function DrawsFor(lo: Int64, hi: Int64, t: Int64): set<nat>
    requires lo < hi
  {
    set v: nat | v < TWO64 && Accepts(hi - lo, v) && Stands(lo, hi, v) == t
  }

  /** Every integer of [lo, hi) is drawn by exactly the same number of accepted draws. */
  lemma RandIntUniform(lo: Int64, hi: Int64, t: Int64)
    requires lo <= t < hi
    ensures |DrawsFor(lo, hi, t)| == 0x1_0000_0000_0000_0000 / (hi - lo)
  {
    var span: nat := hi - lo;
    ExactlyUniform(span, t - lo);
    assert DrawsFor(lo, hi, t) == Preimages(span, t - lo);
  }
}
