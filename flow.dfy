/** The token bucket that limits both a node's download rate and a link's throughput:
    flow refills at a fixed rate up to a maximum, and sending a message of `size` bytes
    debits it, waiting for whatever the bucket does not yet hold. Flows and times are
    reals; the single- and double-precision rounding of the simulator is not modelled. */
module FlowControl {

  /** The flow after refilling from `last` to `now` and capping at `maximum`. */
  function Refilled(flow: real, rate: real, maximum: real, last: real, now: real): real
  {
    var f := flow + rate * (now - last);
    if f > maximum then maximum else f
  }

  /** How long a message of `size` bytes waits for a bucket holding `flow` that refills
      at `rate`. */
  function Wait(size: int, flow: real, rate: real): real
    requires rate > 0.0
  {
    var w := (size as real - flow) / rate;
    if w > 0.0 then w else 0.0
  }

  /** The refilled flow never exceeds the maximum, and it is the maximum exactly when the
      uncapped refill reaches it. */
  lemma RefilledCapped(flow: real, rate: real, maximum: real, last: real, now: real)
    ensures Refilled(flow, rate, maximum, last, now) <= maximum
    ensures Refilled(flow, rate, maximum, last, now) == maximum
            || Refilled(flow, rate, maximum, last, now) == flow + rate * (now - last)
    ensures flow + rate * (now - last) >= maximum ==> Refilled(flow, rate, maximum, last, now) == maximum
  {
  }

  /** Time running forward at a non-negative rate never lowers the flow unless the cap
      applies. */
  lemma RefilledGrows(flow: real, rate: real, maximum: real, last: real, now: real)
    requires now >= last && rate >= 0.0
    ensures Refilled(flow, rate, maximum, last, now) >= flow
            || Refilled(flow, rate, maximum, last, now) == maximum
  {
    MulNonNegative(rate, now - last);
  }

  /** Refilling twice, with no send in between, refills once over the whole span when
      the cap did not apply the first time. */
  lemma RefilledTwice(flow: real, rate: real, maximum: real, t0: real, t1: real, t2: real)
    requires flow + rate * (t1 - t0) <= maximum
    ensures Refilled(Refilled(flow, rate, maximum, t0, t1), rate, maximum, t1, t2)
            == Refilled(flow, rate, maximum, t0, t2)
  {
    assert rate * (t1 - t0) + rate * (t2 - t1) == rate * (t2 - t0);
  }

  /** A message never arrives before it was requested, and it waits not at all exactly
      when the bucket already holds its size. */
  lemma WaitBounds(size: int, flow: real, rate: real)
    requires rate > 0.0
    ensures Wait(size, flow, rate) >= 0.0
    ensures Wait(size, flow, rate) == 0.0 <==> size as real <= flow
    ensures size as real > flow ==> Wait(size, flow, rate) * rate == size as real - flow
  {
    var d := size as real - flow;
    if d > 0.0 {
      DivPositive(d, rate);
    } else {
      DivNonPositive(d, rate);
    }
  }

  /** A larger debt never waits less. */
  lemma WaitMonotone(size: int, size': int, flow: real, rate: real)
    requires rate > 0.0 && size <= size'
    ensures Wait(size, flow, rate) <= Wait(size', flow, rate)
  {
    var d, d' := size as real - flow, size' as real - flow;
    DivMonotone(d, d', rate);
  }

  lemma MulNonNegative(a: real, b: real)
    requires a >= 0.0 && b >= 0.0
    ensures a * b >= 0.0
  {
  }

  lemma DivPositive(d: real, r: real)
    requires d > 0.0 && r > 0.0
    ensures d / r > 0.0 && d / r * r == d
  {
  }

  lemma DivNonPositive(d: real, r: real)
    requires d <= 0.0 && r > 0.0
    ensures d / r <= 0.0
  {
  }

  lemma DivMonotone(d: real, d': real, r: real)
    requires d <= d' && r > 0.0
    ensures d / r <= d' / r
  {
    assert d' / r - d / r == (d' - d) / r;
  }
}
