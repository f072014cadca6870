/**
 Jacobson's round-trip estimator and the retransmission timer. The source's floats are
 real numbers here. The functions are the reference; the class updates the struct in
 place as the source does and is proved against them.
 */
module Rtt {

  const RXTMIN: real := 2.0
  const RXTMAX: real := 60.0
  const MAXNREXMT: int := 3

  /** struct rtt_info. */
  datatype Info = Info(rtt: real, srtt: real, rttvar: real, rto: real, nrexmt: int, base: nat)

  function MinMax(rto: real): (r: real)
    ensures RXTMIN <= r <= RXTMAX
    ensures RXTMIN <= rto <= RXTMAX ==> r == rto
    ensures (rto < RXTMIN ==> r == RXTMIN) && (rto > RXTMAX ==> r == RXTMAX)
  {
    if rto < RXTMIN then RXTMIN else if rto > RXTMAX then RXTMAX else rto
  }

  function Abs(x: real): real {
    if x < 0.0 then -x else x
  }

  /** The limits choose the permitted timeout nearest to the one asked for. */
  lemma {:induction false} MinMaxNearest(rto: real, x: real)
    requires RXTMIN <= x <= RXTMAX
    ensures Abs(rto - MinMax(rto)) <= Abs(rto - x)
    ensures Abs(rto - MinMax(rto)) == Abs(rto - x) ==> x == MinMax(rto)
  {
  }

  function RtoCalc(srtt: real, rttvar: real): real {
    srtt + 4.0 * rttvar
  }

  function Initial(now: nat, nrexmt: int): Info {
    Info(0.0, 0.0, 0.75, MinMax(RtoCalc(0.0, 0.75)), nrexmt, now)
  }

  function NewPack(i: Info): Info {
    i.(nrexmt := 0)
  }

  /** The seconds for alarm(): the timeout rounded to the nearest integer. */
  function Start(i: Info): int {
    (i.rto + 0.5).Floor
  }

  /** The estimators after a sample of `ms` milliseconds: gain 1/8 for the mean and 1/4
      for the mean deviation, both from the error against the old mean. */
  function Stop(i: Info, ms: nat): Info {
    var r := ms as real / 1000.0;
    var srtt := i.srtt + (r - i.srtt) / 8.0;
    var rttvar := i.rttvar + (Abs(r - i.srtt) - i.rttvar) / 4.0;
    Info(r, srtt, rttvar, MinMax(RtoCalc(srtt, rttvar)), i.nrexmt, i.base)
  }

  function Timeout(i: Info): Info {
    i.(rto := i.rto * 2.0, nrexmt := i.nrexmt + 1)
  }

  class RttInfo {
    var rtt: real
    var srtt: real
    var rttvar: real
    var rto: real
    var nrexmt: int
    var base: nat

    ghost function View(): Info
      reads this
    {
      Info(rtt, srtt, rttvar, rto, nrexmt, base)
    }

    /** Static data starts as zero. */
    constructor ()
      ensures View() == Info(0.0, 0.0, 0.0, 0.0, 0, 0)
    {
      rtt, srtt, rttvar, rto, nrexmt, base := 0.0, 0.0, 0.0, 0.0, 0, 0;
    }

    /** rtt_init leaves the retransmission count to rtt_newpack. */
    method Init(now: nat)
      modifies this
      ensures View() == Initial(now, old(nrexmt))
    {
      base := now;
      rtt := 0.0;
      srtt := 0.0;
      rttvar := 0.75;
      rto := MinMax(RtoCalc(srtt, rttvar));
    }

    method NewPacket()
      modifies this
      ensures View() == NewPack(old(View()))
    {
      nrexmt := 0;
    }

    method Stopped(ms: nat)
      modifies this
      ensures View() == Stop(old(View()), ms)
    {
      rtt := ms as real / 1000.0;
      var delta := rtt - srtt;
      srtt := srtt + delta / 8.0;
      if delta < 0.0 {
        delta := -delta;
      }
      rttvar := rttvar + (delta - rttvar) / 4.0;
      rto := MinMax(RtoCalc(srtt, rttvar));
    }

    method TimedOut() returns (giveUp: bool)
      modifies this
      ensures View() == Timeout(old(View())) && giveUp == (View().nrexmt > MAXNREXMT)
    {
      rto := rto * 2.0;
      nrexmt := nrexmt + 1;
      giveUp := nrexmt > MAXNREXMT;
    }
  }

  // ---------- bounds ----------

  function Max(x: real, y: real): real {
    if x < y then y else x
  }

  /** The estimators stay within the samples: `hi` bounds every sample so far. */
  ghost predicate Bounded(i: Info, hi: real) {
    0.0 <= i.srtt <= hi && 0.0 <= i.rttvar <= Max(0.75, hi)
  }

  lemma {:induction false} StopBounded(i: Info, hi: real, ms: nat)
    requires Bounded(i, hi)
    ensures Bounded(Stop(i, ms), Max(hi, ms as real / 1000.0))
  {
    var r := ms as real / 1000.0;
    var top := Max(hi, r);
    assert Stop(i, ms).srtt == 0.875 * i.srtt + 0.125 * r;
    assert Stop(i, ms).rttvar == 0.75 * i.rttvar + 0.25 * Abs(r - i.srtt);
    assert Abs(r - i.srtt) <= top;
  }

  function Pow2(k: nat): nat {
    if k == 0 then 1 else 2 * Pow2(k - 1)
  }

  /** The timer of the k-th retransmission lies between 2 and 60 seconds, doubled k times. */
  ghost predicate TimerScale(i: Info, k: nat) {
    RXTMIN * Pow2(k) as real <= i.rto <= RXTMAX * Pow2(k) as real
  }

  lemma {:induction false} TimeoutScale(i: Info, k: nat)
    requires TimerScale(i, k)
    ensures TimerScale(Timeout(i), k + 1)
  {
    assert Pow2(k + 1) as real == 2.0 * Pow2(k) as real;
  }

  /** The alarm is the whole number of seconds nearest to the timeout, with halves up. */
  lemma {:induction false} StartNearest(i: Info)
    ensures Start(i) as real - 0.5 <= i.rto < Start(i) as real + 0.5
  {
  }

  /** Rounding respects the bounds, so alarm() is never armed with 0. */
  lemma {:induction false} StartScale(i: Info, k: nat)
    requires TimerScale(i, k)
    ensures 2 * Pow2(k) <= Start(i) <= 60 * Pow2(k)
  {
    var p := Pow2(k);
    assert (2 * p) as real == 2.0 * p as real && (60 * p) as real == 60.0 * p as real;
    FloorBetween(i.rto, 2 * p, 60 * p);
  }

  lemma {:induction false} FloorBetween(x: real, lo: int, hi: int)
    requires lo as real <= x <= hi as real
    ensures lo <= (x + 0.5).Floor <= hi
  {
  }

  /** k timeouts in a row. */
  ghost function Timeouts(i: Info, k: nat): Info {
    if k == 0 then i else Timeout(Timeouts(i, k - 1))
  }

  /** Without any sample the alarms are 3, 6, 12 and 24 seconds: the first timeout is the
      3 seconds the source announces, doubled each time. */
  lemma {:induction false} FirstTimeouts(now: nat, nrexmt: int, k: nat)
    ensures var i := Timeouts(NewPack(Initial(now, nrexmt)), k);
            i.rto == (3 * Pow2(k)) as real && i.nrexmt == k && Start(i) == 3 * Pow2(k)
  {
    if k > 0 {
      FirstTimeouts(now, nrexmt, k - 1);
    }
    var i := Timeouts(NewPack(Initial(now, nrexmt)), k);
    assert i.rto == (3 * Pow2(k)) as real;
    FloorBetween(i.rto, 3 * Pow2(k), 3 * Pow2(k));
  }

  // ---------- convergence ----------

  function Pow(b: real, n: nat): real {
    if n == 0 then 1.0 else b * Pow(b, n - 1)
  }

  /** n samples of the same size. */
  ghost function Repeat(i: Info, ms: nat, n: nat): Info {
    if n == 0 then i else Stop(Repeat(i, ms, n - 1), ms)
  }

  lemma {:induction false} StopForm(i: Info, ms: nat)
    ensures var r := ms as real / 1000.0;
            && Stop(i, ms).srtt - r == 0.875 * (i.srtt - r)
            && Stop(i, ms).rttvar == 0.75 * i.rttvar + 0.25 * Abs(r - i.srtt)
  {
  }

  lemma {:induction false} PowStep(b: real, n: nat)
    requires n > 0
    ensures Pow(b, n) == b * Pow(b, n - 1)
  {
  }

  lemma {:induction false} PowZero(b: real, x: real)
    ensures Pow(b, 0) == 1.0 && Pow(b, 0) * x == x
  {
  }

  lemma {:induction false} RepeatStep(i: Info, ms: nat, n: nat)
    ensures Repeat(i, ms, 0) == i
    ensures n > 0 ==> Repeat(i, ms, n) == Stop(Repeat(i, ms, n - 1), ms)
  {
  }

  /** On a path with a constant round-trip time the error of the mean shrinks by 7/8 per sample. */
  lemma {:induction false} ConstantPathMean(i: Info, ms: nat, n: nat)
    ensures var r := ms as real / 1000.0; Repeat(i, ms, n).srtt - r == Pow(0.875, n) * (i.srtt - r)
  {
    hide *;
    RepeatStep(i, ms, n);
    if n == 0 {
      PowZero(0.875, i.srtt - ms as real / 1000.0);
    } else {
      ConstantPathMean(i, ms, n - 1);
      PowStep(0.875, n);
      var r := ms as real / 1000.0;
      var p := Repeat(i, ms, n - 1);
      StopForm(p, ms);
      MeanStep(Pow(0.875, n - 1), i.srtt - r, p.srtt - r, Pow(0.875, n), Repeat(i, ms, n).srtt - r);
    }
  }

  /** The mean deviation follows in closed form. */
  lemma {:induction false} ConstantPath(i: Info, ms: nat, n: nat)
    ensures var r := ms as real / 1000.0;
            var e := Abs(r - i.srtt);
            && Repeat(i, ms, n).srtt - r == Pow(0.875, n) * (i.srtt - r)
            && Repeat(i, ms, n).rttvar == Pow(0.75, n) * i.rttvar + 2.0 * e * (Pow(0.875, n) - Pow(0.75, n))
  {
    hide *;
    ConstantPathMean(i, ms, n);
    RepeatStep(i, ms, n);
    if n == 0 {
      PowZero(0.875, i.rttvar);
      PowZero(0.75, i.rttvar);
    } else {
      ConstantPath(i, ms, n - 1);
      PowStep(0.875, n);
      PowStep(0.75, n);
      PowPositive(0.875, n - 1);
      var r := ms as real / 1000.0;
      var p := Repeat(i, ms, n - 1);
      var a, b := Pow(0.875, n - 1), Pow(0.75, n - 1);
      StopForm(p, ms);
      ScaledError(a, i.srtt, p.srtt, r);
      DeviationStep(a, b, i.rttvar, Abs(r - i.srtt), p.rttvar, Pow(0.875, n), Pow(0.75, n),
                    Abs(r - p.srtt), Repeat(i, ms, n).rttvar);
    }
  }

  /** On such a path the timeout follows too. Its distance from the round-trip time, taken
      within the limits, stays below a bound that shrinks by 7/8 per sample; the distance
      itself may grow at first. */
  lemma {:induction false} ConstantPathTimeout(i: Info, ms: nat, n: nat)
    requires n > 0 && i.rttvar >= 0.0
    ensures var r := ms as real / 1000.0;
            var e := Abs(r - i.srtt);
            var a, b := Pow(0.875, n), Pow(0.75, n);
            && Repeat(i, ms, n).rto == MinMax(r + a * (i.srtt - r) + 4.0 * (b * i.rttvar + 2.0 * e * (a - b)))
            && Abs(Repeat(i, ms, n).rto - MinMax(r)) <= a * (9.0 * e + 4.0 * i.rttvar)
  {
    hide *;
    var r := ms as real / 1000.0;
    var e := Abs(r - i.srtt);
    var a, b, m := Pow(0.875, n), Pow(0.75, n), Repeat(i, ms, n);
    ConstantPath(i, ms, n);
    RepeatStep(i, ms, n);
    StopRto(Repeat(i, ms, n - 1), ms);
    PowPositive(0.875, n);
    PowOrder(n);
    AbsPositive(r - i.srtt);
    ScaledError(a, i.srtt, m.srtt, r);
    DeviationBound(a, b, i.rttvar, e);
    MinMaxNear(m.srtt, m.rttvar, r, a * e, a * (i.rttvar + 2.0 * e));
    BoundForm(a, e, i.rttvar);
    assert m.srtt == r + a * (i.srtt - r);
  }

  lemma {:induction false} AbsPositive(x: real)
    ensures Abs(x) >= 0.0
  {
  }

  lemma {:induction false} BoundForm(a: real, e: real, v: real)
    ensures a * (9.0 * e + 4.0 * v) == a * e + 4.0 * (a * (v + 2.0 * e))
  {
  }

  /** The limits do not increase distances. */
  lemma {:induction false} MinMaxNear(s: real, v: real, r: real, p: real, q: real)
    requires Abs(r - s) == p && 0.0 <= v <= q
    ensures Abs(MinMax(s + 4.0 * v) - MinMax(r)) <= p + 4.0 * q
  {
  }

  /** Bernoulli's inequality for the powers of 7/8. */
  lemma {:induction false} PowBound(n: nat)
    ensures 0.0 < Pow(0.875, n) && Pow(0.875, n) * (1.0 + n as real / 7.0) <= 1.0
  {
    PowPositive(0.875, n);
    if n > 0 {
      PowBound(n - 1);
      var p, q := Pow(0.875, n - 1), Pow(0.875, n);
      var m := (n - 1) as real;
      BernoulliStep(p, q, m);
      assert n as real == m + 1.0;
    }
  }

  lemma {:induction false} BernoulliStep(p: real, q: real, m: real)
    requires p > 0.0 && q == 0.875 * p && m >= 0.0 && p * (1.0 + m / 7.0) <= 1.0
    ensures q * (1.0 + (m + 1.0) / 7.0) <= 1.0
  {
    var pm := p * m;
    assert p * (1.0 + m / 7.0) == p + pm / 7.0;
    assert q * (1.0 + (m + 1.0) / 7.0) == p + 0.125 * pm;
    assert pm >= 0.0;
  }

  /** The powers fall below every positive bound, and stay there. */
  lemma {:induction false} PowVanishes(c: real, eps: real) returns (n: nat)
    requires c >= 0.0 && eps > 0.0
    ensures n > 0 && forall m :: m >= n ==> Pow(0.875, m) * c < eps
  {
    n := (7.0 * (c / eps)).Floor + 1;
    FloorAbove(7.0 * (c / eps));
    forall m | m >= n
      ensures Pow(0.875, m) * c < eps
    {
      PowBound(m);
      hide Pow;
      Below(Pow(0.875, m), m as real, c, eps);
    }
  }

  lemma {:induction false} FloorAbove(x: real)
    ensures x < (x.Floor + 1) as real && (x >= 0.0 ==> x.Floor >= 0)
  {
  }

  lemma {:induction false} Below(p: real, m: real, c: real, eps: real)
    requires eps > 0.0 && c >= 0.0 && p > 0.0 && p * (1.0 + m / 7.0) <= 1.0 && m > 7.0 * (c / eps)
    ensures p * c < eps
  {
    var k := c / eps;
    Scaled(c, eps, k);
    BelowOne(p, m / 7.0, k);
    Grouping(p, k, eps);
    Shrunk(p * k, eps);
  }

  lemma {:induction false} Scaled(c: real, eps: real, k: real)
    requires eps > 0.0 && k == c / eps
    ensures c == k * eps && 7.0 * (c / eps) == 7.0 * k
  {
  }

  lemma {:induction false} BelowOne(p: real, m: real, k: real)
    requires p > 0.0 && p * (1.0 + m) <= 1.0 && m > k
    ensures p * k < 1.0
  {
    var d := p * (m - k);
    assert d > 0.0;
    assert p * k == p * (1.0 + m) - p - d;
  }

  lemma {:induction false} Grouping(p: real, k: real, eps: real)
    ensures p * (k * eps) == (p * k) * eps
  {
  }

  lemma {:induction false} Shrunk(x: real, eps: real)
    requires x < 1.0 && eps > 0.0
    ensures x * eps < eps
  {
    assert (1.0 - x) * eps > 0.0;
  }

  /** On a path with a constant round-trip time the timeout comes to stay as close to that
      time, taken within the limits, as one likes. */
  lemma {:induction false} TimeoutSettles(i: Info, ms: nat, eps: real) returns (n: nat)
    requires i.rttvar >= 0.0 && eps > 0.0
    ensures forall m :: m >= n ==> Abs(Repeat(i, ms, m).rto - MinMax(ms as real / 1000.0)) < eps
  {
    hide *;
    var r := ms as real / 1000.0;
    var c := 9.0 * Abs(r - i.srtt) + 4.0 * i.rttvar;
    AbsPositive(r - i.srtt);
    n := PowVanishes(c, eps);
    forall m | m >= n
      ensures Abs(Repeat(i, ms, m).rto - MinMax(r)) < eps
    {
      ConstantPathTimeout(i, ms, m);
      assert Pow(0.875, m) * c < eps;
    }
  }

  /** The way there need not be monotone: from a settled mean of 2 seconds, with a round trip
      of 10 seconds, the timeout is 11 seconds after one sample and 16.875 after two. */
  lemma {:induction false} TimeoutOvershoots()
    ensures var i := Info(2.0, 2.0, 0.0, 2.0, 0, 0);
            Repeat(i, 10000, 1).rto == 11.0 && Repeat(i, 10000, 2).rto == 16.875
  {
    var i := Info(2.0, 2.0, 0.0, 2.0, 0, 0);
    RepeatStep(i, 10000, 1);
    RepeatStep(i, 10000, 2);
    assert Repeat(i, 10000, 1) == Info(10.0, 3.0, 2.0, 11.0, 0, 0);
    assert Repeat(i, 10000, 2) == Info(10.0, 3.875, 3.25, 16.875, 0, 0);
  }

  lemma {:induction false} StopRto(i: Info, ms: nat)
    ensures Stop(i, ms).rto == MinMax(Stop(i, ms).srtt + 4.0 * Stop(i, ms).rttvar)
  {
  }

  lemma {:induction false} PowOrder(n: nat)
    ensures 0.0 <= Pow(0.75, n) <= Pow(0.875, n)
  {
    if n > 0 {
      PowOrder(n - 1);
    }
  }

  lemma {:induction false} DeviationBound(a: real, b: real, v: real, e: real)
    requires 0.0 <= b <= a && v >= 0.0 && e >= 0.0
    ensures 0.0 <= b * v + 2.0 * e * (a - b) <= a * (v + 2.0 * e)
  {
    assert 0.0 <= (a - b) * v;
    assert 0.0 <= b * v && 0.0 <= b * e && 0.0 <= e * (a - b);
    assert (a - b) * v == a * v - b * v && e * (a - b) == a * e - b * e && a * (v + 2.0 * e) == a * v + 2.0 * (a * e);
    assert 2.0 * e * (a - b) == 2.0 * (a * e) - 2.0 * (b * e);
  }

  lemma {:induction false} PowPositive(b: real, n: nat)
    requires b > 0.0
    ensures Pow(b, n) > 0.0
  {
    if n > 0 {
      PowPositive(b, n - 1);
    }
  }

  lemma {:induction false} ScaledError(a: real, x: real, y: real, r: real)
    requires a > 0.0 && y - r == a * (x - r)
    ensures Abs(r - y) == a * Abs(r - x)
  {
    assert a * (r - x) == r - y;
    if r >= x {
      assert a * (r - x) >= 0.0;
    } else {
      assert a * (x - r) > 0.0;
    }
  }

  lemma {:induction false} MeanStep(a: real, d: real, p: real, q: real, s: real)
    requires p == a * d && q == 0.875 * a && s == 0.875 * p
    ensures s == q * d
  {
  }

  lemma {:induction false} DeviationStep(a: real, b: real, v: real, e: real, p: real, a': real, b': real, x: real,
      s: real)
    requires p == b * v + 2.0 * e * (a - b) && a' == 0.875 * a && b' == 0.75 * b
    requires x == a * e && s == 0.75 * p + 0.25 * x
    ensures s == b' * v + 2.0 * e * (a' - b')
  {
    var ae, be := a * e, b * e;
    assert 2.0 * e * (a - b) == 2.0 * ae - 2.0 * be;
    assert 2.0 * e * (a' - b') == 1.75 * ae - 1.5 * be;
  }
}
