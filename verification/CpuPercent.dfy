/** `cpu_percent`, over exact reals. */
module CpuPercent {
  import opened Text
  import opened Rounding

  /** The numeric properties of one times object, in the order `for in` visits them, and the
      place of `idle` among them. */
  datatype Times = Times(values: seq<real>, idleAt: nat)

  type Sample = t: Times | t.idleAt < |t.values| witness Times([0.0], 0)

  function Idle(t: Sample): real { t.values[t.idleAt] }

  function SumOf(values: seq<real>): real {
    if values == [] then 0.0 else values[0] + SumOf(values[1..])
  }

  function Busy(t: Sample): real { SumOf(t.values) - Idle(t) }

  // ------------------------------------------------------- one entry

  datatype Percent = Finite(p: real) | Infinite | NotANumber

  function Entry(t1: Sample, t2: Sample): Percent {
    if Busy(t2) <= Busy(t1) then Finite(0.0)
    else
      var busyDelta := Busy(t2) - Busy(t1);
      var allDelta := SumOf(t2.values) - SumOf(t1.values);
      if allDelta == 0.0 then Infinite
      else Finite(RoundNumber((busyDelta / allDelta) * 100.0, 2))
  }

  /** The exact share of busy time, in percent. */
  function Share(busy: real, idle: real): real
    requires busy + idle != 0.0
  {
    (busy / (busy + idle)) * 100.0
  }

  lemma {:induction false} ShareIsPercent(busy: real, idle: real)
    requires busy > 0.0 && busy + idle != 0.0
    ensures 0.0 <= Share(busy, idle) <= 100.0 <==> idle >= 0.0
  {
    var all := busy + idle;
    var q := busy / all;
    assert q * all == busy;
    Signs(q, all);
    Signs(1.0 - q, all);
    assert (1.0 - q) * all == idle;
  }

  lemma {:induction false} Signs(x: real, y: real)
    ensures y > 0.0 ==> (x * y >= 0.0 <==> x >= 0.0) && (x * y > 0.0 <==> x > 0.0)
    ensures y < 0.0 ==> (x * y >= 0.0 <==> x <= 0.0) && (x * y > 0.0 <==> x < 0.0)
  {
    if y > 0.0 && x > 0.0 {
      assert x * y > 0.0;
    } else if y > 0.0 && x < 0.0 {
      assert (-x) * y > 0.0;
    } else if y < 0.0 && x > 0.0 {
      assert x * (-y) > 0.0;
    } else if y < 0.0 && x < 0.0 {
      assert (-x) * (-y) > 0.0;
    }
  }

  /** With idle time not decreasing, an entry is a number from 0 to 100: 0 when busy time did
      not grow, and otherwise within 0.005 of the exact share. */
  lemma {:induction false} EntryIsPercent(t1: Sample, t2: Sample)
    requires Idle(t1) <= Idle(t2)
    ensures Entry(t1, t2).Finite? && 0.0 <= Entry(t1, t2).p <= 100.0
    ensures Busy(t2) <= Busy(t1) ==> Entry(t1, t2).p == 0.0
    ensures Busy(t2) > Busy(t1) ==>
              -0.005 <= Entry(t1, t2).p - Share(Busy(t2) - Busy(t1), Idle(t2) - Idle(t1)) <= 0.005
  {
    hide SumOf, RoundNumber;
    if Busy(t2) > Busy(t1) {
      var b, d := Busy(t2) - Busy(t1), Idle(t2) - Idle(t1);
      ShareIsPercent(b, d);
      TwoDecimals();
      RoundedPercent(Share(b, d), 2);
    }
  }

  /** When busy time grew, the entry is a number and its exact share lies in [0, 100] exactly if
      idle time did not decrease. */
  lemma {:induction false} EntryIsPercentExactly(t1: Sample, t2: Sample)
    requires Busy(t2) > Busy(t1)
    ensures var b, d := Busy(t2) - Busy(t1), Idle(t2) - Idle(t1);
            Entry(t1, t2).Finite? && b + d != 0.0 && 0.0 <= Share(b, d) <= 100.0 <==> Idle(t1) <= Idle(t2)
  {
    hide SumOf, RoundNumber;
    var b, d := Busy(t2) - Busy(t1), Idle(t2) - Idle(t1);
    if b + d != 0.0 {
      ShareIsPercent(b, d);
    }
  }

  // ------------------------------------------------------- the request

  /** A times object as a platform delivers it: a field may be undefined. */
  datatype Fields = Fields(values: seq<Option<real>>, idleAt: nat)

  type Object = o: Fields | o.idleAt < |o.values| witness Fields([None], 0)

  predicate Complete(o: Object) { forall k :: 0 <= k < |o.values| ==> o.values[k].Some? }

  function SampleOf(o: Object): (t: Sample)
    requires Complete(o)
    ensures |t.values| == |o.values| && t.idleAt == o.idleAt
    ensures forall k :: 0 <= k < |o.values| ==> t.values[k] == o.values[k].value
  {
    Times(seq(|o.values|, k requires 0 <= k < |o.values| && Complete(o) => o.values[k].value), o.idleAt)
  }

  /** An undefined field makes every sum NaN, and no comparison with NaN holds. */
  function EntryOf(t1: Object, t2: Object): Percent {
    if Complete(t1) && Complete(t2) then Entry(SampleOf(t1), SampleOf(t2)) else NotANumber
  }

  datatype Reading = Failed(error: string) | One(sample: Object) | Many(samples: seq<Object>)

  datatype Result = Single(entry: Option<Percent>) | List(entries: seq<Percent>)

  datatype Call = ErrorCall(error: string) | ValueCall(result: Result)

  /** The array the code goes on with: after an error its one element is no object. */
  function Samples(r: Reading): seq<Option<Object>> {
    match r
    case Failed(_) => [None]
    case One(s) => [Some(s)]
    case Many(ss) => seq(|ss|, i requires 0 <= i < |ss| => Some(ss[i]))
  }

  function ErrorCalls(r: Reading): seq<Call> {
    if r.Failed? then [ErrorCall(r.error)] else []
  }

  /** Reading `idle` of an element that is missing or no object throws. */
  predicate Usable(a: seq<Option<Object>>, b: seq<Option<Object>>) {
    |b| <= |a| && forall i :: 0 <= i < |b| ==> a[i].Some? && b[i].Some?
  }

  function Entries(a: seq<Option<Object>>, b: seq<Option<Object>>): (es: seq<Percent>)
    requires Usable(a, b)
    ensures |es| == |b| && forall i :: 0 <= i < |b| ==> es[i] == EntryOf(a[i].value, b[i].value)
  {
    seq(|b|, i requires 0 <= i < |b| && Usable(a, b) => EntryOf(a[i].value, b[i].value))
  }

  function ResultOf(perCpu: bool, entries: seq<Percent>): Result {
    if perCpu then List(entries)
    else Single(if entries == [] then None else Some(entries[0]))
  }

  /** The calls of one request, in order; without usable samples an exception ends it. */
  function CallsMade(first: Reading, second: Reading, perCpu: bool): seq<Call> {
    ErrorCalls(first) + ErrorCalls(second) +
    if Usable(Samples(first), Samples(second)) then
      [ValueCall(ResultOf(perCpu, Entries(Samples(first), Samples(second))))]
    else []
  }

  /** The sum over all fields; None for NaN. */
  method TotalOf(t: Object) returns (all: Option<real>)
    ensures all == if Complete(t) then Some(SumOf(SampleOf(t).values)) else None
  {
    var sum := 0.0;
    var k := 0;
    ghost var values := if Complete(t) then SampleOf(t).values else [];
    assert values[0..] == values;
    while k < |t.values|
      invariant 0 <= k <= |t.values|
      invariant forall j :: 0 <= j < k ==> t.values[j].Some?
      invariant Complete(t) ==> sum + SumOf(values[k..]) == SumOf(values)
    {
      if t.values[k].None? {
        return None;
      }
      assert Complete(t) ==> values[k..][1..] == values[k + 1..];
      sum := sum + t.values[k].value;
      k := k + 1;
    }
    all := Some(sum);
  }

  /** The callback runs exactly once, without an exception, exactly if both readings succeed and
      the first has at least as many samples as the second; a failed reading is followed by a
      second call or an exception, because nothing returns after the error call. */
  method CpuPercent(first: Reading, second: Reading, perCpu: bool) returns (calls: seq<Call>, threw: bool)
    ensures |calls| == 1 && !threw <==>
            !first.Failed? && !second.Failed? && |Samples(second)| <= |Samples(first)|
    ensures first.Failed? || second.Failed? ==> threw || |calls| > 1
    ensures threw <==> !Usable(Samples(first), Samples(second))
    ensures calls == CallsMade(first, second, perCpu)
    ensures EachIsItsOwn(first, second, perCpu, calls)
  {
    hide Samples, SumOf, RoundNumber, EachIsItsOwn;
    CallsOf(first, second);
    CallsMadeByEach(first, second, perCpu);
    calls := [];
    if first.Failed? {
      calls := calls + [ErrorCall(first.error)];
    }
    var cpuTimes1 := Samples(first);
    if second.Failed? {
      calls := calls + [ErrorCall(second.error)];
    }
    var cpuTimes2 := Samples(second);
    var results: seq<Percent> := [];
    for i := 0 to |cpuTimes2|
      invariant |results| == i
      invariant i <= |cpuTimes1| && forall k :: 0 <= k < i ==> cpuTimes1[k].Some? && cpuTimes2[k].Some?
      invariant forall k :: 0 <= k < i ==> results[k] == EntryOf(cpuTimes1[k].value, cpuTimes2[k].value)
    {
      if i >= |cpuTimes1| || cpuTimes1[i].None? || cpuTimes2[i].None? {
        return calls, true;
      }
      var t1, t2 := cpuTimes1[i].value, cpuTimes2[i].value;
      var t1All := TotalOf(t1);
      var t2All := TotalOf(t2);
      if t1All.None? || t2All.None? {
        results := results + [NotANumber];
        continue;
      }
      var t1Busy, t2Busy := t1All.value - t1.values[t1.idleAt].value, t2All.value - t2.values[t2.idleAt].value;
      if t2Busy <= t1Busy {
        results := results + [Finite(0.0)];
        continue;
      }
      var busyDelta, allDelta := t2Busy - t1Busy, t2All.value - t1All.value;
      results := results + [if allDelta == 0.0 then Infinite
                            else Finite(RoundNumber((busyDelta / allDelta) * 100.0, 2))];
    }
    threw := false;
    assert results == Entries(cpuTimes1, cpuTimes2);
    calls := calls + [ValueCall(ResultOf(perCpu, results))];
  }

  lemma {:induction false} CallsOf(first: Reading, second: Reading)
    ensures Usable(Samples(first), Samples(second)) && !first.Failed? && !second.Failed? <==>
            !first.Failed? && !second.Failed? && |Samples(second)| <= |Samples(first)|
  {
  }

  /** Two per-CPU readings: the one call delivers a list whose entry i is that of CPU i in both.
      Two readings of the whole: its entry. */
  ghost predicate EachIsItsOwn(first: Reading, second: Reading, perCpu: bool, calls: seq<Call>) {
    && (first.Many? && second.Many? && perCpu && |second.samples| <= |first.samples| ==>
          && |calls| == 1 && calls[0].ValueCall? && calls[0].result.List?
          && |calls[0].result.entries| == |second.samples|
          && forall i :: 0 <= i < |second.samples| ==>
               calls[0].result.entries[i] == EntryOf(first.samples[i], second.samples[i]))
    && (first.One? && second.One? ==>
          var entry := EntryOf(first.sample, second.sample);
          calls == [ValueCall(if perCpu then List([entry]) else Single(Some(entry)))])
  }

  lemma {:induction false} CallsMadeByEach(first: Reading, second: Reading, perCpu: bool)
    ensures EachIsItsOwn(first, second, perCpu, CallsMade(first, second, perCpu))
  {
    hide EntryOf;
    if first.One? && second.One? {
      assert Entries(Samples(first), Samples(second)) == [EntryOf(first.sample, second.sample)];
    }
  }

  /** Without an object in each place of the second reading, only the errors are called back. */
  lemma {:induction false} ErrorsAreCalled(e: string, f: string, x: Object, xs: seq<Object>, ys: seq<Object>,
                                           perCpu: bool)
    ensures CallsMade(Failed(e), Failed(f), perCpu) == [ErrorCall(e), ErrorCall(f)]
    ensures CallsMade(Failed(e), One(x), perCpu) == CallsMade(One(x), Failed(e), perCpu) == [ErrorCall(e)]
    ensures CallsMade(Many(xs), Failed(f), perCpu) == [ErrorCall(f)]
    ensures ys != [] ==> CallsMade(Failed(e), Many(ys), perCpu) == [ErrorCall(e)]
    ensures |ys| > |xs| ==> CallsMade(Many(xs), Many(ys), perCpu) == []
  {
    hide EntryOf, Entries;
    assert Samples(Failed(e))[0].None? && Samples(Failed(f))[0].None?;
    if |ys| > |xs| {
      assert !Usable(Samples(Many(xs)), Samples(Many(ys)));
    }
  }

  /** The entry of two objects of seven numbers, the fourth of them the idle time. */
  lemma {:induction false} EntryOfSeven(u: real, n: real, s: real, i: real, w: real, q: real, t: real,
                                        u': real, n': real, s': real, i': real, w': real, q': real, t': real)
    ensures var before, after := u + n + s + w + q + t, u' + n' + s' + w' + q' + t';
            var x := Fields([Some(u), Some(n), Some(s), Some(i), Some(w), Some(q), Some(t)], 3);
            var y := Fields([Some(u'), Some(n'), Some(s'), Some(i'), Some(w'), Some(q'), Some(t')], 3);
            EntryOf(x, y) ==
            if after <= before then Finite(0.0)
            else if after + i' == before + i then Infinite
            else Finite(RoundNumber((after - before) / ((after + i') - (before + i)) * 100.0, 2))
  {
    hide RoundNumber, SumOf;
    var x := Fields([Some(u), Some(n), Some(s), Some(i), Some(w), Some(q), Some(t)], 3);
    var y := Fields([Some(u'), Some(n'), Some(s'), Some(i'), Some(w'), Some(q'), Some(t')], 3);
    assert SampleOf(x).values == [u, n, s, i, w, q, t];
    assert SampleOf(y).values == [u', n', s', i', w', q', t'];
    SumOfSeven(u, n, s, i, w, q, t);
    SumOfSeven(u', n', s', i', w', q', t');
  }

  lemma {:induction false} SumOfSeven(a: real, b: real, c: real, d: real, e: real, f: real, g: real)
    ensures SumOf([a, b, c, d, e, f, g]) == a + b + c + d + e + f + g
  {
    SumOfMore(g, []);
    SumOfMore(f, [g]);
    SumOfMore(e, [f, g]);
    SumOfMore(d, [e, f, g]);
    SumOfMore(c, [d, e, f, g]);
    SumOfMore(b, [c, d, e, f, g]);
    SumOfMore(a, [b, c, d, e, f, g]);
  }

  lemma {:induction false} SumOfMore(x: real, xs: seq<real>)
    ensures SumOf([x] + xs) == x + SumOf(xs)
  {
    assert ([x] + xs)[1..] == xs;
  }

  /** One run with two calls: a failed first reading, then an empty list. */
  lemma {:induction false} TwoCalls(e: string)
    ensures CallsMade(Failed(e), Many([]), true) == [ErrorCall(e), ValueCall(List([]))]
  {
    assert Samples(Many([])) == [];
  }

  // ------------------------------------------------------- the aggregate lies between the CPUs

  predicate SameShape(x: Sample, y: Sample) { |x.values| == |y.values| && x.idleAt == y.idleAt }

  function Plus(x: Sample, y: Sample): Sample
    requires SameShape(x, y)
  {
    Times(seq(|x.values|, i requires 0 <= i < |x.values| => x.values[i] + y.values[i]), x.idleAt)
  }

  predicate AllLike(shape: Sample, cpus: seq<Sample>) {
    forall i :: 0 <= i < |cpus| ==> SameShape(shape, cpus[i])
  }

  /** The field-wise sum of the per-CPU samples. */
  function Aggregate(cpus: seq<Sample>): (t: Sample)
    requires cpus != [] && AllLike(cpus[0], cpus)
    ensures SameShape(t, cpus[0])
  {
    if |cpus| == 1 then cpus[0] else Plus(cpus[0], Aggregate(cpus[1..]))
  }

  lemma {:induction false} SumOfPlus(x: seq<real>, y: seq<real>, z: seq<real>)
    requires |x| == |y| == |z| && forall i :: 0 <= i < |x| ==> z[i] == x[i] + y[i]
    ensures SumOf(z) == SumOf(x) + SumOf(y)
  {
    if x != [] {
      SumOfPlus(x[1..], y[1..], z[1..]);
    }
  }

  function Deltas(f: Sample -> real, cpus1: seq<Sample>, cpus2: seq<Sample>): (ds: seq<real>)
    requires |cpus1| == |cpus2|
    ensures |ds| == |cpus1| && forall i :: 0 <= i < |ds| ==> ds[i] == f(cpus2[i]) - f(cpus1[i])
  {
    seq(|cpus1|, i requires 0 <= i < |cpus1| => f(cpus2[i]) - f(cpus1[i]))
  }

  lemma {:induction false} PlusAdds(x: Sample, y: Sample)
    requires SameShape(x, y)
    ensures Busy(Plus(x, y)) == Busy(x) + Busy(y) && Idle(Plus(x, y)) == Idle(x) + Idle(y)
  {
    SumOfPlus(x.values, y.values, Plus(x, y).values);
  }

  /** The growth of busy and idle time of the aggregate is the sum of the growths. */
  lemma {:induction false} AggregateDeltas(cpus1: seq<Sample>, cpus2: seq<Sample>)
    requires |cpus1| == |cpus2| > 0 && AllLike(cpus1[0], cpus1) && AllLike(cpus2[0], cpus2)
    ensures var a1, a2 := Aggregate(cpus1), Aggregate(cpus2);
            && Busy(a2) - Busy(a1) == SumOf(Deltas(Busy, cpus1, cpus2))
            && Idle(a2) - Idle(a1) == SumOf(Deltas(Idle, cpus1, cpus2))
    decreases |cpus1|
  {
    hide Busy, Idle, Plus;
    var bs, ds := Deltas(Busy, cpus1, cpus2), Deltas(Idle, cpus1, cpus2);
    if |cpus1| == 1 {
      assert bs[1..] == [] && ds[1..] == [];
    } else {
      var r1, r2 := cpus1[1..], cpus2[1..];
      AggregateDeltas(r1, r2);
      assert bs[1..] == Deltas(Busy, r1, r2) && ds[1..] == Deltas(Idle, r1, r2);
      PlusAdds(cpus1[0], Aggregate(r1));
      PlusAdds(cpus2[0], Aggregate(r2));
    }
  }

  predicate NonNegative(xs: seq<real>) { forall i :: 0 <= i < |xs| ==> xs[i] >= 0.0 }

  lemma {:induction false} SumSign(xs: seq<real>)
    requires NonNegative(xs)
    ensures SumOf(xs) >= 0.0
    ensures SumOf(xs) == 0.0 <==> forall i :: 0 <= i < |xs| ==> xs[i] == 0.0
  {
    if xs != [] {
      SumSign(xs[1..]);
      assert forall i :: 0 < i < |xs| ==> xs[i] == xs[1..][i - 1];
    }
  }

  /** How far a CPU's share, scaled, stands above the ratio of `total` to `t`. */
  function ExcessAt(b: real, d: real, total: real, t: real): real { b * t - total * (b + d) }

  function Excess(bs: seq<real>, ds: seq<real>, total: real, t: real): (xs: seq<real>)
    requires |bs| == |ds|
    ensures |xs| == |bs| && forall i :: 0 <= i < |xs| ==> xs[i] == ExcessAt(bs[i], ds[i], total, t)
  {
    seq(|bs|, i requires 0 <= i < |bs| => ExcessAt(bs[i], ds[i], total, t))
  }

  lemma {:induction false} ExcessAdds(b: real, d: real, rb: real, rd: real, total: real, t: real)
    ensures ExcessAt(b + rb, d + rd, total, t) == ExcessAt(b, d, total, t) + ExcessAt(rb, rd, total, t)
  {
    Distribute(b, rb, t);
    Distribute(b + d, rb + rd, total);
    assert b + rb + (d + rd) == b + d + (rb + rd);
  }

  lemma {:induction false} ExcessSum(bs: seq<real>, ds: seq<real>, total: real, t: real)
    requires |bs| == |ds|
    ensures SumOf(Excess(bs, ds, total, t)) == ExcessAt(SumOf(bs), SumOf(ds), total, t)
    decreases |bs|
  {
    if bs == [] {
      assert total * 0.0 == 0.0;
    } else {
      ExcessStep(bs, ds, total, t);
    }
  }

  lemma {:induction false} ExcessStep(bs: seq<real>, ds: seq<real>, total: real, t: real)
    requires |bs| == |ds| > 0
    ensures SumOf(Excess(bs, ds, total, t)) == ExcessAt(SumOf(bs), SumOf(ds), total, t)
    decreases |bs|, 0
  {
    hide ExcessAt;
    var xs := Excess(bs, ds, total, t);
    ExcessSum(bs[1..], ds[1..], total, t);
    assert xs[1..] == Excess(bs[1..], ds[1..], total, t);
    ExcessAdds(bs[0], ds[0], SumOf(bs[1..]), SumOf(ds[1..]), total, t);
  }

  lemma {:induction false} Distribute(x: real, y: real, z: real)
    ensures (x + y) * z == x * z + y * z && z * (x + y) == z * x + z * y
  {
  }

  lemma {:induction false} Negated(xs: seq<real>) returns (ys: seq<real>)
    ensures |ys| == |xs| && forall i :: 0 <= i < |xs| ==> ys[i] == -xs[i]
    ensures SumOf(ys) == -SumOf(xs)
  {
    if xs == [] {
      ys := [];
    } else {
      var rest := Negated(xs[1..]);
      ys := [-xs[0]] + rest;
      assert ys[1..] == rest;
    }
  }

  /** Terms that sum to zero and are not positive where nothing was busy: some busy one is not negative. */
  lemma {:induction false} SomeNotBelow(bs: seq<real>, xs: seq<real>) returns (i: nat)
    requires |bs| == |xs| && NonNegative(bs) && SumOf(bs) > 0.0 && SumOf(xs) == 0.0
    requires forall i :: 0 <= i < |bs| && bs[i] == 0.0 ==> xs[i] <= 0.0
    ensures i < |bs| && bs[i] > 0.0 && xs[i] >= 0.0
  {
    if forall k :: 0 <= k < |bs| && bs[k] > 0.0 ==> xs[k] < 0.0 {
      var ys := Negated(xs);
      assert NonNegative(ys);
      SumSign(ys);
      assert forall k :: 0 <= k < |bs| ==> bs[k] == 0.0;
      SumSign(bs);
      assert false;
    }
    i :| 0 <= i < |bs| && bs[i] > 0.0 && xs[i] >= 0.0;
  }

  lemma {:induction false} SomeNotAbove(xs: seq<real>) returns (i: nat)
    requires xs != [] && SumOf(xs) == 0.0
    ensures i < |xs| && xs[i] <= 0.0
  {
    if forall k :: 0 <= k < |xs| ==> xs[k] > 0.0 {
      assert xs[0] > 0.0;
      SumSign(xs);
      assert false;
    }
    i :| 0 <= i < |xs| && xs[i] <= 0.0;
  }

  lemma {:induction false} RatioOrder(b: real, e: real, total: real, t: real)
    requires e > 0.0 && t > 0.0
    ensures b * t >= total * e ==> b / e >= total / t
    ensures b * t <= total * e ==> b / e <= total / t
  {
    var q, r := b / e, total / t;
    assert q * e == b && r * t == total;
    assert b * t == q * (e * t) && total * e == r * (e * t);
    assert e * t > 0.0;
    Signs(q - r, e * t);
    Signs(r - q, e * t);
    assert (q - r) * (e * t) == b * t - total * e;
    assert (r - q) * (e * t) == total * e - b * t;
  }

  /** Busy and idle time never decrease on any CPU. */
  predicate Growing(cpus1: seq<Sample>, cpus2: seq<Sample>)
    requires |cpus1| == |cpus2|
  {
    forall i :: 0 <= i < |cpus1| ==> Busy(cpus1[i]) <= Busy(cpus2[i]) && Idle(cpus1[i]) <= Idle(cpus2[i])
  }

  lemma {:induction false} EntryFromDeltas(t1: Sample, t2: Sample)
    requires Busy(t1) <= Busy(t2) && Idle(t1) <= Idle(t2)
    ensures var b, d := Busy(t2) - Busy(t1), Idle(t2) - Idle(t1);
            Entry(t1, t2) == if b == 0.0 then Finite(0.0) else Finite(RoundNumber(b / (b + d) * 100.0, 2))
  {
    hide SumOf, RoundNumber;
  }

  lemma {:induction false} RoundedRatios(b: real, e: real, total: real, t: real)
    requires e > 0.0 && t > 0.0
    ensures b * t >= total * e ==> RoundNumber(b / e * 100.0, 2) >= RoundNumber(total / t * 100.0, 2)
    ensures b * t <= total * e ==> RoundNumber(b / e * 100.0, 2) <= RoundNumber(total / t * 100.0, 2)
  {
    hide RoundNumber;
    RatioOrder(b, e, total, t);
    var x, y := b / e * 100.0, total / t * 100.0;
    if x <= y {
      RoundIsMonotone(x, y, 2);
    }
    if y <= x {
      RoundIsMonotone(y, x, 2);
    }
  }

  /** The aggregate percentage lies between the smallest and the largest per-CPU percentage, the
      zero branch and the rounding included. */
  lemma {:induction false} AggregateIsBetween(cpus1: seq<Sample>, cpus2: seq<Sample>) returns (low: nat, high: nat)
    requires |cpus1| == |cpus2| > 0 && AllLike(cpus1[0], cpus1) && AllLike(cpus2[0], cpus2)
    requires Growing(cpus1, cpus2)
    ensures low < |cpus1| && high < |cpus1|
    ensures var whole := Entry(Aggregate(cpus1), Aggregate(cpus2));
            var least, most := Entry(cpus1[low], cpus2[low]), Entry(cpus1[high], cpus2[high]);
            whole.Finite? && least.Finite? && most.Finite? && least.p <= whole.p <= most.p
  {
    hide Busy, Idle, Entry, RoundNumber, Aggregate, SumOf, SameShape;
    var bs, ds := Deltas(Busy, cpus1, cpus2), Deltas(Idle, cpus1, cpus2);
    assert NonNegative(bs) && NonNegative(ds);
    AggregateDeltas(cpus1, cpus2);
    SumSign(bs);
    SumSign(ds);
    EntryFromDeltas(Aggregate(cpus1), Aggregate(cpus2));
    var b, t := SumOf(bs), SumOf(bs) + SumOf(ds);
    if b == 0.0 {
      low, high := 0, 0;
      assert bs[0] == 0.0;
      EntryFromDeltas(cpus1[0], cpus2[0]);
    } else {
      low := LowCpu(bs, ds, b, t);
      high := HighCpu(bs, ds, b, t);
      EntryFromDeltas(cpus1[low], cpus2[low]);
      EntryFromDeltas(cpus1[high], cpus2[high]);
      EntryIsPercent(Aggregate(cpus1), Aggregate(cpus2));
      RoundedRatios(bs[high], bs[high] + ds[high], b, t);
      if bs[low] > 0.0 {
        RoundedRatios(bs[low], bs[low] + ds[low], b, t);
      }
    }
  }

  lemma {:induction false} HighCpu(bs: seq<real>, ds: seq<real>, b: real, t: real) returns (i: nat)
    requires |bs| == |ds| && NonNegative(bs) && NonNegative(ds)
    requires b == SumOf(bs) > 0.0 && t == b + SumOf(ds)
    ensures i < |bs| && bs[i] > 0.0 && bs[i] * t >= b * (bs[i] + ds[i])
  {
    hide SumOf;
    ExcessSum(bs, ds, b, t);
    var xs := Excess(bs, ds, b, t);
    forall k | 0 <= k < |bs| && bs[k] == 0.0
      ensures xs[k] <= 0.0
    {
      Signs(ds[k], b);
      assert xs[k] == 0.0 * t - b * (0.0 + ds[k]);
    }
    i := SomeNotBelow(bs, xs);
  }

  lemma {:induction false} LowCpu(bs: seq<real>, ds: seq<real>, b: real, t: real) returns (i: nat)
    requires |bs| == |ds| && NonNegative(bs) && NonNegative(ds)
    requires b == SumOf(bs) > 0.0 && t == b + SumOf(ds)
    ensures i < |bs| && (bs[i] == 0.0 || bs[i] * t <= b * (bs[i] + ds[i]))
  {
    ExcessSum(bs, ds, b, t);
    i := SomeNotAbove(Excess(bs, ds, b, t));
  }
}
