/** `cpu_percent` on Linux: two readings of /proc/stat, and what they are made into. */
module LinuxCpuPercent {
  import opened CpuPercent
  import opened Rounding
  import opened Text
  import N = Numerals
  import T = CpuTimes

  /** A field as the sums see it: a number, or something that makes them NaN. */
  function FieldOf(x: Option<N.Float>): Option<real> {
    if x.Some? && x.value.Finite? then Some(x.value.r) else None
  }

  function ObjectOf(t: T.Times): Object {
    Fields([FieldOf(t.user), FieldOf(t.nice), FieldOf(t.system), FieldOf(t.idle),
            FieldOf(t.iowait), FieldOf(t.irq), FieldOf(t.softirq)], 3)
  }

  function ReadingOf(r: T.Reply): Reading {
    match r
    case Failed(message) => Failed(message)
    case Aggregate(times) => One(ObjectOf(times))
    case PerCpu(cpus) => Many(seq(|cpus|, i requires 0 <= i < |cpus| => ObjectOf(cpus[i])))
  }

  /** /proc/stat at one moment. */
  datatype Stat = Stat(total: T.Cpu, cpus: seq<T.Cpu>, others: seq<string>)

  predicate Printable(s: Stat) {
    T.Printable(s.total) && (forall i :: 0 <= i < |s.cpus| ==> T.Printable(s.cpus[i])) && T.Others(s.others)
  }

  function FileOf(s: Stat): FileRead
    requires Printable(s)
  {
    Contents(T.FileOf(s.total, s.cpus, s.others))
  }

  /** The aggregate percentage between two moments. */
  function Whole(a: Stat, b: Stat, clockTicks: nat): Percent
    requires Printable(a) && Printable(b)
  {
    EntryOf(ObjectOf(T.Meant(a.total, clockTicks)), ObjectOf(T.Meant(b.total, clockTicks)))
  }

  /** Between any two printed files: asked for the whole, the answer is the aggregate percentage;
      asked per CPU, it is that same percentage once for each CPU, whatever the CPUs did, and an
      exception when the second file has more of them. */
  lemma {:induction false} PerCpuIsTheWhole(a: Stat, b: Stat, clockTicks: nat)
    requires Printable(a) && Printable(b)
    ensures CallsMade(ReadingOf(T.Answer(FileOf(a), false, clockTicks)),
                      ReadingOf(T.Answer(FileOf(b), false, clockTicks)), false) ==
              [ValueCall(Single(Some(Whole(a, b, clockTicks))))]
    ensures CallsMade(ReadingOf(T.Answer(FileOf(a), true, clockTicks)),
                      ReadingOf(T.Answer(FileOf(b), true, clockTicks)), true) ==
              if |b.cpus| > |a.cpus| then []
              else [ValueCall(List(seq(|b.cpus|, _ => Whole(a, b, clockTicks))))]
  {
    hide T.Answer, T.FileOf, T.Meant, EntryOf, ObjectOf;
    T.FileParses(a.total, a.cpus, a.others, clockTicks);
    T.FileParses(b.total, b.cpus, b.others, clockTicks);
    var x, y := ObjectOf(T.Meant(a.total, clockTicks)), ObjectOf(T.Meant(b.total, clockTicks));
    var xs, ys := Many(seq(|a.cpus|, _ => x)), Many(seq(|b.cpus|, _ => y));
    assert ReadingOf(T.Answer(FileOf(a), true, clockTicks)) == xs;
    assert ReadingOf(T.Answer(FileOf(b), true, clockTicks)) == ys;
    SameSamples(x, |a.cpus|, y, |b.cpus|);
    OneEach(x, y);
  }

  lemma {:induction false} SameSamples(x: Object, n: nat, y: Object, m: nat)
    ensures var xs, ys := Samples(Many(seq(n, _ => x))), Samples(Many(seq(m, _ => y)));
            && (Usable(xs, ys) <==> m <= n)
            && (m <= n ==> Entries(xs, ys) == seq(m, _ => EntryOf(x, y)))
  {
    hide EntryOf;
  }

  lemma {:induction false} OneEach(x: Object, y: Object)
    ensures Usable(Samples(One(x)), Samples(One(y))) && Entries(Samples(One(x)), Samples(One(y))) == [EntryOf(x, y)]
  {
    hide EntryOf;
  }

  /** All counters but the idle one, the fourth. */
  function BusyTicks(c: T.Cpu): nat
    requires |c.columns| >= 7
  {
    c.columns[0] + c.columns[1] + c.columns[2] + c.columns[4] + c.columns[5] + c.columns[6]
  }

  /** The percentage in the file's own counters: the clock rate does not matter. */
  lemma {:induction false} WholeIsShareOfTicks(a: Stat, b: Stat, clockTicks: nat)
    requires Printable(a) && Printable(b) && clockTicks > 0
    ensures var busy := BusyTicks(b.total) - BusyTicks(a.total);
            var all := busy + b.total.columns[3] - a.total.columns[3];
            Whole(a, b, clockTicks) ==
            if busy <= 0 then Finite(0.0)
            else if all == 0 then Infinite
            else Finite(RoundNumber(busy as real / all as real * 100.0, 2))
  {
    hide RoundNumber, EntryOf;
    var x, y, t := a.total.columns, b.total.columns, clockTicks as real;
    FieldsOfTicks(a.total, clockTicks);
    FieldsOfTicks(b.total, clockTicks);
    EntryOfSeven(x[0] as real / t, x[1] as real / t, x[2] as real / t, x[3] as real / t, x[4] as real / t,
                 x[5] as real / t, x[6] as real / t,
                 y[0] as real / t, y[1] as real / t, y[2] as real / t, y[3] as real / t, y[4] as real / t,
                 y[5] as real / t, y[6] as real / t);
    BusySeconds(a.total, t);
    BusySeconds(b.total, t);
    ScaleFree(BusyTicks(a.total), x[3], BusyTicks(b.total), y[3], t);
  }

  lemma {:induction false} FieldsOfTicks(c: T.Cpu, clockTicks: nat)
    requires |c.columns| >= 7 && clockTicks > 0
    ensures var x, t := c.columns, clockTicks as real;
            ObjectOf(T.Meant(c, clockTicks)) ==
            Fields([Some(x[0] as real / t), Some(x[1] as real / t), Some(x[2] as real / t), Some(x[3] as real / t),
                    Some(x[4] as real / t), Some(x[5] as real / t), Some(x[6] as real / t)], 3)
  {
  }

  lemma {:induction false} BusySeconds(c: T.Cpu, t: real)
    requires |c.columns| >= 7 && t > 0.0
    ensures var x := c.columns;
            x[0] as real / t + x[1] as real / t + x[2] as real / t + x[4] as real / t + x[5] as real / t
            + x[6] as real / t == BusyTicks(c) as real / t
  {
    var x := c.columns;
    SumOver(x[0] as real, x[1] as real, t);
    SumOver((x[0] + x[1]) as real, x[2] as real, t);
    SumOver((x[0] + x[1] + x[2]) as real, x[4] as real, t);
    SumOver((x[0] + x[1] + x[2] + x[4]) as real, x[5] as real, t);
    SumOver((x[0] + x[1] + x[2] + x[4] + x[5]) as real, x[6] as real, t);
  }

  lemma {:induction false} SumOver(x: real, y: real, t: real)
    requires t > 0.0
    ensures x / t + y / t == (x + y) / t
  {
  }

  lemma {:induction false} DifferenceOver(x: real, y: real, t: real)
    requires t > 0.0
    ensures x / t - y / t == (x - y) / t
    ensures x / t <= y / t <==> x <= y
  {
    var d := y / t - x / t;
    assert d * t == y - x;
    Signs(d, t);
  }

  lemma {:induction false} ScaleFree(busy: nat, idle: nat, busy': nat, idle': nat, t: real)
    requires t > 0.0
    ensures var before, after := busy as real / t, busy' as real / t;
            var i, i' := idle as real / t, idle' as real / t;
            var b, all := busy' - busy, busy' - busy + idle' - idle;
            && (after <= before <==> b <= 0)
            && (after + i' == before + i <==> all == 0)
            && (all != 0 ==> (after - before) / ((after + i') - (before + i)) == b as real / all as real)
  {
    SumOver(busy as real, idle as real, t);
    SumOver(busy' as real, idle' as real, t);
    DifferenceOver(busy' as real, busy as real, t);
    var x, y := (busy' + idle') as real, (busy + idle) as real;
    DifferenceOver(x, y, t);
    DifferenceOver(y, x, t);
    var b, all := busy' - busy, busy' - busy + idle' - idle;
    assert x - y == all as real && busy' as real - busy as real == b as real;
    if all != 0 {
      RatioOver(b as real, all as real, t);
    }
  }

  lemma {:induction false} RatioOver(x: real, y: real, t: real)
    requires t > 0.0 && y != 0.0
    ensures y / t != 0.0 && (x / t) / (y / t) == x / y
  {
    var q := y / t;
    assert q * t == y;
    var p := x / t;
    assert p * t == x;
    var r := p / q;
    assert r * q == p;
    assert r * y == r * (q * t) == (r * q) * t == x;
  }
}
