/** `cpu_times` on Linux: the cpu lines at the head of /proc/stat. */
module CpuTimes {
  import opened Text
  import opened Numerals

  /** The seven fields; a column the line does not have is undefined. */
  datatype Times = Times(user: Option<Float>, nice: Option<Float>, system: Option<Float>, idle: Option<Float>,
                         iowait: Option<Float>, irq: Option<Float>, softirq: Option<Float>)

  datatype Reply = Failed(message: string) | Aggregate(times: Times) | PerCpu(cpus: seq<Times>)

  /** `split(/\W+/).slice(1)` of a line, each value over the clock rate. */
  function Values(line: string, clockTicks: nat): (values: seq<Float>)
    ensures |values| == |Tokens(line)| - 1
  {
    var ts := Tokens(line)[1..];
    seq(|ts|, i requires 0 <= i < |ts| => Divide(ParseFloat(ts[i]), clockTicks))
  }

  function Field(values: seq<Float>, i: nat): Option<Float> {
    if i < |values| then Some(values[i]) else None
  }

  function TimesOf(values: seq<Float>): Times {
    Times(Field(values, 0), Field(values, 1), Field(values, 2), Field(values, 3),
          Field(values, 4), Field(values, 5), Field(values, 6))
  }

  const CPU_KEY: string := "cpu"

  /** How many lines from the front start with the key. */
  function CpuLines(lines: seq<string>): (n: nat)
    ensures n <= |lines|
  {
    if lines == [] || !(CPU_KEY <= lines[0]) then 0 else 1 + CpuLines(lines[1..])
  }

  /** What the request answers.  Every per-CPU entry is read from line 0, not from its own line. */
  function Answer(file: FileRead, perCpu: bool, clockTicks: nat): Reply {
    if file.ReadError? then Failed(file.message)
    else
      var lines := SplitOn(file.text, '\n');
      var first := TimesOf(Values(lines[0], clockTicks));
      if perCpu then PerCpu(seq(CpuLines(lines[1..]), _ => first)) else Aggregate(first)
  }

  method CpuTimesLinux(file: FileRead, perCpu: bool, clockTicks: nat) returns (r: Reply)
    ensures r == Answer(file, perCpu, clockTicks)
  {
    hide SplitOn, Values, TimesOf;
    if file.ReadError? {
      return Failed(file.message);
    }
    var lines := SplitOn(file.text, '\n');
    if !perCpu {
      return Aggregate(TimesOf(Values(lines[0], clockTicks)));
    }
    var cpuTimes: seq<Times> := [];
    var i := 1;
    while i < |lines|
      invariant 1 <= i <= |lines| && |cpuTimes| == i - 1
      invariant CpuLines(lines[1..]) == i - 1 + CpuLines(lines[i..])
      invariant forall k :: 0 <= k < |cpuTimes| ==> cpuTimes[k] == TimesOf(Values(lines[0], clockTicks))
    {
      assert lines[i..][1..] == lines[i + 1..];
      if !(CPU_KEY <= lines[i]) {
        break;
      }
      cpuTimes := cpuTimes + [TimesOf(Values(lines[0], clockTicks))];
      i := i + 1;
    }
    assert CpuLines(lines[i..]) == 0;
    r := PerCpu(cpuTimes);
  }

  // ------------------------------------------------------- print and parse

  /** A cpu line as the kernel prints it: a name and its counters. */
  datatype Cpu = Cpu(name: string, columns: seq<nat>, gaps: seq<string>)

  predicate Printable(c: Cpu) {
    && "cpu" <= c.name && AllWord(c.name) && |c.columns| >= 7 && |c.gaps| == |c.columns|
    && forall i :: 0 <= i < |c.gaps| ==> c.gaps[i] != "" && InlineBlank(c.gaps[i])
  }

  function Texts(c: Cpu): (ts: seq<string>)
    ensures |ts| == 1 + |c.columns| && ts[0] == c.name
    ensures forall i :: 0 <= i < |c.columns| ==> ts[1..][i] == Decimal(c.columns[i])
  {
    [c.name] + seq(|c.columns|, i requires 0 <= i < |c.columns| => Decimal(c.columns[i]))
  }

  function LineOf(c: Cpu): string
    requires Printable(c)
  {
    Glue(Texts(c), c.gaps)
  }

  function Ticks(n: nat, clockTicks: nat): Option<Float> { Some(Divide(Finite(n as real), clockTicks)) }

  /** The times a line is meant to give. */
  function Meant(c: Cpu, clockTicks: nat): Times
    requires |c.columns| >= 7
  {
    Times(Ticks(c.columns[0], clockTicks), Ticks(c.columns[1], clockTicks), Ticks(c.columns[2], clockTicks),
          Ticks(c.columns[3], clockTicks), Ticks(c.columns[4], clockTicks), Ticks(c.columns[5], clockTicks),
          Ticks(c.columns[6], clockTicks))
  }

  /** A counter over the clock rate. */
  lemma {:induction false} TicksAreSeconds(n: nat, clockTicks: nat)
    requires clockTicks > 0
    ensures Ticks(n, clockTicks) == Some(Finite(n as real / clockTicks as real))
  {
  }

  lemma {:induction false} ReadErrorIsReported(message: string, perCpu: bool, clockTicks: nat)
    ensures Answer(ReadError(message), perCpu, clockTicks) == Failed(message)
  {
  }

  lemma {:induction false} TextsAreWords(c: Cpu)
    requires Printable(c)
    ensures Separated(Texts(c), c.gaps)
    ensures forall i :: 0 <= i < |Texts(c)| ==> '\n' !in Texts(c)[i]
  {
    hide Decimal;
    var ts := Texts(c);
    forall i | 0 <= i < |ts|
      ensures AllWord(ts[i]) && ts[i] != "" && '\n' !in ts[i]
    {
      if i > 0 {
        DecimalIsWord(c.columns[i - 1]);
        assert ts[1..][i - 1] == ts[i];
      }
      assert AllWord(ts[i]) ==> '\n' !in ts[i];
    }
  }

  lemma {:induction false} LineParses(c: Cpu, clockTicks: nat)
    requires Printable(c)
    ensures TimesOf(Values(LineOf(c), clockTicks)) == Meant(c, clockTicks)
  {
    hide Tokens, Glue, ParseFloat, Decimal, Divide, Separated;
    TextsAreWords(c);
    TokensOfGlue(Texts(c), c.gaps);
    forall i | 0 <= i < 7
      ensures Values(LineOf(c), clockTicks)[i] == Divide(Finite(c.columns[i] as real), clockTicks)
    {
      ParseFloatOfDecimal(c.columns[i]);
      assert Texts(c)[1..][i] == Decimal(c.columns[i]);
    }
  }

  lemma {:induction false} LineIsCpu(c: Cpu)
    requires Printable(c)
    ensures '\n' !in LineOf(c) && CPU_KEY <= LineOf(c)
  {
    hide Glue;
    TextsAreWords(c);
    GlueHasNoNewline(Texts(c), c.gaps);
    assert CPU_KEY <= Texts(c)[0] <= LineOf(c);
  }

  function LinesOf(cs: seq<Cpu>): (lines: seq<string>)
    requires forall i :: 0 <= i < |cs| ==> Printable(cs[i])
    ensures |lines| == |cs| && forall i :: 0 <= i < |cs| ==> lines[i] == LineOf(cs[i])
  {
    seq(|cs|, i requires 0 <= i < |cs| => LineOf(cs[i]))
  }

  /** The head of /proc/stat: the aggregate line, one line per CPU, then other lines. */
  function FileOf(total: Cpu, cpus: seq<Cpu>, others: seq<string>): string
    requires Printable(total) && forall i :: 0 <= i < |cpus| ==> Printable(cpus[i])
  {
    Join([LineOf(total)] + LinesOf(cpus) + others, '\n')
  }

  predicate Others(others: seq<string>) {
    && (forall i :: 0 <= i < |others| ==> '\n' !in others[i])
    && (others != [] ==> !("cpu" <= others[0]))
  }

  lemma {:induction false} CpuLinesOf(a: seq<string>, others: seq<string>)
    requires forall i :: 0 <= i < |a| ==> CPU_KEY <= a[i]
    requires Others(others)
    ensures CpuLines(a + others) == |a|
  {
    if a == [] {
      assert a + others == others;
    } else {
      assert (a + others)[1..] == a[1..] + others;
      CpuLinesOf(a[1..], others);
    }
  }

  lemma {:induction false} FileSplits(total: Cpu, cpus: seq<Cpu>, others: seq<string>)
    requires Printable(total) && (forall i :: 0 <= i < |cpus| ==> Printable(cpus[i])) && Others(others)
    ensures var lines := SplitOn(FileOf(total, cpus, others), '\n');
            && lines[0] == LineOf(total) && CpuLines(lines[1..]) == |cpus|
  {
    hide LineOf, SplitOn, Join, CpuLines;
    var lines := [LineOf(total)] + LinesOf(cpus) + others;
    LineIsCpu(total);
    forall i | 0 <= i < |cpus|
      ensures '\n' !in LinesOf(cpus)[i] && CPU_KEY <= LinesOf(cpus)[i]
    {
      LineIsCpu(cpus[i]);
    }
    SplitOfJoin(lines, '\n');
    assert lines[1..] == LinesOf(cpus) + others;
    CpuLinesOf(LinesOf(cpus), others);
  }

  /** On every printed file the aggregate is read right; the per-CPU answer has one entry per
      CPU, and each of them is the aggregate. */
  lemma {:induction false} FileParses(total: Cpu, cpus: seq<Cpu>, others: seq<string>, clockTicks: nat)
    requires Printable(total) && (forall i :: 0 <= i < |cpus| ==> Printable(cpus[i])) && Others(others)
    ensures var file := Contents(FileOf(total, cpus, others));
            && Answer(file, false, clockTicks) == Aggregate(Meant(total, clockTicks))
            && Answer(file, true, clockTicks) == PerCpu(seq(|cpus|, _ => Meant(total, clockTicks)))
  {
    hide SplitOn, Values, TimesOf, Meant, FileOf, LineOf, CpuLines;
    FileSplits(total, cpus, others);
    LineParses(total, clockTicks);
  }

  /** The per-CPU answer is the meant one exactly if every CPU's first seven counters are those
      of the aggregate line. */
  lemma {:induction false} PerCpuIsMeantExactly(total: Cpu, cpus: seq<Cpu>, others: seq<string>, clockTicks: nat)
    requires Printable(total) && (forall i :: 0 <= i < |cpus| ==> Printable(cpus[i])) && Others(others)
    requires clockTicks > 0
    ensures var r := Answer(Contents(FileOf(total, cpus, others)), true, clockTicks);
            && r.PerCpu? && |r.cpus| == |cpus|
            && ((forall i :: 0 <= i < |cpus| ==> r.cpus[i] == Meant(cpus[i], clockTicks)) <==>
                (forall i :: 0 <= i < |cpus| ==> cpus[i].columns[..7] == total.columns[..7]))
  {
    hide Answer, FileOf, Meant;
    FileParses(total, cpus, others, clockTicks);
    forall i | 0 <= i < |cpus|
      ensures Meant(total, clockTicks) == Meant(cpus[i], clockTicks) <==> cpus[i].columns[..7] == total.columns[..7]
    {
      MeantIsInjective(total, cpus[i], clockTicks);
    }
  }

  lemma {:induction false} MeantIsInjective(a: Cpu, b: Cpu, clockTicks: nat)
    requires |a.columns| >= 7 && |b.columns| >= 7 && clockTicks > 0
    ensures Meant(a, clockTicks) == Meant(b, clockTicks) <==> b.columns[..7] == a.columns[..7]
  {
    hide Ticks;
    var x, y := a.columns[..7], b.columns[..7];
    forall i | 0 <= i < 7
      ensures Ticks(x[i], clockTicks) == Ticks(y[i], clockTicks) <==> x[i] == y[i]
    {
      TicksAreInjective(x[i], y[i], clockTicks);
    }
    assert Meant(a, clockTicks) == Meant(b, clockTicks) <==>
           forall i :: 0 <= i < 7 ==> Ticks(x[i], clockTicks) == Ticks(y[i], clockTicks);
  }

  lemma {:induction false} TicksAreInjective(x: nat, y: nat, clockTicks: nat)
    requires clockTicks > 0
    ensures Ticks(x, clockTicks) == Ticks(y, clockTicks) <==> x == y
  {
    var d := clockTicks as real;
    assert ((x as real) / d) * d == x as real && ((y as real) / d) * d == y as real;
  }

  /** Two CPUs, of which only the first worked: the second is reported like both together. */
  lemma {:induction false} SecondCpuReadsAggregate(g: string)
    requires g == " "
    ensures var total := Cpu("cpu", [5, 0, 0, 1, 0, 0, 0], seq(7, _ => g));
            var cpu0 := Cpu("cpu0", [5, 0, 0, 0, 0, 0, 0], seq(7, _ => g));
            var cpu1 := Cpu("cpu1", [0, 0, 0, 1, 0, 0, 0], seq(7, _ => g));
            && Printable(total) && Printable(cpu0) && Printable(cpu1)
            && Answer(Contents(FileOf(total, [cpu0, cpu1], [])), true, 1) == PerCpu(seq(2, _ => Meant(total, 1)))
            && Meant(total, 1) != Meant(cpu1, 1)
  {
    hide Answer, FileOf, Meant, LineOf;
    var total := Cpu("cpu", [5, 0, 0, 1, 0, 0, 0], seq(7, _ => g));
    var cpu0 := Cpu("cpu0", [5, 0, 0, 0, 0, 0, 0], seq(7, _ => g));
    var cpu1 := Cpu("cpu1", [0, 0, 0, 1, 0, 0, 0], seq(7, _ => g));
    FileParses(total, [cpu0, cpu1], [], 1);
    MeantIsInjective(total, cpu1, 1);
    assert total.columns[..7][0] != cpu1.columns[..7][0];
  }
}
