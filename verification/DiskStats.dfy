/** `disk_io_counters` on Linux: the lines of /proc/diskstats whose device /proc/partitions
    lists, summed or per disk. */
module DiskStats {
  import opened Text
  import opened Numerals
  import opened Totals

  datatype DiskCounters = DiskCounters(readCount: Num, writeCount: Num, readBytes: Num, writeBytes: Num,
                                       readTime: Num, writeTime: Num)

  datatype Reply =
    | Failure(message: string)
    | Summed(counters: DiskCounters)
    | PerDisk(disks: map<string, DiskCounters>)

  const ZERO: DiskCounters := DiskCounters(Int(0), Int(0), Int(0), Int(0), Int(0), Int(0))

  function Add(x: DiskCounters, y: DiskCounters): DiskCounters {
    DiskCounters(Plus(x.readCount, y.readCount), Plus(x.writeCount, y.writeCount),
                 Plus(x.readBytes, y.readBytes), Plus(x.writeBytes, y.writeBytes),
                 Plus(x.readTime, y.readTime), Plus(x.writeTime, y.writeTime))
  }

  const DISK_SUM: Sum<DiskCounters> := Sum(ZERO, Add)

  lemma {:induction false} AddIsLawful(x: DiskCounters, y: DiskCounters, z: DiskCounters)
    ensures Add(x, ZERO) == x && Add(x, y) == Add(y, x) && Add(Add(x, y), z) == Add(x, Add(y, z))
  {
    PlusLaws(x.readCount, y.readCount, z.readCount);
    PlusLaws(x.writeCount, y.writeCount, z.writeCount);
    PlusLaws(x.readBytes, y.readBytes, z.readBytes);
    PlusLaws(x.writeBytes, y.writeBytes, z.writeBytes);
    PlusLaws(x.readTime, y.readTime, z.readTime);
    PlusLaws(x.writeTime, y.writeTime, z.writeTime);
  }

  lemma {:induction false} DiskSumIsLawful()
    ensures Lawful(DISK_SUM)
  {
    forall x, y, z
      ensures LawfulAt(DISK_SUM, x, y, z)
    {
      AddIsLawful(x, y, z);
    }
  }

  /** The fourth token of every line after the two header lines; undefined for a short line. */
  function PartitionNames(text: string): seq<Option<string>> {
    var lines := SplitOn(Trim(text), '\n');
    if |lines| < 2 then [] else NamesIn(lines[2..])
  }

  function NamesIn(lines: seq<string>): (names: seq<Option<string>>)
    ensures |names| == |lines|
  {
    seq(|lines|, i requires 0 <= i < |lines| => At(Tokens(Trim(lines[i])), 3))
  }

  function DeviceOf(line: string): Option<string> { At(Tokens(Trim(line)), 2) }

  /** As a property name, undefined becomes the text "undefined". */
  function KeyOf(device: Option<string>): string {
    if device.Some? then device.value else "undefined"
  }

  function CountersOf(values: seq<string>): DiskCounters {
    DiskCounters(ParseIntAt(values, 3), ParseIntAt(values, 7), ParseIntAt(values, 5),
                 ParseIntAt(values, 9), ParseIntAt(values, 6), ParseIntAt(values, 10))
  }

  function CountersIn(line: string): DiskCounters { CountersOf(Tokens(Trim(line))) }

  function RowOf(line: string): (string, DiskCounters) { (KeyOf(DeviceOf(line)), CountersIn(line)) }

  /** The rows of the listed devices, in file order. */
  function Rows(names: seq<Option<string>>, lines: seq<string>): seq<(string, DiskCounters)> {
    if lines == [] then []
    else (if DeviceOf(lines[0]) in names then [RowOf(lines[0])] else []) + Rows(names, lines[1..])
  }

  /** What the request answers: an error when either file cannot be read. */
  function Answer(partitions: FileRead, diskstats: FileRead, perDisk: bool): Reply {
    if partitions.ReadError? then Failure(partitions.message)
    else if diskstats.ReadError? then Failure(diskstats.message)
    else
      var rows := Rows(PartitionNames(partitions.text), SplitOn(Trim(diskstats.text), '\n'));
      if perDisk then PerDisk(LastOf(rows)) else Summed(Total(rows, DISK_SUM))
  }

  method ReadPartitionNames(text: string) returns (names: seq<Option<string>>)
    ensures names == PartitionNames(text)
  {
    hide Tokens, Trim, SplitOn;
    names := [];
    var lines := SplitOn(Trim(text), '\n');
    lines := if |lines| < 2 then [] else lines[2..];
    for i := 0 to |lines|
      invariant |names| == i
      invariant forall j :: 0 <= j < i ==> names[j] == At(Tokens(Trim(lines[j])), 3)
    {
      var values := SplitNonWord(Trim(lines[i]));
      names := names + [At(values, 3)];
    }
  }

  method DiskIoCounters(partitions: FileRead, diskstats: FileRead, perDisk: bool) returns (r: Reply)
    ensures r == Answer(partitions, diskstats, perDisk)
  {
    hide Tokens, Trim, SplitOn, Rows, CountersIn, CountersOf, DeviceOf, LastOf, Total, Add, ReadUpTo, Answer;
    hide KeyOf, PartitionNames;
    if partitions.ReadError? {
      AnswerOfError(partitions.message, diskstats, perDisk);
      return Failure(partitions.message);
    }
    if diskstats.ReadError? {
      AnswerOfSecondError(partitions, diskstats.message, perDisk);
      return Failure(diskstats.message);
    }
    var partitionNames := ReadPartitionNames(partitions.text);
    var disks: map<string, DiskCounters> := map[];
    var total := ZERO;
    var lines := SplitOn(Trim(diskstats.text), '\n');
    ReadNothing(partitionNames, lines, perDisk);
    for i := 0 to |lines|
      invariant ReadUpTo(partitionNames, lines, i, perDisk, disks, total)
    {
      var device, counters := ParseLine(lines[i]);
      ReadOneMore(partitionNames, lines, i, perDisk, disks, total);
      if !perDisk && device in partitionNames {
        total := Add(total, counters);
      } else if perDisk && device in partitionNames {
        disks := disks[KeyOf(device) := counters];
      }
    }
    ReadAll(partitionNames, lines, perDisk, disks, total);
    AnswerOfFiles(partitions.text, diskstats.text, perDisk);
    r := if perDisk then PerDisk(disks) else Summed(total);
  }

  method ParseLine(line: string) returns (device: Option<string>, counters: DiskCounters)
    ensures device == DeviceOf(line) && counters == CountersIn(line)
  {
    hide Tokens, Trim, CountersOf;
    var values := SplitNonWord(Trim(line));
    device := At(values, 2);
    counters := CountersOf(values);
  }

  /** The first `n` lines have been read: into the object, or into the sums. */
  ghost predicate ReadUpTo(names: seq<Option<string>>, lines: seq<string>, n: nat, perDisk: bool,
                           disks: map<string, DiskCounters>, total: DiskCounters) {
    n <= |lines| &&
    if perDisk then disks == LastOf(Rows(names, lines[..n])) else total == Total(Rows(names, lines[..n]), DISK_SUM)
  }

  lemma {:induction false} ReadNothing(names: seq<Option<string>>, lines: seq<string>, perDisk: bool)
    ensures ReadUpTo(names, lines, 0, perDisk, map[], ZERO)
  {
  }

  lemma {:induction false} ReadOneMore(names: seq<Option<string>>, lines: seq<string>, n: nat, perDisk: bool,
                                       disks: map<string, DiskCounters>, total: DiskCounters)
    requires n < |lines| && ReadUpTo(names, lines, n, perDisk, disks, total)
    ensures DeviceOf(lines[n]) !in names ==> ReadUpTo(names, lines, n + 1, perDisk, disks, total)
    ensures DeviceOf(lines[n]) in names && perDisk ==>
              ReadUpTo(names, lines, n + 1, perDisk, disks[KeyOf(DeviceOf(lines[n])) := CountersIn(lines[n])], total)
    ensures DeviceOf(lines[n]) in names && !perDisk ==>
              ReadUpTo(names, lines, n + 1, perDisk, disks, Add(total, CountersIn(lines[n])))
  {
    hide DeviceOf, CountersIn, LastOf, Total, Add, KeyOf;
    var row := RowOf(lines[n]);
    RowsAppend(names, lines[..n], [lines[n]]);
    assert lines[..n + 1] == lines[..n] + [lines[n]];
    assert Rows(names, [lines[n]]) == if DeviceOf(lines[n]) in names then [row] else [];
    DiskSumIsLawful();
    LastOfSnoc(Rows(names, lines[..n]), row);
    TotalSnoc(Rows(names, lines[..n]), row, DISK_SUM);
    assert Rows(names, lines[..n]) + [] == Rows(names, lines[..n]);
  }

  lemma {:induction false} ReadAll(names: seq<Option<string>>, lines: seq<string>, perDisk: bool,
                                   disks: map<string, DiskCounters>, total: DiskCounters)
    requires ReadUpTo(names, lines, |lines|, perDisk, disks, total)
    ensures perDisk ==> disks == LastOf(Rows(names, lines))
    ensures !perDisk ==> total == Total(Rows(names, lines), DISK_SUM)
  {
    assert lines[..|lines|] == lines;
  }

  lemma {:induction false} AnswerOfError(message: string, diskstats: FileRead, perDisk: bool)
    ensures Answer(ReadError(message), diskstats, perDisk) == Failure(message)
  {
  }

  lemma {:induction false} AnswerOfSecondError(partitions: FileRead, message: string, perDisk: bool)
    requires partitions.Contents?
    ensures Answer(partitions, ReadError(message), perDisk) == Failure(message)
  {
  }

  lemma {:induction false} AnswerOfFiles(partitions: string, diskstats: string, perDisk: bool)
    ensures Answer(Contents(partitions), Contents(diskstats), perDisk) ==
              var rows := Rows(PartitionNames(partitions), SplitOn(Trim(diskstats), '\n'));
              if perDisk then PerDisk(LastOf(rows)) else Summed(Total(rows, DISK_SUM))
  {
  }

  lemma {:induction false} RowsAppend(names: seq<Option<string>>, a: seq<string>, b: seq<string>)
    ensures Rows(names, a + b) == Rows(names, a) + Rows(names, b)
  {
    hide DeviceOf, RowOf;
    if a == [] {
      assert a + b == b;
    } else {
      var ab := a + b;
      assert ab[0] == a[0] && ab[1..] == a[1..] + b;
      RowsAppend(names, a[1..], b);
      var first := if DeviceOf(a[0]) in names then [RowOf(a[0])] else [];
      assert Rows(names, ab) == first + (Rows(names, a[1..]) + Rows(names, b));
      assert Rows(names, a) == first + Rows(names, a[1..]);
    }
  }

  // ------------------------------------------------------- properties over all pairs of files

  /** For any two files, the aggregate is the sum over the per-disk object plus the rows a later
      line of the same device replaced. */
  lemma {:induction false} AggregateIsConserved(partitions: string, diskstats: string)
    ensures var rows := Rows(PartitionNames(partitions), SplitOn(Trim(diskstats), '\n'));
            && Answer(Contents(partitions), Contents(diskstats), true) == PerDisk(LastOf(rows))
            && Answer(Contents(partitions), Contents(diskstats), false) ==
                 Summed(Add(SumOver(LastOf(rows), DISK_SUM), Total(Replaced(rows), DISK_SUM)))
  {
    hide Rows, PartitionNames, SplitOn, Trim, Add, LastOf, Total;
    DiskSumIsLawful();
    TotalIsConserved(Rows(PartitionNames(partitions), SplitOn(Trim(diskstats), '\n')), DISK_SUM);
  }

  /** With distinct listed devices, summing the per-disk answer gives the aggregate answer. */
  lemma {:induction false} AggregateIsSumOfDisks(partitions: string, diskstats: string)
    requires Distinct(Rows(PartitionNames(partitions), SplitOn(Trim(diskstats), '\n')))
    ensures var perDisk := Answer(Contents(partitions), Contents(diskstats), true);
            && perDisk.PerDisk?
            && Answer(Contents(partitions), Contents(diskstats), false) == Summed(SumOver(perDisk.disks, DISK_SUM))
  {
    hide Rows, PartitionNames, SplitOn, Trim, LastOf, Add;
    var rows := Rows(PartitionNames(partitions), SplitOn(Trim(diskstats), '\n'));
    AggregateIsConserved(partitions, diskstats);
    DistinctReplacesNothing(rows);
    AddIsLawful(SumOver(LastOf(rows), DISK_SUM), ZERO, ZERO);
  }

  /** In each counter, adding `y` leaves `x` as it is. */
  predicate Unmoved(x: DiskCounters, y: DiskCounters) {
    && AddsNothing(x.readCount, y.readCount) && AddsNothing(x.writeCount, y.writeCount)
    && AddsNothing(x.readBytes, y.readBytes) && AddsNothing(x.writeBytes, y.writeBytes)
    && AddsNothing(x.readTime, y.readTime) && AddsNothing(x.writeTime, y.writeTime)
  }

  predicate NonNegative(c: DiskCounters) {
    && Unsigned(c.readCount) && Unsigned(c.writeCount) && Unsigned(c.readBytes)
    && Unsigned(c.writeBytes) && Unsigned(c.readTime) && Unsigned(c.writeTime)
  }

  lemma {:induction false} SumUnmoves(x: DiskCounters, a: DiskCounters, b: DiskCounters)
    requires NonNegative(a) && NonNegative(b)
    ensures Unmoved(x, Add(a, b)) <==> Unmoved(x, a) && Unmoved(x, b)
    ensures NonNegative(Add(a, b))
  {
    hide AddsNothing, Plus, Unsigned;
    SumAddsNothing(x.readCount, a.readCount, b.readCount);
    SumAddsNothing(x.writeCount, a.writeCount, b.writeCount);
    SumAddsNothing(x.readBytes, a.readBytes, b.readBytes);
    SumAddsNothing(x.writeBytes, a.writeBytes, b.writeBytes);
    SumAddsNothing(x.readTime, a.readTime, b.readTime);
    SumAddsNothing(x.writeTime, a.writeTime, b.writeTime);
  }

  /** Rows without negative numbers add nothing together exactly if none of them does. */
  lemma {:induction false} TotalUnmoves(x: DiskCounters, rows: seq<(string, DiskCounters)>)
    requires forall row :: row in rows ==> NonNegative(row.1)
    ensures Unmoved(x, Total(rows, DISK_SUM)) <==> forall row :: row in rows ==> Unmoved(x, row.1)
    ensures NonNegative(Total(rows, DISK_SUM))
  {
    hide Unmoved, NonNegative, Add;
    if rows == [] {
      ZeroUnmoves(x);
    } else {
      assert rows == [rows[0]] + rows[1..];
      TotalUnmoves(x, rows[1..]);
      SumUnmoves(x, rows[0].1, Total(rows[1..], DISK_SUM));
    }
  }

  lemma {:induction false} ZeroUnmoves(x: DiskCounters)
    ensures Unmoved(x, ZERO) && NonNegative(ZERO)
  {
  }

  lemma {:induction false} RowsAreNonNegative(names: seq<Option<string>>, lines: seq<string>)
    ensures forall row :: row in Rows(names, lines) ==> NonNegative(row.1)
  {
    hide DeviceOf, KeyOf, CountersIn, NonNegative;
    if lines != [] {
      CountersAreNonNegative(lines[0]);
      RowsAreNonNegative(names, lines[1..]);
    }
  }

  lemma {:induction false} CountersAreNonNegative(line: string)
    ensures NonNegative(CountersIn(line))
  {
    hide Tokens, Trim, ParseIntAt, Unsigned;
    var text := Trim(line);
    PositionsAreUnsigned(text, 3);
    PositionsAreUnsigned(text, 5);
    PositionsAreUnsigned(text, 6);
    PositionsAreUnsigned(text, 7);
    PositionsAreUnsigned(text, 9);
    PositionsAreUnsigned(text, 10);
  }

  /** For any two files, the two answers agree exactly if in each counter every replaced row is 0,
      or the rest is NaN anyway. */
  lemma {:induction false} AggregateAgreesExactly(partitions: string, diskstats: string)
    ensures var rows := Rows(PartitionNames(partitions), SplitOn(Trim(diskstats), '\n'));
            var perDisk := Answer(Contents(partitions), Contents(diskstats), true);
            && perDisk.PerDisk?
            && (Answer(Contents(partitions), Contents(diskstats), false) ==
                  Summed(SumOver(perDisk.disks, DISK_SUM)) <==>
                forall row :: row in Replaced(rows) ==> Unmoved(SumOver(perDisk.disks, DISK_SUM), row.1))
  {
    hide Rows, PartitionNames, SplitOn, Trim, LastOf, Total, Add, Unmoved, NonNegative, Replaced;
    var names, lines := PartitionNames(partitions), SplitOn(Trim(diskstats), '\n');
    var rows := Rows(names, lines);
    AggregateIsConserved(partitions, diskstats);
    AddCancels(SumOver(LastOf(rows), DISK_SUM), Total(Replaced(rows), DISK_SUM));
    RowsAreNonNegative(names, lines);
    ReplacedAreRows(rows);
    TotalUnmoves(SumOver(LastOf(rows), DISK_SUM), Replaced(rows));
  }

  lemma {:induction false} AddCancels(x: DiskCounters, y: DiskCounters)
    ensures Add(x, y) == x <==> Unmoved(x, y)
  {
    hide Plus, AddsNothing;
    PlusCancels(x.readCount, y.readCount);
    PlusCancels(x.writeCount, y.writeCount);
    PlusCancels(x.readBytes, y.readBytes);
    PlusCancels(x.writeBytes, y.writeBytes);
    PlusCancels(x.readTime, y.readTime);
    PlusCancels(x.writeTime, y.writeTime);
  }

  /** A line of a device that /proc/partitions does not list changes neither answer, wherever
      it stands among the lines. */
  lemma {:induction false} UnlistedIsIgnored(names: seq<Option<string>>, before: seq<string>, line: string,
                                             after: seq<string>)
    requires DeviceOf(line) !in names
    ensures Rows(names, before + [line] + after) == Rows(names, before + after)
  {
    hide DeviceOf, KeyOf, CountersIn;
    RowsAppend(names, before + [line], after);
    RowsAppend(names, before, [line]);
    RowsAppend(names, before, after);
    assert Rows(names, [line]) == [];
  }

  /** Every device of the per-disk answer is one that /proc/partitions lists. */
  lemma {:induction false} OnlyListedDisks(names: seq<Option<string>>, lines: seq<string>, key: string)
    requires key in LastOf(Rows(names, lines))
    ensures exists line :: line in lines && DeviceOf(line) in names && KeyOf(DeviceOf(line)) == key
  {
    hide DeviceOf, KeyOf, CountersIn;
    if lines != [] {
      var rest := Rows(names, lines[1..]);
      if DeviceOf(lines[0]) in names {
        assert Rows(names, lines)[1..] == rest;
      } else {
        assert Rows(names, lines) == rest;
      }
      if key in LastOf(rest) {
        OnlyListedDisks(names, lines[1..], key);
      } else {
        assert lines[0] in lines;
      }
    }
  }

  /** Each counter is summed by itself. */
  lemma {:induction false} TwoRowsSum(x: (string, DiskCounters), y: (string, DiskCounters))
    ensures Total([x, y], DISK_SUM) ==
            DiskCounters(Plus(x.1.readCount, y.1.readCount), Plus(x.1.writeCount, y.1.writeCount),
                         Plus(x.1.readBytes, y.1.readBytes), Plus(x.1.writeBytes, y.1.writeBytes),
                         Plus(x.1.readTime, y.1.readTime), Plus(x.1.writeTime, y.1.writeTime))
  {
    hide Plus;
    assert [x, y][1..] == [y] && [y][1..] == [];
    AddIsLawful(y.1, ZERO, ZERO);
    assert Total([y], DISK_SUM) == Add(y.1, ZERO);
  }

  /** The first error is the one reported. */
  lemma {:induction false} ErrorsAreReported(message: string, other: FileRead, text: string, perDisk: bool)
    ensures Answer(ReadError(message), other, perDisk) == Failure(message)
    ensures Answer(Contents(text), ReadError(message), perDisk) == Failure(message)
  {
  }

  /** A line too short for a device has none, and its key is the text "undefined". */
  lemma {:induction false} ShortLine(line: string)
    requires |Tokens(Trim(line))| < 3
    ensures DeviceOf(line) == None && RowOf(line).0 == "undefined"
  {
  }
}
