/** `network_io_counters` on Linux: the text of /proc/net/dev, summed or per interface. */
module NetDev {
  import opened Text
  import opened Numerals
  import opened Totals

  datatype NicCounters = NicCounters(bytesRecv: Num, packetsRecv: Num, errin: Num, dropin: Num,
                                     bytesSent: Num, packetsSent: Num, errout: Num, dropout: Num)

  datatype Reply =
    | Failure(message: string)
    | Summed(counters: NicCounters)
    | PerNic(nics: map<string, NicCounters>)

  const ZERO: NicCounters := NicCounters(Int(0), Int(0), Int(0), Int(0), Int(0), Int(0), Int(0), Int(0))

  function Add(x: NicCounters, y: NicCounters): NicCounters {
    NicCounters(Plus(x.bytesRecv, y.bytesRecv), Plus(x.packetsRecv, y.packetsRecv),
                Plus(x.errin, y.errin), Plus(x.dropin, y.dropin),
                Plus(x.bytesSent, y.bytesSent), Plus(x.packetsSent, y.packetsSent),
                Plus(x.errout, y.errout), Plus(x.dropout, y.dropout))
  }

  const NIC_SUM: Sum<NicCounters> := Sum(ZERO, Add)

  lemma {:induction false} AddIsLawful(x: NicCounters, y: NicCounters, z: NicCounters)
    ensures Add(x, ZERO) == x && Add(x, y) == Add(y, x) && Add(Add(x, y), z) == Add(x, Add(y, z))
  {
    PlusLaws(x.bytesRecv, y.bytesRecv, z.bytesRecv);
    PlusLaws(x.packetsRecv, y.packetsRecv, z.packetsRecv);
    PlusLaws(x.errin, y.errin, z.errin);
    PlusLaws(x.dropin, y.dropin, z.dropin);
    PlusLaws(x.bytesSent, y.bytesSent, z.bytesSent);
    PlusLaws(x.packetsSent, y.packetsSent, z.packetsSent);
    PlusLaws(x.errout, y.errout, z.errout);
    PlusLaws(x.dropout, y.dropout, z.dropout);
  }

  lemma {:induction false} NicSumIsLawful()
    ensures Lawful(NIC_SUM)
  {
    forall x, y, z
      ensures LawfulAt(NIC_SUM, x, y, z)
    {
      AddIsLawful(x, y, z);
    }
  }

  /** The lines after the two header lines. */
  function BodyLines(text: string): seq<string> {
    var lines := SplitOn(Trim(text), '\n');
    if |lines| < 2 then [] else lines[2..]
  }

  predicate HasColon(line: string) { IndexOf(line, ':') < |line| }

  predicate Parseable(lines: seq<string>) {
    forall i :: 0 <= i < |lines| ==> HasColon(lines[i])
  }

  /** The counters at the positions the code reads; `dropin` comes from the token of `errin`. */
  function CountersOf(values: seq<string>): NicCounters {
    NicCounters(ParseIntAt(values, 0), ParseIntAt(values, 1), ParseIntAt(values, 2), ParseIntAt(values, 2),
                ParseIntAt(values, 8), ParseIntAt(values, 9), ParseIntAt(values, 10), ParseIntAt(values, 11))
  }

  function NameOf(line: string): string { Trim(line[..IndexOf(line, ':')]) }

  function CountersIn(line: string): NicCounters
    requires HasColon(line)
  {
    CountersOf(Tokens(Trim(line[IndexOf(line, ':') + 1..])))
  }

  function RowOf(line: string): (string, NicCounters)
    requires HasColon(line)
  {
    (NameOf(line), CountersIn(line))
  }

  function Rows(lines: seq<string>): (rows: seq<(string, NicCounters)>)
    requires Parseable(lines)
    ensures |rows| == |lines| && forall i :: 0 <= i < |lines| ==> rows[i] == RowOf(lines[i])
  {
    seq(|lines|, i requires 0 <= i < |lines| => RowOf(lines[i]))
  }

  /** What the request answers: an error when the file cannot be read or a line has no colon. */
  function Answer(file: FileRead, perNic: bool): Reply {
    if file.ReadError? then Failure(file.message)
    else
      var lines := BodyLines(file.text);
      if !Parseable(lines) then Failure("failed to parse data")
      else if perNic then PerNic(LastOf(Rows(lines)))
      else Summed(Total(Rows(lines), NIC_SUM))
  }

  method NetworkIoCounters(file: FileRead, perNic: bool) returns (r: Reply)
    ensures r == Answer(file, perNic)
  {
    hide NameOf, CountersIn, HasColon, Add, BodyLines, Answer, ReadUpTo, LastOf, Total;
    if file.ReadError? {
      AnswerOfError(file.message, perNic);
      return Failure(file.message);
    }
    var nics: map<string, NicCounters> := map[];
    var total := ZERO;
    var lines := BodyLines(file.text);
    ReadNothing(lines, perNic);
    for i := 0 to |lines|
      invariant ReadUpTo(lines, i, perNic, nics, total)
    {
      var found, nicName, counters := ParseLine(lines[i]);
      if !found {
        AnswerOf(file.text, perNic, i, nics, total);
        return Failure("failed to parse data");
      }
      ReadOneMore(lines, i, perNic, nics, total);
      if perNic {
        nics := nics[nicName := counters];
      } else {
        total := Add(total, counters);
      }
    }
    AnswerOf(file.text, perNic, |lines|, nics, total);
    r := if perNic then PerNic(nics) else Summed(total);
  }

  /** The first `n` lines have been read: into the object, or into the sums. */
  ghost predicate ReadUpTo(lines: seq<string>, n: nat, perNic: bool, nics: map<string, NicCounters>,
                           total: NicCounters) {
    && n <= |lines| && Parseable(lines[..n])
    && (if perNic then nics == LastOf(Rows(lines[..n])) else total == Total(Rows(lines[..n]), NIC_SUM))
  }

  lemma {:induction false} ReadNothing(lines: seq<string>, perNic: bool)
    ensures ReadUpTo(lines, 0, perNic, map[], ZERO)
  {
  }

  lemma {:induction false} ReadOneMore(lines: seq<string>, n: nat, perNic: bool,
                                       nics: map<string, NicCounters>, total: NicCounters)
    requires n < |lines| && HasColon(lines[n]) && ReadUpTo(lines, n, perNic, nics, total)
    ensures perNic ==> ReadUpTo(lines, n + 1, perNic, nics[NameOf(lines[n]) := CountersIn(lines[n])], total)
    ensures !perNic ==> ReadUpTo(lines, n + 1, perNic, nics, Add(total, CountersIn(lines[n])))
  {
    hide NameOf, CountersIn, HasColon, LastOf, Total, Add;
    var row := RowOf(lines[n]);
    assert Rows(lines[..n + 1]) == Rows(lines[..n]) + [row];
    NicSumIsLawful();
    LastOfSnoc(Rows(lines[..n]), row);
    TotalSnoc(Rows(lines[..n]), row, NIC_SUM);
  }

  lemma {:induction false} AnswerOfError(message: string, perNic: bool)
    ensures Answer(ReadError(message), perNic) == Failure(message)
  {
  }

  /** When reading stops, at the first line without a colon or after the last line. */
  lemma {:induction false} AnswerOf(text: string, perNic: bool, n: nat, nics: map<string, NicCounters>,
                                    total: NicCounters)
    requires var lines := BodyLines(text);
             ReadUpTo(lines, n, perNic, nics, total) && (n < |lines| ==> !HasColon(lines[n]))
    ensures Answer(Contents(text), perNic) ==
              if n < |BodyLines(text)| then Failure("failed to parse data")
              else if perNic then PerNic(nics) else Summed(total)
  {
    hide BodyLines, HasColon, LastOf, Total, RowOf;
    assert BodyLines(text)[..|BodyLines(text)|] == BodyLines(text);
  }

  /** Errors are reported in their own words; a file without body lines gives an empty object. */
  lemma {:induction false} OtherAnswers(message: string, text: string, perNic: bool)
    ensures Answer(ReadError(message), perNic) == Failure(message)
    ensures (exists i :: 0 <= i < |BodyLines(text)| && ':' !in BodyLines(text)[i]) ==>
              Answer(Contents(text), perNic) == Failure("failed to parse data")
    ensures BodyLines(text) == [] ==> Answer(Contents(text), true) == PerNic(map[])
  {
    hide BodyLines;
    var lines := BodyLines(text);
    if i :| 0 <= i < |lines| && ':' !in lines[i] {
      IndexOfIs(lines[i], ':', |lines[i]|);
      assert !HasColon(lines[i]);
    }
  }

  lemma {:induction false} NoBodyLines(text: string)
    requires '\n' !in text
    ensures BodyLines(text) == []
  {
    hide IndexOf;
    TrimIsPart(text);
    SplitNowhere(Trim(text), '\n');
  }

  /** Each counter is summed by itself. */
  lemma {:induction false} TwoRowsSum(x: (string, NicCounters), y: (string, NicCounters))
    ensures Total([x, y], NIC_SUM) ==
            NicCounters(Plus(x.1.bytesRecv, y.1.bytesRecv), Plus(x.1.packetsRecv, y.1.packetsRecv),
                        Plus(x.1.errin, y.1.errin), Plus(x.1.dropin, y.1.dropin),
                        Plus(x.1.bytesSent, y.1.bytesSent), Plus(x.1.packetsSent, y.1.packetsSent),
                        Plus(x.1.errout, y.1.errout), Plus(x.1.dropout, y.1.dropout))
  {
    hide Plus;
    assert [x, y][1..] == [y] && [y][1..] == [];
    AddIsLawful(y.1, ZERO, ZERO);
    assert Total([y], NIC_SUM) == Add(y.1, ZERO);
  }

  /** One line of the body: the name before the first colon, the counters after it. */
  method ParseLine(line: string) returns (found: bool, nicName: string, counters: NicCounters)
    ensures found <==> HasColon(line)
    ensures found ==> nicName == NameOf(line) && counters == CountersIn(line)
  {
    hide CountersOf, Tokens, Trim;
    var index := IndexOf(line, ':');
    if index == |line| {
      return false, "", ZERO;
    }
    var values := SplitNonWord(Trim(line[index + 1..]));
    nicName := Trim(line[..index]);
    counters := CountersOf(values);
    found := true;
  }

  // ------------------------------------------------------- the two modes agree

  /** In each counter, adding `y` leaves `x` as it is. */
  predicate Unmoved(x: NicCounters, y: NicCounters) {
    && AddsNothing(x.bytesRecv, y.bytesRecv) && AddsNothing(x.packetsRecv, y.packetsRecv)
    && AddsNothing(x.errin, y.errin) && AddsNothing(x.dropin, y.dropin)
    && AddsNothing(x.bytesSent, y.bytesSent) && AddsNothing(x.packetsSent, y.packetsSent)
    && AddsNothing(x.errout, y.errout) && AddsNothing(x.dropout, y.dropout)
  }

  /** Whatever the names, the aggregate is the sum over the per-interface object plus the rows
      that a later row of the same name replaced. */
  lemma {:induction false} AggregateIsConserved(text: string)
    requires Parseable(BodyLines(text))
    ensures var rows := Rows(BodyLines(text));
            && Answer(Contents(text), true) == PerNic(LastOf(rows))
            && Answer(Contents(text), false) ==
                 Summed(Add(SumOver(LastOf(rows), NIC_SUM), Total(Replaced(rows), NIC_SUM)))
  {
    hide BodyLines, Add, LastOf, Total, HasColon, RowOf;
    var lines := BodyLines(text);
    AnswerOfParseable(text);
    NicSumIsLawful();
    TotalIsConserved(Rows(lines), NIC_SUM);
  }

  lemma {:induction false} AnswerOfParseable(text: string)
    requires Parseable(BodyLines(text))
    ensures var rows := Rows(BodyLines(text));
            && Answer(Contents(text), true) == PerNic(LastOf(rows))
            && Answer(Contents(text), false) == Summed(Total(rows, NIC_SUM))
  {
    hide BodyLines, LastOf, Total, RowOf, HasColon;
    var lines := BodyLines(text);
    assert lines[..|lines|] == lines;
  }

  /** With distinct names the two modes agree in all eight counters. */
  lemma {:induction false} AggregateIsSumOfNics(text: string)
    requires Parseable(BodyLines(text)) && Distinct(Rows(BodyLines(text)))
    ensures var perNic := Answer(Contents(text), true);
            && perNic.PerNic?
            && Answer(Contents(text), false) == Summed(SumOver(perNic.nics, NIC_SUM))
  {
    hide BodyLines, Answer, Add, LastOf, HasColon, RowOf;
    var rows := Rows(BodyLines(text));
    AggregateIsConserved(text);
    DistinctReplacesNothing(rows);
    AddIsLawful(SumOver(LastOf(rows), NIC_SUM), ZERO, ZERO);
  }

  predicate NonNegative(c: NicCounters) {
    && Unsigned(c.bytesRecv) && Unsigned(c.packetsRecv) && Unsigned(c.errin)
    && Unsigned(c.dropin) && Unsigned(c.bytesSent) && Unsigned(c.packetsSent)
    && Unsigned(c.errout) && Unsigned(c.dropout)
  }

  lemma {:induction false} SumUnmoves(x: NicCounters, a: NicCounters, b: NicCounters)
    requires NonNegative(a) && NonNegative(b)
    ensures Unmoved(x, Add(a, b)) <==> Unmoved(x, a) && Unmoved(x, b)
    ensures NonNegative(Add(a, b))
  {
    hide AddsNothing, Plus, Unsigned;
    SumAddsNothing(x.bytesRecv, a.bytesRecv, b.bytesRecv);
    SumAddsNothing(x.packetsRecv, a.packetsRecv, b.packetsRecv);
    SumAddsNothing(x.errin, a.errin, b.errin);
    SumAddsNothing(x.dropin, a.dropin, b.dropin);
    SumAddsNothing(x.bytesSent, a.bytesSent, b.bytesSent);
    SumAddsNothing(x.packetsSent, a.packetsSent, b.packetsSent);
    SumAddsNothing(x.errout, a.errout, b.errout);
    SumAddsNothing(x.dropout, a.dropout, b.dropout);
  }

  /** Rows without negative numbers add nothing together exactly if none of them does. */
  lemma {:induction false} TotalUnmoves(x: NicCounters, rows: seq<(string, NicCounters)>)
    requires forall row :: row in rows ==> NonNegative(row.1)
    ensures Unmoved(x, Total(rows, NIC_SUM)) <==> forall row :: row in rows ==> Unmoved(x, row.1)
    ensures NonNegative(Total(rows, NIC_SUM))
  {
    hide Unmoved, NonNegative, Add;
    if rows == [] {
      ZeroUnmoves(x);
    } else {
      assert rows == [rows[0]] + rows[1..];
      TotalUnmoves(x, rows[1..]);
      SumUnmoves(x, rows[0].1, Total(rows[1..], NIC_SUM));
    }
  }

  lemma {:induction false} ZeroUnmoves(x: NicCounters)
    ensures Unmoved(x, ZERO) && NonNegative(ZERO)
  {
  }

  lemma {:induction false} RowsAreNonNegative(lines: seq<string>)
    requires Parseable(lines)
    ensures forall row :: row in Rows(lines) ==> NonNegative(row.1)
  {
    hide HasColon, NameOf, CountersIn;
    forall i | 0 <= i < |lines|
      ensures NonNegative(RowOf(lines[i]).1)
    {
      CountersAreNonNegative(lines[i]);
    }
  }

  lemma {:induction false} CountersAreNonNegative(line: string)
    requires HasColon(line)
    ensures NonNegative(CountersIn(line))
  {
    hide Tokens, Trim, IndexOf, ParseIntAt, Unsigned;
    var text := Trim(line[IndexOf(line, ':') + 1..]);
    PositionsAreUnsigned(text, 0);
    PositionsAreUnsigned(text, 1);
    PositionsAreUnsigned(text, 2);
    PositionsAreUnsigned(text, 8);
    PositionsAreUnsigned(text, 9);
    PositionsAreUnsigned(text, 10);
    PositionsAreUnsigned(text, 11);
  }

  /** For any text that parses, the two modes agree exactly if in each counter every replaced row
      is 0, or the rest is NaN anyway. */
  lemma {:induction false} AggregateAgreesExactly(text: string)
    requires Parseable(BodyLines(text))
    ensures var rows := Rows(BodyLines(text));
            var perNic := Answer(Contents(text), true);
            && perNic.PerNic?
            && (Answer(Contents(text), false) == Summed(SumOver(perNic.nics, NIC_SUM)) <==>
                forall row :: row in Replaced(rows) ==> Unmoved(SumOver(perNic.nics, NIC_SUM), row.1))
  {
    hide BodyLines, Answer, Add, LastOf, HasColon, RowOf, Unmoved, NonNegative, Replaced;
    var rows := Rows(BodyLines(text));
    AggregateIsConserved(text);
    AddCancels(SumOver(LastOf(rows), NIC_SUM), Total(Replaced(rows), NIC_SUM));
    RowsAreNonNegative(BodyLines(text));
    ReplacedAreRows(rows);
    TotalUnmoves(SumOver(LastOf(rows), NIC_SUM), Replaced(rows));
  }

  lemma {:induction false} AddCancels(x: NicCounters, y: NicCounters)
    ensures Add(x, y) == x <==> Unmoved(x, y)
  {
    hide Plus, AddsNothing;
    PlusCancels(x.bytesRecv, y.bytesRecv);
    PlusCancels(x.packetsRecv, y.packetsRecv);
    PlusCancels(x.errin, y.errin);
    PlusCancels(x.dropin, y.dropin);
    PlusCancels(x.bytesSent, y.bytesSent);
    PlusCancels(x.packetsSent, y.packetsSent);
    PlusCancels(x.errout, y.errout);
    PlusCancels(x.dropout, y.dropout);
  }

  // ------------------------------------------------------- print and parse

  /** One interface as the kernel prints it: a name and its counter columns. */
  datatype Nic = Nic(name: string, columns: seq<nat>)

  /** The blanks the kernel puts around the fields of a line. */
  datatype Layout = Layout(pad: string, lead: string, gaps: seq<string>)

  predicate Printable(nic: Nic, layout: Layout) {
    && ':' !in nic.name && '\n' !in nic.name && Trimmed(nic.name)
    && |nic.columns| >= 12
    && InlineBlank(layout.pad) && InlineBlank(layout.lead)
    && |layout.gaps| == |nic.columns| - 1
    && (forall i :: 0 <= i < |layout.gaps| ==> layout.gaps[i] != "" && InlineBlank(layout.gaps[i]))
  }

  function LineOf(nic: Nic, layout: Layout): string
    requires Printable(nic, layout)
  {
    layout.pad + nic.name + ":" + layout.lead + Glue(Decimals(nic.columns), layout.gaps)
  }

  function LinesOf(nics: seq<Nic>, layouts: seq<Layout>): (lines: seq<string>)
    requires |nics| == |layouts| && forall i :: 0 <= i < |nics| ==> Printable(nics[i], layouts[i])
    ensures |lines| == |nics| && forall i :: 0 <= i < |nics| ==> lines[i] == LineOf(nics[i], layouts[i])
  {
    seq(|nics|, i requires 0 <= i < |nics| => LineOf(nics[i], layouts[i]))
  }

  /** Two header lines that trimming leaves in place: the first begins with something visible, the
      second ends with it.  The kernel's second line begins with a blank. */
  predicate Header(h1: string, h2: string) {
    && h1 != "" && !IsBlank(h1[0]) && '\n' !in h1
    && h2 != "" && !IsBlank(h2[|h2| - 1]) && '\n' !in h2
  }

  function FileOf(h1: string, h2: string, lines: seq<string>): string {
    Join([h1, h2] + lines, '\n') + "\n"
  }

  /** What the code makes of an interface. */
  function Read(nic: Nic): NicCounters
    requires |nic.columns| >= 12
  {
    var c := nic.columns;
    NicCounters(Int(c[0]), Int(c[1]), Int(c[2]), Int(c[2]), Int(c[8]), Int(c[9]), Int(c[10]), Int(c[11]))
  }

  /** What the interface is meant to read as: the fourth column counts the drops. */
  function Meant(nic: Nic): NicCounters
    requires |nic.columns| >= 12
  {
    Read(nic).(dropin := Int(nic.columns[3]))
  }

  lemma {:induction false} ColumnsPrint(nic: Nic, layout: Layout)
    requires Printable(nic, layout)
    ensures var ts := Decimals(nic.columns); var s := Glue(ts, layout.gaps);
            Tokens(s) == ts && s != "" && Trimmed(s) && '\n' !in s && CountersOf(ts) == Read(nic)
  {
    hide Decimal, ParseInt, Tokens, Glue;
    var ts := Decimals(nic.columns);
    DecimalsAreWords(nic.columns);
    forall i | 0 <= i < |layout.gaps|
      ensures NoWord(layout.gaps[i])
    {
      assert InlineBlank(layout.gaps[i]);
    }
    TokensOfGlue(ts, layout.gaps);
    GlueHasNoNewline(ts, layout.gaps);
    GlueEnds(ts, layout.gaps);
  }

  lemma {:induction false} LineParses(nic: Nic, layout: Layout)
    requires Printable(nic, layout)
    ensures var line := LineOf(nic, layout);
            && line != "" && !IsBlank(line[|line| - 1]) && '\n' !in line
            && HasColon(line) && RowOf(line) == (nic.name, Read(nic))
            && CountersIn(line).bytesRecv == Int(nic.columns[0]) && CountersIn(line).packetsRecv == Int(nic.columns[1])
            && CountersIn(line).errin == CountersIn(line).dropin == Int(nic.columns[2])
            && CountersIn(line).bytesSent == Int(nic.columns[8]) && CountersIn(line).packetsSent == Int(nic.columns[9])
            && CountersIn(line).errout == Int(nic.columns[10]) && CountersIn(line).dropout == Int(nic.columns[11])
  {
    hide Glue, Tokens, Trim, IndexOf, CountersOf, Decimal;
    var ts := Decimals(nic.columns);
    var s := Glue(ts, layout.gaps);
    ColumnsPrint(nic, layout);
    var line := LineOf(nic, layout);
    var left := layout.pad + nic.name;
    assert line == left + ":" + (layout.lead + s);
    assert line[..|left|] == left && line[|left|] == ':';
    IndexOfIs(line, ':', |left|);
    assert line[|left| + 1..] == layout.lead + s;
    TrimPadded(layout.pad, nic.name, "");
    assert layout.pad + nic.name + "" == left;
    TrimPadded(layout.lead, s, "");
    assert layout.lead + s + "" == layout.lead + s;
  }

  /** A body line that keeps its place when the whole file is trimmed and split. */
  predicate BodyLine(line: string) {
    line != "" && !IsBlank(line[|line| - 1]) && '\n' !in line
  }

  lemma {:induction false} BodyLinesOfFile(h1: string, h2: string, body: seq<string>)
    requires Header(h1, h2) && forall i :: 0 <= i < |body| ==> BodyLine(body[i])
    ensures BodyLines(FileOf(h1, h2, body)) == body
  {
    hide Join, SplitOn, Trim;
    var lines := [h1, h2] + body;
    var text := Join(lines, '\n');
    assert forall line :: line in lines ==> '\n' !in line;
    JoinEnds(lines, '\n');
    TrimPadded("", text, "\n");
    assert "" + text + "\n" == text + "\n";
    SplitOfJoin(lines, '\n');
    assert lines[2..] == body;
  }

  /** Parsing the body of a printed file gives back every interface in order. */
  lemma {:induction false} FileParses(h1: string, h2: string, nics: seq<Nic>, layouts: seq<Layout>)
    requires Header(h1, h2) && |nics| == |layouts|
    requires forall i :: 0 <= i < |nics| ==> Printable(nics[i], layouts[i])
    ensures var lines := BodyLines(FileOf(h1, h2, LinesOf(nics, layouts)));
            && lines == LinesOf(nics, layouts) && Parseable(lines)
            && forall i :: 0 <= i < |nics| ==> Rows(lines)[i] == (nics[i].name, Read(nics[i]))
  {
    hide RowOf, LineOf, IndexOf, Read, BodyLines, FileOf;
    var body := LinesOf(nics, layouts);
    forall i | 0 <= i < |nics|
      ensures BodyLine(body[i])
      ensures HasColon(body[i]) && RowOf(body[i]) == (nics[i].name, Read(nics[i]))
    {
      LineParses(nics[i], layouts[i]);
    }
    BodyLinesOfFile(h1, h2, body);
  }

  function NamesOf(nics: seq<Nic>): set<string> { set i | 0 <= i < |nics| :: nics[i].name }

  /** Print, then parse per interface: with distinct names the result has exactly the printed
      interfaces, each with the counters the code reads; it is the meant original exactly if
      errors and drops agree in every interface. */
  lemma {:induction false} PerNicRoundTrip(h1: string, h2: string, nics: seq<Nic>, layouts: seq<Layout>)
    requires Header(h1, h2) && |nics| == |layouts|
    requires forall i :: 0 <= i < |nics| ==> Printable(nics[i], layouts[i])
    requires forall i, j :: 0 <= i < j < |nics| ==> nics[i].name != nics[j].name
    ensures var parsed := Answer(Contents(FileOf(h1, h2, LinesOf(nics, layouts))), true);
            && parsed.PerNic?
            && parsed.nics.Keys == NamesOf(nics)
            && (forall i :: 0 <= i < |nics| ==> parsed.nics[nics[i].name] == Read(nics[i]))
            && ((forall i :: 0 <= i < |nics| ==> parsed.nics[nics[i].name] == Meant(nics[i])) <==>
                (forall i :: 0 <= i < |nics| ==> nics[i].columns[2] == nics[i].columns[3]))
  {
    hide BodyLines, RowOf, LineOf, FileOf, IndexOf, LastOf, Read, Answer, HasColon;
    var text := FileOf(h1, h2, LinesOf(nics, layouts));
    FileParses(h1, h2, nics, layouts);
    AnswerOfParseable(text);
    NicsParse(nics, Rows(BodyLines(text)));
  }

  lemma {:induction false} NicsParse(nics: seq<Nic>, rows: seq<(string, NicCounters)>)
    requires |rows| == |nics| && forall i :: 0 <= i < |nics| ==> |nics[i].columns| >= 12
    requires forall i :: 0 <= i < |nics| ==> rows[i] == (nics[i].name, Read(nics[i]))
    requires forall i, j :: 0 <= i < j < |nics| ==> nics[i].name != nics[j].name
    ensures var parsed := LastOf(rows);
            && parsed.Keys == NamesOf(nics)
            && (forall i :: 0 <= i < |nics| ==> parsed[nics[i].name] == Read(nics[i]))
            && ((forall i :: 0 <= i < |nics| ==> parsed[nics[i].name] == Meant(nics[i])) <==>
                (forall i :: 0 <= i < |nics| ==> nics[i].columns[2] == nics[i].columns[3]))
  {
    hide LastOf;
    var parsed := LastOf(rows);
    assert Distinct(rows);
    LastOfKeys(rows);
    assert parsed.Keys == NamesOf(nics);
    forall i | 0 <= i < |nics|
      ensures nics[i].name in parsed && parsed[nics[i].name] == Read(nics[i])
      ensures parsed[nics[i].name] == Meant(nics[i]) <==> nics[i].columns[2] == nics[i].columns[3]
    {
      LastOfDistinct(rows, i);
    }
  }

  const BOTH_WAYS: string := "bytes    packets errs drop fifo "
  const RECEIVE_ONLY: string := "frame compressed multicast"
  const TRANSMIT_ONLY: string := "colls carrier compressed"

  /** The two header lines that the kernel prints. */
  function KernelHeader1(): string { "Inter-|   Receive" + seq(48, _ => ' ') + "|  Transmit" }

  function KernelHeader2(): string { " face |" + BOTH_WAYS + RECEIVE_ONLY + "|" + BOTH_WAYS + TRANSMIT_ONLY }

  lemma {:induction false} KernelHeaders()
    ensures Header(KernelHeader1(), KernelHeader2())
  {
    hide KernelHeader1, KernelHeader2;
    FirstHeader();
    SecondHeader();
  }

  lemma {:induction false} FirstHeader()
    ensures var h := KernelHeader1(); h != "" && !IsBlank(h[0]) && '\n' !in h
  {
    var gap: string := seq(48, _ => ' ');
    assert forall i :: 0 <= i < |gap| ==> gap[i] == ' ';
  }

  lemma {:induction false} SecondHeader()
    ensures var h := KernelHeader2(); h != "" && !IsBlank(h[|h| - 1]) && '\n' !in h
  {
    assert '\n' !in BOTH_WAYS && '\n' !in RECEIVE_ONLY && '\n' !in TRANSMIT_ONLY;
    assert TRANSMIT_ONLY[|TRANSMIT_ONLY| - 1] == 'd';
  }

  function Loopback(): Nic { Nic("lo", [0, 0, 0, 1, 0, 0, 0, 0, 0, 0, 0, 0, 0, 0, 0, 0]) }

  function LoopbackLayout(): Layout { Layout("    ", "       ", seq(15, _ => " ")) }

  lemma {:induction false} LoopbackPrints()
    ensures Printable(Loopback(), LoopbackLayout())
  {
    var gaps := LoopbackLayout().gaps;
    assert forall i :: 0 <= i < |gaps| ==> gaps[i] == " ";
  }

  /** A file on which `dropin` is wrong: no errors but one drop, and the answer is 0. */
  lemma {:induction false} DropinReadsErrors()
    ensures Printable(Loopback(), LoopbackLayout())
    ensures var text := FileOf(KernelHeader1(), KernelHeader2(), LinesOf([Loopback()], [LoopbackLayout()]));
            var parsed := Answer(Contents(text), true);
            && parsed.PerNic? && parsed.nics.Keys == {"lo"}
            && parsed.nics["lo"].dropin == Int(0) && Meant(Loopback()).dropin == Int(1)
  {
    hide BodyLines, RowOf, LineOf, FileOf, IndexOf, LastOf, Answer, HasColon, Printable, Header, KernelHeader1;
    hide KernelHeader2;
    KernelHeaders();
    LoopbackPrints();
    PerNicRoundTrip(KernelHeader1(), KernelHeader2(), [Loopback()], [LoopbackLayout()]);
    assert NamesOf([Loopback()]) == {[Loopback()][0].name};
  }
}
