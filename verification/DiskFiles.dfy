/** /proc/diskstats and /proc/partitions as the kernel prints them, read back by
    `disk_io_counters`. */
module DiskFiles {
  import opened Text
  import opened Numerals
  import opened Totals
  import opened DiskStats

  // ------------------------------------------------------- print and parse one line

  /** One line of /proc/diskstats: reads, reads merged, sectors read, milliseconds reading, the same
      four for writes, and at least three more columns. */
  datatype Disk = Disk(major: nat, minor: nat, name: string, columns: seq<nat>)

  /** One line of /proc/partitions. */
  datatype Partition = Partition(major: nat, minor: nat, blocks: nat, name: string)

  /** The blanks of a line: before it, after each of its first three fields, between the columns. */
  datatype Layout = Layout(pad: string, gap0: string, gap1: string, gap2: string, gaps: seq<string>)

  predicate Gap(s: string) { s != "" && InlineBlank(s) }

  predicate Spaced(layout: Layout, columns: nat) {
    && InlineBlank(layout.pad) && Gap(layout.gap0) && Gap(layout.gap1) && Gap(layout.gap2)
    && |layout.gaps| == columns && forall i :: 0 <= i < columns ==> Gap(layout.gaps[i])
  }

  predicate Named(name: string) { name != "" && Trimmed(name) && '\n' !in name }

  predicate Printable(d: Disk, layout: Layout) {
    Named(d.name) && |d.columns| >= 11 && Spaced(layout, |d.columns| - 1)
  }

  predicate PartitionPrints(p: Partition, layout: Layout) { Named(p.name) && Spaced(layout, 0) }

  /** A name, and what follows it behind two numbers. */
  function Numbered(x: nat, y: nat, layout: Layout, rest: string): string {
    Decimal(x) + layout.gap0 + (Decimal(y) + layout.gap1 + rest)
  }

  function ColumnsOf(d: Disk, layout: Layout): string
    requires Printable(d, layout)
  {
    Glue(Decimals(d.columns), layout.gaps)
  }

  function DiskText(d: Disk, layout: Layout): string
    requires Printable(d, layout)
  {
    Numbered(d.major, d.minor, layout, d.name + layout.gap2 + ColumnsOf(d, layout))
  }

  function LineOf(d: Disk, layout: Layout): string
    requires Printable(d, layout)
  {
    layout.pad + DiskText(d, layout)
  }

  function PartitionText(p: Partition, layout: Layout): string {
    Numbered(p.major, p.minor, layout, Decimal(p.blocks) + layout.gap2 + p.name)
  }

  function PartitionLine(p: Partition, layout: Layout): string { layout.pad + PartitionText(p, layout) }

  /** What the line is meant to read as.  The columns of sectors are taken as they are. */
  function Meant(d: Disk): DiskCounters
    requires |d.columns| >= 11
  {
    var c := d.columns;
    DiskCounters(Int(c[0]), Int(c[4]), Int(c[2]), Int(c[6]), Int(c[3]), Int(c[7]))
  }

  lemma {:induction false} GapSeparates(gap: string)
    requires Gap(gap)
    ensures gap != "" && NoWord(gap) && '\n' !in gap
  {
  }

  /** The two numbers in front are two tokens, however the rest splits. */
  lemma {:induction false} NumberedTokens(x: nat, y: nat, layout: Layout, rest: string)
    requires Gap(layout.gap0) && Gap(layout.gap1) && rest != "" && IsWord(rest[0])
    ensures Tokens(Numbered(x, y, layout, rest)) == [Decimal(x), Decimal(y)] + Tokens(rest)
  {
    hide Tokens, Decimal, Gap;
    DecimalIsWord(x);
    DecimalIsWord(y);
    GapSeparates(layout.gap0);
    GapSeparates(layout.gap1);
    TokensStep(Decimal(y), layout.gap1, rest);
    TokensStep(Decimal(x), layout.gap0, Decimal(y) + layout.gap1 + rest);
  }

  lemma {:induction false} NumberedEnds(x: nat, y: nat, layout: Layout, rest: string)
    requires Gap(layout.gap0) && Gap(layout.gap1) && rest != "" && !IsBlank(rest[|rest| - 1]) && '\n' !in rest
    ensures var s := Numbered(x, y, layout, rest); s != "" && Trimmed(s) && '\n' !in s
  {
    hide Decimal;
    DecimalsAreWords([x, y]);
    assert Decimals([x, y])[0] == Decimal(x) && Decimals([x, y])[1] == Decimal(y);
  }

  lemma {:induction false} ColumnsPrint(d: Disk, layout: Layout)
    requires Printable(d, layout)
    ensures var s := ColumnsOf(d, layout);
            Tokens(s) == Decimals(d.columns) && s != "" && IsWord(s[0]) && Trimmed(s) && '\n' !in s
  {
    hide Decimal, ParseInt, Tokens, Glue;
    var ts := Decimals(d.columns);
    DecimalsAreWords(d.columns);
    forall i | 0 <= i < |layout.gaps|
      ensures layout.gaps[i] != "" && NoWord(layout.gaps[i]) && '\n' !in layout.gaps[i]
    {
      GapSeparates(layout.gaps[i]);
    }
    TokensOfGlue(ts, layout.gaps);
    GlueHasNoNewline(ts, layout.gaps);
    GlueEnds(ts, layout.gaps);
    assert AllWord(ts[0]);
  }

  lemma {:induction false} TextPrints(d: Disk, layout: Layout)
    requires Printable(d, layout)
    ensures var s := DiskText(d, layout); s != "" && Trimmed(s) && '\n' !in s && Trim(LineOf(d, layout)) == s
  {
    hide ColumnsOf, Numbered, Trim;
    ColumnsPrint(d, layout);
    GapSeparates(layout.gap2);
    NumberedEnds(d.major, d.minor, layout, d.name + layout.gap2 + ColumnsOf(d, layout));
    var s := DiskText(d, layout);
    TrimPadded(layout.pad, s, "");
    assert layout.pad + s + "" == layout.pad + s;
  }

  lemma {:induction false} TokenIsWord(s: string, i: nat)
    requires i < |Tokens(s)|
    ensures AllWord(Tokens(s)[i])
  {
    hide Tokens;
    var gaps := GlueOfTokens(s);
  }

  /** The third token is never a name that is not a word. */
  lemma {:induction false} DeviceIsWord(line: string)
    ensures DeviceOf(line).Some? ==> AllWord(DeviceOf(line).value)
    ensures AllWord(KeyOf(DeviceOf(line)))
  {
    hide Tokens, Trim;
    if |Tokens(Trim(line))| > 2 {
      TokenIsWord(Trim(line), 2);
    }
  }

  /** A printed line reads as its device and its counters exactly if the name is a word: letters,
      digits and underscores. */
  lemma {:induction false} LineParses(d: Disk, layout: Layout)
    requires Printable(d, layout)
    ensures var line := LineOf(d, layout);
            DeviceOf(line) == Some(d.name) && RowOf(line) == (d.name, Meant(d)) <==> AllWord(d.name)
    ensures DeviceOf(LineOf(d, layout)) == Some(d.name) <==> AllWord(d.name)
    ensures AllWord(d.name) ==>
              var read := CountersIn(LineOf(d, layout));
              && read.readCount == Int(d.columns[0]) && read.readBytes == Int(d.columns[2])
              && read.readTime == Int(d.columns[3]) && read.writeCount == Int(d.columns[4])
              && read.writeBytes == Int(d.columns[6]) && read.writeTime == Int(d.columns[7])
  {
    hide Numbered, Tokens, Trim, Decimal, ParseInt, ColumnsOf, AllWord;
    var line := LineOf(d, layout);
    DeviceIsWord(line);
    if AllWord(d.name) {
      var rest := d.name + layout.gap2 + ColumnsOf(d, layout);
      TextPrints(d, layout);
      ColumnsPrint(d, layout);
      GapSeparates(layout.gap2);
      WordStarts(d.name);
      NumberedTokens(d.major, d.minor, layout, rest);
      TokensStep(d.name, layout.gap2, ColumnsOf(d, layout));
      DecimalsAreWords(d.columns);
      var ts := Tokens(Trim(line));
      assert ts == [Decimal(d.major), Decimal(d.minor), d.name] + Decimals(d.columns);
      assert forall i :: 0 <= i < |d.columns| ==> ts[i + 3] == Decimals(d.columns)[i];
      assert ts[0 + 3] == Decimals(d.columns)[0] && ts[4 + 3] == Decimals(d.columns)[4];
      assert ts[2 + 3] == Decimals(d.columns)[2] && ts[6 + 3] == Decimals(d.columns)[6];
      assert ts[3 + 3] == Decimals(d.columns)[3] && ts[7 + 3] == Decimals(d.columns)[7];
    }
  }

  lemma {:induction false} WordStarts(t: string)
    requires t != "" && AllWord(t)
    ensures IsWord(t[0])
  {
  }

  /** The line's counters with sectors of 512 bytes counted as bytes. */
  function InBytes(d: Disk): DiskCounters
    requires |d.columns| >= 11
  {
    Meant(d).(readBytes := Int(512 * d.columns[2]), writeBytes := Int(512 * d.columns[6]))
  }

  /** The counts of bytes are counts of sectors: right exactly if both are 0. */
  lemma {:induction false} BytesAreSectors(d: Disk, layout: Layout)
    requires Printable(d, layout) && AllWord(d.name)
    ensures CountersIn(LineOf(d, layout)) == InBytes(d) <==> d.columns[2] == 0 && d.columns[6] == 0
  {
    hide LineOf, Tokens, Trim, CountersIn, DeviceOf;
    LineParses(d, layout);
  }

  /** A hyphen shifts everything: the device mapper's dm-n is read as "dm", with n for its reads
      and every other counter one column early. */
  lemma {:induction false} HyphenShifts(d: Disk, layout: Layout, stem: string, n: nat)
    requires Printable(d, layout) && d.name == stem + "-" + Decimal(n) && stem != "" && AllWord(stem)
    ensures var c := d.columns;
            RowOf(LineOf(d, layout)) ==
              (stem, DiskCounters(Int(n), Int(c[3]), Int(c[1]), Int(c[5]), Int(c[2]), Int(c[6])))
    ensures DeviceOf(LineOf(d, layout)) == Some(stem)
  {
    hide Numbered, Tokens, Trim, Decimal, ParseInt, ColumnsOf, AllWord;
    var line := LineOf(d, layout);
    var columns := ColumnsOf(d, layout);
    var number := Decimal(n);
    TextPrints(d, layout);
    ColumnsPrint(d, layout);
    GapSeparates(layout.gap2);
    WordStarts(stem);
    DecimalIsWord(n);
    WordStarts(number);
    assert d.name + layout.gap2 + columns == stem + "-" + (number + layout.gap2 + columns);
    NumberedTokens(d.major, d.minor, layout, stem + "-" + (number + layout.gap2 + columns));
    TokensStep(stem, "-", number + layout.gap2 + columns);
    TokensStep(number, layout.gap2, columns);
    DecimalsAreWords(d.columns);
    var ts := Tokens(Trim(line));
    assert ts == [Decimal(d.major), Decimal(d.minor), stem, number] + Decimals(d.columns);
    assert ts[1 + 4] == Decimals(d.columns)[1] && ts[2 + 4] == Decimals(d.columns)[2];
    assert ts[3 + 4] == Decimals(d.columns)[3] && ts[5 + 4] == Decimals(d.columns)[5];
    assert ts[6 + 4] == Decimals(d.columns)[6];
  }

  // ------------------------------------------------------- print and parse whole files

  predicate AllPrintable(ds: seq<Disk>, layouts: seq<Layout>) {
    |ds| == |layouts| && forall i :: 0 <= i < |ds| ==> Printable(ds[i], layouts[i])
  }

  predicate AllPartitionsPrint(ps: seq<Partition>, layouts: seq<Layout>) {
    |ps| == |layouts| && forall i :: 0 <= i < |ps| ==> PartitionPrints(ps[i], layouts[i])
  }

  function LinesOf(ds: seq<Disk>, layouts: seq<Layout>): (lines: seq<string>)
    requires AllPrintable(ds, layouts)
    ensures |lines| == |ds| && forall i :: 0 <= i < |ds| ==> lines[i] == LineOf(ds[i], layouts[i])
  {
    seq(|ds|, i requires 0 <= i < |ds| => LineOf(ds[i], layouts[i]))
  }

  function PartitionLines(ps: seq<Partition>, layouts: seq<Layout>): (lines: seq<string>)
    requires |ps| == |layouts|
    ensures |lines| == |ps| && forall i :: 0 <= i < |ps| ==> lines[i] == PartitionLine(ps[i], layouts[i])
  {
    seq(|ps|, i requires 0 <= i < |ps| == |layouts| => PartitionLine(ps[i], layouts[i]))
  }

  /** /proc/diskstats: nothing but lines. */
  function DiskFile(ds: seq<Disk>, layouts: seq<Layout>): string
    requires AllPrintable(ds, layouts)
  {
    if ds == [] then "" else Join(LinesOf(ds, layouts), '\n') + "\n"
  }

  predicate Header(h: string) { h != "" && Trimmed(h) && '\n' !in h }

  /** /proc/partitions: a header, an empty line, and one line for each device. */
  function PartitionFile(h: string, ps: seq<Partition>, layouts: seq<Layout>): string
    requires |ps| == |layouts|
  {
    Join([h, ""] + PartitionLines(ps, layouts), '\n') + "\n"
  }

  lemma {:induction false} PartitionPrintsLine(p: Partition, layout: Layout)
    requires PartitionPrints(p, layout)
    ensures var s := PartitionText(p, layout); s != "" && Trimmed(s) && '\n' !in s
    ensures var line := PartitionLine(p, layout);
            line != "" && !IsBlank(line[|line| - 1]) && '\n' !in line && Trim(line) == PartitionText(p, layout)
  {
    hide Numbered, Trim, Decimal;
    DecimalIsWord(p.blocks);
    assert forall t :: AllWord(t) ==> '\n' !in t;
    GapSeparates(layout.gap2);
    var s := PartitionText(p, layout);
    NumberedEnds(p.major, p.minor, layout, Decimal(p.blocks) + layout.gap2 + p.name);
    TrimPadded(layout.pad, s, "");
    assert layout.pad + s + "" == layout.pad + s;
  }

  /** The fourth token of a printed line is there, and is the name exactly if that is a word. */
  lemma {:induction false} PartitionParses(p: Partition, layout: Layout)
    requires PartitionPrints(p, layout)
    ensures var name := At(Tokens(Trim(PartitionLine(p, layout))), 3);
            name.Some? && (name == Some(p.name) <==> AllWord(p.name))
  {
    hide Numbered, Tokens, Trim, Decimal, AllWord;
    PartitionPrintsLine(p, layout);
    GapSeparates(layout.gap2);
    DecimalIsWord(p.blocks);
    WordStarts(Decimal(p.blocks));
    var rest := Decimal(p.blocks) + layout.gap2 + p.name;
    NumberedTokens(p.major, p.minor, layout, rest);
    TwoTokens(Decimal(p.blocks), layout.gap2, p.name);
    assert Tokens(PartitionText(p, layout))[3] == Tokens(rest)[1];
  }

  lemma {:induction false} TwoTokens(t: string, gap: string, name: string)
    requires AllWord(t) && gap != "" && NoWord(gap)
    ensures |Tokens(t + gap + name)| > 1 && (Tokens(t + gap + name)[1] == name <==> AllWord(name))
  {
    var s := t + gap + name;
    assert s[..|t|] == t && s[|t|] == gap[0];
    RunIs(s, |t|);
    if AllWord(name) {
      hide Tokens;
      if name == "" {
        assert s == t + gap + "";
        TokensStep(t, gap, "");
      } else {
        TokensStep(t, gap, name);
      }
      TokensOfWord(name);
    } else {
      TokenIsWord(s, 1);
    }
  }

  /** The listed names are the fourth tokens of the printed lines. */
  lemma {:induction false} PartitionNamesOf(h: string, ps: seq<Partition>, layouts: seq<Layout>)
    requires Header(h) && AllPartitionsPrint(ps, layouts)
    ensures PartitionNames(PartitionFile(h, ps, layouts)) == NamesIn(PartitionLines(ps, layouts))
  {
    hide Join, SplitOn, Trim, Tokens, PartitionLine;
    var body := PartitionLines(ps, layouts);
    var lines := [h, ""] + body;
    if ps == [] {
      assert lines == [h, ""];
      assert PartitionFile(h, ps, layouts) == "" + h + "\n\n" by {
        HeaderOnly(h);
      }
      TrimPadded("", h, "\n\n");
      SplitNowhere(h, '\n');
    } else {
      forall i | 0 <= i < |ps|
        ensures body[i] != "" && !IsBlank(body[i][|body[i]| - 1]) && '\n' !in body[i]
      {
        PartitionPrintsLine(ps[i], layouts[i]);
      }
      var text := Join(lines, '\n');
      assert forall line :: line in lines ==> '\n' !in line;
      JoinEnds(lines, '\n');
      TrimPadded("", text, "\n");
      assert "" + text + "\n" == text + "\n";
      SplitOfJoin(lines, '\n');
      assert lines[2..] == body;
    }
  }

  lemma {:induction false} HeaderOnly(h: string)
    ensures Join([h, ""], '\n') + "\n" == "" + h + "\n\n"
  {
    assert [h, ""][1..] == [""];
    assert Join([""], '\n') == "";
    assert Join([h, ""], '\n') == h + "\n";
    assert h + "\n" + "\n" == h + ("\n" + "\n");
  }

  /** Trimming the file takes the blanks before the first line, and nothing else. */
  function Unpadded(layouts: seq<Layout>): (us: seq<Layout>)
    ensures |us| == |layouts|
  {
    if layouts == [] then [] else [layouts[0].(pad := "")] + layouts[1..]
  }

  lemma {:induction false} UnpaddedPrints(ds: seq<Disk>, layouts: seq<Layout>)
    requires AllPrintable(ds, layouts)
    ensures AllPrintable(ds, Unpadded(layouts))
    ensures forall i :: 0 <= i < |ds| ==>
              DeviceOf(LineOf(ds[i], Unpadded(layouts)[i])) == DeviceOf(LineOf(ds[i], layouts[i]))
  {
    hide Tokens, Trim, LineOf, DiskText;
    var us := Unpadded(layouts);
    assert forall i :: 1 <= i < |us| ==> us[i] == layouts[i];
    if ds != [] {
      assert Printable(ds[0], us[0]);
      TextPrints(ds[0], us[0]);
      TextPrints(ds[0], layouts[0]);
      SameText(ds[0], layouts[0]);
    }
  }

  lemma {:induction false} SameText(d: Disk, layout: Layout)
    requires Printable(d, layout)
    ensures var u := layout.(pad := ""); Printable(d, u) && DiskText(d, u) == DiskText(d, layout)
    ensures LineOf(d, layout) == layout.pad + LineOf(d, layout.(pad := ""))
    ensures LineOf(d, layout.(pad := "")) == DiskText(d, layout)
  {
  }

  lemma {:induction false} JoinPadded(pad: string, parts: seq<string>)
    requires parts != []
    ensures Join([pad + parts[0]] + parts[1..], '\n') == pad + Join(parts, '\n')
  {
    var padded := [pad + parts[0]] + parts[1..];
    assert padded[1..] == parts[1..];
    if |parts| > 1 {
      var rest := Join(parts[1..], '\n');
      assert (pad + parts[0]) + ['\n'] + rest == pad + (parts[0] + ['\n'] + rest);
    }
  }

  /** The lines that the loop sees: those of the file, and one empty line for an empty file. */
  lemma {:induction false} DiskLinesOf(ds: seq<Disk>, layouts: seq<Layout>)
    requires AllPrintable(ds, layouts)
    ensures AllPrintable(ds, Unpadded(layouts))
    ensures SplitOn(Trim(DiskFile(ds, layouts)), '\n') == if ds == [] then [""] else LinesOf(ds, Unpadded(layouts))
  {
    hide Join, SplitOn, Trim, LineOf, DeviceOf, DiskText, Printable, Unpadded;
    UnpaddedPrints(ds, layouts);
    if ds == [] {
      TrimPadded("", "", "");
      assert "" + "" + "" == "";
      SplitNowhere("", '\n');
    } else {
      var us := LinesOf(ds, Unpadded(layouts));
      forall i | 0 <= i < |ds|
        ensures us[i] != "" && !IsBlank(us[i][|us[i]| - 1]) && '\n' !in us[i]
      {
        LineEnds(ds[i], Unpadded(layouts)[i]);
      }
      PaddedLines(ds, layouts);
      JoinPadded(layouts[0].pad, us);
      TrimsToJoin(layouts[0].pad, us);
      SplitOfJoin(us, '\n');
    }
  }

  /** The lines are those without padding, but for the padding of the first. */
  lemma {:induction false} PaddedLines(ds: seq<Disk>, layouts: seq<Layout>)
    requires AllPrintable(ds, layouts) && AllPrintable(ds, Unpadded(layouts)) && ds != []
    ensures var us := LinesOf(ds, Unpadded(layouts));
            && LinesOf(ds, layouts) == [layouts[0].pad + us[0]] + us[1..]
            && us[0] != "" && Trimmed(us[0]) && AllBlank(layouts[0].pad)
  {
    hide LineOf, DiskText, Trim;
    var lines, us := LinesOf(ds, layouts), LinesOf(ds, Unpadded(layouts));
    SameText(ds[0], layouts[0]);
    TextPrints(ds[0], layouts[0]);
    PadIsBlank(ds[0], layouts[0]);
    assert lines[0] == layouts[0].pad + us[0];
    assert forall i :: 1 <= i < |ds| ==> Unpadded(layouts)[i] == layouts[i];
    assert lines == [lines[0]] + us[1..];
  }

  lemma {:induction false} TrimsToJoin(pad: string, us: seq<string>)
    requires us != [] && us[0] != "" && Trimmed(us[0]) && AllBlank(pad)
    requires us[|us| - 1] != "" && !IsBlank(us[|us| - 1][|us[|us| - 1]| - 1])
    ensures Trim(pad + Join(us, '\n') + "\n") == Join(us, '\n')
  {
    hide Join, Trim;
    JoinEnds(us, '\n');
    TrimPadded(pad, Join(us, '\n'), "\n");
  }

  lemma {:induction false} PadIsBlank(d: Disk, layout: Layout)
    requires Printable(d, layout)
    ensures AllBlank(layout.pad)
  {
  }

  lemma {:induction false} LineEnds(d: Disk, layout: Layout)
    requires Printable(d, layout)
    ensures var line := LineOf(d, layout); line != "" && !IsBlank(line[|line| - 1]) && '\n' !in line
  {
    hide Trim, DiskText;
    TextPrints(d, layout);
    assert InlineBlank(layout.pad);
  }

  lemma {:induction false} ManyColumns(d: Disk, layout: Layout)
    requires Printable(d, layout)
    ensures |d.columns| >= 11
  {
  }

  lemma {:induction false} UnpaddedRows(names: seq<Option<string>>, ds: seq<Disk>, layouts: seq<Layout>)
    requires AllPrintable(ds, layouts) && None !in names
    ensures Rows(names, SplitOn(Trim(DiskFile(ds, layouts)), '\n')) == Rows(names, LinesOf(ds, layouts))
  {
    hide SplitOn, Trim, Tokens, LineOf, DiskFile, DiskText, RowOf, DeviceOf, Unpadded;
    DiskLinesOf(ds, layouts);
    if ds == [] {
      EmptyLine();
      assert Rows(names, [""]) == [];
    } else {
      FirstLineReads(ds, layouts);
    }
  }

  /** Trimming the file changes only the first line, and not what that reads as. */
  lemma {:induction false} FirstLineReads(ds: seq<Disk>, layouts: seq<Layout>)
    requires AllPrintable(ds, layouts) && AllPrintable(ds, Unpadded(layouts)) && ds != []
    ensures var lines, us := LinesOf(ds, layouts), LinesOf(ds, Unpadded(layouts));
            us[1..] == lines[1..] && DeviceOf(us[0]) == DeviceOf(lines[0]) && RowOf(us[0]) == RowOf(lines[0])
  {
    hide Trim, Tokens, LineOf, DiskText, RowOf, DeviceOf;
    var lines, us := LinesOf(ds, layouts), LinesOf(ds, Unpadded(layouts));
    TextPrints(ds[0], layouts[0]);
    SameText(ds[0], layouts[0]);
    TextPrints(ds[0], layouts[0].(pad := ""));
    SameTrim(us[0], lines[0]);
    assert forall i :: 1 <= i < |ds| ==> Unpadded(layouts)[i] == layouts[i];
    assert us[1..] == lines[1..];
  }

  lemma {:induction false} EmptyLine()
    ensures DeviceOf("") == None
  {
    TokensOfWord("");
    assert Trim("") == "";
  }

  lemma {:induction false} SameTrim(a: string, b: string)
    requires Trim(a) == Trim(b)
    ensures DeviceOf(a) == DeviceOf(b) && RowOf(a) == RowOf(b)
  {
  }

  /** The same in /proc/partitions: the fourth token of dm-n is "dm". */
  lemma {:induction false} PartitionShifts(p: Partition, layout: Layout, stem: string, n: nat)
    requires PartitionPrints(p, layout) && p.name == stem + "-" + Decimal(n) && stem != "" && AllWord(stem)
    ensures At(Tokens(Trim(PartitionLine(p, layout))), 3) == Some(stem)
  {
    hide Numbered, Tokens, Trim, Decimal, AllWord;
    PartitionPrintsLine(p, layout);
    GapSeparates(layout.gap2);
    DecimalIsWord(p.blocks);
    DecimalIsWord(n);
    WordStarts(Decimal(p.blocks));
    WordStarts(stem);
    WordStarts(Decimal(n));
    NumberedTokens(p.major, p.minor, layout, Decimal(p.blocks) + layout.gap2 + p.name);
    TokensStep(Decimal(p.blocks), layout.gap2, p.name);
    TokensStep(stem, "-", Decimal(n));
  }

  // ------------------------------------------------------- any name

  /** The first run of word characters of a name, "" without one. */
  function FirstWord(name: string): (w: string)
    ensures AllWord(w)
  {
    var rest := name[GapRun(name)..];
    rest[..WordRun(rest)]
  }

  /** What a line of /proc/diskstats is taken for: the first word behind the two numbers. */
  function DiskKey(d: Disk): string
    requires d.columns != []
  {
    if FirstWord(d.name) == "" then Decimal(d.columns[0]) else FirstWord(d.name)
  }

  lemma {:induction false} WordIsFirst(name: string)
    requires AllWord(name)
    ensures FirstWord(name) == name
  {
    if name != "" {
      assert GapRun(name) == 0 && name[0..] == name;
    }
    assert name[..|name|] == name;
    RunIs(name, |name|);
  }

  /** A name is non-word characters, its first word, and a rest that does not go on with it. */
  lemma {:induction false} NameParts(name: string) returns (gap: string, rest: string)
    ensures name == gap + FirstWord(name) + rest && NoWord(gap) && (rest != "" ==> !IsWord(rest[0]))
    ensures FirstWord(name) == "" ==> rest == ""
  {
    hide GapRun, WordRun;
    var g := GapRun(name);
    var later := name[g..];
    var w := WordRun(later);
    gap, rest := name[..g], later[w..];
    Halves(name, g);
    Halves(later, w);
    Regroup(gap, later[..w], rest);
    assert rest != "" ==> rest[0] == later[w];
    assert later != "" ==> later[0] == name[g];
  }

  lemma {:induction false} Halves(s: string, n: nat)
    requires n <= |s|
    ensures s == s[..n] + s[n..]
  {
  }

  lemma {:induction false} Regroup(a: string, b: string, c: string)
    ensures a + (b + c) == a + b + c
  {
  }

  /** Behind a word and a gap, a text that begins anyhow: the second token is its first word. */
  lemma {:induction false} SecondToken(t: string, gap: string, name: string, rest: string)
    requires AllWord(t) && gap != "" && NoWord(gap) && FirstWord(name) != "" && (rest != "" ==> !IsWord(rest[0]))
    ensures |Tokens(t + gap + (name + rest))| > 1 && Tokens(t + gap + (name + rest))[1] == FirstWord(name)
  {
    hide Tokens, FirstWord, AllWord;
    var w := FirstWord(name);
    var g, r := NameParts(name);
    WordStarts(w);
    assert t + gap + (name + rest) == t + (gap + g) + (w + (r + rest));
    TokensStep(t, gap + g, w + (r + rest));
    FirstToken(w, r + rest);
  }

  /** A printed line is taken for the first word of its name, whatever the name. */
  lemma {:induction false} DeviceIsKey(d: Disk, layout: Layout)
    requires Printable(d, layout)
    ensures DeviceOf(LineOf(d, layout)) == Some(DiskKey(d))
  {
    hide Tokens, Trim, Decimal, ParseInt, ColumnsOf, FirstWord, AllWord, NoWord;
    var columns := ColumnsOf(d, layout);
    TextPrints(d, layout);
    ColumnsPrint(d, layout);
    GapSeparates(layout.gap0);
    GapSeparates(layout.gap1);
    GapSeparates(layout.gap2);
    DecimalIsWord(d.major);
    DecimalIsWord(d.minor);
    WordStarts(Decimal(d.minor));
    var y := Decimal(d.minor);
    var rest := y + layout.gap1 + (d.name + (layout.gap2 + columns));
    assert d.name + layout.gap2 + columns == d.name + (layout.gap2 + columns);
    TokensStep(Decimal(d.major), layout.gap0, rest);
    if FirstWord(d.name) != "" {
      GapStarts(layout.gap2, columns);
      SecondToken(y, layout.gap1, d.name, layout.gap2 + columns);
    } else {
      var g, r := NameParts(d.name);
      GapsJoin(layout.gap1, d.name, layout.gap2);
      assert d.name == g + "" + "" == g;
      assert rest == y + (layout.gap1 + d.name + layout.gap2) + columns;
      TokensStep(y, layout.gap1 + d.name + layout.gap2, columns);
      assert Tokens(columns)[0] == Decimals(d.columns)[0];
    }
  }

  lemma {:induction false} GapStarts(gap: string, rest: string)
    requires gap != "" && NoWord(gap)
    ensures !IsWord((gap + rest)[0])
  {
  }

  lemma {:induction false} GapsJoin(a: string, b: string, c: string)
    ensures NoWord(a) && NoWord(b) && NoWord(c) ==> NoWord(a + b + c)
  {
  }

  /** The same for /proc/partitions, where nothing follows the name. */
  lemma {:induction false} PartitionIsKey(p: Partition, layout: Layout)
    requires PartitionPrints(p, layout)
    ensures At(Tokens(Trim(PartitionLine(p, layout))), 3) == Some(FirstWord(p.name))
  {
    hide Numbered, Tokens, Trim, Decimal, FirstWord, AllWord, NoWord;
    PartitionPrintsLine(p, layout);
    GapSeparates(layout.gap2);
    DecimalIsWord(p.blocks);
    WordStarts(Decimal(p.blocks));
    var t, gap := Decimal(p.blocks), layout.gap2;
    var rest := t + gap + p.name;
    NumberedTokens(p.major, p.minor, layout, rest);
    assert Tokens(PartitionText(p, layout))[2..] == Tokens(rest);
    if FirstWord(p.name) != "" {
      assert p.name + "" == p.name;
      SecondToken(t, gap, p.name, "");
    } else {
      var g, r := NameParts(p.name);
      assert p.name == g + "" + "" == g;
      EmptyIsWord();
      GapsJoin(gap, g, "");
      assert rest == t + (gap + g + "") + "";
      TokensStep(t, gap + g + "", "");
      TokensOfWord("");
    }
  }

  lemma {:induction false} EmptyIsWord()
    ensures AllWord("") && NoWord("")
  {
  }
}
