/** `virtual_memory` on Linux: sizes from the native call, and three rows of /proc/meminfo. */
module MemInfo {
  import opened Numerals
  import opened Rounding
  import opened Text
  import opened Totals

  datatype Native = Failed(message: string) | Sizes(total: nat, free: nat, buffer: nat)

  /** `percent` is None where the division gives no finite number. */
  datatype Memory = Memory(total: Num, available: Num, percent: Option<real>, used: Num, free: Num,
                           active: Num, inactive: Num, buffers: Num, cached: Num)

  datatype Reply = ErrorReply(message: string) | Throws | Found(memory: Memory)

  /** The variables that the loop over the lines updates. */
  datatype Scan = Scan(cached: Num, active: Num, inactive: Num)

  /** The keys of the rows that are read. */
  const CACHED: string := "Cached"
  const ACTIVE: string := "Active"
  const INACTIVE: string := "Inactive"

  /** `parseInt(token * 1024, 10)` for a token that is all digits; no token gives NaN. */
  function Bytes(values: seq<string>, i: nat): Num {
    if i < |values| && (forall k :: 0 <= k < |values[i]| ==> IsDigit(values[i][k])) then
      Int(1024 * DigitsValue(values[i]))
    else NaN
  }

  predicate HasKey(line: string, key: string) { key + ":" <= line }

  function Scanned(s: Scan, line: string): Scan {
    if HasKey(line, CACHED) then s.(cached := Bytes(Tokens(line), 1))
    else if HasKey(line, ACTIVE) then s.(active := Bytes(Tokens(line), 1))
    else if HasKey(line, INACTIVE) then s.(inactive := Bytes(Tokens(line), 1))
    else s
  }

  function ScanOf(lines: seq<string>): Scan {
    if lines == [] then Scan(Int(0), Int(0), Int(0))
    else Scanned(ScanOf(lines[..|lines| - 1]), lines[|lines| - 1])
  }

  function PercentOf(total: nat, available: Num): Option<real> {
    if available.NaN? || total == 0 then None
    else Some(RoundNumber(((total - available.n) as real / total as real) * 100.0, 1))
  }

  function Answer(native: Native, scan: Scan): Memory
    requires native.Sizes?
  {
    var available := Plus(Int(native.free + native.buffer), scan.cached);
    Memory(Int(native.total), available, PercentOf(native.total, available), Int(native.total - native.free),
           Int(native.free), scan.active, scan.inactive, Int(native.buffer), scan.cached)
  }

  /** The error of the file is never looked at: without a text, the split throws. */
  method VirtualMemoryLinux(file: FileRead, native: Native) returns (r: Reply)
    ensures r == if native.Failed? then ErrorReply(native.message)
                 else if file.ReadError? then Throws
                 else Found(Answer(native, ScanOf(SplitOn(file.text, '\n'))))
  {
    hide SplitOn, Scanned;
    if native.Failed? {
      return ErrorReply(native.message);
    }
    if file.ReadError? {
      return Throws;
    }
    var lines := SplitOn(file.text, '\n');
    var scan := Scan(Int(0), Int(0), Int(0));
    for i := 0 to |lines|
      invariant scan == ScanOf(lines[..i])
    {
      assert lines[..i + 1][..i] == lines[..i];
      scan := Scanned(scan, lines[i]);
    }
    assert lines[..|lines|] == lines;
    r := Found(Answer(native, scan));
  }

  // ------------------------------------------------------- print and parse

  /** A row of the table: a key and kilobytes, or a key and a count. */
  type Row = (string, nat)

  /** The blanks before the number, and what follows it: " kB" for sizes, nothing for counts. */
  datatype Layout = Layout(gap: string, unit: string)

  predicate Printable(row: Row, layout: Layout) {
    && '\n' !in row.0 && ':' !in row.0 && InlineBlank(layout.gap)
    && '\n' !in layout.unit && (layout.unit != "" ==> !IsWord(layout.unit[0]))
  }

  function LineOf(row: Row, layout: Layout): string {
    row.0 + (":" + layout.gap) + (Decimal(row.1) + layout.unit)
  }

  function LinesOf(rows: seq<Row>, layouts: seq<Layout>): (lines: seq<string>)
    requires |rows| == |layouts|
    ensures |lines| == |rows| && forall i :: 0 <= i < |rows| ==> lines[i] == LineOf(rows[i], layouts[i])
  {
    seq(|rows|, i requires 0 <= i < |rows| == |layouts| => LineOf(rows[i], layouts[i]))
  }

  /** The bytes of a key: 1024 for each kilobyte of its last row, 0 without one. */
  function BytesOf(rows: seq<Row>, key: string): Num {
    if key in LastOf(rows) then Int(1024 * LastOf(rows)[key]) else Int(0)
  }

  /** Only a row's own key is matched: "Active" does not read "Active(anon)" or "Inactive". */
  lemma {:induction false} OwnKey(row: Row, layout: Layout, key: string)
    requires Printable(row, layout) && ':' !in key
    ensures HasKey(LineOf(row, layout), key) <==> row.0 == key
  {
    var line := LineOf(row, layout);
    assert line[|row.0|] == ':' && line[..|row.0|] == row.0;
    IndexOfIs(line, ':', |row.0|);
    if HasKey(line, key) {
      assert line[|key|] == (key + ":")[|key|] && line[..|key|] == (key + ":")[..|key|] == key;
      IndexOfIs(line, ':', |key|);
    }
  }

  lemma {:induction false} RowBytes(row: Row, layout: Layout)
    requires Printable(row, layout) && AllWord(row.0)
    ensures Bytes(Tokens(LineOf(row, layout)), 1) == Int(1024 * row.1)
  {
    hide Tokens, Decimal;
    var d := Decimal(row.1);
    DecimalIsWord(row.1);
    FirstToken(d, layout.unit);
    TokensStep(row.0, ":" + layout.gap, d + layout.unit);
    DigitsValueOfDecimal(row.1);
  }

  lemma {:induction false} RowScans(s: Scan, row: Row, layout: Layout)
    requires Printable(row, layout)
    ensures Scanned(s, LineOf(row, layout)) ==
              if row.0 == CACHED then s.(cached := Int(1024 * row.1))
              else if row.0 == ACTIVE then s.(active := Int(1024 * row.1))
              else if row.0 == INACTIVE then s.(inactive := Int(1024 * row.1))
              else s
  {
    hide Tokens, Decimal, LineOf, HasKey, Bytes;
    OwnKey(row, layout, CACHED);
    OwnKey(row, layout, ACTIVE);
    OwnKey(row, layout, INACTIVE);
    if row.0 in {CACHED, ACTIVE, INACTIVE} {
      RowBytes(row, layout);
    }
  }

  lemma {:induction false} ScanOfRows(rows: seq<Row>, layouts: seq<Layout>)
    requires |rows| == |layouts| && forall i :: 0 <= i < |rows| ==> Printable(rows[i], layouts[i])
    ensures ScanOf(LinesOf(rows, layouts)) ==
              Scan(BytesOf(rows, CACHED), BytesOf(rows, ACTIVE), BytesOf(rows, INACTIVE))
  {
    hide Scanned, LineOf, Printable;
    if rows != [] {
      var n := |rows| - 1;
      assert LinesOf(rows, layouts)[..n] == LinesOf(rows[..n], layouts[..n]);
      assert rows == rows[..n] + [rows[n]];
      ScanOfRows(rows[..n], layouts[..n]);
      RowScans(ScanOf(LinesOf(rows[..n], layouts[..n])), rows[n], layouts[n]);
      LastOfSnoc(rows[..n], rows[n]);
    }
  }

  /** Printing any table in any order and parsing it reads the three sizes in bytes, the last row
      of a key deciding, and leaves the other rows out of the answer. */
  lemma {:induction false} TableParses(rows: seq<Row>, layouts: seq<Layout>)
    requires |rows| == |layouts| && forall i :: 0 <= i < |rows| ==> Printable(rows[i], layouts[i])
    ensures ScanOf(SplitOn(Join(LinesOf(rows, layouts) + [""], '\n'), '\n')) ==
              Scan(BytesOf(rows, CACHED), BytesOf(rows, ACTIVE), BytesOf(rows, INACTIVE))
  {
    hide LineOf, SplitOn, Join, BytesOf;
    var lines := LinesOf(rows, layouts) + [""];
    forall p | p in lines
      ensures '\n' !in p
    {
      var i :| 0 <= i < |lines| && lines[i] == p;
      if i < |rows| {
        OneLine(rows[i], layouts[i]);
      }
    }
    SplitOfJoin(lines, '\n');
    ScanOfRows(rows, layouts);
    assert lines[..|rows|] == LinesOf(rows, layouts);
    assert lines[|rows|] == "";
  }

  lemma {:induction false} OneLine(row: Row, layout: Layout)
    requires Printable(row, layout)
    ensures '\n' !in LineOf(row, layout)
  {
  }

  /** The table of any native sizes: what the request answers for a printed file. */
  lemma {:induction false} FileIsAnswered(native: Native, rows: seq<Row>, layouts: seq<Layout>)
    requires native.Sizes?
    requires |rows| == |layouts| && forall i :: 0 <= i < |rows| ==> Printable(rows[i], layouts[i])
    ensures var m := Answer(native, ScanOf(SplitOn(Join(LinesOf(rows, layouts) + [""], '\n'), '\n')));
            && m.cached == BytesOf(rows, "Cached")
            && m.active == BytesOf(rows, "Active") && m.inactive == BytesOf(rows, "Inactive")
            && m.available == Plus(Int(native.free + native.buffer), m.cached)
            && m.total == Int(native.total) && m.free == Int(native.free) && m.buffers == Int(native.buffer)
            && m.used == Int(native.total - native.free) && Plus(m.used, m.free) == m.total
  {
    hide ScanOf, SplitOn, Join, BytesOf, LinesOf, Printable, PercentOf;
    TableParses(rows, layouts);
  }

  /** The size is the second token, in kilobytes: none without it, NaN for anything but digits. */
  lemma {:induction false} SecondTokenIsSize(key: string, token: string, more: seq<string>, n: nat)
    ensures Bytes([key], 1) == NaN && Bytes([key, ""] + more, 1) == Int(0)
    ensures Bytes([key, Decimal(n)] + more, 1) == Int(1024 * n)
    ensures (exists k :: 0 <= k < |token| && !IsDigit(token[k])) ==> Bytes([key, token] + more, 1) == NaN
  {
    hide Decimal;
    DigitsValueOfDecimal(n);
    assert ([key, token] + more)[1] == token && ([key, Decimal(n)] + more)[1] == Decimal(n);
    assert ([key, ""] + more)[1] == "";
  }

  /** A key and nothing behind it is a row of no kilobytes. */
  lemma {:induction false} BareKeys(s: Scan)
    ensures Scanned(s, "Cached" + ":") == s.(cached := Int(0))
    ensures Scanned(s, "Active" + ":") == s.(active := Int(0))
    ensures Scanned(s, "Inactive" + ":") == s.(inactive := Int(0))
  {
    hide Tokens, HasKey;
    BareKey("Cached");
    BareKey("Active");
    BareKey("Inactive");
    OwnKeyBare(CACHED, "Cached");
    OwnKeyBare(CACHED, "Active");
    OwnKeyBare(CACHED, "Inactive");
    OwnKeyBare(ACTIVE, "Active");
    OwnKeyBare(ACTIVE, "Inactive");
    OwnKeyBare(INACTIVE, "Inactive");
  }

  lemma {:induction false} OwnKeyBare(key: string, other: string)
    requires ':' !in other && ':' !in key
    ensures HasKey(other + ":", key) <==> key == other
  {
    var line := other + ":";
    IndexOfIs(line, ':', |other|);
    assert line[..|other|] == other;
    if HasKey(line, key) {
      assert line[|key|] == (key + ":")[|key|] && line[..|key|] == (key + ":")[..|key|] == key;
      IndexOfIs(line, ':', |key|);
    }
  }

  lemma {:induction false} BareKey(key: string)
    requires AllWord(key)
    ensures Tokens(key + ":") == [key, ""]
  {
    hide Tokens;
    assert key + ":" + "" == key + ":";
    TokensStep(key, ":", "");
    TokensOfWord("");
  }

  /** The exact share that is not available, in percent. */
  function Share(total: nat, available: nat): real
    requires total > 0
  {
    (total as real - available as real) / total as real * 100.0
  }

  /** The answered percentage is within 0.05 of the share of what is not free, buffered or cached.
      The share lies in [0, 100] exactly if no more is available than there is, and the percentage
      does exactly if the excess, if any, is at most the 2000th part of the total, for then it
      rounds to 0. */
  lemma {:induction false} PercentIsShare(native: Native, scan: Scan)
    requires native.Sizes? && native.total > 0 && scan.cached.Int? && scan.cached.n >= 0
    ensures var m := Answer(native, scan);
            var available := native.free + native.buffer + scan.cached.n;
            var share := Share(native.total, available);
            && m.available == Int(available) && m.percent.Some?
            && -0.05 <= m.percent.value - share <= 0.05
            && (0.0 <= share <= 100.0 <==> available <= native.total)
            && (0.0 <= m.percent.value <= 100.0 <==> 2000 * (available - native.total) <= native.total)
  {
    hide RoundNumber, Pow10;
    var t, a := native.total, native.free + native.buffer + scan.cached.n;
    assert (t - a) as real == t as real - a as real;
    var share := Share(t, a);
    ShareSigns(t, a);
    TwoDecimals();
    RoundIsNear(share, 1);
    RoundIsMonotone(share, 100.0, 1);
    RoundFixes(1000, 1);
    RoundsToZero(share);
  }

  lemma {:induction false} ShareSigns(total: nat, available: nat)
    requires total > 0
    ensures var share := Share(total, available);
            share <= 100.0 && (share >= 0.0 <==> available <= total)
            && (share >= -0.05 <==> 2000 * (available - total) <= total)
  {
    var t, a := total as real, available as real;
    var q := Quotient(t - a, t);
    assert Share(total, available) == q * 100.0;
    QuotientSigns(q, t, a);
    assert t - a >= 0.0 <==> available <= total;
    assert 2000.0 * (a - t) <= t <==> 2000 * (available - total) <= total;
  }

  lemma {:induction false} QuotientSigns(q: real, t: real, a: real)
    requires t > 0.0 && a >= 0.0 && q * t == t - a
    ensures q <= 1.0 && (q >= 0.0 <==> t - a >= 0.0) && (q >= -0.0005 <==> 2000.0 * (a - t) <= t)
  {
    assert (1.0 - q) * t == t - q * t && (q + 0.0005) * t == q * t + 0.0005 * t;
    Sign(1.0 - q, t);
    Sign(q, t);
    Sign(q + 0.0005, t);
  }

  lemma {:induction false} Quotient(x: real, t: real) returns (q: real)
    requires t > 0.0
    ensures q == x / t && q * t == x
  {
    q := x / t;
  }

  lemma {:induction false} Sign(x: real, t: real)
    requires t > 0.0
    ensures x >= 0.0 <==> x * t >= 0.0
  {
    if x < 0.0 {
      assert (-x) * t > 0.0;
    }
  }

  /** One decimal rounds to 0 or more exactly from -0.05 on. */
  lemma {:induction false} RoundsToZero(x: real)
    ensures RoundNumber(x, 1) >= 0.0 <==> x >= -0.05
  {
    hide Pow10;
    TwoDecimals();
    var r := MathRound(Scaled(x, 10.0));
    assert r >= 0 <==> x * 10.0 + 0.5 >= 0.0;
    assert RoundNumber(x, 1) == (r as real) / 10.0;
  }
}
