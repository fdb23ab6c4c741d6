/** The Linux readers of one process: the name and the CPU times in /proc/[pid]/stat, the
    parent in /proc/[pid]/status. */
module ProcessStat {
  import opened Text
  import opened Numerals

  /** A stat line as the kernel prints it: `pid (comm) state field field ...`. */
  datatype Stat = Stat(pid: nat, comm: string, state: char, fields: seq<int>)

  function Signed(n: int): string { if n < 0 then "-" + Decimal(-n) else Decimal(n) }

  function Unsigned(n: int): string { if n < 0 then Decimal(-n) else Decimal(n) }

  /** What follows the comm, split on blanks. */
  function BlankFields(state: char, fields: seq<int>): (ts: seq<string>)
    ensures |ts| == 1 + |fields| && ts[0] == [state]
    ensures forall i :: 0 <= i < |fields| ==> ts[i + 1] == Signed(fields[i])
  {
    [[state]] + seq(|fields|, i requires 0 <= i < |fields| => Signed(fields[i]))
  }

  /** The same with the signs dropped. */
  function UnsignedFields(state: char, fields: seq<int>): (ts: seq<string>)
    ensures |ts| == 1 + |fields| && ts[0] == [state]
    ensures forall i :: 0 <= i < |fields| ==> ts[i + 1] == Unsigned(fields[i])
  {
    [[state]] + seq(|fields|, i requires 0 <= i < |fields| => Unsigned(fields[i]))
  }

  function Tail(state: char, fields: seq<int>): string { Join(BlankFields(state, fields), ' ') }

  function Printed(s: Stat): string {
    Decimal(s.pid) + " (" + s.comm + ") " + Tail(s.state, s.fields) + "\n"
  }

  predicate Letter(c: char) { 'a' <= c <= 'z' || 'A' <= c <= 'Z' }

  // ------------------------------------------------------- CPU times

  /** `data.substr(data.indexOf(')') + 1).trim()` */
  function AfterParen(data: string): string {
    var n := IndexOf(data, ')');
    Trim(if n == |data| then data else data[n + 1..])
  }

  /** The values the reader indexes. */
  function ValuesOf(data: string): seq<string> { Tokens(AfterParen(data)) }

  /** Whatever reading the file failed with, the readers report this. */
  const FAILURE: string := "process doest not exist or access denied"

  datatype CpuTimes = Failed(message: string) | Times(utime: Float, stime: Float)

  function CpuTimesOf(file: FileRead, clockTicks: nat): CpuTimes {
    if file.ReadError? then Failed(FAILURE)
    else
      var values := ValuesOf(file.text);
      Times(Divide(ParseFloatAt(values, 11), clockTicks), Divide(ParseFloatAt(values, 12), clockTicks))
  }

  method SetCpuTimes(file: FileRead, clockTicks: nat) returns (r: CpuTimes)
    ensures r == CpuTimesOf(file, clockTicks)
  {
    hide Tokens, ParseFloatAt, Divide, AfterParen;
    if file.ReadError? {
      return Failed(FAILURE);
    }
    var values := SplitNonWord(AfterParen(file.text));
    r := Times(Divide(ParseFloatAt(values, 11), clockTicks), Divide(ParseFloatAt(values, 12), clockTicks));
  }

  function Gaps(fields: seq<int>): (gaps: seq<string>)
    ensures |gaps| == |fields|
    ensures forall i :: 0 <= i < |fields| ==> gaps[i] == if fields[i] < 0 then " -" else " "
  {
    seq(|fields|, i requires 0 <= i < |fields| => if fields[i] < 0 then " -" else " ")
  }

  /** Texts joined by blanks are words glued by gaps, when each blank and text is a gap and a word. */
  lemma {:induction false} JoinIsGlue(first: string, b: seq<string>, u: seq<string>, gaps: seq<string>)
    requires |b| == |u| == |gaps|
    requires forall i :: 0 <= i < |b| ==> " " + b[i] == gaps[i] + u[i]
    ensures Join([first] + b, ' ') == Glue([first] + u, gaps)
    decreases |b|
  {
    assert ([first] + b)[1..] == b && ([first] + u)[1..] == u;
    if b != [] {
      JoinIsGlue(u[0], b[1..], u[1..], gaps[1..]);
      assert b == [b[0]] + b[1..] && u == [u[0]] + u[1..];
      JoinHead(b[0], u[0], gaps[0], b[1..]);
      var g := Glue(u, gaps[1..]);
      assert first + " " + Join(b, ' ') == first + (" " + Join(b, ' '));
      assert first + gaps[0] + g == first + (gaps[0] + g);
    }
  }

  lemma {:induction false} JoinHead(signed: string, unsigned: string, gap: string, rest: seq<string>)
    requires " " + signed == gap + unsigned
    ensures " " + Join([signed] + rest, ' ') == gap + Join([unsigned] + rest, ' ')
  {
    if rest != [] {
      assert ([signed] + rest)[1..] == rest && ([unsigned] + rest)[1..] == rest;
      var j := " " + Join(rest, ' ');
      assert Join([signed] + rest, ' ') == signed + j && Join([unsigned] + rest, ' ') == unsigned + j;
      assert " " + (signed + j) == (" " + signed) + j && gap + (unsigned + j) == (gap + unsigned) + j;
    }
  }

  /** Splitting what follows the comm: on blanks it gives the fields, on `\W+` the same fields
      without their signs, index by index. */
  lemma {:induction false} TailSplits(state: char, fields: seq<int>)
    requires Letter(state)
    ensures SplitOn(Tail(state, fields), ' ') == BlankFields(state, fields)
    ensures Tokens(Tail(state, fields)) == UnsignedFields(state, fields)
  {
    hide Join, Glue, Tokens, SplitOn, Signed, Unsigned, BlankFields, UnsignedFields, Separated;
    var b, u := BlankFields(state, fields), UnsignedFields(state, fields);
    FieldTexts(state, fields);
    SplitOfJoin(b, ' ');
    TailIsGlue(state, fields);
    FieldsSeparate(state, fields);
    TokensOfGlue(u, Gaps(fields));
  }

  lemma {:induction false} FieldsSeparate(state: char, fields: seq<int>)
    requires Letter(state)
    ensures Separated(UnsignedFields(state, fields), Gaps(fields))
  {
    hide Signed, Unsigned, BlankFields, UnsignedFields;
    FieldTexts(state, fields);
  }

  lemma {:induction false} TailIsGlue(state: char, fields: seq<int>)
    ensures Tail(state, fields) == Glue(UnsignedFields(state, fields), Gaps(fields))
  {
    hide Join, Glue, Signed, Unsigned, BlankFields, UnsignedFields, Gaps;
    var b, u, gaps := BlankFields(state, fields), UnsignedFields(state, fields), Gaps(fields);
    var bs, us := b[1..], u[1..];
    assert b == [[state]] + bs && u == [[state]] + us;
    forall i | 0 <= i < |bs|
      ensures " " + bs[i] == gaps[i] + us[i]
    {
      assert bs[i] == b[i + 1] && us[i] == u[i + 1];
      SignIsInGap(fields[i]);
    }
    JoinIsGlue([state], bs, us, gaps);
  }

  lemma {:induction false} SignIsInGap(n: int)
    ensures " " + Signed(n) == (if n < 0 then " -" else " ") + Unsigned(n)
  {
    hide Decimal;
  }

  lemma {:induction false} TailEnds(state: char, fields: seq<int>)
    requires Letter(state)
    ensures var t := Tail(state, fields); t != "" && t[0] == state && Trimmed(t)
  {
    hide Join;
    FieldTexts(state, fields);
    JoinEnds(BlankFields(state, fields), ' ');
  }

  lemma {:induction false} FieldTexts(state: char, fields: seq<int>)
    requires Letter(state)
    ensures var b, u := BlankFields(state, fields), UnsignedFields(state, fields);
            && (forall i :: 0 <= i < |b| ==> b[i] != "" && ' ' !in b[i] && !IsBlank(b[i][|b[i]| - 1]))
            && (forall i :: 0 <= i < |u| ==> u[i] != "" && AllWord(u[i]))
  {
    hide Decimal, Signed, Unsigned;
    var b, u := BlankFields(state, fields), UnsignedFields(state, fields);
    forall i | 0 <= i < |b|
      ensures b[i] != "" && ' ' !in b[i] && !IsBlank(b[i][|b[i]| - 1]) && u[i] != "" && AllWord(u[i])
    {
      if i > 0 {
        FieldText(fields[i - 1]);
        assert b[i - 1 + 1] == Signed(fields[i - 1]) && u[i - 1 + 1] == Unsigned(fields[i - 1]);
      }
    }
  }

  lemma {:induction false} FieldText(n: int)
    ensures var b, u := Signed(n), Unsigned(n);
            b != "" && ' ' !in b && !IsBlank(b[|b| - 1]) && u != "" && AllWord(u)
  {
    var m := if n < 0 then -n else n;
    DecimalIsWord(m);
    var d := Decimal(m);
    assert Unsigned(n) == d;
    assert forall i :: 0 <= i < |d| ==> IsDigit(d[i]) && d[i] != ' ';
  }

  /** A comm with a ')' is cut at that one: more text, and at least one more token, stands
      before the state letter. */
  lemma {:induction false} TokensBefore(x: string, y: string)
    requires x != "" && !IsWord(x[|x| - 1]) && y != "" && IsWord(y[0])
    ensures |Tokens(x + y)| >= 1 + |Tokens(y)|
    decreases |x|
  {
    hide Tokens;
    assert x[..|x|] == x;
    assert !AllWord(x);
    var t, gap, rest := TokensUnfold(x);
    assert x + y == t + gap + (rest + y);
    TokensStep(t, gap, rest + y);
    if rest == "" {
      assert rest + y == y;
    } else {
      assert rest[|rest| - 1] == x[|x| - 1];
      TokensBefore(rest, y);
    }
  }

  lemma {:induction false} LeadingBlanks(r: string) returns (a: string, s: string)
    ensures r == a + s && AllBlank(a) && (s != "" ==> !IsBlank(s[0]))
  {
    if r == "" || !IsBlank(r[0]) {
      a, s := "", r;
    } else {
      a, s := LeadingBlanks(r[1..]);
      a := [r[0]] + a;
    }
  }

  lemma {:induction false} NoParenInDecimal(n: nat)
    ensures ')' !in Decimal(n) && ' ' !in Decimal(n) && '(' !in Decimal(n)
  {
    hide Decimal;
    var d := Decimal(n);
    assert forall i :: 0 <= i < |d| ==> IsDigit(d[i]) && d[i] != ')' && d[i] != ' ' && d[i] != '(';
  }

  lemma {:induction false} AfterParenCut(front: string, back: string)
    requires ')' !in front
    ensures AfterParen(front + ")" + back) == Trim(back)
  {
    hide Trim, IndexOf;
    var data := front + ")" + back;
    assert data[..|front|] == front;
    IndexOfIs(data, ')', |front|);
    assert data[|front| + 1..] == back;
  }

  /** The text the reader splits, when comm[n] is the first ')' of the comm or `n` is its length. */
  lemma {:induction false} AfterParenIs(s: Stat, n: nat) returns (rest: string)
    requires Letter(s.state) && n == IndexOf(s.comm, ')')
    ensures AfterParen(Printed(s)) == rest + Tail(s.state, s.fields)
    ensures n == |s.comm| ==> rest == ""
    ensures n < |s.comm| ==> rest != "" && !IsWord(rest[|rest| - 1])
  {
    hide Tokens, Trim, Tail, Decimal, SplitOn, IndexOf, AfterParen;
    var tail := Tail(s.state, s.fields);
    TailEnds(s.state, s.fields);
    NoParenInDecimal(s.pid);
    var front := Decimal(s.pid) + " (" + s.comm[..n];
    var back := (s.comm + ")")[n + 1..];
    assert s.comm + ")" == s.comm[..n] + ")" + back;
    assert Printed(s) == front + ")" + (back + " " + tail + "\n");
    AfterParenCut(front, back + " " + tail + "\n");
    if n == |s.comm| {
      rest := "";
      assert back + " " + tail + "\n" == " " + tail + "\n";
      TrimPadded(" ", tail, "\n");
    } else {
      assert (s.comm + ")")[|s.comm|] == ')' && back != "" && back[|back| - 1] == ')';
      rest := TrimToTail(back, tail);
    }
  }

  lemma {:induction false} TrimToTail(back: string, tail: string) returns (rest: string)
    requires back != "" && back[|back| - 1] == ')'
    requires tail != "" && Trimmed(tail)
    ensures Trim(back + " " + tail + "\n") == rest + tail
    ensures rest != "" && !IsWord(rest[|rest| - 1])
  {
    hide Trim;
    var blanks, visible := LeadingBlanks(back);
    assert visible == "" ==> back == blanks;
    rest := visible + " ";
    assert back + " " + tail + "\n" == blanks + (rest + tail) + "\n";
    assert (rest + tail)[0] == visible[0];
    TrimPadded(blanks, rest + tail, "\n");
  }

  /** The reader's values line up with the fields, signs dropped, exactly if the comm has no
      ')' of its own. */
  lemma {:induction false} ValuesLineUp(s: Stat)
    requires Letter(s.state)
    ensures ValuesOf(Printed(s)) == UnsignedFields(s.state, s.fields) <==> ')' !in s.comm
    ensures ')' in s.comm ==> |ValuesOf(Printed(s))| > 1 + |s.fields|
  {
    hide AfterParen, Printed, Tokens, Tail;
    var n := IndexOf(s.comm, ')');
    var rest := AfterParenIs(s, n);
    TailSplits(s.state, s.fields);
    TailEnds(s.state, s.fields);
    if n == |s.comm| {
      assert s.comm[..n] == s.comm;
      assert rest + Tail(s.state, s.fields) == Tail(s.state, s.fields);
    } else {
      TokensBefore(rest, Tail(s.state, s.fields));
    }
  }

  /** For every line whose comm has no ')', the times are the 14th and 15th entries of the line
      over the clock rate. */
  lemma {:induction false} CpuTimesAreRead(s: Stat, clockTicks: nat)
    requires Letter(s.state) && ')' !in s.comm && clockTicks > 0
    requires |s.fields| >= 12 && s.fields[10] >= 0 && s.fields[11] >= 0
    ensures CpuTimesOf(Contents(Printed(s)), clockTicks) ==
              Times(Finite((s.fields[10] as real) / (clockTicks as real)),
                    Finite((s.fields[11] as real) / (clockTicks as real)))
  {
    hide ValuesOf, Printed, ParseFloat, Decimal;
    ValuesLineUp(s);
    ParseFloatOfDecimal(s.fields[10]);
    ParseFloatOfDecimal(s.fields[11]);
    var u := UnsignedFields(s.state, s.fields);
    assert u[10 + 1] == Unsigned(s.fields[10]) && u[11 + 1] == Unsigned(s.fields[11]);
  }

  /** It is the leading letter that keeps the tokens aligned: a signed number in its place
      would put an empty token first. */
  lemma {:induction false} LeadingSignShifts(n: nat, rest: string)
    requires rest != "" ==> !IsWord(rest[0])
    ensures Tokens(Signed(-1 - n) + rest)[0] == ""
    ensures |Tokens(Signed(-1 - n) + rest)| == 1 + |Tokens(Unsigned(-1 - n) + rest)|
  {
    hide Tokens, Decimal;
    DecimalIsWord(1 + n);
    var d := Decimal(1 + n);
    var tail := d + rest;
    assert ("-" + d) + rest == "" + "-" + tail;
    assert tail[0] == d[0] && IsWord(d[0]);
    TokensStep("", "-", tail);
  }

  // ------------------------------------------------------- the name

  /** What the first two entries of `data.split(/ +/)` show: the text between the first run of
      spaces and the next space. */
  function SecondWord(data: string): Option<string> {
    var n := IndexOf(data, ' ');
    if n == |data| then None
    else
      var rest := SkipSpaces(data[n..]);
      Some(rest[..IndexOf(rest, ' ')])
  }

  function SkipSpaces(s: string): string {
    if s != "" && s[0] == ' ' then SkipSpaces(s[1..]) else s
  }

  /** `s.replace(/c/, '')`: drops the first occurrence. */
  function DropFirst(s: string, c: char): string {
    var n := IndexOf(s, c);
    if n == |s| then s else s[..n] + s[n + 1..]
  }

  /** The name the reader stores; None where a line without a space makes it throw. */
  function NameOf(data: string): Option<string> {
    var word := SecondWord(data);
    if word.None? then None else Some(DropFirst(DropFirst(word.value, '('), ')'))
  }

  /** From its first ')' on, the comm has nothing else. */
  predicate ParensAtEnd(comm: string) {
    forall i :: IndexOf(comm, ')') <= i < |comm| ==> comm[i] == ')'
  }

  lemma {:induction false} ShiftedIsConstant(y: string, c: char)
    requires (y + [c])[1..] == y
    ensures forall i :: 0 <= i < |y| ==> y[i] == c
  {
    if y != "" {
      var n := |y| - 1;
      assert (y + [c])[1..][n] == c;
      var z := y[..n];
      assert forall i :: 0 <= i < n ==> (y + [c])[1..][i] == y[i + 1];
      assert (z + [c])[1..] == z;
      ShiftedIsConstant(z, c);
      assert forall i :: 0 <= i < n ==> y[i] == z[i];
    }
  }

  lemma {:induction false} DropFirstOfClosed(x: string)
    ensures DropFirst(x + ")", ')') == x <==> ParensAtEnd(x)
  {
    hide IndexOf;
    var n := IndexOf(x, ')');
    var s := x + ")";
    assert s[..n] == x[..n];
    IndexOfIs(s, ')', n);
    var y := x[n..];
    assert s[n + 1..] == (y + ")")[1..];
    assert x == x[..n] + y;
    assert DropFirst(s, ')') == x[..n] + (y + ")")[1..];
    if (y + ")")[1..] == y {
      ShiftedIsConstant(y, ')');
      assert forall i :: n <= i < |x| ==> x[i] == y[i - n];
    }
    if ParensAtEnd(x) {
      assert forall i :: 0 <= i < |y| ==> y[i] == x[i + n] == ')';
      assert (y + ")")[1..] == y;
    }
    if DropFirst(s, ')') == x {
      assert DropFirst(s, ')')[n..] == (y + ")")[1..];
    }
  }

  datatype Name = NoName(message: string) | Throws | Named(text: string)

  function NameRead(file: FileRead): Name {
    if file.ReadError? then NoName(FAILURE)
    else
      var name := NameOf(file.text);
      if name.None? then Throws else Named(name.value)
  }

  /** A file that cannot be read gives the same message to all three readers. */
  lemma {:induction false} ReadErrorsAreReported(message: string, clockTicks: nat)
    ensures var failed := ReadError(message); var reported := "process doest not exist or access denied";
            && NameRead(failed) == NoName(reported) && PpidOf(failed) == NoProcess(reported)
            && CpuTimesOf(failed, clockTicks) == Failed(reported)
  {
  }

  lemma {:induction false} WordOfLine(s: Stat)
    ensures var w := (s.comm + ") ")[..IndexOf(s.comm + ") ", ' ')];
            NameOf(Printed(s)) == Some(DropFirst(w, ')'))
  {
    hide Tail, Decimal, IndexOf, SecondWord, DropFirst;
    var d, tail := Decimal(s.pid), Tail(s.state, s.fields);
    NoParenInDecimal(s.pid);
    var c := s.comm + ") ";
    var k := IndexOf(c, ' ');
    assert c[|c| - 1] == ' ' && c[..|c|] == c;
    var word := "(" + c[..k];
    assert Printed(s) == d + " " + word + " " + (c[k + 1..] + tail + "\n");
    SecondWordIs(d, word, c[k + 1..] + tail + "\n");
    DropHead(c[..k], '(');
    assert word == ['('] + c[..k];
  }

  lemma {:induction false} DropHead(s: string, c: char)
    ensures DropFirst([c] + s, c) == s
  {
    IndexOfIs([c] + s, c, 0);
    assert ([c] + s)[1..] == s;
  }

  lemma {:induction false} DropFirstShortens(s: string, c: char)
    ensures |DropFirst(s, c)| <= |s|
  {
  }

  lemma {:induction false} SecondWordIs(first: string, word: string, rest: string)
    requires ' ' !in first && word != "" && ' ' !in word
    ensures SecondWord(first + " " + word + " " + rest) == Some(word)
  {
    hide IndexOf;
    var data := first + " " + word + " " + rest;
    var later := word + " " + rest;
    assert data[..|first|] == first;
    IndexOfIs(data, ' ', |first|);
    assert data[|first|..] == " " + later && (" " + later)[1..] == later;
    assert SkipSpaces(later) == later && SkipSpaces(" " + later) == later;
    assert later[..|word|] == word;
    IndexOfIs(later, ' ', |word|);
  }

  /** The stored name is the comm exactly if the comm has no space and no ')' followed by
      anything else. */
  lemma {:induction false} NameIsComm(s: Stat)
    ensures NameOf(Printed(s)) == Some(s.comm) <==> ' ' !in s.comm && ParensAtEnd(s.comm)
  {
    hide Printed, NameOf, IndexOf, DropFirst;
    WordOfLine(s);
    var c := s.comm + ") ";
    var k := IndexOf(s.comm, ' ');
    if k == |s.comm| {
      assert s.comm[..k] == s.comm;
      assert c[..k + 1] == s.comm + ")";
      IndexOfIs(c, ' ', k + 1);
      DropFirstOfClosed(s.comm);
    } else {
      assert c[..k] == s.comm[..k];
      IndexOfIs(c, ' ', k);
      DropFirstShortens(c[..k], ')');
    }
  }

  /** What is read instead: a space ends the name, and of several ')' the first is lost. */
  lemma {:induction false} NameOtherwise(s: Stat, a: string, b: string)
    requires ')' !in a && ' ' !in a
    ensures s.comm == a + " " + b ==> NameOf(Printed(s)) == Some(a)
    ensures s.comm == a + ")" + b && ' ' !in b ==> NameOf(Printed(s)) == Some(a + b + ")")
  {
    hide Printed, NameOf, IndexOf;
    WordOfLine(s);
    var c := s.comm + ") ";
    if s.comm == a + " " + b {
      assert c[..|a|] == a && c[|a|] == ' ';
      IndexOfIs(c, ' ', |a|);
      assert a[..|a|] == a;
      IndexOfIs(a, ')', |a|);
    }
    if s.comm == a + ")" + b && ' ' !in b {
      var w := a + ")" + (b + ")");
      assert c == w + " " && c[..|w|] == w && c[|w|] == ' ';
      IndexOfIs(c, ' ', |w|);
      assert w[..|a|] == a && w[|a|] == ')' && w[|a| + 1..] == b + ")";
      IndexOfIs(w, ')', |a|);
      assert a + (b + ")") == a + b + ")";
    }
  }

  /** A line as the kernel prints it. */
  lemma {:induction false} PrintedText()
    ensures Printed(Stat(7, "sh", 'S', [12, -1])) == "7 (sh) S 12 -1\n"
  {
    var b: seq<string> := BlankFields('S', [12, -1]);
    DecimalTwelve();
    assert b[1] == b[0 + 1] == Signed(12) && b[2] == b[1 + 1] == Signed(-1);
    var last: seq<string> := ["-1"];
    var rest := ["12"] + last;
    assert b == ["S"] + rest && b[1..] == rest && rest[1..] == last;
    assert Join(last, ' ') == "-1" && Join(rest, ' ') == "12 -1" && Join(b, ' ') == "S 12 -1";
  }

  lemma {:induction false} DecimalTwelve()
    ensures Signed(12) == "12" && Signed(-1) == "-1" && Decimal(7) == "7"
  {
    assert Decimal(1) == "1" && Decimal(12) == Decimal(1) + "2";
  }

  // ------------------------------------------------------- the parent

  const PPID_KEY: string := "PPid:"

  function ParentIn(line: string): Num { ParseIntAt([Trim(TokenAfterKey(line))], 0) }

  function TokenAfterKey(line: string): string {
    var ts := Tokens(line);
    if |ts| > 1 then ts[1] else ""
  }

  /** The first line that starts with the key decides; without one the parent stays 0. */
  function ParentOf(lines: seq<string>): Num {
    if lines == [] then Int(0)
    else if PPID_KEY <= lines[0] then ParentIn(lines[0])
    else ParentOf(lines[1..])
  }

  datatype Ppid = NoProcess(message: string) | Parent(n: Num)

  function PpidOf(file: FileRead): Ppid {
    if file.ReadError? then NoProcess(FAILURE) else Parent(ParentOf(SplitOn(file.text, '\n')))
  }

  method SetPpid(file: FileRead) returns (r: Ppid)
    ensures r == PpidOf(file)
  {
    hide SplitOn, ParentIn;
    if file.ReadError? {
      return NoProcess(FAILURE);
    }
    var lines := SplitOn(file.text, '\n');
    var ppid := Int(0);
    var i := 0;
    assert lines[0..] == lines;
    while i < |lines|
      invariant 0 <= i <= |lines|
      invariant ppid == Int(0)
      invariant ParentOf(lines[i..]) == ParentOf(lines)
    {
      assert lines[i..][1..] == lines[i + 1..];
      if PPID_KEY <= lines[i] {
        ppid := ParentIn(lines[i]);
        break;
      }
      i := i + 1;
    }
    r := Parent(ppid);
  }

  /** Printed behind its key, a parent is read back, whatever lines without the key precede. */
  lemma {:induction false} ParentIsRead(before: seq<string>, blanks: string, ppid: nat, after: seq<string>)
    requires forall i :: 0 <= i < |before| ==> !("PPid:" <= before[i])
    requires AllBlank(blanks)
    ensures ParentOf(before + ["PPid:" + blanks + Decimal(ppid)] + after) == Int(ppid)
  {
    var line := "PPid:" + blanks + Decimal(ppid);
    var lines := before + [line] + after;
    if before == [] {
      ParentLine(blanks, ppid);
    } else {
      assert lines[1..] == before[1..] + [line] + after;
      ParentIsRead(before[1..], blanks, ppid, after);
    }
  }

  lemma {:induction false} ParentIsMissing(lines: seq<string>)
    requires forall i :: 0 <= i < |lines| ==> !("PPid:" <= lines[i])
    ensures ParentOf(lines) == Int(0)
  {
    if lines != [] {
      ParentIsMissing(lines[1..]);
    }
  }

  /** The same for a whole file: the printed parent is the answer, and 0 when there is none. */
  lemma {:induction false} StatusIsRead(before: seq<string>, blanks: string, ppid: nat, after: seq<string>)
    requires forall i :: 0 <= i < |before| ==> '\n' !in before[i] && !("PPid:" <= before[i])
    requires InlineBlank(blanks) && forall i :: 0 <= i < |after| ==> '\n' !in after[i]
    ensures PpidOf(Contents(Join(before + ["PPid:" + blanks + Decimal(ppid)] + after, '\n'))) == Parent(Int(ppid))
    ensures before != [] ==> PpidOf(Contents(Join(before, '\n'))) == Parent(Int(0))
  {
    hide Join, SplitOn, ParentOf, Decimal;
    DecimalIsWord(ppid);
    assert forall t :: AllWord(t) ==> '\n' !in t;
    var line := "PPid:" + blanks + Decimal(ppid);
    var lines := before + [line] + after;
    assert '\n' !in line;
    SplitOfJoin(lines, '\n');
    ParentIsRead(before, blanks, ppid, after);
    ParentIsMissing(before);
    if before != [] {
      SplitOfJoin(before, '\n');
    }
  }

  lemma {:induction false} ParentLine(blanks: string, ppid: nat)
    requires AllBlank(blanks)
    ensures ParentIn("PPid:" + blanks + Decimal(ppid)) == Int(ppid)
  {
    hide Tokens, ParseInt, Trim, Decimal;
    DecimalIsWord(ppid);
    var d := Decimal(ppid);
    assert "PPid:" + blanks + d == "PPid" + (":" + blanks) + d;
    TokensStep("PPid", ":" + blanks, d);
    TokensOfWord(d);
    TrimPadded("", d, "");
    assert "" + d + "" == d;
  }
}
