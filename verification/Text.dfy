/** Strings as the parsers of `/proc` files use them: `trim`, `split(/\n/)`, `indexOf` and the
    tokeniser `split(/\W+/)`, as ECMA-262 5.1 sections 15.5.4.20, 15.5.4.14, 15.5.4.7 and
    15.10.2.12 define them.  Files are read as 'ascii', so only the ASCII blanks occur. */
module Text {

  datatype Option<T> = None | Some(value: T)

  /** What `fs.readFile` calls back with. */
  datatype FileRead = ReadError(message: string) | Contents(text: string)

  predicate IsDigit(c: char) { '0' <= c <= '9' }

  /** The characters that `\w` matches; `\W` matches all others. */
  predicate IsWord(c: char) {
    'a' <= c <= 'z' || 'A' <= c <= 'Z' || IsDigit(c) || c == '_'
  }

  /** The characters that `trim` removes. */
  predicate IsBlank(c: char) {
    c == ' ' || '\t' <= c <= '\r'
  }

  predicate AllWord(s: string) { forall i :: 0 <= i < |s| ==> IsWord(s[i]) }

  predicate NoWord(s: string) { forall i :: 0 <= i < |s| ==> !IsWord(s[i]) }

  predicate AllBlank(s: string) { forall i :: 0 <= i < |s| ==> IsBlank(s[i]) }

  predicate InlineBlank(s: string) { AllBlank(s) && '\n' !in s }

  /** The element at an index of a JavaScript array of strings, or undefined. */
  function At(values: seq<string>, i: nat): Option<string> {
    if i < |values| then Some(values[i]) else None
  }

  // ---------------------------------------------------------------- trim

  function TrimLeft(s: string): string {
    if s == "" || !IsBlank(s[0]) then s else TrimLeft(s[1..])
  }

  function TrimRight(s: string): string {
    if s == "" || !IsBlank(s[|s| - 1]) then s else TrimRight(s[..|s| - 1])
  }

  function Trim(s: string): string { TrimRight(TrimLeft(s)) }

  /** Trimming puts no character in. */
  lemma {:induction false} TrimIsPart(s: string)
    ensures forall c :: c in Trim(s) ==> c in s
  {
    var a := TrimLeftIsEnd(s);
    var b := TrimRightIsFront(TrimLeft(s));
    assert s == a + TrimLeft(s) && TrimLeft(s) == Trim(s) + b;
  }

  lemma {:induction false} TrimLeftIsEnd(s: string) returns (a: string)
    ensures s == a + TrimLeft(s)
  {
    a := "";
    if s != "" && IsBlank(s[0]) {
      var rest := TrimLeftIsEnd(s[1..]);
      a := [s[0]] + rest;
    }
  }

  lemma {:induction false} TrimRightIsFront(s: string) returns (b: string)
    ensures s == TrimRight(s) + b
  {
    b := "";
    if s != "" && IsBlank(s[|s| - 1]) {
      var rest := TrimRightIsFront(s[..|s| - 1]);
      b := rest + [s[|s| - 1]];
    }
  }

  /** A text whose first and last characters are not blank. */
  predicate Trimmed(s: string) {
    s != "" ==> !IsBlank(s[0]) && !IsBlank(s[|s| - 1])
  }

  lemma {:induction false} TrimLeftSkips(a: string, s: string)
    requires AllBlank(a)
    ensures TrimLeft(a + s) == TrimLeft(s)
  {
    if a == "" {
      assert a + s == s;
    } else {
      assert (a + s)[1..] == a[1..] + s;
      TrimLeftSkips(a[1..], s);
    }
  }

  lemma {:induction false} TrimRightSkips(s: string, b: string)
    requires AllBlank(b)
    ensures TrimRight(s + b) == TrimRight(s)
  {
    if b == "" {
      assert s + b == s;
    } else {
      assert (s + b)[..|s + b| - 1] == s + b[..|b| - 1];
      TrimRightSkips(s, b[..|b| - 1]);
    }
  }

  /** `trim` recovers the middle of any blank-padded text with non-blank ends. */
  lemma {:induction false} TrimPadded(a: string, s: string, b: string)
    requires AllBlank(a) && AllBlank(b) && Trimmed(s)
    ensures Trim(a + s + b) == s
  {
    TrimLeftSkips(a, s + b);
    assert a + s + b == a + (s + b);
    if s == "" {
      assert s + b == b;
      TrimLeftSkips(b, "");
      assert b + "" == b;
    } else {
      TrimRightSkips(s, b);
    }
  }

  // ---------------------------------------------------------------- indexOf and split by one character

  /** The first index of `c`, or the length of `s` when there is none (JavaScript's -1). */
  function IndexOf(s: string, c: char): (n: nat)
    ensures n <= |s|
    ensures c !in s[..n]
    ensures n < |s| ==> s[n] == c
  {
    if s == "" || s[0] == c then 0
    else
      var n := 1 + IndexOf(s[1..], c);
      assert s[..n] == [s[0]] + s[1..][..n - 1];
      n
  }

  lemma {:induction false} IndexOfIs(s: string, c: char, n: nat)
    requires n <= |s| && c !in s[..n]
    requires n < |s| ==> s[n] == c
    ensures IndexOf(s, c) == n
  {
    if n > 0 {
      assert s[..n][0] == s[0];
      assert s[1..][..n - 1] == s[..n][1..];
      IndexOfIs(s[1..], c, n - 1);
    }
  }

  function SplitOn(s: string, sep: char): (parts: seq<string>)
    ensures |parts| >= 1
    decreases |s|
  {
    var n := IndexOf(s, sep);
    if n == |s| then [s] else [s[..n]] + SplitOn(s[n + 1..], sep)
  }

  function Join(parts: seq<string>, sep: char): string
    requires |parts| >= 1
  {
    if |parts| == 1 then parts[0] else parts[0] + [sep] + Join(parts[1..], sep)
  }

  /** Splitting undoes joining, for parts that do not hold the separator. */
  lemma {:induction false} SplitOfJoin(parts: seq<string>, sep: char)
    requires |parts| >= 1 && forall p :: p in parts ==> sep !in p
    ensures SplitOn(Join(parts, sep), sep) == parts
  {
    hide SplitOn;
    assert parts[0] in parts;
    if |parts| == 1 {
      SplitNowhere(parts[0], sep);
    } else {
      SplitFirst(parts[0], sep, Join(parts[1..], sep));
      SplitOfJoin(parts[1..], sep);
      assert parts == [parts[0]] + parts[1..];
    }
  }

  lemma {:induction false} SplitNowhere(s: string, sep: char)
    requires sep !in s
    ensures SplitOn(s, sep) == [s]
  {
    IndexOfIs(s, sep, |s|);
  }

  lemma {:induction false} SplitFirst(first: string, sep: char, rest: string)
    requires sep !in first
    ensures SplitOn(first + [sep] + rest, sep) == [first] + SplitOn(rest, sep)
  {
    var s, n := first + [sep] + rest, |first|;
    assert s[..n] == first && s[n] == sep && s[n + 1..] == rest;
    IndexOfIs(s, sep, n);
  }

  /** The ends of a joined text are those of its first and last parts. */
  lemma {:induction false} JoinEnds(parts: seq<string>, sep: char)
    requires |parts| >= 1 && parts[0] != "" && parts[|parts| - 1] != ""
    ensures var s := Join(parts, sep); var z := parts[|parts| - 1];
            s != "" && s[0] == parts[0][0] && s[|s| - 1] == z[|z| - 1]
  {
    JoinLast(parts, sep);
  }

  lemma {:induction false} JoinLast(parts: seq<string>, sep: char)
    requires |parts| >= 1 && parts[|parts| - 1] != ""
    ensures var s := Join(parts, sep); var z := parts[|parts| - 1];
            s != "" && s[|s| - 1] == z[|z| - 1]
  {
    if |parts| > 1 {
      assert parts[1..][|parts| - 2] == parts[|parts| - 1];
      JoinLast(parts[1..], sep);
    }
  }

  // ---------------------------------------------------------------- split(/\W+/)

  /** The length of the longest prefix of word characters. */
  function WordRun(s: string): (n: nat)
    ensures n <= |s| && AllWord(s[..n])
    ensures n < |s| ==> !IsWord(s[n])
  {
    if s == "" || !IsWord(s[0]) then 0 else 1 + WordRun(s[1..])
  }

  /** The length of the longest prefix of other characters: what `\W+` matches there. */
  function GapRun(s: string): (n: nat)
    ensures n <= |s| && NoWord(s[..n])
    ensures n < |s| ==> IsWord(s[n])
  {
    if s == "" || IsWord(s[0]) then 0 else 1 + GapRun(s[1..])
  }

  /** The pieces of `s` between the maximal runs of non-word characters. */
  function Tokens(s: string): (ts: seq<string>)
    ensures |ts| >= 1
    decreases |s|
  {
    var w := WordRun(s);
    if w == |s| then [s]
    else
      var g := GapRun(s[w..]);
      [s[..w]] + Tokens(s[w + g..])
  }

  /** Tokens printed with a gap between each two. */
  function Glue(ts: seq<string>, gaps: seq<string>): string
    requires |ts| == |gaps| + 1
  {
    if gaps == [] then ts[0] else ts[0] + gaps[0] + Glue(ts[1..], gaps[1..])
  }

  lemma {:induction false} GlueHasNoNewline(ts: seq<string>, gaps: seq<string>)
    requires |ts| == |gaps| + 1
    requires forall i :: 0 <= i < |ts| ==> '\n' !in ts[i]
    requires forall i :: 0 <= i < |gaps| ==> '\n' !in gaps[i]
    ensures '\n' !in Glue(ts, gaps) && ts[0] <= Glue(ts, gaps)
  {
    if gaps != [] {
      GlueHasNoNewline(ts[1..], gaps[1..]);
    }
  }

  /** Glued texts begin as the first and end as the last of them. */
  lemma {:induction false} GlueEnds(ts: seq<string>, gaps: seq<string>)
    requires |ts| == |gaps| + 1 && ts[0] != "" && ts[|gaps|] != ""
    ensures var s, z := Glue(ts, gaps), ts[|gaps|]; s != "" && s[0] == ts[0][0] && s[|s| - 1] == z[|z| - 1]
  {
    GlueLast(ts, gaps);
  }

  lemma {:induction false} GlueLast(ts: seq<string>, gaps: seq<string>)
    requires |ts| == |gaps| + 1 && ts[|gaps|] != ""
    ensures var s, z := Glue(ts, gaps), ts[|gaps|]; s != "" && s[|s| - 1] == z[|z| - 1]
  {
    if gaps != [] {
      assert ts[1..][|gaps| - 1] == ts[|gaps|];
      GlueLast(ts[1..], gaps[1..]);
    }
  }

  /** Word-only tokens and non-empty gaps without word characters; only the two end tokens
      may be empty. */
  predicate Separated(ts: seq<string>, gaps: seq<string>) {
    && |ts| == |gaps| + 1
    && (forall i :: 0 <= i < |ts| ==> AllWord(ts[i]))
    && (forall i :: 0 <= i < |gaps| ==> gaps[i] != "" && NoWord(gaps[i]))
    && (forall i :: 1 <= i < |ts| - 1 ==> ts[i] != "")
  }

  lemma {:induction false} RunIs(s: string, n: nat)
    requires n <= |s|
    ensures AllWord(s[..n]) && (n < |s| ==> !IsWord(s[n])) ==> WordRun(s) == n
    ensures NoWord(s[..n]) && (n < |s| ==> IsWord(s[n])) ==> GapRun(s) == n
  {
    var w, g := WordRun(s), GapRun(s);
    assert w < n ==> s[..n][w] == s[w];
    assert n < w ==> s[..w][n] == s[n];
    assert g < n ==> s[..n][g] == s[g];
    assert n < g ==> s[..g][n] == s[n];
  }

  /** One step of the tokeniser: a token, a gap, and a rest that begins a new token. */
  lemma {:induction false} TokensStep(t: string, gap: string, rest: string)
    requires AllWord(t) && gap != "" && NoWord(gap)
    requires rest != "" ==> IsWord(rest[0])
    ensures Tokens(t + gap + rest) == [t] + Tokens(rest)
  {
    var s := t + gap + rest;
    assert s[..|t|] == t;
    assert s[|t|] == gap[0];
    RunIs(s, |t|);
    var u := s[|t|..];
    assert u == gap + rest && u[..|gap|] == gap;
    RunIs(u, |gap|);
    assert s[|t| + |gap|..] == rest;
  }

  lemma {:induction false} TokensOfWord(t: string)
    requires AllWord(t)
    ensures Tokens(t) == [t]
  {
    assert t[..|t|] == t;
    RunIs(t, |t|);
  }

  /** A word in front of anything else is the first token. */
  lemma {:induction false} FirstToken(t: string, rest: string)
    requires AllWord(t) && (rest != "" ==> !IsWord(rest[0]))
    ensures Tokens(t + rest)[0] == t
  {
    var s := t + rest;
    assert s[..|t|] == t && (rest != "" ==> s[|t|] == rest[0]);
    RunIs(s, |t|);
  }

  /** The tokeniser inverts printing, whatever the gaps are. */
  lemma {:induction false} TokensOfGlue(ts: seq<string>, gaps: seq<string>)
    requires Separated(ts, gaps)
    ensures Tokens(Glue(ts, gaps)) == ts
  {
    if gaps == [] {
      TokensOfWord(ts[0]);
    } else {
      var rest := Glue(ts[1..], gaps[1..]);
      assert rest != "" ==> IsWord(rest[0]) by {
        if |gaps| > 1 {
          assert ts[1] != "" && rest[0] == ts[1][0];
        } else {
          assert rest == ts[1];
        }
      }
      TokensStep(ts[0], gaps[0], rest);
      TokensOfGlue(ts[1..], gaps[1..]);
      assert ts == [ts[0]] + ts[1..];
    }
  }

  /** A text that is not one token is a token, a gap, and a rest that starts a new token. */
  lemma {:induction false} TokensUnfold(s: string) returns (t: string, gap: string, rest: string)
    requires WordRun(s) < |s|
    ensures s == t + gap + rest && |rest| < |s|
    ensures AllWord(t) && gap != "" && NoWord(gap) && (rest != "" ==> IsWord(rest[0]))
    ensures Tokens(s) == [t] + Tokens(rest)
    ensures IsWord(s[0]) ==> t != ""
  {
    hide WordRun, GapRun, Tokens;
    var w := WordRun(s);
    var u := s[w..];
    var g := GapRun(u);
    assert u[0] == s[w];
    t, gap, rest := s[..w], u[..g], u[g..];
    assert s == t + gap + rest;
    assert rest != "" ==> rest[0] == u[g];
    TokensStep(t, gap, rest);
  }

  /** Every text is its tokens glued with suitable gaps, so with TokensOfGlue the tokens of a
      text are the only list of words that prints to it. */
  lemma {:induction false} GlueOfTokens(s: string) returns (gaps: seq<string>)
    ensures Separated(Tokens(s), gaps) && Glue(Tokens(s), gaps) == s
    ensures s != "" && IsWord(s[0]) ==> Tokens(s)[0] != ""
    decreases |s|
  {
    if WordRun(s) == |s| {
      gaps := [];
      assert s[..|s|] == s;
    } else {
      var t, gap, rest := TokensUnfold(s);
      var inner := GlueOfTokens(rest);
      gaps := [gap] + inner;
      GlueCons(t, gap, rest, inner);
    }
  }

  lemma {:induction false} GlueCons(t: string, gap: string, rest: string, inner: seq<string>)
    requires AllWord(t) && gap != "" && NoWord(gap)
    requires Separated(Tokens(rest), inner) && Glue(Tokens(rest), inner) == rest
    requires rest != "" ==> Tokens(rest)[0] != ""
    ensures Separated([t] + Tokens(rest), [gap] + inner)
    ensures Glue([t] + Tokens(rest), [gap] + inner) == t + gap + rest
  {
    var ts := [t] + Tokens(rest);
    assert ts[1..] == Tokens(rest) && ([gap] + inner)[1..] == inner;
    if rest == "" {
      TokensOfWord("");
    }
  }

  /** Where `\W+` stops matching from `q` on; `q` itself when it does not match. */
  method MatchGap(s: string, q: nat) returns (e: nat)
    requires q <= |s|
    ensures q <= e <= |s| && e == q + GapRun(s[q..])
    ensures e == q < |s| ==> IsWord(s[q])
  {
    e := q;
    while e < |s| && !IsWord(s[e])
      invariant q <= e <= |s|
      invariant NoWord(s[q..e])
    {
      assert s[q..e + 1] == s[q..e] + [s[e]];
      e := e + 1;
    }
    assert s[q..][..e - q] == s[q..e];
    RunIs(s[q..], e - q);
  }

  /** From a token start `p` with word characters up to `q`, a gap from `q` to `e` ends a token. */
  lemma {:induction false} TokensAt(s: string, p: nat, q: nat)
    requires p <= q <= |s| && AllWord(s[p..q]) && GapRun(s[q..]) > 0
    ensures Tokens(s[p..]) == [s[p..q]] + Tokens(s[q + GapRun(s[q..])..])
  {
    hide Tokens, GapRun, AllWord;
    var e := q + GapRun(s[q..]);
    var t, gap, rest := s[p..q], s[q..e], s[e..];
    Cut(s, p, q, e);
    assert s[q..][..e - q] == gap;
    assert rest != "" ==> s[q..][e - q] == rest[0];
    TokensStep(t, gap, rest);
  }

  lemma {:induction false} Cut(s: string, p: nat, q: nat, e: nat)
    requires p <= q <= e <= |s|
    ensures s[p..] == s[p..q] + s[q..e] + s[e..]
  {
  }

  lemma {:induction false} AllWordSnoc(s: string, p: nat, q: nat)
    requires p <= q < |s| && AllWord(s[p..q]) && IsWord(s[q])
    ensures AllWord(s[p..q + 1])
  {
    assert s[p..q + 1] == s[p..q] + [s[q]];
  }

  /** `s.split(/\W+/)`, step by step as ECMA-262 5.1 section 15.5.4.14 computes it. */
  method SplitNonWord(s: string) returns (ts: seq<string>)
    ensures ts == Tokens(s)
  {
    hide Tokens, WordRun, GapRun;
    ts := [];
    var p, q := 0, 0;
    assert s[0..] == s;
    while q < |s|
      invariant 0 <= p <= q <= |s|
      invariant AllWord(s[p..q])
      invariant ts + Tokens(s[p..]) == Tokens(s)
      decreases |s| - q
    {
      var e := MatchGap(s, q);
      if e == q {
        AllWordSnoc(s, p, q);
        q := q + 1;
      } else {
        TokensAt(s, p, q);
        assert (ts + [s[p..q]]) + Tokens(s[e..]) == ts + ([s[p..q]] + Tokens(s[e..]));
        ts := ts + [s[p..q]];
        p, q := e, e;
        assert s[p..q] == "";
      }
    }
    TokensOfWord(s[p..q]);
    assert s[p..] == s[p..q];
    ts := ts + [s[p..]];
  }

  // ---------------------------------------------------------------- single characters

  /** A character stays in one piece exactly if its code is that of a digit, a capital letter, the
      underscore or a small letter. */
  lemma {:induction false} WordCharacters(c: char)
    ensures var k := c as int;
            Tokens([c]) == [[c]] <==> 48 <= k <= 57 || 65 <= k <= 90 || k == 95 || 97 <= k <= 122
  {
    hide Tokens;
    var s: string := [c];
    assert s[0] == c;
    if IsWord(c) {
      TokensOfWord(s);
    } else {
      assert s == "" + s + "";
      TokensStep("", s, "");
      TokensOfWord("");
    }
  }

  /** Trimming removes a tab, a line feed, a vertical tab, a form feed, a carriage return and a
      space, and nothing else. */
  lemma {:induction false} BlankCharacters(c: char)
    ensures Trim([c]) == if c as int in {9, 10, 11, 12, 13, 32} then "" else [c]
  {
    var s: string := [c];
    assert s[0] == c && s[1..] == "";
    if !IsBlank(c) {
      assert TrimLeft(s) == s && TrimRight(s) == s;
    } else {
      assert TrimLeft(s) == TrimLeft("") == "" && TrimRight("") == "";
    }
  }

  /** Empty parts are kept, at the ends as well. */
  lemma {:induction false} EmptyPartsStay(sep: char)
    requires sep != 'a' && sep != 'b'
    ensures SplitOn(['a', sep, sep, 'b', sep], sep) == ["a", "", "b", ""]
    ensures Join(["a", "", "b", ""], sep) == ['a', sep, sep, 'b', sep]
  {
    hide SplitOn;
    var b, empty, parts: seq<string> := ["b", ""], ["", "b", ""], ["a", "", "b", ""];
    assert parts[1..] == empty && empty[1..] == b && b[1..] == [""];
    assert Join(b, sep) == ['b', sep];
    assert Join(empty, sep) == [sep, 'b', sep];
    assert Join(parts, sep) == ['a', sep, sep, 'b', sep];
    assert forall p :: p in parts ==> sep !in p;
    SplitOfJoin(parts, sep);
  }

  lemma {:induction false} GlueText(a: string, b: string, c: string, gap: string, more: string)
    ensures Glue([a, b, c], [gap, more]) == a + gap + b + more + c
  {
    assert [a, b, c][1..] == [b, c] && [gap, more][1..] == [more];
    assert [b, c][1..] == [c] && [more][1..] == [];
    assert Glue([b, c], [more]) == b + more + c;
  }
}
