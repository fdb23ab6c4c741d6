/** Darwin's `NetworkIOCountersWorker`: the walk over the routing messages in `execute`, and the
    two branches of `map`. */
module NetworkWorker {
  import opened Totals
  import opened CHeap
  import opened CStrings
  import opened Records
  import Text

  type Byte = n: nat | n < 256

  datatype NetCounters = NetCounters(bytesSent: int, bytesRecv: int, packetsSent: int, packetsRecv: int,
                                     errin: int, errout: int, dropin: int, dropout: int)

  // ------------------------------------------------------- messages

  const RTM_IFINFO2: Byte := 0x12

  /** A message as the kernel lays it out: length (two bytes, low first), version, type, body. */
  datatype Message = Message(version: Byte, kind: Byte, body: seq<Byte>)

  function Size(m: Message): nat { 4 + |m.body| }

  predicate Fits(m: Message) { Size(m) < 0x1_0000 }

  function Encode(m: Message): (bytes: seq<Byte>)
    requires Fits(m)
    ensures |bytes| == Size(m)
  {
    var low: nat, high: nat := Size(m) % 256, Size(m) / 256;
    [low, high, m.version, m.kind] + m.body
  }

  function Buffer(ms: seq<Message>): seq<Byte>
    requires forall i :: 0 <= i < |ms| ==> Fits(ms[i])
  {
    if ms == [] then [] else Encode(ms[0]) + Buffer(ms[1..])
  }

  /** `ifm_msglen` of the message at the front. */
  function LengthAt(rest: seq<Byte>): nat
    requires |rest| >= 4
  {
    var low: nat, high: nat := rest[0], rest[1];
    low + 256 * high
  }

  /** Headers lie inside the buffer, lengths are positive, and the last message ends at the end.
      A length below the four header bytes would make messages overlap. */
  predicate Framed(rest: seq<Byte>)
    decreases |rest|
  {
    rest == [] || (|rest| >= 4 && 4 <= LengthAt(rest) <= |rest| && Framed(rest[LengthAt(rest)..]))
  }

  function MessagesIn(rest: seq<Byte>): (ms: seq<Message>)
    requires Framed(rest)
    ensures forall i :: 0 <= i < |ms| ==> Fits(ms[i])
    ensures Buffer(ms) == rest
    decreases |rest|
  {
    if rest == [] then []
    else
      var n := LengthAt(rest);
      var m := Message(rest[2], rest[3], rest[4..n]);
      var later := MessagesIn(rest[n..]);
      FrontMessage(m, rest, later);
      [m] + later
  }

  lemma {:induction false} FrontMessage(m: Message, rest: seq<Byte>, later: seq<Message>)
    requires |rest| >= 4 && 4 <= LengthAt(rest) <= |rest|
    requires m == Message(rest[2], rest[3], rest[4..LengthAt(rest)])
    requires (forall i :: 0 <= i < |later| ==> Fits(later[i])) && Buffer(later) == rest[LengthAt(rest)..]
    ensures (forall i :: 0 <= i < |[m] + later| ==> Fits(([m] + later)[i])) && Buffer([m] + later) == rest
  {
    hide Encode, Fits, Size, LengthAt;
    EncodedFront(m, rest);
    assert ([m] + later)[1..] == later;
  }

  lemma {:induction false} EncodedFront(m: Message, rest: seq<Byte>)
    requires |rest| >= 4 && 4 <= LengthAt(rest) <= |rest|
    requires m == Message(rest[2], rest[3], rest[4..LengthAt(rest)])
    ensures Fits(m) && Size(m) == LengthAt(rest) && rest == Encode(m) + rest[LengthAt(rest)..]
  {
    var n := LengthAt(rest);
    assert n % 256 == rest[0] && n / 256 == rest[1];
    assert rest[..n] == Encode(m);
  }

  lemma {:induction false} EncodeHeads(m: Message, rest: seq<Byte>)
    requires Fits(m)
    ensures var b := Encode(m) + rest;
            |b| >= 4 && LengthAt(b) == Size(m) && b[3] == m.kind && b[4..Size(m)] == m.body && b[Size(m)..] == rest
  {
    var b := Encode(m) + rest;
    assert Size(m) == Size(m) % 256 + 256 * (Size(m) / 256);
    assert b[..Size(m)] == Encode(m);
    assert b[4..Size(m)] == Encode(m)[4..];
  }

  /** The two length bytes, low first. */
  lemma {:induction false} LengthBytes(version: Byte, kind: Byte, rest: seq<Byte>)
    ensures LengthAt([0x34, 0x12, version, kind] + rest) == 0x1234
    ensures Buffer([Message(version, kind, [7])]) == [5, 0, version, kind, 7]
  {
    assert [Message(version, kind, [7])][1..] == [];
    assert Buffer([]) == [];
  }

  lemma {:induction false} BufferIsFramed(ms: seq<Message>)
    requires forall i :: 0 <= i < |ms| ==> Fits(ms[i])
    ensures Framed(Buffer(ms))
  {
    hide Encode;
    if ms != [] {
      EncodeHeads(ms[0], Buffer(ms[1..]));
      BufferIsFramed(ms[1..]);
    }
  }

  /** Taking a buffer apart undoes putting it together. */
  lemma {:induction false} MessagesOfBuffer(ms: seq<Message>)
    requires forall i :: 0 <= i < |ms| ==> Fits(ms[i])
    ensures Framed(Buffer(ms)) && MessagesIn(Buffer(ms)) == ms
  {
    hide Encode, MessagesIn, Fits, Framed;
    if ms == [] {
      NoMessages();
    } else {
      MessagesOfBuffer(ms[1..]);
      FirstMessage(ms[0], Buffer(ms[1..]));
      assert ms == [ms[0]] + ms[1..];
    }
  }

  lemma {:induction false} NoMessages()
    ensures Framed([]) && MessagesIn([]) == []
  {
  }

  lemma {:induction false} FirstMessage(m: Message, rest: seq<Byte>)
    requires Fits(m) && Framed(rest)
    ensures Framed(Encode(m) + rest) && MessagesIn(Encode(m) + rest) == [m] + MessagesIn(rest)
  {
    hide Encode, Fits, Buffer;
    EncodeHeads(m, rest);
    VersionAt(m, rest);
  }

  lemma {:induction false} VersionAt(m: Message, rest: seq<Byte>)
    requires Fits(m)
    ensures (Encode(m) + rest)[2] == m.version
  {
  }

  /** A buffer can be walked to its exact end if and only if it is a concatenation of messages. */
  lemma {:induction false} FramedExactly(buf: seq<Byte>)
    ensures Framed(buf) <==>
            exists ms: seq<Message> :: (forall i :: 0 <= i < |ms| ==> Fits(ms[i])) && Buffer(ms) == buf
  {
    if Framed(buf) {
      var ms := MessagesIn(buf);
      assert (forall i :: 0 <= i < |ms| ==> Fits(ms[i])) && Buffer(ms) == buf;
    }
    if ms: seq<Message> :| (forall i :: 0 <= i < |ms| ==> Fits(ms[i])) && Buffer(ms) == buf {
      BufferIsFramed(ms);
    }
  }

  // ------------------------------------------------------- the records of a buffer

  /** Where an RTM_IFINFO2 body has its parts; the layout of struct if_msghdr2 and of the address
      behind it is the system's.  The name is the first `nlenOf` characters of `dataOf`. */
  datatype Layout = Layout(dataOf: seq<Byte> -> string, nlenOf: seq<Byte> -> Byte, statsOf: seq<Byte> -> IfData)

  /** The counters of struct if_data64 that are read: o for output, i for input. */
  datatype IfData = IfData(obytes: int, ibytes: int, opackets: int, ipackets: int, ierrors: int, oerrors: int,
                           iqdrops: int)

  /** The size of the block for an interface name, its terminator included. */
  const NAME_SIZE: nat := 32

  /** `strncpy` of so many characters and a NUL behind them, read as a C string. */
  function NameIn(layout: Layout, body: seq<Byte>): string {
    var data, n := layout.dataOf(body), layout.nlenOf(body);
    CText(if n <= |data| then data[..n] else data)
  }

  /** Writing the NUL leaves the block. */
  predicate IsLong(layout: Layout, m: Message) { m.kind == RTM_IFINFO2 && layout.nlenOf(m.body) >= NAME_SIZE }

  ghost predicate HasLongName(layout: Layout, ms: seq<Message>) { exists i :: 0 <= i < |ms| && IsLong(layout, ms[i]) }

  /** The record of a body; `dropout` is always stored as 0. */
  function Decoded(layout: Layout, body: seq<Byte>): (string, NetCounters) {
    var d := layout.statsOf(body);
    (NameIn(layout, body),
     NetCounters(d.obytes, d.ibytes, d.opackets, d.ipackets, d.ierrors, d.oerrors, d.iqdrops, 0))
  }

  /** The row says of a message body what it should: a name that is as much of the data as the length
      allows, up to a NUL, and each counter under its own name. */
  ghost predicate Describes(row: (string, NetCounters), layout: Layout, body: seq<Byte>) {
    var data, n, d := layout.dataOf(body), layout.nlenOf(body), layout.statsOf(body);
    && |row.0| <= n && row.0 <= data && '\0' !in row.0
    && (|row.0| == n || |row.0| == |data| || data[|row.0|] == '\0')
    && row.1.bytesSent == d.obytes && row.1.bytesRecv == d.ibytes
    && row.1.packetsSent == d.opackets && row.1.packetsRecv == d.ipackets
    && row.1.errin == d.ierrors && row.1.errout == d.oerrors
    && row.1.dropin == d.iqdrops && row.1.dropout == 0
  }

  lemma {:induction false} DecodedDescribes(layout: Layout, body: seq<Byte>)
    ensures Describes(Decoded(layout, body), layout, body)
  {
    hide Text.IndexOf;
    var data, n := layout.dataOf(body), layout.nlenOf(body);
    var cut := if n <= |data| then data[..n] else data;
    var end := Text.IndexOf(cut, NUL);
    assert NameIn(layout, body) == cut[..end] == data[..end];
  }

  /** How many of the messages are of type 0x12, RTM_IFINFO2. */
  function Infos(ms: seq<Message>): nat {
    if ms == [] then 0 else Infos(ms[..|ms| - 1]) + if ms[|ms| - 1].kind == 0x12 then 1 else 0
  }

  /** Row k describes the k-th of them, and there are no other rows. */
  ghost predicate DescribeAll(rows: seq<(string, NetCounters)>, layout: Layout, ms: seq<Message>) {
    && |rows| == Infos(ms)
    && forall i :: 0 <= i < |ms| && ms[i].kind == 0x12 ==>
         Infos(ms[..i]) < |rows| && Describes(rows[Infos(ms[..i])], layout, ms[i].body)
  }

  lemma {:induction false} RowsDescribe(layout: Layout, ms: seq<Message>)
    ensures DescribeAll(RowsOf(layout, ms), layout, ms)
  {
    hide Decoded, Describes;
    if ms != [] {
      var n := |ms| - 1;
      var before, m := ms[..n], ms[n];
      assert ms == before + [m];
      RowsSnoc(layout, before, m);
      RowsDescribe(layout, before);
      DecodedDescribes(layout, m.body);
      forall i | 0 <= i < |ms| && ms[i].kind == 0x12
        ensures Infos(ms[..i]) < Infos(ms)
        ensures Describes(RowsOf(layout, ms)[Infos(ms[..i])], layout, ms[i].body)
      {
        if i < n {
          assert before[i] == ms[i] && before[..i] == ms[..i];
        }
      }
    }
  }

  /** The rows of the RTM_IFINFO2 messages, in order. */
  function RowsOf(layout: Layout, ms: seq<Message>): seq<(string, NetCounters)> {
    if ms == [] then []
    else (if ms[0].kind == RTM_IFINFO2 then [Decoded(layout, ms[0].body)] else []) + RowsOf(layout, ms[1..])
  }

  /** Where messages start, counted from `at`. */
  function Starts(ms: seq<Message>, at: nat): seq<nat> {
    if ms == [] then [] else [at] + Starts(ms[1..], at + Size(ms[0]))
  }

  /** Between two messages of a buffer. */
  ghost predicate Between(buf: seq<Byte>, next: nat, done: seq<Message>, left: seq<Message>) {
    && (forall i :: 0 <= i < |done| ==> Fits(done[i])) && (forall i :: 0 <= i < |left| ==> Fits(left[i]))
    && next <= |buf| && buf[..next] == Buffer(done) && buf[next..] == Buffer(left)
  }

  lemma {:induction false} BufferSnoc(ms: seq<Message>, m: Message)
    requires (forall i :: 0 <= i < |ms| ==> Fits(ms[i])) && Fits(m)
    ensures (forall i :: 0 <= i < |ms + [m]| ==> Fits((ms + [m])[i])) && Buffer(ms + [m]) == Buffer(ms) + Encode(m)
  {
    hide Encode;
    if ms == [] {
      assert (ms + [m])[1..] == [];
    } else {
      assert (ms + [m])[1..] == ms[1..] + [m];
      BufferSnoc(ms[1..], m);
    }
  }

  lemma {:induction false} RowsSnoc(layout: Layout, ms: seq<Message>, m: Message)
    ensures RowsOf(layout, ms + [m]) ==
            RowsOf(layout, ms) + (if m.kind == RTM_IFINFO2 then [Decoded(layout, m.body)] else [])
  {
    hide Decoded;
    if ms == [] {
      assert (ms + [m])[1..] == [];
    } else {
      assert (ms + [m])[1..] == ms[1..] + [m];
      RowsSnoc(layout, ms[1..], m);
    }
  }

  /** A message starts behind all messages before it. */
  lemma {:induction false} StartIs(ms: seq<Message>, at: nat, k: nat)
    requires k < |ms| && forall i :: 0 <= i < |ms| ==> Fits(ms[i])
    ensures |Starts(ms, at)| == |ms| && Starts(ms, at)[k] == at + |Buffer(ms[..k])|
  {
    hide Encode, Fits, Size;
    var later := at + Size(ms[0]);
    if k == 0 {
      StartsCount(ms[1..], later);
      assert ms[..0] == [];
    } else {
      StartIs(ms[1..], later, k - 1);
      assert ms[..k][1..] == ms[1..][..k - 1] && ms[..k][0] == ms[0];
    }
  }

  lemma {:induction false} StartsCount(ms: seq<Message>, at: nat)
    ensures |Starts(ms, at)| == |ms|
  {
    hide Size;
    if ms != [] {
      StartsCount(ms[1..], at + Size(ms[0]));
    }
  }

  /** A name is too long when its length and the NUL do not go into 32 bytes. */
  lemma {:induction false} LongNameExactly(layout: Layout, ms: seq<Message>)
    ensures HasLongName(layout, ms) <==>
            exists i :: 0 <= i < |ms| && ms[i].kind == 0x12 && layout.nlenOf(ms[i].body) + 1 > 32
  {
    if i :| 0 <= i < |ms| && ms[i].kind == 0x12 && layout.nlenOf(ms[i].body) + 1 > 32 {
      assert IsLong(layout, ms[i]);
    }
  }

  lemma {:induction false} StartsUnfold(ms: seq<Message>, at: nat)
    requires ms != []
    ensures Starts(ms, at) == [at] + Starts(ms[1..], at + Size(ms[0]))
  {
  }

  lemma {:induction false} OneStart(m: Message, at: nat)
    ensures Starts([m], at) == [at] && Starts([], at) == [] && Buffer([]) == []
  {
  }

  lemma {:induction false} StartsSnoc(ms: seq<Message>, m: Message, at: nat)
    requires forall i :: 0 <= i < |ms| ==> Fits(ms[i])
    ensures Starts(ms + [m], at) == Starts(ms, at) + [at + |Buffer(ms)|]
  {
    hide Encode, Size, Starts, Fits;
    if ms == [] {
      OneStart(m, at);
      assert [] + [m] == [m];
    } else {
      var rest := ms[1..];
      assert (ms + [m])[1..] == rest + [m];
      var later := at + Size(ms[0]);
      StartsSnoc(rest, m, later);
      assert |Buffer(ms)| == Size(ms[0]) + |Buffer(rest)|;
      StartsUnfold(ms + [m], at);
      StartsUnfold(ms, at);
      var end := later + |Buffer(rest)|;
      assert [at] + (Starts(rest, later) + [end]) == ([at] + Starts(rest, later)) + [end];
    }
  }

  /** One turn of the walk: the header at `next` is the next message's, and adding its length
      lands on the one after it. */
  lemma {:induction false} WalkStep(buf: seq<Byte>, next: nat, done: seq<Message>, left: seq<Message>)
    requires Between(buf, next, done, left) && next < |buf|
    ensures left != [] && next + 4 <= |buf| && LengthAt(buf[next..]) == Size(left[0])
    ensures var n := next + Size(left[0]);
            && n <= |buf| && buf[next + 3] == left[0].kind && buf[next + 4..n] == left[0].body
            && Between(buf, n, done + [left[0]], left[1..])
  {
    hide Encode;
    EncodeHeads(left[0], Buffer(left[1..]));
    BufferSnoc(done, left[0]);
    var n := next + Size(left[0]);
    assert buf[n..] == buf[next..][Size(left[0])..];
    assert buf[..n] == buf[..next] + buf[next..][..Size(left[0])];
    assert buf[next + 3] == buf[next..][3] && buf[next + 4..n] == buf[next..][4..Size(left[0])];
  }

  // ------------------------------------------------------- execute

  /** What the system calls do: the size query, the allocation, the second query. */
  datatype Query = SizeFailed(message: string) | NoMemory | FillFailed(size: nat, message: string)
                 | Filled(size: nat, buf: seq<Byte>)

  /** The kernel keeps to the buffer it was given, and fills it with messages. */
  predicate KeepsToBuffer(query: Query) { query.Filled? ==> |query.buf| <= query.size && Framed(query.buf) }

  function MessageOf(query: Query): string
    requires !query.Filled?
  {
    if query.NoMemory? then "could not allocate memory" else query.message
  }

  /** A failing system call reports its own error. */
  lemma {:induction false} EachMessage(size: nat, message: string)
    ensures MessageOf(SizeFailed(message)) == MessageOf(FillFailed(size, message)) == message
    ensures MessageOf(NoMemory) == "could not allocate memory"
  {
  }

  class NetworkIOCountersWorker {
    const prNic: bool
    var error: bool
    var errorMessage: string
    var results: seq<Record<NetCounters>>

    constructor (prNic: bool)
      ensures this.prNic == prNic && !error && results == []
    {
      this.prNic, error, errorMessage, results := prNic, false, "", [];
    }

    /** Bytes of the message buffer: it must be live and reach that far. */
    method ReadBytes(heap: Heap, buf: Ptr, bytes: seq<Byte>, from: nat, to: nat) returns (read: seq<Byte>)
      requires buf in heap.live && from <= to <= |bytes| && to <= heap.live[buf]
      ensures read == bytes[from..to]
    {
      read := bytes[from..to];
    }

    /** The walk: every RTM_IFINFO2 message becomes one record of two new blocks.  All reads stay in
        the live buffer; writing the names leaves their blocks exactly if one of them is too long. */
    method Walk(heap: Heap, buf: Ptr, bytes: seq<Byte>, layout: Layout, ghost before: map<Ptr, nat>)
      returns (visited: seq<nat>, overrun: bool)
      requires results == [] && Framed(bytes)
      requires buf in heap.live && |bytes| <= heap.live[buf]
      requires {buf} !! Blocks<NetCounters>([]) && Extends(before, heap.live, {buf} + Blocks<NetCounters>([]))
      modifies this`results, heap
      ensures Rows(results) == RowsOf(layout, MessagesIn(bytes)) && visited == Starts(MessagesIn(bytes), 0)
      ensures overrun <==> HasLongName(layout, MessagesIn(bytes))
      ensures NamesSized(heap.live, results, 32)
      ensures Separate(results) && {buf} !! Blocks(results)
      ensures Extends(before, heap.live, {buf} + Blocks(results))
    {
      hide LengthAt, Decoded, Separate, Extends, MessagesIn, Between, Starts, RowsOf, Blocks;
      hide HasLongName, Framed, Buffer, NamesSized;
      NoNames<NetCounters>(heap.live, 32);
      ghost var size := heap.live[buf];
      visited, overrun := [], false;
      var next := 0;
      ghost var done, rest := [], MessagesIn(bytes);
      WalkBegins(layout, bytes);
      NoLongName(layout);
      while next < |bytes|
        invariant 0 <= next <= |bytes| && done + rest == MessagesIn(bytes)
        invariant Between(bytes, next, done, rest)
        invariant Rows(results) == RowsOf(layout, done) && visited == Starts(done, 0)
        invariant Separate(results) && {buf} !! Blocks(results)
        invariant Extends(before, heap.live, {buf} + Blocks(results))
        invariant buf in heap.live && heap.live[buf] == size
        invariant overrun <==> HasLongName(layout, done)
        invariant NamesSized(heap.live, results, 32)
        decreases |bytes| - next
      {
        WalkStep(bytes, next, done, rest);
        LongNameSnoc(layout, done, rest[0]);
        RowsSnoc(layout, done, rest[0]);
        Visit(bytes, next, done, rest);
        visited := visited + [next];
        var ifm := next;
        var header := ReadBytes(heap, buf, bytes, ifm, ifm + 4);
        HeaderLength(bytes[ifm..], header);
        next := next + LengthAt(header);
        if header[3] == RTM_IFINFO2 {
          var body := ReadBytes(heap, buf, bytes, ifm + 4, next);
          var (name, counters) := Decoded(layout, body);
          ghost var rows := Rows(results);
          if layout.nlenOf(body) >= NAME_SIZE {
            overrun := true;
          }
          results := Push(heap, results, name, counters, NAME_SIZE, 72, before, {buf});
          assert Rows(results) == rows + [(name, counters)];
        }
        done, rest := done + [rest[0]], rest[1..];
      }
      WalkEnds(bytes, next, done, rest);
      assert done + [] == done;
    }

    /** The two queries around the walk.  The message buffer is freed, except when the second query
        fails. */
    method Execute(heap: Heap, query: Query, layout: Layout)
      returns (visited: seq<nat>, overrun: bool, ghost left: set<Ptr>)
      requires !error && results == []
      requires KeepsToBuffer(query)
      modifies this, heap
      ensures error <==> !query.Filled?
      ensures error ==> errorMessage == MessageOf(query)
      ensures overrun <==> query.Filled? && HasLongName(layout, MessagesIn(query.buf))
      ensures error ==> results == []
      ensures query.Filled? ==>
                var ms := MessagesIn(query.buf);
                Rows(results) == RowsOf(layout, ms) && visited == Starts(ms, 0)
      ensures Separate(results) && left !! Blocks(results)
      ensures Extends(old(heap.live), heap.live, left + Blocks(results))
      ensures |left| == if query.FillFailed? then 1 else 0
      ensures NamesSized(heap.live, results, 32)
    {
      hide Separate, Extends, MessagesIn, Starts, RowsOf, Blocks, HasLongName, Framed, NamesSized;
      ghost var before := heap.live;
      visited, overrun, left := [], false, {};
      NoRecords(before, heap.live);
      NoNames<NetCounters>(before, 32);
      if query.SizeFailed? {
        error, errorMessage := true, query.message;
        return;
      }
      if query.NoMemory? {
        error, errorMessage := true, "could not allocate memory";
        return;
      }
      var buf := heap.Malloc(query.size, true);
      BufferAdded(before, heap.live, buf.value, query.size);
      if query.FillFailed? {
        error, errorMessage := true, query.message;
        left := {buf.value};
        NoNames<NetCounters>(heap.live, 32);
        return;
      }
      visited, overrun := Walk(heap, buf.value, query.buf, layout, before);
      BufferFreed(before, heap.live, buf.value, Blocks(results));
      NamesStay(heap.live, results, 32, buf.value);
      heap.Free(buf.value);
    }

    /** One object of sums, or one object per interface; either way every record is released.
        `junk` is what the uninitialised accumulators of the sum branch hold. */
    method Map(heap: Heap, junk: NetCounters, ghost before: map<Ptr, nat>) returns (r: Reply)
      requires Separate(results) && Extends(before, heap.live, Blocks(results))
      modifies heap
      ensures heap.live == before
      ensures r == if prNic then PerNic(LastOf(Rows(results))) else Summed(AddUp(junk, results, MachineAdd))
    {
      if !prNic {
        var sum := SumAndRelease(heap, results, junk, MachineAdd, before);
        r := Summed(sum);
      } else {
        var nics := CollectAndRelease(heap, results, before);
        r := PerNic(nics);
      }
    }
  }

  lemma {:induction false} HeaderLength(rest: seq<Byte>, header: seq<Byte>)
    requires |rest| >= 4 && header == rest[..4]
    ensures LengthAt(header) == LengthAt(rest)
  {
  }

  lemma {:induction false} NoLongName(layout: Layout)
    ensures !HasLongName(layout, [])
  {
  }

  lemma {:induction false} LongNameSnoc(layout: Layout, ms: seq<Message>, m: Message)
    ensures HasLongName(layout, ms + [m]) <==> HasLongName(layout, ms) || IsLong(layout, m)
  {
    var all := ms + [m];
    assert all[|ms|] == m && forall i :: 0 <= i < |ms| ==> all[i] == ms[i];
  }

  datatype Reply = Nothing | Summed(counters: NetCounters) | PerNic(nics: map<string, NetCounters>)

  /** The two branches of `map`: the last row of each name, or the 64-bit sums over `junk`. */
  function ReplyOf(prNic: bool, rows: seq<(string, NetCounters)>, junk: NetCounters): Reply {
    if prNic then PerNic(LastOf(rows)) else Summed(WrapAll(Add(junk, Total(rows, NET_SUM))))
  }

  /** Each counter is summed by itself: two rows over zeroed accumulators. */
  lemma {:induction false} TwoRowsSum(x: (string, NetCounters), y: (string, NetCounters))
    ensures ReplyOf(false, [x, y], NetCounters(0, 0, 0, 0, 0, 0, 0, 0)) ==
            Summed(NetCounters(Wrap(x.1.bytesSent + y.1.bytesSent), Wrap(x.1.bytesRecv + y.1.bytesRecv),
                               Wrap(x.1.packetsSent + y.1.packetsSent), Wrap(x.1.packetsRecv + y.1.packetsRecv),
                               Wrap(x.1.errin + y.1.errin), Wrap(x.1.errout + y.1.errout),
                               Wrap(x.1.dropin + y.1.dropin), Wrap(x.1.dropout + y.1.dropout)))
  {
    hide Wrap;
    assert [x, y][1..] == [y] && [y][1..] == [];
    assert Total([y], NET_SUM) == Add(y.1, ZERO);
    assert Total([x, y], NET_SUM) == Add(x.1, Add(y.1, ZERO));
  }

  /** `execute` on the pool and, unless it failed, `map` on the loop: every record and every name
      is freed exactly once; the message buffer stays allocated exactly if the second query failed.
      The answer is that of the messages unless a name was written past its block. */
  method Serve(heap: Heap, prNic: bool, query: Query, layout: Layout, junk: NetCounters)
    returns (failed: bool, overrun: bool, r: Reply, ghost left: set<Ptr>)
    requires KeepsToBuffer(query)
    requires FitsAll(junk)
    modifies heap
    ensures failed <==> !query.Filled?
    ensures overrun <==> query.Filled? && HasLongName(layout, MessagesIn(query.buf))
    ensures query.Filled? && !overrun ==> r == ReplyOf(prNic, RowsOf(layout, MessagesIn(query.buf)), junk)
    ensures query.Filled? && !overrun ==>
              exists rows :: DescribeAll(rows, layout, MessagesIn(query.buf)) && r == ReplyOf(prNic, rows, junk)
    ensures Extends(old(heap.live), heap.live, left)
    ensures left == {} <==> !query.FillFailed?
    ensures !query.FillFailed? ==> heap.live == old(heap.live)
  {
    hide RowsOf, MessagesIn, Extends, LastOf, Total, AddUp, WrapAll, Add, Separate, DescribeAll;
    ghost var before := heap.live;
    if query.Filled? {
      RowsDescribe(layout, MessagesIn(query.buf));
    }
    var worker := new NetworkIOCountersWorker(prNic);
    var _, o, l := worker.Execute(heap, query, layout);
    overrun, left := o, l;
    failed, r := worker.error, Nothing;
    if failed {
      assert left + Blocks(worker.results) == left;
      ExtendsByNothing(before, heap.live);
    } else {
      assert left + Blocks(worker.results) == Blocks(worker.results);
      r := worker.Map(heap, junk, before);
      SumBranch(junk, worker.results);
      ExtendsByNothing(before, heap.live);
    }
  }

  /** A buffer of one RTM_IFINFO2 message: it is walked as that message, and the rows that describe
      it make an object with one key. */
  lemma {:induction false} OneInterface(layout: Layout, version: Byte, body: seq<Byte>,
                                        rows: seq<(string, NetCounters)>)
    requires |body| + 4 < 0x1_0000 && DescribeAll(rows, layout, [Message(version, 0x12, body)])
    ensures var m := Message(version, 0x12, body); Framed(Buffer([m])) && MessagesIn(Buffer([m])) == [m]
    ensures |rows| == 1 && Describes(rows[0], layout, body) && LastOf(rows) == map[rows[0].0 := rows[0].1]
  {
    hide Encode, MessagesIn, Framed, Describes;
    var ms := [Message(version, 0x12, body)];
    MessagesOfBuffer(ms);
    assert ms[..0] == [] && ms[0].kind == 0x12;
    assert rows == [rows[0]] && rows[1..] == [];
  }

  lemma {:induction false} NoRecords(before: map<Ptr, nat>, now: map<Ptr, nat>)
    requires before == now
    ensures Extends(before, now, {} + Blocks<NetCounters>([])) && Separate<NetCounters>([])
  {
  }

  lemma {:induction false} BufferAdded(before: map<Ptr, nat>, now: map<Ptr, nat>, buf: Ptr, size: nat)
    requires buf !in before && now == before[buf := size]
    ensures Extends(before, now, {buf} + Blocks<NetCounters>([])) && {buf} !! Blocks<NetCounters>([])
  {
  }

  lemma {:induction false} BufferFreed(before: map<Ptr, nat>, now: map<Ptr, nat>, buf: Ptr, blocks: set<Ptr>)
    requires Extends(before, now, {buf} + blocks) && {buf} !! blocks
    ensures buf in now && Extends(before, now - {buf}, {} + blocks)
  {
    ExtendsByFree(before, now, {buf} + blocks, buf);
    assert {buf} + blocks - {buf} == {} + blocks;
  }

  lemma {:induction false} WalkBegins(layout: Layout, buf: seq<Byte>)
    requires Framed(buf)
    ensures Between(buf, 0, [], MessagesIn(buf))
    ensures RowsOf(layout, []) == [] && Starts([], 0) == [] && Separate<NetCounters>([])
  {
    assert buf[0..] == buf;
  }

  lemma {:induction false} Visit(buf: seq<Byte>, next: nat, done: seq<Message>, left: seq<Message>)
    requires Between(buf, next, done, left) && left != []
    ensures Starts(done + [left[0]], 0) == Starts(done, 0) + [next]
  {
    StartsSnoc(done, left[0], 0);
    assert |Buffer(done)| == next;
  }

  lemma {:induction false} WalkEnds(buf: seq<Byte>, next: nat, done: seq<Message>, left: seq<Message>)
    requires Between(buf, next, done, left) && next >= |buf|
    ensures left == []
  {
  }

  // ------------------------------------------------------- sums

  const ZERO: NetCounters := NetCounters(0, 0, 0, 0, 0, 0, 0, 0)

  function Add(x: NetCounters, y: NetCounters): NetCounters {
    NetCounters(x.bytesSent + y.bytesSent, x.bytesRecv + y.bytesRecv,
                x.packetsSent + y.packetsSent, x.packetsRecv + y.packetsRecv,
                x.errin + y.errin, x.errout + y.errout, x.dropin + y.dropin, x.dropout + y.dropout)
  }

  const NET_SUM: Sum<NetCounters> := Sum(ZERO, Add)

  function WrapAll(x: NetCounters): NetCounters {
    NetCounters(Wrap(x.bytesSent), Wrap(x.bytesRecv), Wrap(x.packetsSent), Wrap(x.packetsRecv),
                Wrap(x.errin), Wrap(x.errout), Wrap(x.dropin), Wrap(x.dropout))
  }

  /** `+=` on int64_t accumulators. */
  function MachineAdd(x: NetCounters, y: NetCounters): NetCounters { WrapAll(Add(x, y)) }

  predicate Every(x: NetCounters, p: int -> bool) {
    p(x.bytesSent) && p(x.bytesRecv) && p(x.packetsSent) && p(x.packetsRecv) &&
    p(x.errin) && p(x.errout) && p(x.dropin) && p(x.dropout)
  }

  predicate FitsAll(x: NetCounters) { Every(x, FitsInt64) }

  predicate NonNegative(x: NetCounters) { Every(x, n => n >= 0) }

  lemma {:induction false} NetSumIsLawful()
    ensures Lawful(NET_SUM)
  {
    forall x, y, z
      ensures LawfulAt(NET_SUM, x, y, z)
    {
    }
  }

  lemma {:induction false} NetSumWraps()
    ensures Wraps(NET_SUM, WrapAll)
  {
    forall x, y
      ensures WrapsAt(NET_SUM, WrapAll, x, y)
    {
      WrapsEverywhere(x, y);
    }
  }

  lemma {:induction false} WrapsEverywhere(x: NetCounters, y: NetCounters)
    ensures WrapAll(Add(WrapAll(x), y)) == WrapAll(Add(x, y))
  {
    hide Wrap;
    WrapAdds(x.bytesSent, y.bytesSent);
    WrapAdds(x.bytesRecv, y.bytesRecv);
    WrapAdds(x.packetsSent, y.packetsSent);
    WrapAdds(x.packetsRecv, y.packetsRecv);
    WrapAdds(x.errin, y.errin);
    WrapAdds(x.errout, y.errout);
    WrapAdds(x.dropin, y.dropin);
    WrapAdds(x.dropout, y.dropout);
  }

  lemma {:induction false} WrappedFits(x: NetCounters)
    requires FitsAll(x)
    ensures WrapAll(x) == x
  {
  }

  lemma {:induction false} AddAssociates(x: NetCounters, y: NetCounters, z: NetCounters)
    ensures Add(Add(x, y), z) == Add(x, Add(y, z)) && Add(x, ZERO) == x && Add(ZERO, x) == x
  {
  }

  /** The sum branch computes what the accumulators held plus the total, in 64 bits. */
  lemma {:induction false} SumBranch(junk: NetCounters, rs: seq<Record<NetCounters>>)
    requires FitsAll(junk)
    ensures AddUp(junk, rs, MachineAdd) == WrapAll(Add(junk, Total(Rows(rs), NET_SUM)))
  {
    hide Add, WrapAll, FitsAll;
    NetSumIsLawful();
    NetSumWraps();
    WrappedFits(junk);
    AddUpWraps(junk, rs, NET_SUM, WrapAll, MachineAdd);
  }

  lemma {:induction false} JunkShows(junk: NetCounters, total: NetCounters)
    requires FitsAll(junk) && FitsAll(total)
    ensures WrapAll(Add(junk, total)) == total <==> junk == ZERO
  {
    hide Wrap;
    WrapKeepsExactly(junk.bytesSent, total.bytesSent);
    WrapKeepsExactly(junk.bytesRecv, total.bytesRecv);
    WrapKeepsExactly(junk.packetsSent, total.packetsSent);
    WrapKeepsExactly(junk.packetsRecv, total.packetsRecv);
    WrapKeepsExactly(junk.errin, total.errin);
    WrapKeepsExactly(junk.errout, total.errout);
    WrapKeepsExactly(junk.dropin, total.dropin);
    WrapKeepsExactly(junk.dropout, total.dropout);
  }

  /** With distinct names and a total that fits, the sum branch equals the sum over the per-NIC
      branch exactly if all eight accumulators happened to start at zero. */
  lemma {:induction false} SumIsFoldOfNicsExactly(junk: NetCounters, rs: seq<Record<NetCounters>>)
    requires FitsAll(junk) && Distinct(Rows(rs)) && FitsAll(Total(Rows(rs), NET_SUM))
    ensures AddUp(junk, rs, MachineAdd) == SumOver(LastOf(Rows(rs)), NET_SUM) <==> junk == ZERO
  {
    hide Add, MachineAdd, WrapAll, FitsAll, AddUp, LastOf, Total, Replaced;
    var rows := Rows(rs);
    NetSumIsLawful();
    TotalIsConserved(rows, NET_SUM);
    DistinctReplacesNothing(rows);
    NothingTotals();
    AddAssociates(SumOver(LastOf(rows), NET_SUM), ZERO, ZERO);
    SumBranch(junk, rs);
    JunkShows(junk, Total(rows, NET_SUM));
  }

  lemma {:induction false} NothingTotals()
    ensures Total<string, NetCounters>([], NET_SUM) == ZERO
  {
  }

  lemma {:induction false} TotalIsNonNegative(rows: seq<(string, NetCounters)>)
    requires forall i :: 0 <= i < |rows| ==> NonNegative(rows[i].1)
    ensures NonNegative(Total(rows, NET_SUM))
  {
    if rows != [] {
      TotalIsNonNegative(rows[1..]);
      NonNegativeAdds(rows[0].1, Total(rows[1..], NET_SUM));
    }
  }

  lemma {:induction false} NonNegativeAdds(x: NetCounters, y: NetCounters)
    requires NonNegative(x) && NonNegative(y)
    ensures NonNegative(Add(x, y))
    ensures FitsAll(Add(x, y)) ==> FitsAll(x)
  {
  }

  /** With zeroed accumulators and non-negative counters, no intermediate sum overflows once the
      final total fits: after every record the accumulators hold the exact sum so far. */
  lemma {:induction false} NoIntermediateOverflow(rs: seq<Record<NetCounters>>, k: nat)
    requires k <= |rs| && FitsAll(Total(Rows(rs), NET_SUM))
    requires forall i :: 0 <= i < |rs| ==> NonNegative(rs[i].counters)
    ensures FitsAll(Total(Rows(rs[..k]), NET_SUM))
    ensures AddUp(ZERO, rs[..k], MachineAdd) == Total(Rows(rs[..k]), NET_SUM)
  {
    hide Add, MachineAdd, WrapAll, NonNegative, AddUp, Total, FitsAll;
    var a, b := Rows(rs[..k]), Rows(rs[k..]);
    assert Rows(rs) == a + b;
    NetSumIsLawful();
    TotalAppend(a, b, NET_SUM);
    TotalIsNonNegative(a);
    TotalIsNonNegative(b);
    NonNegativeAdds(Total(a, NET_SUM), Total(b, NET_SUM));
    ZeroFits();
    SumBranch(ZERO, rs[..k]);
    AddAssociates(Total(a, NET_SUM), ZERO, ZERO);
    WrappedFits(Total(a, NET_SUM));
  }

  lemma {:induction false} ZeroFits()
    ensures FitsAll(ZERO)
  {
  }
}
