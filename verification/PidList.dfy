/** `get_proc_list` and the worker that consumes its buffer. */
module PidList {
  import opened Text
  import opened CHeap

  const WORD: nat := 0x1_0000_0000_0000_0000

  /** A `size_t`. */
  type Word = n: nat | n < WORD

  /** A nonzero `errno`. */
  type Errno = e: int | e > 0 witness 1

  const ENOMEM: Errno := 12

  const ATTEMPTS: nat := 8

  /** sysctl without a buffer: how much there is to read. */
  datatype Probe = ProbeFailed(errno: Errno) | ProbeSize(size: Word)

  /** sysctl into the buffer: how many bytes it wrote, and the pid in each record. */
  datatype Fill = FillFailed(errno: Errno) | Filled(bytes: Word, pids: seq<int>)

  /** Everything the operating system decides during one turn of the loop. */
  datatype Attempt = Attempt(probe: Probe, paddedGranted: bool, plainGranted: bool, fill: Fill)

  /** size + (size >> 3) in `size_t` arithmetic. */
  function Padded(size: Word): Word { (size + size / 8) % WORD }

  /** The size of the buffer an attempt gets, if it gets one. */
  function Capacity(a: Attempt): Option<Word>
    requires a.probe.ProbeSize?
  {
    var size := a.probe.size;
    if Padded(size) > size && a.paddedGranted then Some(Padded(size))
    else if a.plainGranted then Some(size)
    else None
  }

  /** What one attempt returns; None when the loop goes on. */
  function CodeOf(a: Attempt): Option<int> {
    if a.probe.ProbeFailed? then Some(a.probe.errno)
    else if Capacity(a).None? then Some(ENOMEM)
    else if a.fill.Filled? then Some(0)
    else if a.fill.errno != ENOMEM then Some(a.fill.errno)
    else None
  }

  /** The attempt that ends the loop, counted from `k`; ATTEMPTS when none does. */
  function LastAttempt(os: nat -> Attempt, k: nat): (n: nat)
    requires k <= ATTEMPTS
    ensures k <= n <= ATTEMPTS
    ensures forall i :: k <= i < n ==> CodeOf(os(i)).None?
    ensures n < ATTEMPTS ==> CodeOf(os(n)).Some?
    decreases ATTEMPTS - k
  {
    if k == ATTEMPTS || CodeOf(os(k)).Some? then k else LastAttempt(os, k + 1)
  }

  function ReturnCode(os: nat -> Attempt): int {
    var n := LastAttempt(os, 0);
    if n == ATTEMPTS then ENOMEM else CodeOf(os(n)).value
  }

  /** The attempt that fills the buffer a successful call returns. */
  function Winner(os: nat -> Attempt): (a: Attempt)
    requires ReturnCode(os) == 0
    ensures GetsBuffer(a) && a.fill.Filled?
  {
    CodeCases(os(LastAttempt(os, 0)));
    os(LastAttempt(os, 0))
  }

  lemma {:induction false} CodeCases(a: Attempt)
    ensures CodeOf(a) == Some(0) <==> GetsBuffer(a) && a.fill.Filled?
    ensures CodeOf(a).None? <==> LacksRoom(a)
  {
  }

  /** Attempt `n` gets a buffer and fills it, and every attempt before it got a buffer and failed
      to fill it for lack of room. */
  ghost predicate SucceedsAt(os: nat -> Attempt, n: nat) {
    && n < ATTEMPTS && GetsBuffer(os(n)) && os(n).fill.Filled?
    && forall i :: 0 <= i < n ==> LacksRoom(os(i))
  }

  /** The call succeeds exactly if one of the eight attempts does. */
  lemma {:induction false} SucceedsExactly(os: nat -> Attempt)
    ensures ReturnCode(os) == 0 <==> exists n :: SucceedsAt(os, n)
  {
    hide CodeOf, GetsBuffer, LacksRoom, LastAttempt;
    var n := LastAttempt(os, 0);
    forall i | 0 <= i <= n
      ensures CodeOf(os(i)) == Some(0) <==> GetsBuffer(os(i)) && os(i).fill.Filled?
      ensures CodeOf(os(i)).None? <==> LacksRoom(os(i))
    {
      CodeCases(os(i));
    }
    if ReturnCode(os) == 0 {
      assert SucceedsAt(os, n);
    }
    if m :| SucceedsAt(os, m) {
      FirstEnd(os, m);
    }
  }

  lemma {:induction false} FirstEnd(os: nat -> Attempt, m: nat)
    requires SucceedsAt(os, m)
    ensures LastAttempt(os, 0) == m && ReturnCode(os) == 0
  {
    hide CodeOf, GetsBuffer, LacksRoom, LastAttempt;
    CodeCases(os(m));
    forall i | 0 <= i < m
      ensures CodeOf(os(i)).None?
    {
      CodeCases(os(i));
    }
    SkipsTo(os, 0, m);
  }

  lemma {:induction false} SkipsTo(os: nat -> Attempt, k: nat, m: nat)
    requires k <= m < ATTEMPTS && CodeOf(os(m)).Some?
    requires forall i :: k <= i < m ==> CodeOf(os(i)).None?
    ensures LastAttempt(os, k) == m
    decreases m - k
  {
    hide CodeOf;
    if k < m {
      SkipsTo(os, k + 1, m);
    }
  }

  predicate GetsBuffer(a: Attempt) { a.probe.ProbeSize? && Capacity(a).Some? }

  predicate LacksRoom(a: Attempt) { GetsBuffer(a) && a.fill == FillFailed(ENOMEM) }

  /** The second sysctl of a turn, as the kernel sees it. */
  datatype FillCall = FillCall(buffer: Ptr, bufferSize: nat, sizeGiven: nat)

  /** The allocation of one turn: the padded size, or the plain one when that wraps or is refused. */
  method Allocate(heap: Heap, a: Attempt) returns (ptr: Option<Ptr>, size: nat)
    requires a.probe.ProbeSize?
    modifies heap
    ensures ptr.Some? <==> Capacity(a).Some?
    ensures ptr.None? ==> heap.live == old(heap.live)
    ensures ptr.Some? ==>
              && size == Capacity(a).value
              && ptr.value !in old(heap.live) && heap.live == old(heap.live)[ptr.value := size]
  {
    hide Padded;
    size := a.probe.size;
    var size2 := Padded(a.probe.size);
    if size2 > size {
      ptr := heap.Malloc(size2, a.paddedGranted);
      if ptr.None? {
        ptr := heap.Malloc(size, a.plainGranted);
      } else {
        size := size2;
      }
    } else {
      ptr := heap.Malloc(size, a.plainGranted);
    }
  }

  lemma {:induction false} FreedAgain(before: map<Ptr, nat>, p: Ptr, size: nat)
    requires p !in before
    ensures before[p := size] - {p} == before
  {
  }

  /** One turn of the loop: what it returns, or None to go on. */
  method Turn(heap: Heap, a: Attempt) returns (code: Option<int>, list: Option<Ptr>, fill: Option<FillCall>)
    modifies heap
    ensures code == CodeOf(a)
    ensures fill.Some? ==> fill.value.sizeGiven == fill.value.bufferSize
    ensures code != Some(0) ==> list.None? && heap.live == old(heap.live)
    ensures code == Some(0) ==>
              && GetsBuffer(a) && a.fill.Filled? && list.Some? && list.value !in old(heap.live)
              && heap.live == old(heap.live)[list.value := Capacity(a).value]
  {
    hide Capacity;
    list, fill := None, None;
    if a.probe.ProbeFailed? {
      return Some(a.probe.errno), None, None;
    }
    var ptr, size := Allocate(heap, a);
    if ptr.None? {
      return Some(ENOMEM), None, None;
    }
    fill := Some(FillCall(ptr.value, heap.live[ptr.value], size));
    if a.fill.FillFailed? {
      var failure := a.fill.errno;
      FreedAgain(old(heap.live), ptr.value, size);
      heap.Free(ptr.value);
      if failure != ENOMEM {
        return Some(failure), None, fill;
      }
      code := None;
    } else {
      return Some(0), ptr, fill;
    }
  }

  /** `contents` is what the successful sysctl wrote into the buffer, `turn` how often the loop
      body was entered. */
  method GetProcList(heap: Heap, os: nat -> Attempt, recordSize: nat)
    returns (err: int, list: Option<Ptr>, count: nat, contents: seq<int>, turn: nat, fills: seq<FillCall>)
    requires recordSize > 0
    modifies heap
    ensures err == ReturnCode(os)
    ensures turn == if LastAttempt(os, 0) < ATTEMPTS then LastAttempt(os, 0) + 1 else ATTEMPTS
    ensures |fills| <= turn <= ATTEMPTS
    ensures forall i :: 0 <= i < |fills| ==> fills[i].sizeGiven == fills[i].bufferSize
    ensures err != 0 ==> list.None? && count == 0 && heap.live == old(heap.live)
    ensures err == 0 ==>
              && list.Some? && list.value !in old(heap.live)
              && heap.live == old(heap.live)[list.value := Capacity(Winner(os)).value]
              && count == Winner(os).fill.bytes / recordSize && contents == Winner(os).fill.pids
  {
    hide Capacity, LastAttempt, ReturnCode, Winner, CodeOf, GetsBuffer;
    list, count, contents, turn, fills := None, 0, [], 0, [];
    var lim := ATTEMPTS;
    while lim > 0
      invariant lim + turn == ATTEMPTS && turn <= ATTEMPTS
      invariant heap.live == old(heap.live) && list.None? && count == 0
      invariant |fills| <= turn
      invariant forall i :: 0 <= i < |fills| ==> fills[i].sizeGiven == fills[i].bufferSize
      invariant LastAttempt(os, turn) == LastAttempt(os, 0)
    {
      lim := lim - 1;
      var a := os(turn);
      LastAttemptStep(os, turn);
      Ended(os, turn);
      turn := turn + 1;
      var code, ptr, fill := Turn(heap, a);
      if fill.Some? {
        fills := fills + [fill.value];
      }
      if code == Some(0) {
        return 0, ptr, a.fill.bytes / recordSize, a.fill.pids, turn, fills;
      } else if code.Some? {
        return code.value, None, 0, [], turn, fills;
      }
    }
    NoAttemptEnds(os);
    err := ENOMEM;
  }

  lemma {:induction false} LastAttemptStep(os: nat -> Attempt, k: nat)
    requires k < ATTEMPTS
    ensures LastAttempt(os, k) == if CodeOf(os(k)).Some? then k else LastAttempt(os, k + 1)
  {
  }

  /** What the loop returns when it ends with attempt `n`. */
  lemma {:induction false} Ended(os: nat -> Attempt, n: nat)
    requires n < ATTEMPTS
    ensures LastAttempt(os, 0) == n ==> CodeOf(os(n)).Some? && ReturnCode(os) == CodeOf(os(n)).value
    ensures LastAttempt(os, 0) == n && CodeOf(os(n)) == Some(0) ==> Winner(os) == os(n)
  {
    hide CodeOf, LastAttempt;
  }

  lemma {:induction false} NoAttemptEnds(os: nat -> Attempt)
    ensures LastAttempt(os, ATTEMPTS) == ATTEMPTS
    ensures LastAttempt(os, 0) == ATTEMPTS ==> ReturnCode(os) == ENOMEM
  {
  }

  /** With room for an eighth more when that fits a `size_t` and is granted, with the plain room
      otherwise, and not at all when neither is granted. */
  lemma {:induction false} CapacityIs(a: Attempt, size: Word)
    requires a.probe == ProbeSize(size)
    ensures Capacity(a) ==
            if size >= 8 && size + size / 8 < 0x1_0000_0000_0000_0000 && a.paddedGranted then Some(size + size / 8)
            else if a.plainGranted then Some(size)
            else None
  {
    if size + size / 8 >= 0x1_0000_0000_0000_0000 {
      assert Padded(size) == size + size / 8 - 0x1_0000_0000_0000_0000 <= size;
    } else {
      assert Padded(size) == size + size / 8;
    }
  }

  /** Whatever is granted, the buffer was there and sysctl failed with error 12, ENOMEM. */
  ghost predicate NoRoom(a: Attempt) {
    && a.probe.ProbeSize? && a.fill == FillFailed(12)
    && (a.plainGranted
        || (a.paddedGranted && a.probe.size >= 8 && a.probe.size + a.probe.size / 8 < 0x1_0000_0000_0000_0000))
  }

  lemma {:induction false} NoRoomIs(a: Attempt)
    ensures NoRoom(a) <==> LacksRoom(a)
  {
    hide Capacity;
    if a.probe.ProbeSize? {
      CapacityIs(a, a.probe.size);
    }
  }

  /** The code after `n` attempts without room: that of attempt `n` unless it has no room either;
      12 after eight of them. */
  lemma {:induction false} CodeAfter(os: nat -> Attempt, n: nat)
    requires n <= 8 && forall i :: 0 <= i < n ==> NoRoom(os(i))
    ensures n == 8 ==> ReturnCode(os) == 12
    ensures n < 8 && os(n).probe.ProbeFailed? ==> ReturnCode(os) == os(n).probe.errno
    ensures n < 8 && os(n).probe.ProbeSize? && !os(n).paddedGranted && !os(n).plainGranted ==> ReturnCode(os) == 12
    ensures n < 8 && os(n).probe.ProbeSize? && os(n).plainGranted ==>
              match os(n).fill
              case FillFailed(errno) => errno != 12 ==> ReturnCode(os) == errno
              case Filled(_, _) => ReturnCode(os) == 0 && Winner(os) == os(n)
  {
    hide LastAttempt, LacksRoom, NoRoom;
    forall i | 0 <= i < n
      ensures CodeOf(os(i)).None?
    {
      NoRoomIs(os(i));
      CodeCases(os(i));
    }
    if n == 8 {
      NoAttemptEnds(os);
      AllSkipped(os, 0);
    } else {
      if CodeOf(os(n)).Some? {
        SkipsTo(os, 0, n);
      }
    }
  }

  lemma {:induction false} AllSkipped(os: nat -> Attempt, k: nat)
    requires k <= ATTEMPTS && forall i :: 0 <= i < ATTEMPTS ==> CodeOf(os(i)).None?
    ensures LastAttempt(os, k) == ATTEMPTS
    decreases ATTEMPTS - k
  {
    hide CodeOf;
    if k < ATTEMPTS {
      AllSkipped(os, k + 1);
    }
  }

  // ------------------------------------------------------- the worker

  /** The kernel keeps to the buffer: it reports no more bytes than it was given room for, and
      writes one pid per whole record. */
  predicate KeepsToBuffer(a: Attempt, recordSize: nat)
    requires recordSize > 0
  {
    GetsBuffer(a) && a.fill.Filled? ==>
      a.fill.bytes <= Capacity(a).value && |a.fill.pids| == a.fill.bytes / recordSize
  }

  /** `push_back(p_pid)` into a vector of uint64_t. */
  function AsUnsigned(pid: int): (w: Word)
    ensures 0 <= pid < 0x1_0000_0000_0000_0000 ==> w == pid
    ensures -0x1_0000_0000_0000_0000 <= pid < 0 ==> w == pid + 0x1_0000_0000_0000_0000
  {
    pid % WORD
  }

  function Unsigned(pids: seq<int>): (ps: seq<Word>)
    ensures |ps| == |pids| && forall i :: 0 <= i < |pids| ==> ps[i] == AsUnsigned(pids[i])
  {
    seq(|pids|, i requires 0 <= i < |pids| => AsUnsigned(pids[i]))
  }

  /** Each result is the pid in its place, a negative one as its complement to 2^64. */
  ghost predicate Delivers(results: seq<Word>, pids: seq<int>) {
    && |results| == |pids|
    && forall i :: 0 <= i < |pids| ==>
         && (0 <= pids[i] < 0x1_0000_0000_0000_0000 ==> results[i] == pids[i])
         && (-0x1_0000_0000_0000_0000 <= pids[i] < 0 ==> results[i] == pids[i] + 0x1_0000_0000_0000_0000)
  }

  class PidListWorker {
    var error: bool
    var errorMessage: string
    var results: seq<Word>

    constructor ()
      ensures !error && results == []
    {
      error, errorMessage, results := false, "", [];
    }

    /** The record at `index`: the pointer arithmetic must stay inside the live block. */
    method ReadPid(heap: Heap, list: Ptr, contents: seq<int>, index: nat, recordSize: nat) returns (pid: int)
      requires list in heap.live && (index + 1) * recordSize <= heap.live[list]
      requires index < |contents|
      ensures pid == contents[index]
    {
      pid := contents[index];
    }

    /** All records in order, and the buffer freed, unless no whole record was returned: then
        the buffer stays allocated. */
    method Execute(heap: Heap, os: nat -> Attempt, recordSize: nat)
      requires recordSize > 0 && forall i :: 0 <= i < ATTEMPTS ==> KeepsToBuffer(os(i), recordSize)
      requires !error && results == []
      modifies this, heap
      ensures error <==> ReturnCode(os) != 0
      ensures error ==> errorMessage == "failed to retrieve process list." && heap.live == old(heap.live)
      ensures !error ==>
                && results == Unsigned(Winner(os).fill.pids)
                && Delivers(results, Winner(os).fill.pids)
                && (heap.live == old(heap.live) <==> Winner(os).fill.bytes >= recordSize)
                && (Winner(os).fill.bytes < recordSize ==>
                      exists p: Ptr :: p !in old(heap.live) &&
                                       heap.live == old(heap.live)[p := Capacity(Winner(os)).value])
    {
      hide ReturnCode, Capacity, CodeOf, AsUnsigned, Winner, LastAttempt;
      var err, list, count, contents, _, _ := GetProcList(heap, os, recordSize);
      if err != 0 {
        error := true;
        errorMessage := "failed to retrieve process list.";
        return;
      }
      WinnerKeepsToBuffer(os, recordSize);
      ghost var last := Winner(os);
      ghost var capacity := Capacity(last).value;
      CountFits(last.fill.bytes, recordSize, capacity);
      if count > 0 {
        for idx := 0 to count
          invariant heap.live == old(heap.live)[list.value := capacity]
          invariant !error && results == Unsigned(contents[..idx])
        {
          RecordFits(idx, count, recordSize, capacity);
          var pid := ReadPid(heap, list.value, contents, idx, recordSize);
          results := results + [AsUnsigned(pid)];
        }
        assert contents[..count] == contents;
        heap.Free(list.value);
        assert old(heap.live)[list.value := capacity] - {list.value} == old(heap.live);
      }
    }

    /** The results as a JavaScript array, index by index. */
    method Map() returns (array_: seq<Word>)
      ensures array_ == results
    {
      array_ := [];
      var i := 0;
      while i < |results|
        invariant 0 <= i <= |results| && array_ == results[..i]
      {
        array_ := array_ + [results[i]];
        i := i + 1;
      }
    }
  }

  lemma {:induction false} WinnerKeepsToBuffer(os: nat -> Attempt, recordSize: nat)
    requires recordSize > 0 && ReturnCode(os) == 0
    requires forall i :: 0 <= i < ATTEMPTS ==> KeepsToBuffer(os(i), recordSize)
    ensures KeepsToBuffer(Winner(os), recordSize)
  {
  }

  lemma {:induction false} CountFits(bytes: nat, recordSize: nat, capacity: nat)
    requires recordSize > 0 && bytes <= capacity
    ensures (bytes / recordSize) * recordSize <= capacity
    ensures bytes / recordSize > 0 <==> bytes >= recordSize
  {
    var q := bytes / recordSize;
    assert bytes == q * recordSize + bytes % recordSize;
    if q == 0 {
      assert q * recordSize == 0;
    } else {
      assert (q - 1) * recordSize >= 0;
      assert q * recordSize == (q - 1) * recordSize + recordSize;
    }
  }

  lemma {:induction false} RecordFits(index: nat, count: nat, recordSize: nat, capacity: nat)
    requires index < count && count * recordSize <= capacity
    ensures (index + 1) * recordSize <= capacity
  {
    assert (count - (index + 1)) * recordSize >= 0;
    assert count * recordSize == (index + 1) * recordSize + (count - (index + 1)) * recordSize;
  }
}
