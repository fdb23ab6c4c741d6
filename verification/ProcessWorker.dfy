/** Darwin's `ProcessWorker`: one `execute` and one `map` for four kinds of question about a
    process, paired through the operation code. */
module ProcessWorker {
  import opened Text
  import opened CHeap
  import opened CStrings

  const NAME: nat := 0
  const PPID: nat := 1
  const EXE: nat := 2
  const IO_COUNTERS: nat := 3
  const CPU_TIMES: nat := 4

  const NO_PROCESS: string := "Unable to get the process's information or no such process."
  const DENIED: string := "Access denied to the process."
  const UNSUPPORTED: string := "Operation is not supported."

  /** sysctl for one process: a failure, success with nothing written, or the record. */
  datatype KInfo = SysctlFailed | Empty | Info(comm: CString, ppid: int)

  datatype Path = NoPath | PathIs(text: CString)

  /** proc_pidinfo: returns 0, a size other than the asked one, or the times in nanoseconds. */
  datatype TaskInfo = NoInfo | ShortInfo | Task(userNanos: int, systemNanos: int)

  datatype Kill = Delivered | Refused | NoSuchProcess

  /** What the operating system answers during one `execute`. */
  datatype Os = Os(kinfo: KInfo, path: Path, task: TaskInfo, kill: Kill)

  datatype Value = Undefined | TextValue(text: CString) | NumberValue(n: int) | Pair(user: real, system: real)

  /** `Overrun` when `map` has to read on behind the end of a block: the code then delivers
      whatever follows, if it delivers anything. */
  datatype Reply = ErrorReply(message: string) | ValueReply(value: Value) | Overrun

  /** `pid_exists`: a refused signal also proves that there is a process. */
  predicate PidExists(pid: int, os: Os) { pid >= 0 && !os.kill.NoSuchProcess? }

  function Seconds(nanos: int): real { (nanos as real) / 1000000000.0 }

  /** The size of the block that a text is copied into. */
  function SlotSize(operation: nat): nat { if operation == NAME then 12 else 1024 }

  /** The answer to each question, independent of the slots it travels through. */
  function Answer(operation: nat, pid: int, os: Os): Reply {
    if operation == NAME then
      if os.kinfo.Info? then ValueReply(TextValue(os.kinfo.comm)) else ErrorReply(NO_PROCESS)
    else if operation == PPID then
      if os.kinfo.Info? then ValueReply(NumberValue(os.kinfo.ppid)) else ErrorReply(NO_PROCESS)
    else if operation == EXE then
      if os.path.PathIs? then ValueReply(TextValue(os.path.text))
      else ErrorReply(if PidExists(pid, os) then DENIED else NO_PROCESS)
    else if operation == CPU_TIMES then
      match os.task
      case Task(user, system) => ValueReply(Pair(Seconds(user), Seconds(system)))
      case ShortInfo => ErrorReply(DENIED)
      case NoInfo => ErrorReply(if PidExists(pid, os) then DENIED else NO_PROCESS)
    else ErrorReply(UNSUPPORTED)
  }

  /** A text leaves room for its terminator. */
  predicate Fits(operation: nat, answer: Reply) {
    answer.ValueReply? && answer.value.TextValue? ==> |answer.value.text| < SlotSize(operation)
  }

  /** What the request replies. */
  function ReplyOf(operation: nat, pid: int, os: Os): Reply {
    var answer := Answer(operation, pid, os);
    if Fits(operation, answer) then answer else Overrun
  }

  class ProcessWorker {
    const pid: int
    const operation: nat
    var error: bool
    var errorMessage: string
    // The data slots.  They start uninitialised: None is a slot nothing has been written to.
    var charData: Option<Ptr>
    var charCells: seq<char> // the block at `charData`
    var longData: Option<int>
    var floatData: Option<Ptr>
    var floats: (real, real)

    constructor (pid: int, operation: nat)
      ensures this.pid == pid && this.operation == operation && !error
      ensures charData.None? && longData.None? && floatData.None?
    {
      this.pid, this.operation := pid, operation;
      error, errorMessage := false, "";
      charData, charCells, longData, floatData, floats := None, [], None, None, (0.0, 0.0);
    }

    ghost predicate Fresh()
      reads this
    {
      !error && charData.None? && longData.None? && floatData.None?
    }

    /** The blocks the slots own. */
    ghost function Slots(): set<Ptr>
      reads this
    {
      (if charData.Some? then {charData.value} else {}) + (if floatData.Some? then {floatData.value} else {})
    }

    /** Exactly the slot of the operation is filled, with the given answer. */
    ghost predicate Holds(answer: Reply)
      reads this
    {
      match answer
      case ErrorReply(message) =>
        error && errorMessage == message && charData.None? && longData.None? && floatData.None?
      case ValueReply(value) =>
        && !error
        && (charData.Some? <==> operation == NAME || operation == EXE)
        && (longData.Some? <==> operation == PPID)
        && (floatData.Some? <==> operation == CPU_TIMES)
        && (match value
            case TextValue(text) => charData.Some? && charCells == Copied(text, SlotSize(operation))
            case NumberValue(n) => longData == Some(n)
            case Pair(user, system) => floatData.Some? && floats == (user, system)
            case Undefined => false)
      case Overrun => false
    }

    /** A text slot is a live block with room for the cells written to it. */
    ghost predicate SlotIsLive(heap: Heap)
      reads this, heap
    {
      charData.Some? ==> charData.value in heap.live && heap.live[charData.value] == |charCells|
    }

    /** `String::New(char_data)`: reads up to the first NUL; None if that would mean to read on
        behind the end of the block. */
    method ReadText(heap: Heap) returns (text: Option<string>)
      requires charData.Some? && SlotIsLive(heap)
      ensures text == if Terminated(charCells) then Some(CText(charCells)) else None
    {
      hide IndexOf;
      var size := heap.live[charData.value];
      var i := 0;
      while i < size
        invariant 0 <= i <= size && NUL !in charCells[..i]
      {
        if charCells[i] == NUL {
          IndexOfIs(charCells, NUL, i);
          return Some(charCells[..i]);
        }
        i := i + 1;
      }
      IndexOfIs(charCells, NUL, i);
      text := None;
    }

    method Fail(message: string)
      modifies `error, `errorMessage
      ensures error && errorMessage == message
    {
      error, errorMessage := true, message;
    }

    /** `get_kinfo_proc`: an empty success counts as a failure. */
    method GetKInfo(os: Os) returns (result: int)
      ensures result == if os.kinfo.Info? then 0 else -1
    {
      if os.kinfo.SysctlFailed? {
        return -1;
      }
      if os.kinfo.Empty? {
        return -1;
      }
      result := 0;
    }

    /** `_proc_pidinfo` */
    method ProcPidInfo(os: Os) returns (ok: bool)
      modifies `error, `errorMessage
      ensures ok <==> os.task.Task?
      ensures ok ==> error == old(error) && errorMessage == old(errorMessage)
      ensures !ok ==> error && errorMessage == if os.task.NoInfo? && !PidExists(pid, os) then NO_PROCESS else DENIED
    {
      if os.task.NoInfo? {
        if !PidExists(pid, os) {
          Fail(NO_PROCESS);
          return false;
        } else {
          Fail(DENIED);
          return false;
        }
      } else if os.task.ShortInfo? {
        Fail(DENIED);
        return false;
      }
      ok := true;
    }

    /** Fills the slot of the operation, or sets the error and allocates nothing. */
    method Execute(heap: Heap, os: Os)
      requires Fresh()
      modifies this, heap
      ensures Holds(Answer(operation, pid, os))
      ensures Extends(old(heap.live), heap.live, Slots())
      ensures error ==> heap.live == old(heap.live)
      ensures SlotIsLive(heap)
    {
      hide Seconds, Copied, PidExists;
      if operation == NAME {
        var found := GetKInfo(os);
        if found == -1 {
          Fail(NO_PROCESS);
          return;
        }
        charData := heap.Malloc(12, true);
        charCells := Copied(os.kinfo.comm, 12);
      } else if operation == PPID {
        var found := GetKInfo(os);
        if found == -1 {
          Fail(NO_PROCESS);
          return;
        }
        longData := Some(os.kinfo.ppid);
      } else if operation == EXE {
        if os.path.NoPath? {
          if !PidExists(pid, os) {
            Fail(NO_PROCESS);
            return;
          } else {
            Fail(DENIED);
            return;
          }
        }
        charData := heap.Malloc(1024, true);
        charCells := Copied(os.path.text, 1024);
      } else if operation == CPU_TIMES {
        var ok := ProcPidInfo(os);
        if !ok {
          return;
        }
        floatData := heap.Malloc(8, true);
        floats := (Seconds(os.task.userNanos), Seconds(os.task.systemNanos));
      } else {
        Fail(UNSUPPORTED);
      }
    }

    /** Reads the slot of the operation and frees it if it is a block.  Reading any other slot
        would read a None.  The reads stay in the block exactly if the text fits it. */
    method Map(heap: Heap, ghost answer: Reply, ghost before: map<Ptr, nat>) returns (reply: Reply)
      requires Holds(answer) && answer.ValueReply? && Extends(before, heap.live, Slots()) && SlotIsLive(heap)
      modifies heap
      ensures heap.live == before
      ensures reply == if Fits(operation, answer) then answer else Overrun
    {
      hide Copied, CText, Terminated;
      if operation == NAME || operation == EXE {
        var text := ReadText(heap);
        CopiedExactly(answer.value.text, SlotSize(operation));
        reply := if text.Some? then ValueReply(TextValue(text.value)) else Overrun;
        SlotFreed(before, heap.live, charData.value);
        heap.Free(charData.value);
      } else if operation == PPID {
        reply := ValueReply(NumberValue(longData.value));
        ExtendsByNothing(before, heap.live);
      } else if operation == CPU_TIMES {
        reply := ValueReply(Pair(floats.0, floats.1));
        SlotFreed(before, heap.live, floatData.value);
        heap.Free(floatData.value);
      } else {
        reply := ValueReply(Undefined);
      }
    }
  }

  lemma {:induction false} SlotFreed(before: map<Ptr, nat>, now: map<Ptr, nat>, p: Ptr)
    requires Extends(before, now, {p})
    ensures p in now && now - {p} == before
  {
    ExtendsByFree(before, now, {p}, p);
    assert {p} - {p} == {};
    ExtendsByNothing(before, now - {p});
  }

  /** Which questions get a value, and when. */
  lemma {:induction false} AnsweredExactly(operation: nat, pid: int, os: Os)
    ensures ReplyOf(operation, pid, os).ValueReply? <==>
              || (operation == NAME && os.kinfo.Info? && |os.kinfo.comm| < 12)
              || (operation == PPID && os.kinfo.Info?)
              || (operation == EXE && os.path.PathIs? && |os.path.text| < 1024)
              || (operation == CPU_TIMES && os.task.Task?)
    ensures ReplyOf(IO_COUNTERS, pid, os) == ErrorReply(UNSUPPORTED)
  {
  }

  /** Each operation code and what it answers, 0 for the name, 1 for the parent, 2 for the path,
      4 for the times; a time is given in seconds. */
  lemma {:induction false} EachAnswer(pid: int, os: Os)
    ensures os.kinfo.Info? && |os.kinfo.comm| < 12 ==>
              ReplyOf(0, pid, os) == ValueReply(TextValue(os.kinfo.comm))
    ensures os.kinfo.Info? ==> ReplyOf(1, pid, os) == ValueReply(NumberValue(os.kinfo.ppid))
    ensures os.path.PathIs? && |os.path.text| < 1024 ==>
              ReplyOf(2, pid, os) == ValueReply(TextValue(os.path.text))
    ensures os.task.Task? ==>
              var reply := ReplyOf(4, pid, os);
              && reply.ValueReply? && reply.value.Pair?
              && reply.value.user * 1000000000.0 == os.task.userNanos as real
              && reply.value.system * 1000000000.0 == os.task.systemNanos as real
    ensures forall operation: nat :: operation !in {0, 1, 2, 4} ==>
              ReplyOf(operation, pid, os) == ErrorReply("Operation is not supported.")
  {
  }

  /** Each way to fail, and which of two texts reports it: a process that does not take the signal is
      taken to exist unless the signal says that there is none. */
  lemma {:induction false} EachError(pid: int, os: Os)
    ensures var gone := ErrorReply("Unable to get the process's information or no such process.");
            var denied := ErrorReply("Access denied to the process.");
            && (!os.kinfo.Info? ==> ReplyOf(0, pid, os) == ReplyOf(1, pid, os) == gone)
            && (os.path.NoPath? ==>
                  ReplyOf(2, pid, os) == if pid < 0 || os.kill == NoSuchProcess then gone else denied)
            && (os.task.NoInfo? ==>
                  ReplyOf(4, pid, os) == if pid < 0 || os.kill == NoSuchProcess then gone else denied)
            && (os.task.ShortInfo? ==> ReplyOf(4, pid, os) == denied)
  {
  }

  /** `execute` on the pool and, unless it failed, `map` on the loop: for every operation code
      and everything the system may answer the heap is as it was, and the reply is the answer to
      that operation exactly if a text fits its block: a name is shorter than 12. */
  method Serve(heap: Heap, pid: int, operation: nat, os: Os) returns (reply: Reply)
    modifies heap
    ensures reply == ReplyOf(operation, pid, os)
    ensures reply == Answer(operation, pid, os) <==> Fits(operation, Answer(operation, pid, os))
    ensures operation == NAME && os.kinfo.Info? ==>
              (reply == Answer(operation, pid, os) <==> |os.kinfo.comm| < 12)
    ensures reply.ValueReply? <==>
              || (operation == NAME && os.kinfo.Info? && |os.kinfo.comm| < 12)
              || (operation == PPID && os.kinfo.Info?)
              || (operation == EXE && os.path.PathIs? && |os.path.text| < 1024)
              || (operation == CPU_TIMES && os.task.Task?)
    ensures heap.live == old(heap.live)
  {
    hide Extends, Copied, CText, Terminated;
    ghost var before := heap.live;
    AnsweredExactly(operation, pid, os);
    var worker := new ProcessWorker(pid, operation);
    worker.Execute(heap, os);
    if worker.error {
      reply := ErrorReply(worker.errorMessage);
    } else {
      reply := worker.Map(heap, Answer(operation, pid, os), before);
    }
  }

  /** A name of twelve characters, shorter than the system allows, is read past its block. */
  lemma {:induction false} TwelveLettersOverrun(pid: int, os: Os)
    requires os.kinfo == Info("SystemUIServ", 1)
    ensures ReplyOf(NAME, pid, os) == Overrun
    ensures !Terminated(Copied("SystemUIServ", 12))
  {
    CopiedExactly("SystemUIServ", 12);
  }
}
