/** What the workers of five kinds of request put into the protocol: how their `execute` ends, which
    blocks they hold and have lost then, and what their `map` frees. */
module Payloads {
  import opened CHeap
  import opened Requests
  import CStrings
  import Records
  import Text
  import D = DiskWorker
  import L = PidList
  import M = MountOptions
  import N = NetworkWorker
  import P = ProcessWorker

  /** One request, with everything the system does during its `execute`. */
  datatype Question =
    | Network(query: N.Query, layout: N.Layout)
    | Disks(disks: D.Listing)
    | ProcessInfo(operation: nat, pid: int, os: P.Os)
    | Mounts(mounts: M.Listing, masks: M.Masks)
    | Pids(attempts: nat -> L.Attempt, recordSize: nat)

  /** The kernel keeps to the buffers it is given. */
  predicate Sound(q: Question) {
    && (q.Network? ==> N.KeepsToBuffer(q.query))
    && (q.Mounts? ==> M.KeepsToBuffer(q.mounts))
    && (q.Pids? ==>
          q.recordSize > 0 && forall i :: 0 <= i < L.ATTEMPTS ==> L.KeepsToBuffer(q.attempts(i), q.recordSize))
  }

  predicate Fails(q: Question) {
    match q
    case Network(query, _) => !query.Filled?
    case Disks(listing) => D.ScanListing(listing).error
    case ProcessInfo(operation, pid, os) => P.Answer(operation, pid, os).ErrorReply?
    case Mounts(listing, _) => !listing.Mounts?
    case Pids(attempts, _) => L.ReturnCode(attempts) != 0
  }

  /** How many blocks the worker holds when its `execute` has ended. */
  function Holds(q: Question): nat
    requires Sound(q)
  {
    match q
    case Network(query, layout) => if query.Filled? then 2 * |N.RowsOf(layout, N.MessagesIn(query.buf))| else 0
    case Disks(listing) => 2 * |D.ScanListing(listing).rows|
    case ProcessInfo(operation, pid, os) => if Fails(q) || operation == P.PPID then 0 else 1
    case Mounts(listing, _) => if listing.Mounts? then |listing.mounts| else 0
    case Pids(_, _) => 0
  }

  /** The `execute` leaves one block behind that nothing points to any more, or nothing frees: the
      message buffer of a failed second query, the name of a disk without statistics, the list of
      mounts, or a list of processes without a whole record. */
  predicate Loses(q: Question) {
    match q
    case Network(query, _) => query.FillFailed?
    case Disks(listing) => D.ScanListing(listing).nameLost
    case ProcessInfo(_, _, _) => false
    case Mounts(listing, _) => listing.Mounts? || listing.ListFailed?
    case Pids(attempts, recordSize) => L.ReturnCode(attempts) == 0 && L.Winner(attempts).fill.bytes < recordSize
  }

  /** The outcome is one that the question can leave behind. */
  ghost predicate Leaves(q: Question, outcome: Outcome) {
    && Sound(q) && (outcome.Failure? <==> Fails(q))
    && |outcome.held| == Holds(q) && |outcome.lost| == (if Loses(q) then 1 else 0)
    && outcome.held !! outcome.lost
  }

  /** All messages of these workers are constants or come from `strerror`. */
  ghost function OutcomeOf(error: bool, message: string, held: set<Ptr>, lost: set<Ptr>): Outcome {
    if error then Failure(Lasting(message), held, lost) else Success("", held, lost)
  }

  // ------------------------------------------------------- the steps of the protocol

  /** An `execute` that allocates the blocks of its outcome is the step `End`: the step is enabled,
      and the protocol's memory has the same addresses as the heap before and after. */
  lemma {:induction false} EndIsStep(s: State, p: Ptr, outcome: Outcome, before: map<Ptr, nat>, now: map<Ptr, nat>)
    requires Inv(s) && p in s.uv && s.uv[p] == Running && s.heap.Keys == before.Keys
    requires Extends(before, now, outcome.held + outcome.lost) && outcome.held !! outcome.lost
    ensures Enabled(s, End(p, outcome)) && !Faults(s, End(p, outcome))
    ensures Moved(s, End(p, outcome)).heap.Keys == now.Keys
  {
    hide OneWorkerEach, Accounted, FieldsMatch, BlocksAreHeld, CalledOnce, CalledWith, DeletedOnce, Executed;
    assert IsWorker(s, p);
    var t := Ended(s, p, outcome);
    assert t.heap.Keys == s.heap.Keys + (outcome.held + outcome.lost) + {p};
  }

  /** A `map` that frees what its worker holds is what `Enter` does to the memory, and the blocks
      are there for it to free. */
  lemma {:induction false} EnterIsStep(s: State, p: Ptr, outcome: Outcome, before: map<Ptr, nat>)
    requires Inv(s) && Enabled(s, Enter(p)) && s.heap.Keys == before.Keys
    requires IsWorker(s, p) && s.heap[p].worker.callback in s.ended && s.ended[s.heap[p].worker.callback] == outcome
    ensures !Faults(s, Enter(p))
    ensures outcome.Success? ==>
              outcome.held <= before.Keys && Moved(s, Enter(p)).heap.Keys == (before - outcome.held).Keys
    ensures outcome.Failure? ==> Moved(s, Enter(p)).heap.Keys == before.Keys
  {
    hide OneWorkerEach, Accounted, CalledOnce, CalledWith, DeletedOnce, BlocksAreHeld;
    NeverFaults(s, Enter(p));
  }

  lemma {:induction false} BelowBlocks(now: map<Ptr, nat>, held: set<Ptr>)
    requires held <= now.Keys
    ensures Extends(now - held, now, held)
  {
  }

  // ------------------------------------------------------- the workers

  method ExecuteNetwork(heap: Heap, prNic: bool, query: N.Query, layout: N.Layout)
    returns (worker: N.NetworkIOCountersWorker, ghost outcome: Outcome)
    requires N.KeepsToBuffer(query)
    modifies heap
    ensures fresh(worker) && Leaves(Network(query, layout), outcome)
    ensures Extends(old(heap.live), heap.live, outcome.held + outcome.lost)
    ensures Records.Separate(worker.results) && outcome.held == Records.Blocks(worker.results)
  {
    hide Extends, N.RowsOf, N.MessagesIn, N.KeepsToBuffer, N.HasLongName, N.Starts, Records.Blocks, Records.Separate;
    worker := new N.NetworkIOCountersWorker(prNic);
    var _, _, left := worker.Execute(heap, query, layout);
    ghost var blocks := Records.Blocks(worker.results);
    Records.TwoBlocksEach(worker.results);
    outcome := OutcomeOf(worker.error, worker.errorMessage, blocks, left);
    assert blocks + left == left + blocks;
  }

  /** Whatever other requests have allocated meanwhile. */
  method MapNetwork(heap: Heap, worker: N.NetworkIOCountersWorker, junk: N.NetCounters) returns (r: N.Reply)
    requires Records.Separate(worker.results) && Records.Blocks(worker.results) <= heap.live.Keys
    modifies heap
    ensures heap.live == old(heap.live) - Records.Blocks(worker.results)
  {
    hide Extends, Records.Blocks, Records.Separate;
    BelowBlocks(heap.live, Records.Blocks(worker.results));
    r := worker.Map(heap, junk, heap.live - Records.Blocks(worker.results));
  }

  method ExecuteDisks(heap: Heap, prDisk: bool, listing: D.Listing)
    returns (worker: D.DiskIOCountersWorker, ghost outcome: Outcome)
    modifies heap
    ensures fresh(worker) && Leaves(Disks(listing), outcome)
    ensures Extends(old(heap.live), heap.live, outcome.held + outcome.lost)
    ensures Records.Separate(worker.results) && outcome.held == Records.Blocks(worker.results)
  {
    hide Extends, D.ScanListing, Records.Blocks, Records.Separate;
    worker := new D.DiskIOCountersWorker(prDisk);
    var left := worker.Execute(heap, listing);
    ghost var blocks := Records.Blocks(worker.results);
    Records.TwoBlocksEach(worker.results);
    outcome := OutcomeOf(worker.error, worker.errorMessage, blocks, left);
    assert blocks + left == left + blocks;
    assert left == {} <==> |left| == 0;
  }

  method MapDisks(heap: Heap, worker: D.DiskIOCountersWorker, junk: D.DiskCounters) returns (r: D.Reply)
    requires Records.Separate(worker.results) && Records.Blocks(worker.results) <= heap.live.Keys
    modifies heap
    ensures heap.live == old(heap.live) - Records.Blocks(worker.results)
  {
    hide Extends, Records.Blocks, Records.Separate;
    BelowBlocks(heap.live, Records.Blocks(worker.results));
    r := worker.Map(heap, junk, heap.live - Records.Blocks(worker.results));
  }

  method ExecuteProcess(heap: Heap, operation: nat, pid: int, os: P.Os)
    returns (worker: P.ProcessWorker, ghost outcome: Outcome)
    modifies heap
    ensures fresh(worker) && worker.operation == operation && Leaves(ProcessInfo(operation, pid, os), outcome)
    ensures Extends(old(heap.live), heap.live, outcome.held + outcome.lost)
    ensures worker.Holds(P.Answer(operation, pid, os)) && worker.SlotIsLive(heap) && outcome.held == worker.Slots()
  {
    hide Extends;
    worker := new P.ProcessWorker(pid, operation);
    worker.Execute(heap, os);
    outcome := OutcomeOf(worker.error, worker.errorMessage, worker.Slots(), {});
    assert worker.Slots() + {} == worker.Slots();
  }

  method MapProcess(heap: Heap, worker: P.ProcessWorker, ghost answer: P.Reply) returns (reply: P.Reply)
    requires worker.Holds(answer) && answer.ValueReply? && worker.SlotIsLive(heap)
    requires worker.Slots() <= heap.live.Keys
    modifies heap
    ensures heap.live == old(heap.live) - worker.Slots()
  {
    hide Extends;
    BelowBlocks(heap.live, worker.Slots());
    reply := worker.Map(heap, answer, heap.live - worker.Slots());
  }

  method ExecuteMounts(heap: Heap, listing: M.Listing, masks: M.Masks)
    returns (worker: M.DiskPartitionsWorker, opts: M.Local, ghost fs: Text.Option<Ptr>, ghost outcome: Outcome)
    requires M.KeepsToBuffer(listing)
    modifies heap
    ensures fresh(worker) && fresh(opts) && Leaves(Mounts(listing, masks), outcome)
    ensures Extends(old(heap.live), heap.live, outcome.held + outcome.lost)
    ensures outcome.held == M.Blocks(worker.results) && M.Distinct(worker.results)
    ensures outcome.lost == if fs.Some? then {fs.value} else {}
    ensures listing.Mounts? ==> fs.Some? && worker.Lists(fs.value, listing.mounts, opts)
  {
    hide Extends, Leaves, M.Blocks, M.Distinct, CStrings.CText, M.Rendered, M.KeepsToBuffer;
    worker := new M.DiskPartitionsWorker();
    opts, fs := worker.Execute(heap, listing, masks);
    ghost var lost := if fs.Some? then {fs.value} else {};
    ghost var blocks := M.Blocks(worker.results);
    M.NoBlocks(old(heap.live));
    M.OneBlockEach(worker.results);
    outcome := OutcomeOf(worker.error, worker.errorMessage, blocks, lost);
    MountsLeave(listing, masks, worker.error, worker.errorMessage, blocks, fs);
    assert blocks + lost == lost + blocks;
    assert fs.None? ==> blocks + lost == {};
  }

  lemma {:induction false} MountsLeave(listing: M.Listing, masks: M.Masks, error: bool, message: string,
                                       blocks: set<Ptr>, fs: Text.Option<Ptr>)
    requires M.KeepsToBuffer(listing) && (error <==> !listing.Mounts?)
    requires |blocks| == if listing.Mounts? then |listing.mounts| else 0
    requires fs.Some? <==> listing.Mounts? || listing.ListFailed?
    requires fs.Some? ==> fs.value !in blocks
    ensures Leaves(Mounts(listing, masks), OutcomeOf(error, message, blocks, if fs.Some? then {fs.value} else {}))
  {
  }

  /** The list buffer must still be there: it is, for nothing frees it. */
  method MapMounts(heap: Heap, worker: M.DiskPartitionsWorker, mounts: seq<M.Mount>, ghost fs: Ptr, ghost opts: M.Local)
    returns (entries: seq<M.Entry>)
    requires worker.Lists(fs, mounts, opts) && fs !in M.Blocks(worker.results)
    requires fs in heap.live && |mounts| * M.STATFS_SIZE <= heap.live[fs] && M.Blocks(worker.results) <= heap.live.Keys
    modifies heap
    ensures heap.live == old(heap.live) - M.Blocks(worker.results)
  {
    hide Extends, M.Blocks, M.Distinct, CStrings.CText;
    ghost var blocks := M.Blocks(worker.results);
    ghost var now := heap.live;
    BelowBlocks(now, {fs} + blocks);
    entries := worker.Map(heap, fs, mounts, opts, now - ({fs} + blocks));
    OnlyOneStays(now, heap.live, fs, blocks);
  }

  lemma {:induction false} OnlyOneStays(was: map<Ptr, nat>, now: map<Ptr, nat>, fs: Ptr, blocks: set<Ptr>)
    requires fs in was && fs !in blocks && blocks <= was.Keys
    requires Extends(was - ({fs} + blocks), now, {fs}) && now[fs] == was[fs]
    ensures now == was - blocks
  {
    assert now.Keys == (was - blocks).Keys;
  }

  lemma {:induction false} OneMore(before: map<Ptr, nat>, now: map<Ptr, nat>, p: Ptr, size: nat)
    requires p !in before && now == before[p := size]
    ensures now.Keys - before.Keys == {p} && Extends(before, now, {p})
  {
  }

  lemma {:induction false} NoneMore(before: map<Ptr, nat>)
    ensures before.Keys - before.Keys == {} && Extends(before, before, {})
  {
  }

  method ExecutePids(heap: Heap, attempts: nat -> L.Attempt, recordSize: nat)
    returns (worker: L.PidListWorker, ghost outcome: Outcome)
    requires Sound(Pids(attempts, recordSize))
    modifies heap
    ensures fresh(worker) && Leaves(Pids(attempts, recordSize), outcome)
    ensures Extends(old(heap.live), heap.live, outcome.held + outcome.lost)
  {
    hide Extends, Sound, L.ReturnCode, L.Winner, L.KeepsToBuffer, L.Capacity, L.Unsigned;
    PidsKeep(attempts, recordSize);
    worker := new L.PidListWorker();
    worker.Execute(heap, attempts, recordSize);
    ghost var lost := heap.live.Keys - old(heap.live).Keys;
    outcome := OutcomeOf(worker.error, worker.errorMessage, {}, lost);
    assert {} + lost == lost;
    if Loses(Pids(attempts, recordSize)) {
      ghost var size := L.Capacity(L.Winner(attempts)).value;
      ghost var p: Ptr :| p !in old(heap.live) && heap.live == old(heap.live)[p := size];
      OneMore(old(heap.live), heap.live, p, L.Capacity(L.Winner(attempts)).value);
    } else {
      NoneMore(heap.live);
    }
  }

  lemma {:induction false} PidsKeep(attempts: nat -> L.Attempt, recordSize: nat)
    requires Sound(Pids(attempts, recordSize))
    ensures recordSize > 0 && forall i :: 0 <= i < L.ATTEMPTS ==> L.KeepsToBuffer(attempts(i), recordSize)
  {
  }

  // ------------------------------------------------------- whole runs

  /** The question makes its request leak: it loses a block, or it fails while its worker holds
      one. */
  predicate Leaks(q: Question) {
    match q
    case Network(query, _) => query.FillFailed?
    case Disks(listing) =>
      var scan := D.ScanListing(listing);
      scan.error && (scan.rows != [] || scan.nameLost)
    case ProcessInfo(_, _, _) => false
    case Mounts(listing, _) => listing.Mounts? || listing.ListFailed?
    case Pids(attempts, recordSize) => L.ReturnCode(attempts) == 0 && L.Winner(attempts).fill.bytes < recordSize
  }

  lemma {:induction false} LeaksExactly(q: Question)
    requires Sound(q)
    ensures Leaks(q) <==> Loses(q) || (Fails(q) && Holds(q) > 0)
  {
    if q.Disks? {
      D.LostNameIsError(q.disks);
    }
  }

  /** Any interleaving of any requests of the five kinds: when all are served, nothing is left of
      the heap exactly if no second network query failed, no disk loop ended in error after
      allocating something, no list of mounts was allocated, and no list of processes came back
      without a whole record. */
  lemma {:induction false} NothingLeaksExactly(es: seq<Step>, questions: seq<Question>)
    requires Possible(INIT, es) && Run(INIT, es).Reached? && Run(INIT, es).state.uv == map[]
    requires var t := Run(INIT, es).state;
             && |questions| == t.issued
             && forall n: nat :: n < t.issued ==> n in t.ended && Leaves(questions[n], t.ended[n])
    ensures Run(INIT, es).state.heap == map[] <==> forall n :: 0 <= n < |questions| ==> !Leaks(questions[n])
  {
    hide Possible, Run, Fails, Holds, Leaks, Loses, Sound;
    NoLeakExactly(es);
    OnlyIssuedEnd(es);
    var t := Run(INIT, es).state;
    forall n: nat | n < t.issued
      ensures Leaks(questions[n]) <==> Leaked(t.ended[n]) != {}
    {
      LeaksExactly(questions[n]);
      EmptyExactly(t.ended[n]);
    }
  }

  lemma {:induction false} EmptyExactly(outcome: Outcome)
    ensures Leaked(outcome) == {} <==> |outcome.lost| == 0 && (outcome.Failure? ==> |outcome.held| == 0)
  {
    assert outcome.lost <= Leaked(outcome);
  }

  lemma {:induction false} OnlyIssuedEnd(es: seq<Step>)
    requires Possible(INIT, es)
    ensures Run(INIT, es).Reached?
    ensures var t := Run(INIT, es).state;
            && (forall n: nat :: n in t.ended ==> n < t.issued)
            && (t.uv == map[] ==> forall n: nat :: n < t.issued ==> n in t.ended)
  {
    hide CalledOnce, CalledWith, DeletedOnce, FieldsMatch, BlocksAreHeld, Possible, Run;
    InitHasInv();
    RunKeepsInv(INIT, es);
  }
}
