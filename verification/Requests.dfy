/** The life of a native request: an entry point allocates a worker and queues it, a thread of
    the pool runs its `execute`, the loop thread runs `After`, which calls back and deletes the
    worker.  Any number of requests are outstanding, in any interleaving, and callbacks issue
    further requests.  Addresses are reused as soon as they are free. */
module Requests {
  import opened Text
  import opened CHeap

  /** Where the text of an error is: in a place that outlives `execute`, or in an array that is a
      local variable of it. */
  datatype Message = Lasting(text: string) | Local(text: string)

  /** How an `execute` ends.  `held` are the blocks that the worker owns then and that its `map`
      frees; `lost` are those that it allocated and that nothing will ever free. */
  datatype Outcome =
    | Failure(message: Message, held: set<Ptr>, lost: set<Ptr>)
    | Success(answer: string, held: set<Ptr>, lost: set<Ptr>)

  /** A `Worker` object.  `callback` names the persistent handle, numbered in the order of the
      requests; `None` is a field that nothing has written yet. */
  datatype Worker = Worker(callback: nat, error: bool, errorMessage: Option<Message>, answer: Option<string>,
                           held: set<Ptr>)

  datatype Cell = WorkerCell(worker: Worker) | Block(owner: nat)

  /** What libuv is doing with a request. */
  datatype Stage = Queued | Running | Done | Calling

  /** What a callback gets to see of an error: its text, or whatever is where a text once was. */
  datatype ErrorText = Shown(text: string) | Gone

  /** One call of a callback with its two arguments, `None` for null. */
  datatype Delivery = Delivery(callback: nat, err: Option<ErrorText>, value: Option<string>)

  /** The memory, libuv's view of it, and what happened so far: `at` says where the worker of an
      undeleted request is, `ended` how each `execute` ended, `log` and `deleted` list the calls
      and the deletions, oldest first. */
  datatype State = State(heap: map<Ptr, Cell>, uv: map<Ptr, Stage>, after: Option<Ptr>, handles: set<nat>,
                         issued: nat, at: map<nat, Ptr>, ended: map<nat, Outcome>, log: seq<Delivery>,
                         deleted: seq<nat>)

  /** `Begin` and `End` bracket `execute` on a pool thread, `Enter` and `Leave` bracket the
      callback inside `After`. */
  datatype Step = Submit(p: Ptr) | Begin(p: Ptr) | End(p: Ptr, outcome: Outcome) | Enter(p: Ptr) | Leave

  datatype Result = Fault | Reached(state: State)

  const INIT: State := State(map[], map[], None, {}, 0, map[], map[], [], [])

  /** What libuv and the allocator promise: an allocation gets addresses that are free, `Process`
      and then `After` run once for each queued request, and the loop thread runs one `After` at
      a time.  Nothing here looks at whether the worker is still there. */
  predicate Enabled(s: State, e: Step) {
    match e
    case Submit(p) => p !in s.heap
    case Begin(p) => p in s.uv && s.uv[p] == Queued
    case End(p, outcome) =>
      && p in s.uv && s.uv[p] == Running
      && outcome.held !! outcome.lost && outcome.held + outcome.lost !! s.heap.Keys
    case Enter(p) => p in s.uv && s.uv[p] == Done && s.after == None
    case Leave => s.after.Some?
  }

  predicate IsWorker(s: State, p: Ptr) { p in s.heap && s.heap[p].WorkerCell? }

  predicate IsBlock(s: State, p: Ptr) { p in s.heap && s.heap[p].Block? }

  /** The step touches memory or a handle that is gone, or reads a field never written.  The text
      of a local message is not counted here: reading it yields `Gone`, and the run goes on. */
  predicate Faults(s: State, e: Step)
    requires Enabled(s, e)
  {
    match e
    case Submit(_) => false
    case Begin(p) => !IsWorker(s, p)
    case End(p, _) => !IsWorker(s, p)
    case Enter(p) =>
      || !IsWorker(s, p)
      || var w := s.heap[p].worker;
         || w.callback !in s.handles
         || (w.error && w.errorMessage.None?)
         || (!w.error && (w.answer.None? || exists b :: b in w.held && !IsBlock(s, b)))
    case Leave => !IsWorker(s, s.after.value) || s.heap[s.after.value].worker.callback !in s.handles
  }

  /** What `execute` leaves in the worker's fields. */
  function Executed(w: Worker, outcome: Outcome): (r: Worker)
    ensures r.callback == w.callback
  {
    match outcome
    case Failure(message, held, _) => w.(error := true, errorMessage := Some(message), held := held)
    case Success(answer, held, _) => w.(answer := Some(answer), held := held)
  }

  /** A message read after `execute` has returned. */
  function Seen(message: Message): ErrorText { if message.Lasting? then Shown(message.text) else Gone }

  /** The call that `After` makes for a worker. */
  function CallOf(w: Worker): Delivery
    requires if w.error then w.errorMessage.Some? else w.answer.Some?
  {
    if w.error then Delivery(w.callback, Some(Seen(w.errorMessage.value)), None)
    else Delivery(w.callback, None, Some(w.answer.value))
  }

  function Blocks(held: set<Ptr>, owner: nat): map<Ptr, Cell> { map b | b in held :: Block(owner) }

  /** An entry point: `new`, the fields, the persistent handle and `uv_queue_work`. */
  function Submitted(s: State, p: Ptr): State {
    s.(heap := s.heap[p := WorkerCell(Worker(s.issued, false, None, None, {}))], uv := s.uv[p := Queued],
       handles := s.handles + {s.issued}, at := s.at[s.issued := p], issued := s.issued + 1)
  }

  function Ended(s: State, p: Ptr, outcome: Outcome): State
    requires IsWorker(s, p)
  {
    var w := s.heap[p].worker;
    s.(heap := (s.heap + Blocks(outcome.held + outcome.lost, w.callback))[p := WorkerCell(Executed(w, outcome))],
       uv := s.uv[p := Done], ended := s.ended[w.callback := outcome])
  }

  /** The first half of `After`: `map`, which frees what it reads, and the call. */
  function Entered(s: State, p: Ptr): State
    requires IsWorker(s, p)
    requires var w := s.heap[p].worker; if w.error then w.errorMessage.Some? else w.answer.Some?
  {
    var w := s.heap[p].worker;
    s.(heap := if w.error then s.heap else s.heap - w.held,
       uv := s.uv[p := Calling], after := Some(p), log := s.log + [CallOf(w)])
  }

  /** The second half: `Dispose` and `delete`. */
  function Left(s: State): State
    requires s.after.Some? && IsWorker(s, s.after.value)
  {
    var p := s.after.value;
    var w := s.heap[p].worker;
    s.(heap := s.heap - {p}, uv := s.uv - {p}, after := None, handles := s.handles - {w.callback},
       at := s.at - {w.callback}, deleted := s.deleted + [w.callback])
  }

  function Moved(s: State, e: Step): State
    requires Enabled(s, e) && !Faults(s, e)
  {
    match e
    case Submit(p) => Submitted(s, p)
    case Begin(p) => s.(uv := s.uv[p := Running])
    case End(p, outcome) => Ended(s, p, outcome)
    case Enter(p) => Entered(s, p)
    case Leave => Left(s)
  }

  function Next(s: State, e: Step): Result
    requires Enabled(s, e)
  {
    if Faults(s, e) then Fault else Reached(Moved(s, e))
  }

  /** Every step is enabled when its turn comes; nothing is asked after a fault. */
  ghost predicate Possible(s: State, es: seq<Step>)
    decreases |es|
  {
    es == [] || (Enabled(s, es[0]) && (Next(s, es[0]).Reached? ==> Possible(Next(s, es[0]).state, es[1..])))
  }

  ghost function Run(s: State, es: seq<Step>): Result
    requires Possible(s, es)
    decreases |es|
  {
    if es == [] then Reached(s)
    else match Next(s, es[0])
      case Fault => Fault
      case Reached(t) => Run(t, es[1..])
  }

  // ------------------------------------------------------- the invariant

  /** Every live worker is known to libuv, and libuv knows no other address. */
  ghost predicate WorkersAreQueued(s: State) {
    && (forall p :: p in s.uv <==> IsWorker(s, p))
    && (forall p :: p in s.uv && s.uv[p] == Calling <==> s.after == Some(p))
  }

  ghost predicate WorkersAreListed(s: State) {
    forall p :: IsWorker(s, p) ==> s.heap[p].worker.callback in s.at && s.at[s.heap[p].worker.callback] == p
  }

  /** Requests and workers correspond one to one. */
  ghost predicate OneWorkerEach(s: State) {
    && WorkersAreListed(s)
    && (forall n: nat :: n in s.at ==> IsWorker(s, s.at[n]) && s.heap[s.at[n]].worker.callback == n)
  }

  /** The handles are those of the undeleted requests, and no request is lost. */
  ghost predicate Accounted(s: State) {
    && s.handles == s.at.Keys
    && (forall n: nat :: n in s.at || n in s.ended <==> n < s.issued)
  }

  /** The stage at which a request's worker is. */
  predicate StageIs(s: State, n: nat, stage: Stage) { n in s.at && s.at[n] in s.uv && s.uv[s.at[n]] == stage }

  /** The fields of a worker are those of its outcome exactly from the end of its `execute`. */
  ghost predicate FieldsMatch(s: State) {
    forall p :: IsWorker(s, p) && p in s.uv ==>
      var w := s.heap[p].worker;
      if s.uv[p].Queued? || s.uv[p].Running? then
        w.callback !in s.ended && w == Worker(w.callback, false, None, None, {})
      else
        w.callback in s.ended && w == Executed(Worker(w.callback, false, None, None, {}), s.ended[w.callback])
  }

  /** The blocks a request holds are still allocated: its `execute` failed, or `map` has not run. */
  predicate Holding(s: State, n: nat): (r: bool)
    ensures r ==> n in s.ended
  {
    n in s.ended && (s.ended[n].Failure? || StageIs(s, n, Done))
  }

  /** Every block is one that a request holds or has lost. */
  ghost predicate BlocksAreOwned(s: State) {
    forall b :: IsBlock(s, b) ==>
      var n := s.heap[b].owner;
      n in s.ended && (b in s.ended[n].lost || (Holding(s, n) && b in s.ended[n].held))
  }

  ghost predicate HeldAreLive(s: State) {
    forall n: nat, b :: Holding(s, n) && b in s.ended[n].held ==> b in s.heap && s.heap[b] == Block(n)
  }

  ghost predicate LostAreLive(s: State) {
    && (forall n: nat, b :: n in s.ended && b in s.ended[n].lost ==> b in s.heap && s.heap[b] == Block(n))
    && (forall n: nat :: n in s.ended ==> s.ended[n].held !! s.ended[n].lost)
  }

  /** The allocated blocks are exactly those that some request holds or has lost. */
  ghost predicate BlocksAreHeld(s: State) { BlocksAreOwned(s) && HeldAreLive(s) && LostAreLive(s) }

  function Callbacks(log: seq<Delivery>): seq<nat> {
    seq(|log|, i requires 0 <= i < |log| => log[i].callback)
  }

  /** A request is called back once, between the end of its `execute` and its deletion. */
  ghost predicate CalledOnce(s: State) {
    forall n: nat ::
      multiset(Callbacks(s.log))[n] == if n in s.ended && !StageIs(s, n, Done) then 1 else 0
  }

  /** Every call carried (null, answer) or (error, null), as that request's `execute` ended. */
  ghost predicate CalledWith(s: State) {
    forall i :: 0 <= i < |s.log| ==>
      && s.log[i].callback in s.ended
      && s.log[i] == Expected(s.log[i].callback, s.ended[s.log[i].callback])
  }

  function Expected(n: nat, outcome: Outcome): Delivery {
    match outcome
    case Failure(message, _, _) => Delivery(n, Some(Seen(message)), None)
    case Success(answer, _, _) => Delivery(n, None, Some(answer))
  }

  ghost predicate DeletedOnce(s: State) {
    forall n: nat :: multiset(s.deleted)[n] == if n < s.issued && n !in s.at then 1 else 0
  }

  ghost predicate Inv(s: State) {
    && WorkersAreQueued(s) && OneWorkerEach(s) && Accounted(s) && FieldsMatch(s) && BlocksAreHeld(s)
    && CalledOnce(s) && CalledWith(s) && DeletedOnce(s)
  }

  /** No enabled step touches anything that is gone: no use after delete, no double delete, no
      double free, no second dispose, no unwritten message or answer. */
  lemma {:induction false} NeverFaults(s: State, e: Step)
    requires Inv(s) && Enabled(s, e)
    ensures !Faults(s, e)
  {
    hide CalledOnce, CalledWith, DeletedOnce;
    if e.Enter? {
      var w := s.heap[e.p].worker;
      if !w.error {
        forall b | b in w.held
          ensures IsBlock(s, b)
        {
          assert Holding(s, w.callback) && b in s.ended[w.callback].held;
          assert s.heap[b] == Block(w.callback);
        }
      }
    }
  }


  // ------------------------------------------------------- every step keeps it

  lemma {:induction false} StepKeepsQueue(s: State, e: Step)
    requires Inv(s) && Enabled(s, e) && !Faults(s, e)
    ensures WorkersAreQueued(Moved(s, e))
  {
    hide CalledOnce, CalledWith, DeletedOnce, BlocksAreHeld, Executed, FieldsMatch, OneWorkerEach, Accounted;
  }

  lemma {:induction false} StepKeepsList(s: State, e: Step)
    requires Inv(s) && Enabled(s, e) && !Faults(s, e)
    ensures WorkersAreListed(Moved(s, e))
  {
    hide CalledOnce, CalledWith, DeletedOnce, BlocksAreHeld, Executed, FieldsMatch;
  }

  lemma {:induction false} StepKeepsWorkers(s: State, e: Step)
    requires Inv(s) && Enabled(s, e) && !Faults(s, e)
    ensures OneWorkerEach(Moved(s, e))
  {
    hide CalledOnce, CalledWith, DeletedOnce, BlocksAreHeld, Executed, FieldsMatch, WorkersAreListed;
    StepKeepsList(s, e);
  }

  lemma {:induction false} StepKeepsAccount(s: State, e: Step)
    requires Inv(s) && Enabled(s, e) && !Faults(s, e)
    ensures Accounted(Moved(s, e))
  {
    hide CalledOnce, CalledWith, DeletedOnce, BlocksAreHeld;
  }

  lemma {:induction false} EndKeepsFields(s: State, p: Ptr, outcome: Outcome)
    requires Inv(s) && Enabled(s, End(p, outcome)) && !Faults(s, End(p, outcome))
    ensures FieldsMatch(Ended(s, p, outcome))
  {
    hide CalledOnce, CalledWith, DeletedOnce, BlocksAreHeld, Accounted;
  }

  lemma {:induction false} StepKeepsFields(s: State, e: Step)
    requires Inv(s) && Enabled(s, e) && !Faults(s, e)
    ensures FieldsMatch(Moved(s, e))
  {
    hide CalledOnce, CalledWith, DeletedOnce, BlocksAreHeld, OneWorkerEach, Ended, Executed;
    if e.End? {
      EndKeepsFields(s, e.p, e.outcome);
    }
  }

  lemma {:induction false} DoneAfter(s: State, e: Step, n: nat)
    requires Inv(s) && Enabled(s, e) && !Faults(s, e)
    ensures StageIs(Moved(s, e), n, Done) == match e {
              case End(p, _) => StageIs(s, n, Done) || n == s.heap[p].worker.callback
              case Enter(p) => StageIs(s, n, Done) && n != s.heap[p].worker.callback
              case _ => StageIs(s, n, Done) }
    ensures e.Enter? ==> StageIs(s, s.heap[e.p].worker.callback, Done)
  {
    hide CalledOnce, CalledWith, DeletedOnce, BlocksAreHeld, Executed, FieldsMatch;
  }

  lemma {:induction false} StepKeepsOwners(s: State, e: Step)
    requires Inv(s) && Enabled(s, e) && !Faults(s, e)
    ensures BlocksAreOwned(Moved(s, e))
  {
    hide CalledOnce, CalledWith, DeletedOnce, StageIs, OneWorkerEach, Accounted;
    forall n: nat {
      DoneAfter(s, e, n);
    }
  }

  lemma {:induction false} EndKeepsHeld(s: State, p: Ptr, outcome: Outcome)
    requires Inv(s) && Enabled(s, End(p, outcome)) && !Faults(s, End(p, outcome))
    ensures HeldAreLive(Ended(s, p, outcome))
  {
    hide CalledOnce, CalledWith, DeletedOnce, StageIs, OneWorkerEach, Accounted, BlocksAreOwned, LostAreLive, Executed;
    forall n: nat {
      DoneAfter(s, End(p, outcome), n);
    }
  }

  lemma {:induction false} EnterKeepsHeld(s: State, p: Ptr)
    requires Inv(s) && Enabled(s, Enter(p)) && !Faults(s, Enter(p))
    ensures HeldAreLive(Entered(s, p))
  {
    hide CalledOnce, CalledWith, DeletedOnce, StageIs, OneWorkerEach, Accounted, BlocksAreOwned, LostAreLive;
    forall n: nat {
      DoneAfter(s, Enter(p), n);
    }
  }

  lemma {:induction false} StepKeepsHeld(s: State, e: Step)
    requires Inv(s) && Enabled(s, e) && !Faults(s, e)
    ensures HeldAreLive(Moved(s, e))
  {
    hide CalledOnce, CalledWith, DeletedOnce, StageIs, OneWorkerEach, Accounted, BlocksAreOwned, LostAreLive;
    hide FieldsMatch, Entered, Ended;
    if e.End? {
      EndKeepsHeld(s, e.p, e.outcome);
    } else if e.Enter? {
      EnterKeepsHeld(s, e.p);
    } else {
      forall n: nat {
        DoneAfter(s, e, n);
      }
    }
  }

  /** What a starting `After` frees are its own request's blocks, and none that anybody has lost. */
  lemma {:induction false} FreedAreHeld(s: State, p: Ptr, b: Ptr)
    requires Inv(s) && Enabled(s, Enter(p)) && !Faults(s, Enter(p)) && b in s.heap[p].worker.held
    ensures b in s.heap && s.heap[p].worker.callback in s.ended && s.heap[b] == Block(s.heap[p].worker.callback)
    ensures b !in s.ended[s.heap[p].worker.callback].lost
  {
    hide CalledOnce, CalledWith, DeletedOnce, Accounted, BlocksAreOwned;
    assert Holding(s, s.heap[p].worker.callback);
  }

  lemma {:induction false} EnterKeepsLost(s: State, p: Ptr)
    requires Inv(s) && Enabled(s, Enter(p)) && !Faults(s, Enter(p))
    ensures LostAreLive(Entered(s, p))
  {
    hide CalledOnce, CalledWith, DeletedOnce, Accounted, BlocksAreOwned, HeldAreLive, FieldsMatch, OneWorkerEach;
    hide WorkersAreQueued;
    forall b | b in s.heap[p].worker.held {
      FreedAreHeld(s, p, b);
    }
  }

  lemma {:induction false} StepKeepsLost(s: State, e: Step)
    requires Inv(s) && Enabled(s, e) && !Faults(s, e)
    ensures LostAreLive(Moved(s, e))
  {
    hide CalledOnce, CalledWith, DeletedOnce, OneWorkerEach, Accounted, BlocksAreOwned, HeldAreLive, Entered, Executed;
    if e.Enter? {
      EnterKeepsLost(s, e.p);
    }
  }

  lemma {:induction false} StepKeepsBlocks(s: State, e: Step)
    requires Inv(s) && Enabled(s, e) && !Faults(s, e)
    ensures BlocksAreHeld(Moved(s, e))
  {
    hide Inv, Moved, Faults, Enabled, BlocksAreOwned, HeldAreLive, LostAreLive;
    StepKeepsOwners(s, e);
    StepKeepsHeld(s, e);
    StepKeepsLost(s, e);
  }

  lemma {:induction false} CallbacksSnoc(log: seq<Delivery>, d: Delivery)
    ensures multiset(Callbacks(log + [d])) == multiset(Callbacks(log)) + multiset{d.callback}
  {
    assert Callbacks(log + [d]) == Callbacks(log) + [d.callback];
  }

  lemma {:induction false} StepKeepsCalls(s: State, e: Step)
    requires Inv(s) && Enabled(s, e) && !Faults(s, e)
    ensures CalledOnce(Moved(s, e))
  {
    hide CalledWith, DeletedOnce, BlocksAreHeld, StageIs, Callbacks;
    forall n: nat {
      DoneAfter(s, e, n);
    }
    if e.Enter? {
      CallbacksSnoc(s.log, CallOf(s.heap[e.p].worker));
    }
  }

  lemma {:induction false} StepKeepsLog(s: State, e: Step)
    requires Inv(s) && Enabled(s, e) && !Faults(s, e)
    ensures CalledWith(Moved(s, e))
  {
    hide CalledOnce, DeletedOnce, BlocksAreHeld, Accounted;
  }

  lemma {:induction false} StepKeepsDeleted(s: State, e: Step)
    requires Inv(s) && Enabled(s, e) && !Faults(s, e)
    ensures DeletedOnce(Moved(s, e))
  {
    hide CalledOnce, CalledWith, BlocksAreHeld, FieldsMatch, Executed;
  }

  lemma {:induction false} StepKeepsInv(s: State, e: Step)
    requires Inv(s) && Enabled(s, e)
    ensures Next(s, e).Reached? && Inv(Next(s, e).state)
  {
    hide WorkersAreQueued, OneWorkerEach, Accounted, FieldsMatch, BlocksAreHeld, CalledOnce, CalledWith, DeletedOnce;
    hide Faults, Moved, Enabled;
    NeverFaults(s, e);
    StepKeepsQueue(s, e);
    StepKeepsWorkers(s, e);
    StepKeepsAccount(s, e);
    StepKeepsFields(s, e);
    StepKeepsBlocks(s, e);
    StepKeepsCalls(s, e);
    StepKeepsLog(s, e);
    StepKeepsDeleted(s, e);
  }

  // ------------------------------------------------------- whole runs

  lemma {:induction false} RunKeepsInv(s: State, es: seq<Step>)
    requires Inv(s) && Possible(s, es)
    ensures Run(s, es).Reached? && Inv(Run(s, es).state)
    decreases |es|
  {
    hide Inv, Next, Enabled;
    if es != [] {
      StepKeepsInv(s, es[0]);
      RunKeepsInv(Next(s, es[0]).state, es[1..]);
    }
  }

  lemma {:induction false} InitHasInv()
    ensures Inv(INIT)
  {
    assert Callbacks(INIT.log) == [];
  }

  /** In every run, whatever the interleaving: nothing that is gone is ever touched; a request is
      called back at most once, and only after its own `execute` ended, with (null, answer) or
      (error, null) as that ended; it is deleted at most once; its handle lives exactly as long as
      its worker; the blocks it holds live until `map`, or for good when `execute` failed, and those
      it has lost live for good. */
  lemma {:induction false} EveryRun(es: seq<Step>)
    requires Possible(INIT, es)
    ensures Run(INIT, es).Reached?
    ensures var t := Run(INIT, es).state;
            && CalledOnce(t) && CalledWith(t) && DeletedOnce(t) && BlocksAreHeld(t)
            && t.handles == t.at.Keys
  {
    hide CalledOnce, CalledWith, DeletedOnce, BlocksAreHeld, Possible, Run;
    InitHasInv();
    RunKeepsInv(INIT, es);
  }

  /** An error reaches its callback as the text it had exactly if the message outlives `execute`. */
  lemma {:induction false} ErrorsAreShownExactly(es: seq<Step>, i: nat)
    requires Possible(INIT, es) && Run(INIT, es).Reached? && i < |Run(INIT, es).state.log|
    ensures var t := Run(INIT, es).state;
            var d := t.log[i];
            && d.callback in t.ended
            && (d.err.Some? <==> t.ended[d.callback].Failure?)
            && (d.err.Some? ==>
                  (d.err.value == Shown(t.ended[d.callback].message.text) <==> t.ended[d.callback].message.Lasting?))
  {
    hide WorkersAreQueued, OneWorkerEach, Accounted, FieldsMatch, BlocksAreHeld, CalledOnce, DeletedOnce, Possible, Run;
    InitHasInv();
    RunKeepsInv(INIT, es);
  }

  /** The blocks of a request that nothing frees: what it has lost, and what it holds when its
      `execute` failed, for then `map` is skipped. */
  function Leaked(outcome: Outcome): set<Ptr> { outcome.lost + if outcome.Failure? then outcome.held else {} }

  /** When libuv has nothing left, every request was called back exactly once and deleted exactly
      once, no handle is left, and what is left of the heap is what the requests leaked. */
  lemma {:induction false} Quiescent(es: seq<Step>)
    requires Possible(INIT, es) && Run(INIT, es).Reached? && Run(INIT, es).state.uv == map[]
    ensures var t := Run(INIT, es).state;
            && (forall n: nat :: multiset(Callbacks(t.log))[n] == if n < t.issued then 1 else 0)
            && (forall n: nat :: multiset(t.deleted)[n] == if n < t.issued then 1 else 0)
            && t.handles == {}
            && (forall b :: b in t.heap <==> exists n: nat :: n in t.ended && b in Leaked(t.ended[n]))
  {
    hide CalledWith, FieldsMatch, Possible, Run, BlocksAreHeld;
    InitHasInv();
    RunKeepsInv(INIT, es);
    var t := Run(INIT, es).state;
    forall n: nat
      ensures n !in t.at
    {
    }
    forall b
      ensures b in t.heap <==> exists n: nat :: n in t.ended && b in Leaked(t.ended[n])
    {
      LeftOver(t, b);
    }
  }

  lemma {:induction false} LeftOver(t: State, b: Ptr)
    requires BlocksAreHeld(t) && WorkersAreQueued(t) && t.uv == map[]
    ensures b in t.heap <==> exists n: nat :: n in t.ended && b in Leaked(t.ended[n])
  {
    if b in t.heap {
      assert b !in t.uv && !IsWorker(t, b);
      assert IsBlock(t, b);
      assert b in Leaked(t.ended[t.heap[b].owner]);
    }
    if n: nat :| n in t.ended && b in Leaked(t.ended[n]) {
      assert b in t.ended[n].lost || Holding(t, n);
    }
  }

  /** So nothing leaks exactly when every `execute` frees what its worker does not own, and one that
      fails frees all. */
  lemma {:induction false} NoLeakExactly(es: seq<Step>)
    requires Possible(INIT, es) && Run(INIT, es).Reached? && Run(INIT, es).state.uv == map[]
    ensures var t := Run(INIT, es).state;
            t.heap == map[] <==> forall n: nat :: n in t.ended ==> Leaked(t.ended[n]) == {}
  {
    hide Possible, Run, Inv, Leaked;
    Quiescent(es);
    var t := Run(INIT, es).state;
    if t.heap == map[] {
      forall n: nat | n in t.ended
        ensures Leaked(t.ended[n]) == {}
      {
        assert forall b :: b in Leaked(t.ended[n]) ==> b in t.heap;
      }
    } else {
      assert t.heap.Keys != {};
      var b :| b in t.heap;
    }
  }

  /** What happened stays: a later step never takes back a call, a deletion or an outcome. */
  lemma {:induction false} HistoryGrows(s: State, es: seq<Step>)
    requires Inv(s) && Possible(s, es)
    ensures Run(s, es).Reached?
    ensures var t := Run(s, es).state;
            && s.log <= t.log && s.deleted <= t.deleted && s.issued <= t.issued
            && forall n: nat :: n in s.ended ==> n in t.ended && t.ended[n] == s.ended[n]
    decreases |es|
  {
    hide Inv, Next, Enabled;
    if es != [] {
      StepKeepsInv(s, es[0]);
      StepGrows(s, es[0]);
      HistoryGrows(Next(s, es[0]).state, es[1..]);
    }
  }

  lemma {:induction false} StepGrows(s: State, e: Step)
    requires Inv(s) && Enabled(s, e) && Next(s, e).Reached?
    ensures var t := Next(s, e).state;
            && s.log <= t.log && s.deleted <= t.deleted && s.issued <= t.issued
            && forall n: nat :: n in s.ended ==> n in t.ended && t.ended[n] == s.ended[n]
  {
    hide BlocksAreHeld, CalledOnce, CalledWith, DeletedOnce;
  }

  // ------------------------------------------------------- the life of one request

  datatype Phase = Queues | Starts | Ends | Calls | Deletes

  const LIFE: seq<Phase> := [Queues, Starts, Ends, Calls, Deletes]

  function PhaseOf(e: Step): Phase {
    match e
    case Submit(_) => Queues
    case Begin(_) => Starts
    case End(_, _) => Ends
    case Enter(_) => Calls
    case Leave => Deletes
  }

  /** The request that a step is about. */
  function RequestOf(s: State, e: Step): nat
    requires Enabled(s, e) && !Faults(s, e)
  {
    match e
    case Submit(_) => s.issued
    case Begin(p) => s.heap[p].worker.callback
    case End(p, _) => s.heap[p].worker.callback
    case Enter(p) => s.heap[p].worker.callback
    case Leave => s.heap[s.after.value].worker.callback
  }

  /** What happens to request `n` along a run, in order. */
  ghost function Trace(s: State, es: seq<Step>, n: nat): seq<Phase>
    requires Possible(s, es)
    decreases |es|
  {
    if es == [] || Next(s, es[0]).Fault? then []
    else (if RequestOf(s, es[0]) == n then [PhaseOf(es[0])] else []) + Trace(Next(s, es[0]).state, es[1..], n)
  }

  /** How many phases of its life a request has behind it. */
  function Age(s: State, n: nat): (age: nat)
    ensures age <= 5
  {
    if n in s.at && s.at[n] in s.uv then
      match s.uv[s.at[n]]
      case Queued => 1
      case Running => 2
      case Done => 3
      case Calling => 4
    else if n < s.issued then 5
    else 0
  }

  /** A step takes its own request to the next phase, and no other request anywhere. */
  lemma {:induction false} StepAges(s: State, e: Step, n: nat)
    requires Inv(s) && Enabled(s, e) && !Faults(s, e)
    ensures RequestOf(s, e) == n ==>
              Age(s, n) < 5 && LIFE[Age(s, n)] == PhaseOf(e) && Age(Moved(s, e), n) == Age(s, n) + 1
    ensures RequestOf(s, e) != n ==> Age(Moved(s, e), n) == Age(s, n)
  {
    hide CalledOnce, CalledWith, DeletedOnce, BlocksAreHeld, Executed, FieldsMatch;
  }

  lemma {:induction false} TraceAges(s: State, es: seq<Step>, n: nat)
    requires Inv(s) && Possible(s, es)
    ensures Run(s, es).Reached?
    ensures LIFE[..Age(s, n)] + Trace(s, es, n) == LIFE[..Age(Run(s, es).state, n)]
    decreases |es|
  {
    hide Inv, Enabled, Faults, Moved, Age, RequestOf, PhaseOf;
    if es != [] {
      StepKeepsInv(s, es[0]);
      var t := Moved(s, es[0]);
      StepAges(s, es[0], n);
      TraceAges(t, es[1..], n);
      var first, rest := if RequestOf(s, es[0]) == n then [PhaseOf(es[0])] else [], Trace(t, es[1..], n);
      assert LIFE[..Age(t, n)] == LIFE[..Age(s, n)] + first;
      assert LIFE[..Age(s, n)] + (first + rest) == (LIFE[..Age(s, n)] + first) + rest;
    }
  }

  /** In every run, what happens to a request is the beginning of one fixed life, each phase once
      and in order: queued, `execute` starts, `execute` ends, called back, deleted.  The life is
      complete exactly if the request was issued and libuv no longer knows it. */
  lemma {:induction false} OneLifeEach(es: seq<Step>, n: nat)
    requires Possible(INIT, es)
    ensures Run(INIT, es).Reached? && Trace(INIT, es, n) <= LIFE
    ensures var t := Run(INIT, es).state;
            Trace(INIT, es, n) == LIFE <==> n < t.issued && n !in t.at
  {
    hide Inv, Possible, Run, Trace;
    InitHasInv();
    RunKeepsInv(INIT, es);
    TraceAges(INIT, es, n);
    var t := Run(INIT, es).state;
    assert LIFE[..0] + Trace(INIT, es, n) == Trace(INIT, es, n);
    AtIsKnown(t, n);
  }

  lemma {:induction false} AtIsKnown(s: State, n: nat)
    requires Inv(s)
    ensures n in s.at ==> s.at[n] in s.uv && n < s.issued
  {
    hide CalledOnce, CalledWith, DeletedOnce, BlocksAreHeld, FieldsMatch;
  }

  // ------------------------------------------------------- progress

  /** While libuv has a request, some step other than a new request can be taken. */
  lemma {:induction false} Progress(s: State) returns (e: Step)
    requires Inv(s) && s.uv != map[]
    ensures Enabled(s, e) && !e.Submit?
  {
    hide OneWorkerEach, Accounted, FieldsMatch, BlocksAreHeld, CalledOnce, CalledWith, DeletedOnce;
    if s.after.Some? {
      e := Leave;
    } else {
      assert s.uv.Keys != {};
      var p :| p in s.uv;
      match s.uv[p] {
        case Queued => e := Begin(p);
        case Running => e := End(p, Success("", {}, {}));
        case Done => e := Enter(p);
        case Calling => assert false;
      }
    }
  }

  /** The requests that are at one of the stages. */
  function At(uv: map<Ptr, Stage>, stages: set<Stage>): set<Ptr> { set p | p in uv && uv[p] in stages }

  /** The steps that the queued requests still need. */
  function Work(s: State): nat {
    |At(s.uv, {Queued, Running, Done, Calling})| + |At(s.uv, {Queued, Running, Done})| +
    |At(s.uv, {Queued, Running})| + |At(s.uv, {Queued})|
  }

  function One(b: bool): nat { if b then 1 else 0 }

  lemma {:induction false} AtPut(uv: map<Ptr, Stage>, p: Ptr, stage: Stage, stages: set<Stage>)
    ensures |At(uv[p := stage], stages)| == |At(uv, stages)| - One(p in uv && uv[p] in stages) + One(stage in stages)
  {
    var rest := At(uv, stages) - {p};
    assert At(uv, stages) == if p in uv && uv[p] in stages then rest + {p} else rest;
    assert At(uv[p := stage], stages) == if stage in stages then rest + {p} else rest;
  }

  lemma {:induction false} AtRemoved(uv: map<Ptr, Stage>, p: Ptr, stages: set<Stage>)
    ensures |At(uv - {p}, stages)| == |At(uv, stages)| - One(p in uv && uv[p] in stages)
  {
    var rest := At(uv, stages) - {p};
    assert At(uv, stages) == if p in uv && uv[p] in stages then rest + {p} else rest;
    assert At(uv - {p}, stages) == rest;
  }

  /** What a step takes from, and adds to, the requests at the given stages. */
  lemma {:induction false} AtAfter(s: State, e: Step, stages: set<Stage>)
    requires Inv(s) && Enabled(s, e) && !Faults(s, e)
    ensures |At(Moved(s, e).uv, stages)| ==
              |At(s.uv, stages)|
              - One((e.Begin? && Queued in stages) || (e.End? && Running in stages) ||
                    (e.Enter? && Done in stages) || (e.Leave? && Calling in stages))
              + One((e.Submit? && Queued in stages) || (e.Begin? && Running in stages) ||
                    (e.End? && Done in stages) || (e.Enter? && Calling in stages))
  {
    hide OneWorkerEach, Accounted, FieldsMatch, BlocksAreHeld, CalledOnce, CalledWith, DeletedOnce, At;
    if e.Leave? {
      AtRemoved(s.uv, s.after.value, stages);
    } else {
      AtPut(s.uv, e.p, Moved(s, e).uv[e.p], stages);
    }
  }

  lemma {:induction false} WorkFalls(s: State, e: Step)
    requires Inv(s) && Enabled(s, e) && !Faults(s, e)
    ensures Work(Moved(s, e)) == if e.Submit? then Work(s) + 4 else Work(s) - 1
  {
    hide Inv, At, Enabled, Faults, Moved;
    AtAfter(s, e, {Queued, Running, Done, Calling});
    AtAfter(s, e, {Queued, Running, Done});
    AtAfter(s, e, {Queued, Running});
    AtAfter(s, e, {Queued});
  }

  /** Every request takes five steps, however they interleave: no run can go on without new
      requests for more steps than `Work` says. */
  lemma {:induction false} FiveStepsEach(s: State, es: seq<Step>)
    requires Inv(s) && Possible(s, es)
    ensures Run(s, es).Reached?
    ensures |es| + Work(Run(s, es).state) == Work(s) + 5 * (Run(s, es).state.issued - s.issued)
    decreases |es|
  {
    hide Inv, Work, Enabled, Faults, Moved;
    if es != [] {
      StepKeepsInv(s, es[0]);
      WorkFalls(s, es[0]);
      IssuedBySubmit(s, es[0]);
      FiveStepsEach(Next(s, es[0]).state, es[1..]);
    }
  }

  lemma {:induction false} IssuedBySubmit(s: State, e: Step)
    requires Enabled(s, e) && !Faults(s, e)
    ensures Moved(s, e).issued == s.issued + if e.Submit? then 1 else 0
  {
  }

  /** From every reachable state some schedule of the pool and the loop serves every request. */
  lemma {:induction false} Finish(s: State) returns (es: seq<Step>)
    requires Inv(s)
    ensures Possible(s, es) && Run(s, es).Reached? && Run(s, es).state.uv == map[]
    ensures |es| == Work(s) && forall i :: 0 <= i < |es| ==> !es[i].Submit?
    decreases Work(s)
  {
    hide Inv, Work, Enabled, Faults, Moved;
    if s.uv == map[] {
      es := [];
      NoWork(s);
    } else {
      var e := Progress(s);
      StepKeepsInv(s, e);
      WorkFalls(s, e);
      var t := Next(s, e).state;
      var rest := Finish(t);
      es := [e] + rest;
      assert es[1..] == rest;
    }
  }

  lemma {:induction false} NoWork(s: State)
    requires s.uv == map[]
    ensures Work(s) == 0
  {
    assert forall stages :: At(s.uv, stages) == {};
  }

  // ------------------------------------------------------- the code

  lemma {:induction false} RunAppend(s: State, es: seq<Step>, fs: seq<Step>)
    requires Inv(s) && Possible(s, es + fs)
    ensures Possible(s, es) && Run(s, es).Reached? && Inv(Run(s, es).state)
    ensures Possible(Run(s, es).state, fs) && Run(s, es + fs) == Run(Run(s, es).state, fs)
    decreases |es|
  {
    hide Inv, Next, Enabled;
    if es == [] {
      assert es + fs == fs;
    } else {
      assert (es + fs)[0] == es[0] && (es + fs)[1..] == es[1..] + fs;
      StepKeepsInv(s, es[0]);
      RunAppend(Next(s, es[0]).state, es[1..], fs);
    }
  }

  /** Every step in which an `execute` ends decides what its request's callback gets.  For any run
      in which the worker at `p` ends with `outcome`, every call of its callback has (error, null)
      with the text of the message, as far as that is still there, or (null, answer); and that is
      the outcome on record. */
  lemma {:induction false} CalledBackAsEnded(before: seq<Step>, p: Ptr, outcome: Outcome, after: seq<Step>)
    requires Possible(INIT, before + [End(p, outcome)] + after)
    ensures Possible(INIT, before) && Run(INIT, before).Reached? && IsWorker(Run(INIT, before).state, p)
    ensures Run(INIT, before + [End(p, outcome)] + after).Reached?
    ensures var n := Run(INIT, before).state.heap[p].worker.callback;
            var t := Run(INIT, before + [End(p, outcome)] + after).state;
            && n in t.ended && t.ended[n] == outcome
            && forall i :: 0 <= i < |t.log| && t.log[i].callback == n ==>
                 && t.log[i].value == (if outcome.Success? then Some(outcome.answer) else None)
                 && (outcome.Success? ==> t.log[i].err == None)
                 && (outcome.Failure? ==>
                       t.log[i].err == Some(if outcome.message.Lasting? then Shown(outcome.message.text) else Gone))
  {
    hide Inv, Possible, Enabled, Faults, Moved;
    var end := End(p, outcome);
    InitHasInv();
    RunAppend(INIT, before + [end], after);
    RunAppend(INIT, before, [end]);
    var s := Run(INIT, before).state;
    OneStep(s, end);
    EndRecords(s, p, outcome);
    var u := Run(INIT, before + [end]).state;
    HistoryGrows(u, after);
    RunKeepsInv(u, after);
    CallsAreOnRecord(Run(u, after).state);
  }

  lemma {:induction false} OneStep(s: State, e: Step)
    requires Inv(s) && Possible(s, [e])
    ensures Enabled(s, e) && !Faults(s, e) && Run(s, [e]) == Reached(Moved(s, e))
  {
    hide Inv, Enabled, Faults, Moved;
    StepKeepsInv(s, e);
    assert [e][1..] == [];
  }

  lemma {:induction false} EndRecords(s: State, p: Ptr, outcome: Outcome)
    requires Inv(s) && Enabled(s, End(p, outcome)) && !Faults(s, End(p, outcome))
    ensures IsWorker(s, p)
    ensures var t, n := Moved(s, End(p, outcome)), s.heap[p].worker.callback;
            n in t.ended && t.ended[n] == outcome
  {
    hide Inv;
  }

  lemma {:induction false} CallsAreOnRecord(t: State)
    requires Inv(t)
    ensures forall i :: 0 <= i < |t.log| ==>
              && t.log[i].callback in t.ended
              && t.log[i] == Expected(t.log[i].callback, t.ended[t.log[i].callback])
  {
    hide WorkersAreQueued, OneWorkerEach, Accounted, FieldsMatch, BlocksAreHeld, CalledOnce, DeletedOnce;
  }

  /** While a callback runs, `After` keeps its worker, whatever else happens. */
  lemma {:induction false} AfterStays(s: State, es: seq<Step>)
    requires Inv(s) && Possible(s, es) && s.after.Some? && Leave !in es
    ensures Run(s, es).Reached? && Run(s, es).state.after == s.after
    ensures IsWorker(s, s.after.value) && IsWorker(Run(s, es).state, s.after.value)
    ensures Run(s, es).state.heap[s.after.value] == s.heap[s.after.value]
    decreases |es|
  {
    hide Inv, Next, Enabled;
    StepStays(s, es);
    if es != [] {
      StepKeepsInv(s, es[0]);
      AfterStays(Next(s, es[0]).state, es[1..]);
    }
  }

  lemma {:induction false} StepStays(s: State, es: seq<Step>)
    requires Inv(s) && s.after.Some?
    ensures IsWorker(s, s.after.value)
    ensures es != [] && es[0] != Leave && Enabled(s, es[0]) && Next(s, es[0]).Reached? ==>
              var t := Next(s, es[0]).state;
              t.after == s.after && s.after.value in t.heap && t.heap[s.after.value] == s.heap[s.after.value]
  {
    hide OneWorkerEach, Accounted, FieldsMatch, BlocksAreHeld, CalledOnce, CalledWith, DeletedOnce;
  }

  lemma {:induction false} EnterStarts(s: State, p: Ptr)
    requires Inv(s) && Enabled(s, Enter(p)) && !Faults(s, Enter(p))
    ensures IsWorker(s, p) && Moved(s, Enter(p)).after == Some(p)
    ensures p in Moved(s, Enter(p)).heap && Moved(s, Enter(p)).heap[p] == s.heap[p]
  {
    hide OneWorkerEach, Accounted, FieldsMatch, BlocksAreHeld, CalledOnce, CalledWith, DeletedOnce;
  }

  /** The request is over: called back once, deleted once, its handle disposed. */
  ghost predicate Served(s: State, n: nat) {
    && n in s.ended && n !in s.at && n !in s.handles
    && multiset(Callbacks(s.log))[n] == 1 && multiset(s.deleted)[n] == 1
  }

  lemma {:induction false} LeaveServes(s: State)
    requires Inv(s) && s.after.Some? && !Faults(s, Leave) && Inv(Moved(s, Leave))
    ensures Served(Moved(s, Leave), s.heap[s.after.value].worker.callback)
  {
    hide BlocksAreHeld, CalledWith, Executed, Callbacks;
  }

  class PSUtilLib {
    var heap: map<Ptr, Cell>
    var uv: map<Ptr, Stage>
    var after: Option<Ptr>
    var handles: set<nat>
    var issued: nat
    var log: seq<Delivery>
    ghost var at: map<nat, Ptr>
    ghost var ended: map<nat, Outcome>
    ghost var deleted: seq<nat>

    constructor ()
      ensures View() == INIT
    {
      heap, uv, after, handles, issued, log := map[], map[], None, {}, 0, [];
      at, ended, deleted := map[], map[], [];
    }

    ghost function View(): State
      reads this
    {
      State(heap, uv, after, handles, issued, at, ended, log, deleted)
    }

    /** What every entry point does: a new worker at `p`, its handle, and `uv_queue_work`. */
    method Enqueue(p: Ptr)
      requires Enabled(View(), Submit(p))
      modifies this
      ensures View() == Moved(old(View()), Submit(p))
    {
      heap := heap[p := WorkerCell(Worker(issued, false, None, None, {}))];
      handles := handles + {issued};
      at := at[issued := p];
      issued := issued + 1;
      uv := uv[p := Queued];
    }

    /** `Process` reaches its worker. */
    method StartProcess(p: Ptr)
      requires Enabled(View(), Begin(p)) && !Faults(View(), Begin(p))
      modifies this`uv
      ensures View() == Moved(old(View()), Begin(p))
    {
      uv := uv[p := Running];
    }

    /** `execute` ends. */
    method FinishProcess(p: Ptr, outcome: Outcome)
      requires Enabled(View(), End(p, outcome)) && !Faults(View(), End(p, outcome))
      modifies this
      ensures View() == Moved(old(View()), End(p, outcome))
    {
      var worker := heap[p].worker;
      heap := heap + Blocks(outcome.held + outcome.lost, worker.callback);
      worker := worker.(held := outcome.held);
      match outcome {
        case Failure(message, _, _) =>
          worker := worker.(error := true, errorMessage := Some(message));
        case Success(answer, _, _) =>
          worker := worker.(answer := Some(answer));
      }
      heap := heap[p := WorkerCell(worker)];
      ended := ended[worker.callback := outcome];
      uv := uv[p := Done];
    }

    /** `After` up to and including the start of the callback. */
    method CallBack(p: Ptr)
      requires Enabled(View(), Enter(p)) && !Faults(View(), Enter(p))
      modifies this
      ensures View() == Moved(old(View()), Enter(p))
    {
      var worker := heap[p].worker;
      uv := uv[p := Calling];
      after := Some(p);
      if worker.error {
        log := log + [Delivery(worker.callback, Some(Seen(worker.errorMessage.value)), None)];
      } else {
        heap := heap - worker.held;
        log := log + [Delivery(worker.callback, None, Some(worker.answer.value))];
      }
    }

    /** The end of `After`. */
    method CleanUp()
      requires Enabled(View(), Leave) && !Faults(View(), Leave)
      modifies this
      ensures View() == Moved(old(View()), Leave)
    {
      var p := after.value;
      var callback := heap[p].worker.callback;
      handles := handles - {callback};
      heap := heap - {p};
      uv := uv - {p};
      after := None;
      at := at - {callback};
      deleted := deleted + [callback];
    }

    /** What other threads, and the callback itself, do in the meantime. */
    method Meanwhile(es: seq<Step>)
      requires Inv(View()) && Possible(View(), es)
      modifies this
      ensures Inv(View()) && Run(old(View()), es) == Reached(View())
    {
      hide Inv, Enabled, Faults, Moved;
      assert es[..0] == [] && es[0..] == es;
      for i := 0 to |es|
        invariant Inv(View()) && Possible(View(), es[i..])
        invariant Run(View(), es[i..]) == Run(old(View()), es)
      {
        assert es[i..][0] == es[i] && es[i..][1..] == es[i + 1..];
        StepKeepsInv(View(), es[i]);
        match es[i] {
          case Submit(p) => Enqueue(p);
          case Begin(p) => StartProcess(p);
          case End(p, outcome) => FinishProcess(p, outcome);
          case Enter(p) => CallBack(p);
          case Leave => CleanUp();
        }
      }
      RunKeepsInv(old(View()), es);
    }

    /** `Process`, with what happens elsewhere while `execute` runs. */
    method Process(p: Ptr, during: seq<Step>, outcome: Outcome)
      requires Inv(View()) && Possible(View(), [Begin(p)] + during + [End(p, outcome)])
      requires forall e :: e in during && e.End? ==> e.p != p
      modifies this
      ensures Inv(View())
      ensures Run(old(View()), [Begin(p)] + during + [End(p, outcome)]) == Reached(View())
    {
      hide Inv, Enabled, Faults, Moved;
      ghost var s := View();
      RunAppend(s, [Begin(p)] + during, [End(p, outcome)]);
      RunAppend(s, [Begin(p)], during);
      StepKeepsInv(s, Begin(p));
      StartProcess(p);
      assert Run(s, [Begin(p)]) == Reached(View());
      Meanwhile(during);
      StepKeepsInv(View(), End(p, outcome));
      FinishProcess(p, outcome);
    }

    /** `After`, with what the callback and the pool do before it returns. */
    method After(p: Ptr, during: seq<Step>)
      requires Inv(View()) && Possible(View(), [Enter(p)] + during + [Leave])
      requires Leave !in during
      modifies this
      ensures Inv(View())
      ensures Run(old(View()), [Enter(p)] + during + [Leave]) == Reached(View())
      ensures IsWorker(old(View()), p) && Served(View(), old(heap)[p].worker.callback)
    {
      hide Inv, Enabled, Faults, Moved;
      ghost var s := View();
      RunAppend(s, [Enter(p)] + during, [Leave]);
      RunAppend(s, [Enter(p)], during);
      StepKeepsInv(s, Enter(p));
      CallBack(p);
      ghost var called := View();
      assert Run(s, [Enter(p)]) == Reached(called);
      EnterStarts(s, p);
      AfterStays(called, during);
      Meanwhile(during);
      StepKeepsInv(View(), Leave);
      LeaveServes(View());
      CleanUp();
    }
  }
}
