/** The cached fields of a `Process` object under overlapping calls. */
module ProcessCache {
  import opened Text

  datatype Field = Name | Ppid | Exe | CpuTimes

  /** `Uncached` is an object to compare with: one that never stores anything. */
  datatype Platform = Linux | Darwin | Uncached

  datatype Value = TextValue(text: string) | NumberValue(n: int) | PairValue(user: real, system: real)

  datatype Answer = Error(message: string) | Found(value: Value)

  /** What `if (self[field_name])` tests: "" and 0 are found but not used. */
  predicate Truthy(v: Value) {
    match v
    case TextValue(text) => text != ""
    case NumberValue(n) => n != 0
    case PairValue(_, _) => true
  }

  /** Every reader stores its value, except the CPU times on Linux. */
  predicate Caches(platform: Platform, field: Field) { platform.Darwin? || (platform.Linux? && !field.CpuTimes?) }

  datatype Delivery = Delivery(id: nat, field: Field, answer: Answer)

  /** Calls are numbered in the order they are made.  A field outside `cached` is null.
      `completed` records every read that came back, oldest first. */
  datatype State = State(cached: map<Field, Value>, pending: map<nat, Field>, calls: nat,
                         delivered: seq<Delivery>, completed: seq<(Field, Answer)>)

  datatype Event = Call(field: Field) | Complete(id: nat, answer: Answer)

  const NEW: State := State(map[], map[], 0, [], [])

  predicate Enabled(s: State, e: Event) { e.Complete? ==> e.id in s.pending }

  /** `_processField` for a call, the reader's callback for a completion. */
  function Step(platform: Platform, s: State, e: Event): State
    requires Enabled(s, e)
  {
    match e
    case Call(field) =>
      if field in s.cached && Truthy(s.cached[field]) then
        s.(calls := s.calls + 1, delivered := s.delivered + [Delivery(s.calls, field, Found(s.cached[field]))])
      else s.(calls := s.calls + 1, pending := s.pending[s.calls := field])
    case Complete(id, answer) =>
      var field := s.pending[id];
      s.(pending := s.pending - {id},
         cached := if answer.Found? && Caches(platform, field) then s.cached[field := answer.value] else s.cached,
         delivered := s.delivered + [Delivery(id, field, answer)],
         completed := s.completed + [(field, answer)])
  }

  /** The value of the most recently completed successful read that is stored, if any. */
  function LastStored(platform: Platform, completed: seq<(Field, Answer)>, field: Field): Option<Value> {
    if completed == [] || !Caches(platform, field) then None
    else
      var (f, answer) := completed[|completed| - 1];
      if f == field && answer.Found? then Some(answer.value)
      else LastStored(platform, completed[..|completed| - 1], field)
  }

  // ------------------------------------------------------- the object

  class Process {
    const platform: Platform
    var cached: map<Field, Value>
    var pending: map<nat, Field>
    var calls: nat
    var delivered: seq<Delivery>
    ghost var completed: seq<(Field, Answer)>

    constructor (platform: Platform)
      ensures this.platform == platform && View() == NEW
    {
      this.platform := platform;
      cached, pending, calls, delivered, completed := map[], map[], 0, [], [];
    }

    ghost function View(): State
      reads this
    {
      State(cached, pending, calls, delivered, completed)
    }

    /** `name`, `ppid`, `exe` or `cpu_times`: a truthy field is delivered at once and starts no
        read. */
    method CallField(field: Field)
      modifies this
      ensures View() == Step(platform, old(View()), Call(field))
      ensures field in old(cached) && Truthy(old(cached)[field]) ==> pending == old(pending)
    {
      if field in cached && Truthy(cached[field]) {
        delivered := delivered + [Delivery(calls, field, Found(cached[field]))];
      } else {
        pending := pending[calls := field];
      }
      calls := calls + 1;
    }

    /** A read comes back. */
    method OnRead(id: nat, answer: Answer)
      requires id in pending
      modifies this
      ensures View() == Step(platform, old(View()), Complete(id, answer))
      ensures answer.Error? ==> cached == old(cached)
    {
      var field := pending[id];
      pending := pending - {id};
      completed := completed + [(field, answer)];
      if answer.Error? {
        delivered := delivered + [Delivery(id, field, answer)];
        return;
      }
      if Caches(platform, field) {
        cached := cached[field := answer.value];
      }
      delivered := delivered + [Delivery(id, field, answer)];
    }
  }

  // ------------------------------------------------------- all interleavings

  /** Every event of the sequence is possible when its turn comes. */
  predicate Follows(platform: Platform, s: State, es: seq<Event>)
    decreases |es|
  {
    es == [] || (Enabled(s, es[0]) && Follows(platform, Step(platform, s, es[0]), es[1..]))
  }

  function Run(platform: Platform, s: State, es: seq<Event>): State
    requires Follows(platform, s, es)
    decreases |es|
  {
    if es == [] then s else Run(platform, Step(platform, s, es[0]), es[1..])
  }

  /** A field holds the value of its most recently completed successful read, or null. */
  ghost predicate HoldsLast(platform: Platform, s: State) {
    forall f :: LastStored(platform, s.completed, f) == if f in s.cached then Some(s.cached[f]) else None
  }

  function Ids(delivered: seq<Delivery>): seq<nat> {
    seq(|delivered|, i requires 0 <= i < |delivered| => delivered[i].id)
  }

  /** Every call made so far is either waiting for its read or was delivered exactly once. */
  ghost predicate EachOnce(s: State) {
    forall id: nat :: multiset(Ids(s.delivered))[id] == if id < s.calls && id !in s.pending then 1 else 0
  }

  ghost predicate Inv(platform: Platform, s: State) {
    && HoldsLast(platform, s) && EachOnce(s)
    && (forall id :: id in s.pending ==> id < s.calls)
    && (platform.Linux? ==> CpuTimes !in s.cached)
  }

  lemma {:induction false} IdsSnoc(delivered: seq<Delivery>, d: Delivery)
    ensures multiset(Ids(delivered + [d])) == multiset(Ids(delivered)) + multiset{d.id}
  {
    assert Ids(delivered + [d]) == Ids(delivered) + [d.id];
  }

  lemma {:induction false} StepKeepsLast(platform: Platform, s: State, e: Event)
    requires Inv(platform, s) && Enabled(s, e)
    ensures HoldsLast(platform, Step(platform, s, e))
  {
    hide EachOnce;
    if e.Complete? {
      assert Step(platform, s, e).completed[..|s.completed|] == s.completed;
    }
  }

  lemma {:induction false} StepKeepsInv(platform: Platform, s: State, e: Event)
    requires Inv(platform, s) && Enabled(s, e)
    ensures Inv(platform, Step(platform, s, e))
  {
    hide HoldsLast;
    var t := Step(platform, s, e);
    StepKeepsLast(platform, s, e);
    if t.delivered != s.delivered {
      IdsSnoc(s.delivered, t.delivered[|s.delivered|]);
    }
  }

  lemma {:induction false} NewHasInv(platform: Platform)
    ensures Inv(platform, NEW)
  {
    assert Ids(NEW.delivered) == [];
    forall id: nat
      ensures multiset(Ids(NEW.delivered))[id] == 0
    {
    }
    forall f
      ensures LastStored(platform, NEW.completed, f) == None
    {
    }
  }

  lemma {:induction false} RunKeepsInv(platform: Platform, s: State, es: seq<Event>)
    requires Inv(platform, s) && Follows(platform, s, es)
    ensures Inv(platform, Run(platform, s, es))
    decreases |es|
  {
    hide Inv, Step;
    if es != [] {
      StepKeepsInv(platform, s, es[0]);
      RunKeepsInv(platform, Step(platform, s, es[0]), es[1..]);
    }
  }

  /** In every interleaving of calls and completions: a field is null or the value of its most
      recently completed successful stored read, every call is pending or delivered exactly
      once, and Linux never stores CPU times. */
  lemma {:induction false} EveryInterleaving(platform: Platform, es: seq<Event>)
    requires Follows(platform, NEW, es)
    ensures var s := Run(platform, NEW, es);
            && HoldsLast(platform, s) && EachOnce(s)
            && (platform.Linux? ==> CpuTimes !in s.cached)
  {
    hide Step;
    NewHasInv(platform);
    RunKeepsInv(platform, NEW, es);
  }

  /** Once nothing is pending, every call has been delivered exactly once. */
  lemma {:induction false} AllDelivered(platform: Platform, es: seq<Event>, id: nat)
    requires Follows(platform, NEW, es) && Run(platform, NEW, es).pending == map[]
    ensures multiset(Ids(Run(platform, NEW, es).delivered))[id] ==
              if id < Run(platform, NEW, es).calls then 1 else 0
  {
    hide Step;
    EveryInterleaving(platform, es);
  }

  // ------------------------------------------------------- constant answers

  /** Every read of a field comes back with the same answer. */
  ghost predicate Constant(platform: Platform, s: State, es: seq<Event>, os: Field -> Answer)
    requires Follows(platform, s, es)
    decreases |es|
  {
    es != [] ==>
      && (es[0].Complete? ==> es[0].answer == os(s.pending[es[0].id]))
      && Constant(platform, Step(platform, s, es[0]), es[1..], os)
  }

  /** Stored values are the answers of the system, and every delivery answers the field it is about. */
  ghost predicate Agrees(s: State, os: Field -> Answer) {
    && (forall f :: f in s.cached ==> os(f) == Found(s.cached[f]))
    && (forall i :: 0 <= i < |s.delivered| ==> s.delivered[i].answer == os(s.delivered[i].field))
  }

  lemma {:induction false} StepAgrees(platform: Platform, s: State, e: Event, os: Field -> Answer)
    requires Agrees(s, os) && Enabled(s, e)
    requires e.Complete? ==> e.answer == os(s.pending[e.id])
    ensures Agrees(Step(platform, s, e), os)
  {
  }

  lemma {:induction false} RunAgrees(platform: Platform, s: State, es: seq<Event>, os: Field -> Answer)
    requires Agrees(s, os) && Follows(platform, s, es) && Constant(platform, s, es, os)
    ensures Agrees(Run(platform, s, es), os)
    decreases |es|
  {
    hide Step, Agrees;
    if es != [] {
      StepAgrees(platform, s, es[0], os);
      RunAgrees(platform, Step(platform, s, es[0]), es[1..], os);
    }
  }

  /** The fields that the calls ask for, in order. */
  function Asked(es: seq<Event>): seq<Field> {
    if es == [] then [] else (if es[0].Call? then [es[0].field] else []) + Asked(es[1..])
  }

  /** Reads and deliveries are about the field that their call asked for. */
  ghost predicate AsAsked(s: State, asked: seq<Field>) {
    && |asked| == s.calls
    && (forall id :: id in s.pending ==> id < s.calls && s.pending[id] == asked[id])
    && (forall i :: 0 <= i < |s.delivered| ==>
          s.delivered[i].id < s.calls && s.delivered[i].field == asked[s.delivered[i].id])
  }

  lemma {:induction false} StepAsAsked(platform: Platform, s: State, e: Event, asked: seq<Field>)
    requires AsAsked(s, asked) && Enabled(s, e)
    ensures AsAsked(Step(platform, s, e), asked + if e.Call? then [e.field] else [])
  {
  }

  /** In every interleaving, what is read and delivered for a call is the field it asked for. */
  lemma {:induction false} RunAsAsked(platform: Platform, s: State, es: seq<Event>, asked: seq<Field>)
    requires AsAsked(s, asked) && Follows(platform, s, es)
    ensures AsAsked(Run(platform, s, es), asked + Asked(es))
    decreases |es|
  {
    hide Step, AsAsked;
    if es == [] {
      assert asked + [] == asked;
    } else {
      var more := if es[0].Call? then [es[0].field] else [];
      StepAsAsked(platform, s, es[0], asked);
      RunAsAsked(platform, Step(platform, s, es[0]), es[1..], asked + more);
      assert asked + (more + Asked(es[1..])) == (asked + more) + Asked(es[1..]);
    }
  }

  /** What a call must be answered with when every read gives the same. */
  function Expected(asked: seq<Field>, os: Field -> Answer, id: nat): Delivery
    requires id < |asked|
  {
    Delivery(id, asked[id], os(asked[id]))
  }

  /** With constant answers, whatever overlaps: each delivery is the system's answer to the field
      that its call asked for. */
  lemma {:induction false} AnsweredAsAsked(platform: Platform, es: seq<Event>, os: Field -> Answer)
    requires Follows(platform, NEW, es) && Constant(platform, NEW, es, os)
    ensures var s := Run(platform, NEW, es);
            && |Asked(es)| == s.calls
            && forall i :: 0 <= i < |s.delivered| ==>
                 s.delivered[i].id < |Asked(es)| && s.delivered[i] == Expected(Asked(es), os, s.delivered[i].id)
  {
    hide Step, Run;
    RunAgrees(platform, NEW, es, os);
    RunAsAsked(platform, NEW, es, []);
    assert [] + Asked(es) == Asked(es);
  }

  /** When each delivery is determined by its id, it is delivered as often as the id. */
  lemma {:induction false} CountById(delivered: seq<Delivery>, asked: seq<Field>, os: Field -> Answer, d: Delivery)
    requires forall i :: 0 <= i < |delivered| ==>
               delivered[i].id < |asked| && delivered[i] == Expected(asked, os, delivered[i].id)
    ensures multiset(delivered)[d] ==
              if d.id < |asked| && d == Expected(asked, os, d.id) then multiset(Ids(delivered))[d.id] else 0
  {
    if delivered == [] {
      assert Ids(delivered) == [];
    } else {
      var n := |delivered| - 1;
      assert delivered == delivered[..n] + [delivered[n]];
      IdsSnoc(delivered[..n], delivered[n]);
      CountById(delivered[..n], asked, os, d);
    }
  }

  /** Two objects asked the same, on any platforms, with any interleavings: once both are idle they
      have made the same deliveries. */
  lemma {:induction false} SameDeliveries(platform: Platform, es: seq<Event>, other: Platform, fs: seq<Event>,
                                          os: Field -> Answer)
    requires Follows(platform, NEW, es) && Constant(platform, NEW, es, os)
    requires Follows(other, NEW, fs) && Constant(other, NEW, fs, os)
    requires Asked(es) == Asked(fs)
    requires Run(platform, NEW, es).pending == map[] && Run(other, NEW, fs).pending == map[]
    ensures multiset(Run(platform, NEW, es).delivered) == multiset(Run(other, NEW, fs).delivered)
  {
    hide Step, Run, Constant, Asked, Ids;
    var s, t := Run(platform, NEW, es), Run(other, NEW, fs);
    AnsweredAsAsked(platform, es, os);
    AnsweredAsAsked(other, fs, os);
    forall d: Delivery
      ensures multiset(s.delivered)[d] == multiset(t.delivered)[d]
    {
      CountById(s.delivered, Asked(es), os, d);
      CountById(t.delivered, Asked(es), os, d);
      AllDelivered(platform, es, d.id);
      AllDelivered(other, fs, d.id);
    }
  }

  /** With constant answers the cache does not show: whatever overlaps, a `Process` that has no read
      outstanding has made exactly the deliveries of an object that never stores, for the same
      calls. */
  lemma {:induction false} CachedIsUncached(platform: Platform, es: seq<Event>, fs: seq<Event>, os: Field -> Answer)
    requires Follows(platform, NEW, es) && Constant(platform, NEW, es, os)
    requires Follows(Uncached, NEW, fs) && Constant(Uncached, NEW, fs, os)
    requires Asked(es) == Asked(fs)
    requires Run(platform, NEW, es).pending == map[] && Run(Uncached, NEW, fs).pending == map[]
    ensures multiset(Run(platform, NEW, es).delivered) == multiset(Run(Uncached, NEW, fs).delivered)
    ensures forall d: Delivery :: d in Run(platform, NEW, es).delivered ==>
              d.id < |Asked(es)| && d.field == Asked(es)[d.id] && d.answer == os(Asked(es)[d.id])
  {
    hide Step, Run, Constant, Asked;
    SameDeliveries(platform, es, Uncached, fs, os);
    AnsweredAsAsked(platform, es, os);
  }

  /** The object to compare with never stores: every one of its calls starts a read. */
  lemma {:induction false} UncachedAlwaysReads(es: seq<Event>, field: Field)
    requires Follows(Uncached, NEW, es)
    ensures var s := Run(Uncached, NEW, es);
            s.cached == map[] && Step(Uncached, s, Call(field)).pending == s.pending[s.calls := field]
  {
    hide Run;
    EveryInterleaving(Uncached, es);
    var s := Run(Uncached, NEW, es);
    forall f
      ensures f !in s.cached
    {
      assert LastStored(Uncached, s.completed, f) == None;
    }
  }

  /** One call, its value, and the same call again: a value that is kept is delivered, unless it is
      "" or 0; then, and for the times on Linux, the second call reads again. */
  lemma {:induction false} SecondCall(platform: Platform, field: Field, value: Value)
    requires platform != Uncached
    ensures var es := [Call(field), Complete(0, Found(value)), Call(field)];
            && Follows(platform, NEW, es)
            && var s := Run(platform, NEW, es);
            if (platform == Linux && field == CpuTimes) || value == TextValue("") || value == NumberValue(0) then
              s.pending == map[1 := field] && s.delivered == [Delivery(0, field, Found(value))]
            else
              s.pending == map[]
              && s.delivered == [Delivery(0, field, Found(value)), Delivery(1, field, Found(value))]
  {
    ThreeSteps(platform, Call(field), Complete(0, Found(value)), Call(field));
  }

  /** After an error the second call reads again. */
  lemma {:induction false} CallAfterError(platform: Platform, field: Field, message: string)
    ensures var es := [Call(field), Complete(0, Error(message)), Call(field)];
            && Follows(platform, NEW, es)
            && Run(platform, NEW, es).pending == map[1 := field]
            && Run(platform, NEW, es).delivered == [Delivery(0, field, Error(message))]
  {
    ThreeSteps(platform, Call(field), Complete(0, Error(message)), Call(field));
  }

  lemma {:induction false} ThreeSteps(platform: Platform, a: Event, b: Event, c: Event)
    requires Enabled(NEW, a) && Enabled(Step(platform, NEW, a), b)
    requires Enabled(Step(platform, Step(platform, NEW, a), b), c)
    ensures Follows(platform, NEW, [a, b, c])
    ensures Run(platform, NEW, [a, b, c]) == Step(platform, Step(platform, Step(platform, NEW, a), b), c)
  {
    hide Step, Enabled;
    var s1 := Step(platform, NEW, a);
    var s2 := Step(platform, s1, b);
    var s3 := Step(platform, s2, c);
    assert [a, b, c][1..] == [b, c] && [b, c][1..] == [c] && [c][1..] == [];
    assert Follows(platform, s3, []) && Follows(platform, s2, [c]) && Follows(platform, s1, [b, c]);
    assert Run(platform, s2, [c]) == Run(platform, s3, []) == s3;
    assert Run(platform, s1, [b, c]) == s3;
  }

  /** With changing answers the cache shows: of two calls around a change the second still gets
      the first answer. */
  lemma {:induction false} StaleAnswer(a: int, b: int)
    requires a != 0 && a != b
    ensures var es := [Call(Ppid), Complete(0, Found(NumberValue(a))), Call(Ppid)];
            Follows(Darwin, NEW, es) &&
            Run(Darwin, NEW, es).delivered ==
              [Delivery(0, Ppid, Found(NumberValue(a))), Delivery(1, Ppid, Found(NumberValue(a)))]
  {
    var es := [Call(Ppid), Complete(0, Found(NumberValue(a))), Call(Ppid)];
    ThreeSteps(Darwin, es[0], es[1], es[2]);
  }
}
