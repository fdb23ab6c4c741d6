/** The C heap of the native workers: which blocks are live, and how large they are.  Freeing or
    touching a block that is not live is ruled out by the preconditions. */
module CHeap {
  import opened Text

  type Ptr = nat

  class Heap {
    var live: map<Ptr, nat>

    constructor ()
      ensures live == map[]
    {
      live := map[];
    }

    /** `malloc`, or `new`: the address is any that is not live. */
    method Malloc(size: nat, granted: bool) returns (p: Option<Ptr>)
      modifies this
      ensures p.Some? <==> granted
      ensures granted ==> p.value !in old(live) && live == old(live)[p.value := size]
      ensures !granted ==> live == old(live)
    {
      if granted {
        SomeAddressIsFree(live.Keys);
        var a: nat :| a !in live;
        live := live[a := size];
        p := Some(a);
      } else {
        p := None;
      }
    }

    /** `free`, or `delete`. */
    method Free(p: Ptr)
      requires p in live
      modifies this
      ensures live == old(live) - {p}
    {
      live := live - {p};
    }
  }

  lemma {:induction false} SomeAddressIsFree(used: set<Ptr>)
    ensures exists p: Ptr :: p !in used
  {
    var bound := Above(used);
    assert bound !in used;
  }

  lemma {:induction false} Above(used: set<Ptr>) returns (bound: nat)
    ensures forall p :: p in used ==> p < bound
  {
    if used == {} {
      bound := 0;
    } else {
      var q :| q in used;
      bound := Above(used - {q});
      bound := if q < bound then bound else q + 1;
      assert used == used - {q} + {q};
    }
  }

  /** `now` is `before` with the blocks of `added` allocated on top. */
  ghost predicate Extends(before: map<Ptr, nat>, now: map<Ptr, nat>, added: set<Ptr>) {
    && now.Keys == before.Keys + added
    && before.Keys !! added
    && forall p :: p in before ==> now[p] == before[p]
  }

  lemma {:induction false} ExtendsByNothing(before: map<Ptr, nat>, now: map<Ptr, nat>)
    ensures Extends(before, now, {}) <==> now == before
  {
    if Extends(before, now, {}) {
      assert now.Keys == before.Keys;
    }
  }

  lemma {:induction false} ExtendsByMalloc(before: map<Ptr, nat>, now: map<Ptr, nat>, added: set<Ptr>, p: Ptr,
                                           size: nat)
    requires Extends(before, now, added) && p !in now
    ensures p !in added && Extends(before, now[p := size], added + {p})
  {
  }

  lemma {:induction false} ExtendsByFree(before: map<Ptr, nat>, now: map<Ptr, nat>, added: set<Ptr>, p: Ptr)
    requires Extends(before, now, added) && p in added
    ensures p in now && Extends(before, now - {p}, added - {p})
  {
  }
}
