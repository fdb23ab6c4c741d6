/** The records a native worker allocates in `execute` and releases in `map`: a counter block
    and a separate block for its name.  The network and the disk worker share this shape. */
module Records {
  import opened Totals
  import opened CHeap

  datatype Record<C> = Record(self: Ptr, namePtr: Ptr, name: string, counters: C)

  function Blocks<C>(rs: seq<Record<C>>): set<Ptr> {
    if rs == [] then {} else {rs[0].self, rs[0].namePtr} + Blocks(rs[1..])
  }

  /** No block belongs to two records or plays two parts. */
  ghost predicate Separate<C>(rs: seq<Record<C>>) {
    rs == [] || (rs[0].self != rs[0].namePtr && {rs[0].self, rs[0].namePtr} !! Blocks(rs[1..]) && Separate(rs[1..]))
  }

  /** Number of blocks, when they are separate. */
  lemma {:induction false} TwoBlocksEach<C>(rs: seq<Record<C>>)
    requires Separate(rs)
    ensures |Blocks(rs)| == 2 * |rs|
  {
    if rs != [] {
      TwoBlocksEach(rs[1..]);
      assert |{rs[0].self, rs[0].namePtr}| == 2;
    }
  }

  lemma {:induction false} LeakCount(left: set<Ptr>, blocks: set<Ptr>)
    requires left !! blocks && |left| <= 1
    ensures |left + blocks| == (if left == {} then 0 else 1) + |blocks|
  {
  }

  function Rows<C>(rs: seq<Record<C>>): (rows: seq<(string, C)>)
    ensures |rows| == |rs| && forall i :: 0 <= i < |rs| ==> rows[i] == (rs[i].name, rs[i].counters)
  {
    seq(|rs|, i requires 0 <= i < |rs| => (rs[i].name, rs[i].counters))
  }

  lemma {:induction false} BlocksSnoc<C>(rs: seq<Record<C>>, r: Record<C>)
    ensures Blocks(rs + [r]) == Blocks(rs) + {r.self, r.namePtr}
    ensures (Separate(rs) && r.self != r.namePtr && {r.self, r.namePtr} !! Blocks(rs)) ==> Separate(rs + [r])
  {
    if rs == [] {
      assert (rs + [r])[1..] == [];
    } else {
      assert (rs + [r])[1..] == rs[1..] + [r];
      BlocksSnoc(rs[1..], r);
    }
  }

  /** Each name has a block of its own, of this size. */
  ghost predicate NamesSized<C>(live: map<Ptr, nat>, rs: seq<Record<C>>, size: nat) {
    forall i :: 0 <= i < |rs| ==> rs[i].namePtr in live && live[rs[i].namePtr] == size
  }

  lemma {:induction false} NoNames<C>(live: map<Ptr, nat>, size: nat)
    ensures NamesSized<C>(live, [], size)
  {
  }

  lemma {:induction false} NamesKeep<C>(was: map<Ptr, nat>, now: map<Ptr, nat>, rs: seq<Record<C>>, size: nat)
    requires NamesSized(was, rs, size) && forall p :: p in was ==> p in now && now[p] == was[p]
    ensures NamesSized(now, rs, size)
  {
  }

  lemma {:induction false} NamesStay<C>(live: map<Ptr, nat>, rs: seq<Record<C>>, size: nat, p: Ptr)
    requires NamesSized(live, rs, size) && p !in Blocks(rs)
    ensures NamesSized(live - {p}, rs, size)
  {
    forall i | 0 <= i < |rs|
      ensures rs[i].namePtr in Blocks(rs)
    {
      BlockOf(rs, i);
    }
  }

  lemma {:induction false} BlockOf<C>(rs: seq<Record<C>>, i: nat)
    requires i < |rs|
    ensures rs[i].namePtr in Blocks(rs)
  {
    if i > 0 {
      BlockOf(rs[1..], i - 1);
    }
  }

  /** `execute` pushes one record: its name block and its counter block are both new. */
  method Push<C>(heap: Heap, rs: seq<Record<C>>, name: string, counters: C, nameSize: nat, recordSize: nat,
                 ghost before: map<Ptr, nat>, ghost others: set<Ptr>)
    returns (grown: seq<Record<C>>)
    requires Separate(rs) && others !! Blocks(rs) && Extends(before, heap.live, others + Blocks(rs))
    requires NamesSized(heap.live, rs, nameSize)
    modifies heap
    ensures |grown| == |rs| + 1 && grown[..|rs|] == rs
    ensures grown[|rs|].name == name && grown[|rs|].counters == counters
    ensures Separate(grown) && others !! Blocks(grown) && Extends(before, heap.live, others + Blocks(grown))
    ensures forall p :: p in old(heap.live) ==> p in heap.live && heap.live[p] == old(heap.live)[p]
    ensures NamesSized(heap.live, grown, nameSize)
  {
    var n := heap.Malloc(nameSize, true);
    ExtendsByMalloc(before, old(heap.live), others + Blocks(rs), n.value, nameSize);
    ghost var between := heap.live;
    var s := heap.Malloc(recordSize, true);
    ExtendsByMalloc(before, between, others + Blocks(rs) + {n.value}, s.value, recordSize);
    var r := Record(s.value, n.value, name, counters);
    BlocksSnoc(rs, r);
    grown := rs + [r];
    assert others + Blocks(rs) + {n.value} + {s.value} == others + Blocks(grown);
  }

  /** `free(counters->nic_name); delete counters;` for the first of the remaining records. */
  method Release<C>(heap: Heap, rs: seq<Record<C>>, i: nat, ghost before: map<Ptr, nat>, ghost others: set<Ptr>)
    requires i < |rs| && Separate(rs[i..]) && others !! Blocks(rs[i..])
    requires Extends(before, heap.live, others + Blocks(rs[i..]))
    modifies heap
    ensures Separate(rs[i + 1..]) && others !! Blocks(rs[i + 1..])
    ensures Extends(before, heap.live, others + Blocks(rs[i + 1..]))
  {
    assert rs[i..][1..] == rs[i + 1..];
    var r := rs[i];
    ghost var owned := others + Blocks(rs[i..]);
    ExtendsByFree(before, heap.live, owned, r.namePtr);
    heap.Free(r.namePtr);
    ExtendsByFree(before, heap.live, owned - {r.namePtr}, r.self);
    heap.Free(r.self);
    assert owned - {r.namePtr} - {r.self} == others + Blocks(rs[i + 1..]);
  }

  /** The loop of the sum branch: `add` from the left onto what the accumulator holds. */
  function AddUp<C>(start: C, rs: seq<Record<C>>, add: (C, C) -> C): C
    decreases |rs|
  {
    if rs == [] then start else add(AddUp(start, rs[..|rs| - 1], add), rs[|rs| - 1].counters)
  }

  /** Sums all records and releases every block exactly once. */
  method SumAndRelease<C>(heap: Heap, rs: seq<Record<C>>, start: C, add: (C, C) -> C, ghost before: map<Ptr, nat>)
    returns (sum: C)
    requires Separate(rs) && Extends(before, heap.live, Blocks(rs))
    modifies heap
    ensures sum == AddUp(start, rs, add) && heap.live == before
  {
    sum := start;
    assert rs[0..] == rs && {} + Blocks(rs) == Blocks(rs);
    for i := 0 to |rs|
      invariant Separate(rs[i..]) && Extends(before, heap.live, {} + Blocks(rs[i..]))
      invariant sum == AddUp(start, rs[..i], add)
    {
      assert rs[..i + 1][..i] == rs[..i];
      sum := add(sum, rs[i].counters);
      Release(heap, rs, i, before, {});
    }
    assert rs[..|rs|] == rs && {} + Blocks<C>([]) == {};
    ExtendsByNothing(before, heap.live);
  }

  /** Puts every record under its name and releases every block exactly once. */
  method CollectAndRelease<C>(heap: Heap, rs: seq<Record<C>>, ghost before: map<Ptr, nat>)
    returns (object_: map<string, C>)
    requires Separate(rs) && Extends(before, heap.live, Blocks(rs))
    modifies heap
    ensures object_ == LastOf(Rows(rs)) && heap.live == before
  {
    object_ := map[];
    assert rs[0..] == rs && {} + Blocks(rs) == Blocks(rs);
    for i := 0 to |rs|
      invariant Separate(rs[i..]) && Extends(before, heap.live, {} + Blocks(rs[i..]))
      invariant object_ == LastOf(Rows(rs[..i]))
    {
      CollectOneMore(rs, i);
      object_ := object_[rs[i].name := rs[i].counters];
      Release(heap, rs, i, before, {});
    }
    assert rs[..|rs|] == rs && {} + Blocks<C>([]) == {};
    ExtendsByNothing(before, heap.live);
  }

  lemma {:induction false} CollectOneMore<C>(rs: seq<Record<C>>, i: nat)
    requires i < |rs|
    ensures LastOf(Rows(rs[..i + 1])) == LastOf(Rows(rs[..i]))[rs[i].name := rs[i].counters]
  {
    var row := (rs[i].name, rs[i].counters);
    assert Rows(rs[..i + 1]) == Rows(rs[..i]) + [row];
    LastOfSnoc(Rows(rs[..i]), row);
  }

  // ------------------------------------------------------- int64_t

  const HALF: int := 0x8000_0000_0000_0000

  predicate FitsInt64(n: int) { -HALF <= n < HALF }

  /** Two's complement, to which an overflowing sum wraps. */
  function Wrap(n: int): (w: int)
    ensures FitsInt64(w)
    ensures FitsInt64(n) ==> w == n
  {
    (n + HALF) % (2 * HALF) - HALF
  }

  /** The one number of int64_t that differs from the exact one by a multiple of 2^64. */
  lemma {:induction false} WrapIs(n: int, w: int, times: int)
    requires -0x8000_0000_0000_0000 <= w <= 0x7fff_ffff_ffff_ffff && w == n + times * 0x1_0000_0000_0000_0000
    ensures Wrap(n) == w
  {
  }

  lemma {:induction false} WrapAdds(a: int, b: int)
    ensures Wrap(Wrap(a) + b) == Wrap(a + b)
  {
  }

  /** A leftover in the accumulator changes every sum it is added to. */
  lemma {:induction false} WrapKeepsExactly(junk: int, total: int)
    requires FitsInt64(junk) && FitsInt64(total)
    ensures Wrap(junk + total) == total <==> junk == 0
  {
  }

  // ------------------------------------------------------- sums in machine arithmetic

  /** Wrapping an operand first does not change a wrapped sum. */
  ghost predicate WrapsAt<C>(m: Sum<C>, wrap: C -> C, x: C, y: C) {
    wrap(m.add(wrap(x), y)) == wrap(m.add(x, y))
  }

  ghost predicate Wraps<C(!new)>(m: Sum<C>, wrap: C -> C) {
    forall x, y :: WrapsAt(m, wrap, x, y)
  }

  /** The sum branch computes what the accumulators held plus the total of all records, wrapped. */
  lemma {:induction false} AddUpWraps<C(!new)>(junk: C, rs: seq<Record<C>>, m: Sum<C>, wrap: C -> C, add: (C, C) -> C)
    requires Lawful(m) && Wraps(m, wrap) && wrap(junk) == junk
    requires forall x, y :: add(x, y) == wrap(m.add(x, y))
    ensures AddUp(junk, rs, add) == wrap(m.add(junk, Total(Rows(rs), m)))
    decreases |rs|
  {
    if rs == [] {
      Swap(m, junk, junk, junk);
    } else {
      var front, last := rs[..|rs| - 1], rs[|rs| - 1];
      AddUpWraps(junk, front, m, wrap, add);
      var t := Total(Rows(front), m);
      assert WrapsAt(m, wrap, m.add(junk, t), last.counters);
      Swap(m, junk, t, last.counters);
      assert Rows(rs) == Rows(front) + [(last.name, last.counters)];
      TotalSnoc(Rows(front), (last.name, last.counters), m);
    }
  }
}
