/** `disk_partitions` on Darwin: one `fs.exists` per partition, answered in any order, and a
    shared counter that decides when to call back. */
module DiskPartitions {

  datatype Partition = Partition(device: string, mountPoint: string, fstype: string, opts: string)

  /** What the native call answers. */
  datatype Native = Failed(error: string) | Listed(partitions: seq<Partition>)

  datatype Call = ErrorCall(error: string) | ListCall(partitions: seq<Partition>)

  /** What the answer for partition k adds to the results. */
  function Pick(partitions: seq<Partition>, answers: seq<bool>, k: nat): seq<Partition>
    requires k < |partitions| == |answers|
  {
    if answers[k] then [partitions[k]] else []
  }

  /** The partitions with an answer of true among the first `n`, in list order. */
  function Existing(partitions: seq<Partition>, answers: seq<bool>, n: nat): seq<Partition>
    requires n <= |partitions| == |answers|
  {
    if n == 0 then []
    else Existing(partitions, answers, n - 1) + Pick(partitions, answers, n - 1)
  }

  /** The same for the answers that came in, in the order they came. */
  function Collected(partitions: seq<Partition>, answers: seq<bool>, order: seq<nat>): seq<Partition>
    requires |partitions| == |answers| && forall i :: 0 <= i < |order| ==> order[i] < |partitions|
  {
    if order == [] then []
    else
      var last := order[|order| - 1];
      Collected(partitions, answers, order[..|order| - 1]) + Pick(partitions, answers, last)
  }

  /** How many of these answers are true. */
  function Trues(answers: seq<bool>, order: seq<nat>): nat
    requires forall i :: 0 <= i < |order| ==> order[i] < |answers|
  {
    if order == [] then 0
    else Trues(answers, order[..|order| - 1]) + if answers[order[|order| - 1]] then 1 else 0
  }

  /** The existing partitions stand in the order in which their answers came, and nothing else. */
  ghost predicate InOrder(delivered: seq<Partition>, partitions: seq<Partition>, answers: seq<bool>, order: seq<nat>)
    requires |partitions| == |answers| && forall i :: 0 <= i < |order| ==> order[i] < |partitions|
  {
    && |delivered| == Trues(answers, order)
    && forall k: nat :: k < |order| && answers[order[k]] ==>
         Trues(answers, order[..k]) < |delivered| && delivered[Trues(answers, order[..k])] == partitions[order[k]]
  }

  lemma {:induction false} CollectedInOrder(partitions: seq<Partition>, answers: seq<bool>, order: seq<nat>)
    requires |partitions| == |answers| && forall i :: 0 <= i < |order| ==> order[i] < |partitions|
    ensures InOrder(Collected(partitions, answers, order), partitions, answers, order)
  {
    if order != [] {
      var n := |order| - 1;
      var before := order[..n];
      CollectedInOrder(partitions, answers, before);
      forall k: nat | k < |order| && answers[order[k]]
        ensures Trues(answers, order[..k]) < Trues(answers, order)
        ensures Collected(partitions, answers, order)[Trues(answers, order[..k])] == partitions[order[k]]
      {
        if k < n {
          assert before[k] == order[k] && before[..k] == order[..k];
        }
      }
    }
  }

  /** Each index below `n` exactly once. */
  ghost predicate Permutation(order: seq<nat>, n: nat) {
    && |order| == n
    && (forall i :: 0 <= i < |order| ==> order[i] < n)
    && (forall i, j :: 0 <= i < j < |order| ==> order[i] != order[j])
  }

  /** The state that the `fs.exists` callbacks of one request share. */
  class Pending {
    const partitions: seq<Partition>
    var totalNumber: int
    var finalResults: seq<Partition>
    var calls: seq<Call>

    constructor (partitions: seq<Partition>)
      ensures this.partitions == partitions && totalNumber == |partitions|
      ensures finalResults == [] && calls == []
    {
      this.partitions := partitions;
      totalNumber := |partitions|;
      finalResults := [];
      calls := [];
    }

    /** The answers that came in so far are those of `order`. */
    ghost predicate Answered(answers: seq<bool>, order: seq<nat>)
      reads this
    {
      && |answers| == |partitions| && |order| <= |partitions|
      && (forall i :: 0 <= i < |order| ==> order[i] < |partitions|)
      && totalNumber == |partitions| - |order|
      && finalResults == Collected(partitions, answers, order)
      && calls == if partitions != [] && |order| == |partitions| then [ListCall(finalResults)] else []
    }

    /** One `fs.exists` callback. */
    method OnExists(partition: Partition, exists_: bool)
      modifies this
      ensures totalNumber == old(totalNumber) - 1
      ensures finalResults == old(finalResults) + if exists_ then [partition] else []
      ensures calls == old(calls) + if totalNumber == 0 then [ListCall(finalResults)] else []
    {
      totalNumber := totalNumber - 1;
      if exists_ {
        finalResults := finalResults + [partition];
      }
      if totalNumber == 0 {
        calls := calls + [ListCall(finalResults)];
      }
    }

    /** The callbacks for some of the partitions, or all of them, run one after the other: at every
        point the counter is what is missing, and nothing is called before the last. */
    method RunAll(answers: seq<bool>, order: seq<nat>)
      requires |answers| == |partitions| && |order| <= |partitions|
      requires forall i :: 0 <= i < |order| ==> order[i] < |partitions|
      requires forall i, j :: 0 <= i < j < |order| ==> order[i] != order[j]
      requires totalNumber == |partitions| && finalResults == [] && calls == []
      modifies this
      ensures Answered(answers, order)
    {
      for k := 0 to |order|
        invariant Answered(answers, order[..k])
      {
        var i := order[k];
        assert order[..k + 1][..k] == order[..k] && order[..k + 1][k] == i;
        OnExists(partitions[i], answers[i]);
      }
      assert order[..|order|] == order;
    }
  }

  /** The whole request: `answers[i]` is what `fs.exists` says of partition i, `order` the order
      in which the answers arrive. */
  method Request(native: Native, all: bool, answers: seq<bool>, order: seq<nat>) returns (calls: seq<Call>)
    requires native.Listed? ==> |answers| == |native.partitions| && Permutation(order, |native.partitions|)
    ensures native.Failed? ==> calls == [ErrorCall(native.error)]
    ensures native.Listed? && all ==> calls == [ListCall(native.partitions)]
    ensures native.Listed? && !all ==>
              calls == if native.partitions == [] then []
                       else [ListCall(Collected(native.partitions, answers, order))]
    ensures native.Listed? && !all && native.partitions != [] ==>
              multiset(calls[0].partitions) ==
              multiset(Existing(native.partitions, answers, |native.partitions|))
    ensures native.Listed? && !all && native.partitions != [] ==>
              && calls[0].ListCall? && AsOftenAsFound(calls[0].partitions, native.partitions, answers)
              && InOrder(calls[0].partitions, native.partitions, answers, order)
    ensures |calls| == 1 <==> native.Failed? || all || native.partitions != []
  {
    if native.Failed? {
      return [ErrorCall(native.error)];
    }
    if all {
      return [ListCall(native.partitions)];
    }
    var pending := new Pending(native.partitions);
    pending.RunAll(answers, order);
    calls := pending.calls;
    CollectedInOrder(native.partitions, answers, order);
    DeliversExisting(native.partitions, answers, order, |native.partitions|);
    ExistingIsFound(native.partitions, answers, Collected(native.partitions, answers, order));
  }

  /** Each partition occurs as often as it was listed with an answer of true. */
  ghost predicate AsOftenAsFound(delivered: seq<Partition>, partitions: seq<Partition>, answers: seq<bool>)
    requires |partitions| == |answers|
  {
    forall p :: multiset(delivered)[p] == |Found(partitions, answers, |partitions|, p)|
  }

  /** The places below `n` at which the partition was listed and its device exists. */
  ghost function Found(partitions: seq<Partition>, answers: seq<bool>, n: nat, p: Partition): set<nat>
    requires n <= |partitions| == |answers|
  {
    set i: nat | i < n && partitions[i] == p && answers[i]
  }

  lemma {:induction false} ExistingIsFound(partitions: seq<Partition>, answers: seq<bool>, delivered: seq<Partition>)
    requires |partitions| == |answers|
    requires multiset(delivered) == multiset(Existing(partitions, answers, |partitions|))
    ensures AsOftenAsFound(delivered, partitions, answers)
  {
    forall p
      ensures multiset(delivered)[p] == |Found(partitions, answers, |partitions|, p)|
    {
      ExistingCounts(partitions, answers, |partitions|, p);
    }
  }

  lemma {:induction false} ExistingCounts(partitions: seq<Partition>, answers: seq<bool>, n: nat, p: Partition)
    requires n <= |partitions| == |answers|
    ensures multiset(Existing(partitions, answers, n))[p] == |Found(partitions, answers, n, p)|
  {
    hide Pick;
    if n > 0 {
      ExistingCounts(partitions, answers, n - 1, p);
      PickCounts(partitions, answers, n - 1, p);
      FoundGrows(partitions, answers, n - 1, p);
    }
  }

  lemma {:induction false} PickCounts(partitions: seq<Partition>, answers: seq<bool>, k: nat, p: Partition)
    requires k < |partitions| == |answers|
    ensures multiset(Pick(partitions, answers, k))[p] == if partitions[k] == p && answers[k] then 1 else 0
  {
  }

  lemma {:induction false} FoundGrows(partitions: seq<Partition>, answers: seq<bool>, n: nat, p: Partition)
    requires n < |partitions| == |answers|
    ensures |Found(partitions, answers, n + 1, p)| ==
            |Found(partitions, answers, n, p)| + if partitions[n] == p && answers[n] then 1 else 0
  {
    var before, now := Found(partitions, answers, n, p), Found(partitions, answers, n + 1, p);
    assert n !in before;
    if n in now {
      assert now == before + {n};
    } else {
      assert now == before;
    }
  }

  /** Nothing is delivered without an answer of true for it, and nothing with one is left out. */
  lemma {:induction false} FoundIsDelivered(partitions: seq<Partition>, answers: seq<bool>, delivered: seq<Partition>)
    requires |partitions| == |answers| && AsOftenAsFound(delivered, partitions, answers)
    ensures forall p :: p in delivered <==> exists i: nat :: i < |partitions| && partitions[i] == p && answers[i]
  {
    forall p
      ensures p in delivered <==> exists i: nat :: i < |partitions| && partitions[i] == p && answers[i]
    {
      var found := Found(partitions, answers, |partitions|, p);
      assert multiset(delivered)[p] == |found|;
      assert p in delivered <==> found != {};
      if i: nat :| i in found {
        assert i < |partitions| && partitions[i] == p && answers[i];
      }
      if i: nat :| i < |partitions| && partitions[i] == p && answers[i] {
        assert i in found;
      }
    }
  }

  lemma {:induction false} CollectedSplit(partitions: seq<Partition>, answers: seq<bool>, a: seq<nat>, k: nat,
                                          b: seq<nat>)
    requires |partitions| == |answers| && k < |partitions|
    requires (forall i :: 0 <= i < |a| ==> a[i] < |partitions|) && (forall i :: 0 <= i < |b| ==> b[i] < |partitions|)
    ensures multiset(Collected(partitions, answers, a + [k] + b)) ==
            multiset(Collected(partitions, answers, a + b)) + multiset(Pick(partitions, answers, k))
    decreases |b|
  {
    hide Pick;
    if b == [] {
      assert (a + [k])[..|a|] == a && a + [k] + b == a + [k] && a + b == a;
    } else {
      var b', last := b[..|b| - 1], b[|b| - 1];
      assert a + [k] + b == (a + [k] + b') + [last] && a + b == (a + b') + [last];
      CollectedSnoc(partitions, answers, a + [k] + b', last);
      CollectedSnoc(partitions, answers, a + b', last);
      CollectedSplit(partitions, answers, a, k, b');
    }
  }

  lemma {:induction false} CollectedSnoc(partitions: seq<Partition>, answers: seq<bool>, order: seq<nat>, last: nat)
    requires |partitions| == |answers| && last < |partitions|
    requires forall i :: 0 <= i < |order| ==> order[i] < |partitions|
    ensures Collected(partitions, answers, order + [last]) ==
            Collected(partitions, answers, order) + Pick(partitions, answers, last)
  {
    assert (order + [last])[..|order|] == order;
  }

  /** A list of distinct indices below its length contains the largest of them. */
  lemma {:induction false} PermutationHasLast(order: seq<nat>, n: nat) returns (j: nat)
    requires Permutation(order, n) && n > 0
    ensures j < |order| && order[j] == n - 1
  {
    if forall i :: 0 <= i < |order| ==> order[i] != n - 1 {
      Pigeonhole(order, n - 1);
      assert false;
    }
    j :| 0 <= j < |order| && order[j] == n - 1;
  }

  lemma {:induction false} Pigeonhole(order: seq<nat>, n: nat)
    requires forall i :: 0 <= i < |order| ==> order[i] < n
    requires forall i, j :: 0 <= i < j < |order| ==> order[i] != order[j]
    ensures |order| <= n
  {
    if order != [] {
      var first := order[0];
      assert first < n;
      if j :| 0 <= j < |order| && order[j] == n - 1 {
        Pigeonhole(order[..j] + order[j + 1..], n - 1);
      } else {
        Pigeonhole(order, n - 1);
      }
    }
  }

  /** For any completion order, the delivered list holds exactly the partitions whose device
      exists, each as often as it was listed. */
  lemma {:induction false} DeliversExisting(partitions: seq<Partition>, answers: seq<bool>, order: seq<nat>, n: nat)
    requires n <= |partitions| == |answers| && Permutation(order, n)
    ensures multiset(Collected(partitions, answers, order)) == multiset(Existing(partitions, answers, n))
    decreases n
  {
    hide Pick, Collected;
    if n == 0 {
      NothingCollected(partitions, answers);
    } else {
      var j := PermutationHasLast(order, n);
      var a, b := order[..j], order[j + 1..];
      assert order == a + [n - 1] + b;
      PermutationWithoutLast(order, n, j);
      CollectedSplit(partitions, answers, a, n - 1, b);
      DeliversExisting(partitions, answers, a + b, n - 1);
    }
  }

  lemma {:induction false} NothingCollected(partitions: seq<Partition>, answers: seq<bool>)
    requires |partitions| == |answers|
    ensures Collected(partitions, answers, []) == []
  {
  }

  lemma {:induction false} PermutationWithoutLast(order: seq<nat>, n: nat, j: nat)
    requires Permutation(order, n) && j < n && order[j] == n - 1
    ensures Permutation(order[..j] + order[j + 1..], n - 1)
  {
  }

  /** No partition whose device exists is lost, whatever the order. */
  lemma {:induction false} CollectedIsComplete(partitions: seq<Partition>, answers: seq<bool>, order: seq<nat>, i: nat)
    requires |partitions| == |answers| && Permutation(order, |partitions|) && i < |partitions| && answers[i]
    ensures partitions[i] in Collected(partitions, answers, order)
  {
    DeliversExisting(partitions, answers, order, |partitions|);
    InExisting(partitions, answers, |partitions|, i);
    assert partitions[i] in multiset(Existing(partitions, answers, |partitions|));
  }

  lemma {:induction false} InExisting(partitions: seq<Partition>, answers: seq<bool>, n: nat, i: nat)
    requires i < n <= |partitions| == |answers| && answers[i]
    ensures partitions[i] in Existing(partitions, answers, n)
  {
    if i < n - 1 {
      InExisting(partitions, answers, n - 1, i);
    }
  }
}
