/** Darwin's `DiskIOCountersWorker`: the loop over the IOKit disk iterator, and `map`. */
module DiskWorker {
  import opened Totals
  import opened CHeap
  import opened Records

  datatype DiskCounters = DiskCounters(readCount: int, writeCount: int, readBytes: int, writeBytes: int,
                                       readTime: int, writeTime: int)

  /** What IOKit says of one disk.  `lateFailure` is the second property query: it sets the error
      and goes on, because nothing returns there.  The raw counters are those the six number
      lookups leave behind, times in nanoseconds. */
  datatype Disk =
    | NoParent
    | OtherParent
    | NoDiskProperties
    | NoStatistics(lateFailure: bool)
    | Counted(lateFailure: bool, name: string, raw: DiskCounters)

  datatype Listing = Unavailable | Disks(disks: seq<Disk>)

  /** C's integer division truncates towards zero. */
  function TruncDiv(n: int, d: int): int
    requires d > 0
  {
    if n >= 0 then n / d else -((-n) / d)
  }

  function Stored(raw: DiskCounters): DiskCounters {
    raw.(readTime := TruncDiv(raw.readTime, 1000), writeTime := TruncDiv(raw.writeTime, 1000))
  }

  /** What the loop pushes, whether it ends with the error flag set, and whether it ends with a
      name block that no record owns. */
  datatype Scan = Scan(rows: seq<(string, DiskCounters)>, error: bool, nameLost: bool)

  function ScanOf(disks: seq<Disk>): Scan {
    if disks == [] then Scan([], false, false)
    else match disks[0]
      case NoParent => Scan([], true, false)
      case OtherParent => ScanOf(disks[1..])
      case NoDiskProperties => Scan([], true, false)
      case NoStatistics(_) => Scan([], true, true)
      case Counted(late, name, raw) =>
        var rest := ScanOf(disks[1..]);
        Scan([(name, Stored(raw))] + rest.rows, late || rest.error, rest.nameLost)
  }

  /** Before disk `i` the loop has pushed `rows` and has this error flag. */
  ghost predicate SoFar(disks: seq<Disk>, i: nat, rows: seq<(string, DiskCounters)>, error: bool) {
    i <= |disks| &&
    var rest, all := ScanOf(disks[i..]), ScanOf(disks);
    all == Scan(rows + rest.rows, error || rest.error, rest.nameLost)
  }

  lemma {:induction false} ScanBegins(disks: seq<Disk>)
    ensures SoFar(disks, 0, [], false)
  {
    assert disks[0..] == disks;
    assert [] + ScanOf(disks).rows == ScanOf(disks).rows;
  }

  lemma {:induction false} ScanEnds(disks: seq<Disk>, rows: seq<(string, DiskCounters)>, error: bool)
    requires SoFar(disks, |disks|, rows, error)
    ensures ScanOf(disks) == Scan(rows, error, false)
  {
    assert rows + [] == rows;
  }

  lemma {:induction false} ScanStep(disks: seq<Disk>, i: nat, rows: seq<(string, DiskCounters)>, error: bool)
    requires i < |disks| && SoFar(disks, i, rows, error)
    ensures disks[i].NoParent? || disks[i].NoDiskProperties? ==> ScanOf(disks) == Scan(rows, true, false)
    ensures disks[i].NoStatistics? ==> ScanOf(disks) == Scan(rows, true, true)
    ensures disks[i].OtherParent? ==> SoFar(disks, i + 1, rows, error)
    ensures disks[i].Counted? ==>
              SoFar(disks, i + 1, rows + [(disks[i].name, Stored(disks[i].raw))], error || disks[i].lateFailure)
  {
    hide Stored;
    assert disks[i..][1..] == disks[i + 1..];
    assert rows + [] == rows;
    if disks[i].Counted? {
      var row := (disks[i].name, Stored(disks[i].raw));
      var rest := ScanOf(disks[i + 1..]).rows;
      assert rows + ([row] + rest) == (rows + [row]) + rest;
    }
  }

  function ScanListing(listing: Listing): Scan {
    if listing.Unavailable? then Scan([], true, false) else ScanOf(listing.disks)
  }

  // ------------------------------------------------------- what the loop should do

  /** The row is that of a counted disk: nanoseconds become microseconds, cut off towards zero. */
  ghost predicate Describes(row: (string, DiskCounters), disk: Disk) {
    && disk.Counted? && row.0 == disk.name
    && row.1.readCount == disk.raw.readCount && row.1.writeCount == disk.raw.writeCount
    && row.1.readBytes == disk.raw.readBytes && row.1.writeBytes == disk.raw.writeBytes
    && CutOff(row.1.readTime, disk.raw.readTime) && CutOff(row.1.writeTime, disk.raw.writeTime)
  }

  predicate CutOff(micros: int, nanos: int) {
    if nanos >= 0 then 0 <= nanos - 1000 * micros < 1000 else 0 <= 1000 * micros - nanos < 1000
  }

  lemma {:induction false} StoredDescribes(disk: Disk)
    requires disk.Counted?
    ensures Describes((disk.name, Stored(disk.raw)), disk)
  {
  }

  function Counts(disks: seq<Disk>): nat {
    if disks == [] then 0 else Counts(disks[..|disks| - 1]) + if disks[|disks| - 1].Counted? then 1 else 0
  }

  /** The loop passes the first `n` disks, and row k describes the k-th counted one. */
  ghost predicate Pushed(disks: seq<Disk>, n: nat, rows: seq<(string, DiskCounters)>) {
    && n <= |disks| && |rows| == Counts(disks[..n])
    && forall i: nat :: i < n ==>
         || disks[i].OtherParent?
         || (disks[i].Counted? && Counts(disks[..i]) < |rows| && Describes(rows[Counts(disks[..i])], disks[i]))
  }

  lemma {:induction false} PushedStep(disks: seq<Disk>, n: nat, rows: seq<(string, DiskCounters)>)
    requires n < |disks| && Pushed(disks, n, rows)
    ensures disks[n].OtherParent? ==> Pushed(disks, n + 1, rows)
    ensures disks[n].Counted? ==> Pushed(disks, n + 1, rows + [(disks[n].name, Stored(disks[n].raw))])
  {
    hide Describes, Stored;
    assert disks[..n + 1][..n] == disks[..n] && disks[..n + 1][n] == disks[n];
    if disks[n].Counted? {
      StoredDescribes(disks[n]);
    }
  }

  ghost predicate Late(disks: seq<Disk>, n: nat) {
    exists i: nat :: i < n <= |disks| && disks[i].Counted? && disks[i].lateFailure
  }

  /** The loop ends at disk `n`, or after all of them: the last error stays. */
  ghost predicate EndsAt(disks: seq<Disk>, n: nat, error: bool, message: string, nameLost: bool) {
    && n <= |disks|
    && (n == |disks| ==>
          && !nameLost && (error <==> Late(disks, n)) && (error ==> message == "Unable to get the disk properties."))
    && (n < |disks| ==>
          && error && (nameLost <==> disks[n].NoStatistics?)
          && match disks[n]
             case NoParent => message == "Unable to get the disk's parent."
             case NoDiskProperties => message == "Unable to get the parent's properties."
             case NoStatistics(_) => message == "Unable to get disk stats."
             case _ => false)
  }

  ghost predicate LoopDoes(listing: Listing, rows: seq<(string, DiskCounters)>, error: bool, message: string,
                           nameLost: bool)
  {
    match listing
    case Unavailable => rows == [] && error && message == "Unable to get the list of disks." && !nameLost
    case Disks(disks) => exists n: nat :: Pushed(disks, n, rows) && EndsAt(disks, n, error, message, nameLost)
  }

  /** The loop ends without an error exactly if each disk has another parent or is counted without
      a late failure. */
  ghost predicate AllClean(listing: Listing) {
    listing.Disks? &&
    forall i: nat :: i < |listing.disks| ==>
      listing.disks[i].OtherParent? || (listing.disks[i].Counted? && !listing.disks[i].lateFailure)
  }

  lemma {:induction false} CleanExactly(listing: Listing, rows: seq<(string, DiskCounters)>, error: bool,
                                        message: string, nameLost: bool)
    requires LoopDoes(listing, rows, error, message, nameLost)
    ensures !error <==> AllClean(listing)
    ensures !error ==> Pushed(listing.disks, |listing.disks|, rows)
  {
    hide Describes, Counts;
    if listing.Disks? {
      var n: nat :| Pushed(listing.disks, n, rows) && EndsAt(listing.disks, n, error, message, nameLost);
    }
  }

  class DiskIOCountersWorker {
    const prDisk: bool
    var error: bool
    var errorMessage: string
    var results: seq<Record<DiskCounters>>

    constructor (prDisk: bool)
      ensures this.prDisk == prDisk && !error && results == []
    {
      this.prDisk, error, errorMessage, results := prDisk, false, "", [];
    }

    /** One record of two new blocks for every counted disk before the loop stops. */
    method Execute(heap: Heap, listing: Listing) returns (ghost left: set<Ptr>)
      requires !error && results == []
      modifies this, heap
      ensures var scan := ScanListing(listing);
              && Rows(results) == scan.rows && error == scan.error && (left != {} <==> scan.nameLost)
      ensures LoopDoes(listing, Rows(results), error, errorMessage, left != {})
      ensures Separate(results) && left !! Blocks(results)
      ensures Extends(old(heap.live), heap.live, left + Blocks(results)) && |left| <= 1
      ensures NamesSized(heap.live, results, 64)
    {
      hide Stored, Separate, Extends, Blocks, ScanOf, SoFar, Pushed, Late, NamesSized;
      ghost var before := heap.live;
      NoNames<DiskCounters>(before, 64);
      left := {};
      NoRecords(before);
      if listing.Unavailable? {
        error, errorMessage := true, "Unable to get the list of disks.";
        return;
      }
      var disks := listing.disks;
      ScanBegins(disks);
      NothingPushed(disks);
      for i := 0 to |disks|
        invariant SoFar(disks, i, Rows(results), error)
        invariant Pushed(disks, i, Rows(results))
        invariant (error <==> Late(disks, i)) && (error ==> errorMessage == "Unable to get the disk properties.")
        invariant Separate(results) && {} !! Blocks(results)
        invariant Extends(before, heap.live, {} + Blocks(results))
        invariant NamesSized(heap.live, results, 64)
      {
        var disk := disks[i];
        ScanStep(disks, i, Rows(results), error);
        PushedStep(disks, i, Rows(results));
        LateStep(disks, i);
        if disk.NoParent? {
          error, errorMessage := true, "Unable to get the disk's parent.";
          return;
        }
        if disk.OtherParent? {
          continue;
        }
        if disk.NoDiskProperties? {
          error, errorMessage := true, "Unable to get the parent's properties.";
          return;
        }
        if disk.lateFailure {
          error, errorMessage := true, "Unable to get the disk properties.";
        }
        if disk.NoStatistics? {
          ghost var was := heap.live;
          var name := heap.Malloc(64, true);
          left := {name.value};
          NameLost(before, was, heap.live, results, name.value);
          NamesKeep(was, heap.live, results, 64);
          error, errorMessage := true, "Unable to get disk stats.";
          return;
        }
        ghost var rows := Rows(results);
        results := Push(heap, results, disk.name, Stored(disk.raw), 64, 56, before, {});
        assert Rows(results) == rows + [(disk.name, Stored(disk.raw))];
      }
      ScanEnds(disks, Rows(results), error);
    }

    /** One object of sums, or one object per disk; either way every record is released. */
    method Map(heap: Heap, junk: DiskCounters, ghost before: map<Ptr, nat>) returns (r: Reply)
      requires Separate(results) && Extends(before, heap.live, Blocks(results))
      modifies heap
      ensures heap.live == before
      ensures r == if prDisk then PerDisk(LastOf(Rows(results))) else Summed(AddUp(junk, results, MachineAdd))
    {
      if !prDisk {
        var sum := SumAndRelease(heap, results, junk, MachineAdd, before);
        r := Summed(sum);
      } else {
        var disks := CollectAndRelease(heap, results, before);
        r := PerDisk(disks);
      }
    }
  }

  datatype Reply = Nothing | Summed(counters: DiskCounters) | PerDisk(disks: map<string, DiskCounters>)

  /** The two branches of `map`: the last row of each name, or the 64-bit sums over `junk`. */
  function ReplyOf(prDisk: bool, rows: seq<(string, DiskCounters)>, junk: DiskCounters): Reply {
    if prDisk then PerDisk(LastOf(rows)) else Summed(WrapAll(Add(junk, Total(rows, DISK_SUM))))
  }

  /** Each counter is summed by itself: two rows over zeroed accumulators. */
  lemma {:induction false} TwoRowsSum(x: (string, DiskCounters), y: (string, DiskCounters))
    ensures ReplyOf(false, [x, y], DiskCounters(0, 0, 0, 0, 0, 0)) ==
            Summed(DiskCounters(Wrap(x.1.readCount + y.1.readCount), Wrap(x.1.writeCount + y.1.writeCount),
                                Wrap(x.1.readBytes + y.1.readBytes), Wrap(x.1.writeBytes + y.1.writeBytes),
                                Wrap(x.1.readTime + y.1.readTime), Wrap(x.1.writeTime + y.1.writeTime)))
  {
    hide Wrap;
    assert [x, y][1..] == [y] && [y][1..] == [];
    assert Total([y], DISK_SUM) == Add(y.1, ZERO);
    assert Total([x, y], DISK_SUM) == Add(x.1, Add(y.1, ZERO));
  }

  /** `execute` on the pool and, unless it failed, `map` on the loop.  A failed request keeps two
      blocks for every disk pushed before or after the failure, and one more for a lost name, so
      nothing leaks exactly if there was no error or nothing had been allocated. */
  method Serve(heap: Heap, prDisk: bool, listing: Listing, junk: DiskCounters)
    returns (failed: bool, r: Reply, ghost leaked: set<Ptr>)
    requires FitsAll(junk)
    modifies heap
    ensures var scan := ScanListing(listing);
            && failed == scan.error
            && (!failed ==> r == ReplyOf(prDisk, scan.rows, junk))
            && Extends(old(heap.live), heap.live, leaked)
            && |leaked| == (if scan.error then 2 * |scan.rows| else 0) + (if scan.nameLost then 1 else 0)
            && (heap.live == old(heap.live) <==> !scan.error || (scan.rows == [] && !scan.nameLost))
    ensures !failed <==> AllClean(listing)
    ensures !failed ==>
              exists rows :: Pushed(listing.disks, |listing.disks|, rows) && r == ReplyOf(prDisk, rows, junk)
  {
    hide ScanOf, Extends, LastOf, Total, AddUp, WrapAll, Add, Separate, Blocks, LoopDoes, Pushed, AllClean;
    ghost var before := heap.live;
    var worker := new DiskIOCountersWorker(prDisk);
    var left := worker.Execute(heap, listing);
    failed, r := worker.error, Nothing;
    CleanExactly(listing, Rows(worker.results), worker.error, worker.errorMessage, left != {});
    LostNameIsError(listing);
    TwoBlocksEach(worker.results);
    if failed {
      leaked := left + Blocks(worker.results);
      LeakCount(left, Blocks(worker.results));
      LeakShows(before, heap.live, leaked);
    } else {
      leaked := {};
      assert left + Blocks(worker.results) == Blocks(worker.results);
      r := worker.Map(heap, junk, before);
      SumBranch(junk, worker.results);
      ExtendsByNothing(before, heap.live);
      LeakShows(before, heap.live, leaked);
    }
  }

  lemma {:induction false} LeakShows(before: map<Ptr, nat>, now: map<Ptr, nat>, leaked: set<Ptr>)
    requires Extends(before, now, leaked)
    ensures now == before <==> |leaked| == 0
  {
    ExtendsByNothing(before, now);
    assert now == before ==> leaked == {};
    assert |leaked| == 0 ==> leaked == {};
  }

  lemma {:induction false} LostNameIsError(listing: Listing)
    ensures ScanListing(listing).nameLost ==> ScanListing(listing).error
  {
    if listing.Disks? {
      LostNameIsErrorIn(listing.disks);
    }
  }

  lemma {:induction false} LostNameIsErrorIn(disks: seq<Disk>)
    ensures ScanOf(disks).nameLost ==> ScanOf(disks).error
  {
    if disks != [] {
      LostNameIsErrorIn(disks[1..]);
    }
  }

  lemma {:induction false} NothingPushed(disks: seq<Disk>)
    ensures Pushed(disks, 0, []) && !Late(disks, 0)
  {
  }

  lemma {:induction false} LateStep(disks: seq<Disk>, n: nat)
    requires n < |disks|
    ensures Late(disks, n + 1) <==> Late(disks, n) || (disks[n].Counted? && disks[n].lateFailure)
  {
    if Late(disks, n) {
      var i: nat :| i < n && disks[i].Counted? && disks[i].lateFailure;
      assert i < n + 1;
    }
    if disks[n].Counted? && disks[n].lateFailure {
      assert n < n + 1;
    }
  }

  lemma {:induction false} NoRecords(before: map<Ptr, nat>)
    ensures Extends(before, before, {} + Blocks<DiskCounters>([])) && Separate<DiskCounters>([])
  {
  }

  lemma {:induction false} NameLost(before: map<Ptr, nat>, was: map<Ptr, nat>, now: map<Ptr, nat>,
                                    rs: seq<Record<DiskCounters>>, name: Ptr)
    requires Extends(before, was, {} + Blocks(rs)) && name !in was && now == was[name := 64]
    ensures {name} !! Blocks(rs) && Extends(before, now, {name} + Blocks(rs))
  {
    ExtendsByMalloc(before, was, {} + Blocks(rs), name, 64);
    assert {} + Blocks(rs) + {name} == {name} + Blocks(rs);
  }

  // ------------------------------------------------------- sums

  const ZERO: DiskCounters := DiskCounters(0, 0, 0, 0, 0, 0)

  function Add(x: DiskCounters, y: DiskCounters): DiskCounters {
    DiskCounters(x.readCount + y.readCount, x.writeCount + y.writeCount, x.readBytes + y.readBytes,
                 x.writeBytes + y.writeBytes, x.readTime + y.readTime, x.writeTime + y.writeTime)
  }

  const DISK_SUM: Sum<DiskCounters> := Sum(ZERO, Add)

  function WrapAll(x: DiskCounters): DiskCounters {
    DiskCounters(Wrap(x.readCount), Wrap(x.writeCount), Wrap(x.readBytes), Wrap(x.writeBytes),
                 Wrap(x.readTime), Wrap(x.writeTime))
  }

  function MachineAdd(x: DiskCounters, y: DiskCounters): DiskCounters { WrapAll(Add(x, y)) }

  predicate FitsAll(x: DiskCounters) {
    FitsInt64(x.readCount) && FitsInt64(x.writeCount) && FitsInt64(x.readBytes) &&
    FitsInt64(x.writeBytes) && FitsInt64(x.readTime) && FitsInt64(x.writeTime)
  }

  lemma {:induction false} DiskSumIsLawful()
    ensures Lawful(DISK_SUM)
  {
    forall x, y, z
      ensures LawfulAt(DISK_SUM, x, y, z)
    {
    }
  }

  lemma {:induction false} DiskSumWraps()
    ensures Wraps(DISK_SUM, WrapAll)
  {
    forall x, y
      ensures WrapsAt(DISK_SUM, WrapAll, x, y)
    {
      WrapsEverywhere(x, y);
    }
  }

  lemma {:induction false} WrapsEverywhere(x: DiskCounters, y: DiskCounters)
    ensures WrapAll(Add(WrapAll(x), y)) == WrapAll(Add(x, y))
  {
    hide Wrap;
    WrapAdds(x.readCount, y.readCount);
    WrapAdds(x.writeCount, y.writeCount);
    WrapAdds(x.readBytes, y.readBytes);
    WrapAdds(x.writeBytes, y.writeBytes);
    WrapAdds(x.readTime, y.readTime);
    WrapAdds(x.writeTime, y.writeTime);
  }

  lemma {:induction false} SumBranch(junk: DiskCounters, rs: seq<Record<DiskCounters>>)
    requires FitsAll(junk)
    ensures AddUp(junk, rs, MachineAdd) == WrapAll(Add(junk, Total(Rows(rs), DISK_SUM)))
  {
    hide Add, Wrap;
    DiskSumIsLawful();
    DiskSumWraps();
    assert WrapAll(junk) == junk;
    AddUpWraps(junk, rs, DISK_SUM, WrapAll, MachineAdd);
  }

  /** With distinct disks and a total that fits, the sum branch equals the sum over the per-disk
      branch exactly if all six accumulators happened to start at zero. */
  lemma {:induction false} SumIsFoldOfDisksExactly(junk: DiskCounters, rs: seq<Record<DiskCounters>>)
    requires FitsAll(junk) && Distinct(Rows(rs)) && FitsAll(Total(Rows(rs), DISK_SUM))
    ensures AddUp(junk, rs, MachineAdd) == SumOver(LastOf(Rows(rs)), DISK_SUM) <==> junk == ZERO
  {
    hide Add, MachineAdd, WrapAll, FitsAll, AddUp, LastOf, Total, Replaced;
    var rows := Rows(rs);
    DiskSumIsLawful();
    TotalIsConserved(rows, DISK_SUM);
    DistinctReplacesNothing(rows);
    NothingTotals();
    AddZero(SumOver(LastOf(rows), DISK_SUM));
    SumBranch(junk, rs);
    JunkShows(junk, Total(rows, DISK_SUM));
  }

  lemma {:induction false} AddZero(x: DiskCounters)
    ensures Add(x, ZERO) == x
  {
  }

  lemma {:induction false} NothingTotals()
    ensures Total<string, DiskCounters>([], DISK_SUM) == ZERO
  {
  }

  lemma {:induction false} JunkShows(junk: DiskCounters, total: DiskCounters)
    requires FitsAll(junk) && FitsAll(total)
    ensures WrapAll(Add(junk, total)) == total <==> junk == ZERO
  {
    hide Wrap;
    WrapKeepsExactly(junk.readCount, total.readCount);
    WrapKeepsExactly(junk.writeCount, total.writeCount);
    WrapKeepsExactly(junk.readBytes, total.readBytes);
    WrapKeepsExactly(junk.writeBytes, total.writeBytes);
    WrapKeepsExactly(junk.readTime, total.readTime);
    WrapKeepsExactly(junk.writeTime, total.writeTime);
  }
}
