/** `network_io_counters` and `disk_io_counters` on Darwin, from the arguments to the answer. */
module NativeCounters {
  import opened CHeap
  import opened EntryPoints
  import opened Totals
  import D = DiskWorker
  import N = NetworkWorker

  /** A caller who leaves out the flag gets the sums; one who passes any flag, true or false, and a
      callback gets one object per interface. */
  method NetworkIoCounters(heap: Heap, first: Js, second: Js, query: N.Query, layout: N.Layout, junk: N.NetCounters)
    returns (refused: bool, failed: bool, overrun: bool, r: N.Reply)
    requires N.KeepsToBuffer(query) && N.FitsAll(junk)
    modifies heap
    ensures refused <==> !first.Function? && !second.Function? && !first.Bool?
    ensures refused ==> heap.live == old(heap.live)
    ensures !refused ==> (failed <==> !query.Filled?)
    ensures !refused && query.Filled? ==>
              (overrun <==> N.HasLongName(layout, N.MessagesIn(query.buf)))
    ensures !refused && query.Filled? && !overrun ==>
              var rows := N.RowsOf(layout, N.MessagesIn(query.buf));
              && (first.Function? ==> r == N.Summed(N.WrapAll(N.Add(junk, Total(rows, N.NET_SUM)))))
              && (!first.Function? && second.Function? ==> r == N.PerNic(LastOf(rows)))
    ensures !refused && query.Filled? && !overrun && (first.Function? || second.Function?) ==>
              exists rows :: N.DescribeAll(rows, layout, N.MessagesIn(query.buf))
                             && r == N.ReplyOf(!first.Function?, rows, junk)
  {
    hide N.KeepsToBuffer, N.HasLongName, N.RowsOf, N.MessagesIn, N.DescribeAll, N.WrapAll, N.Add, Total, LastOf;
    hide Extends;
    var entry := Wrapper(first, second);
    refused, failed, overrun, r := entry.Exception?, false, false, N.Nothing;
    if !refused {
      var f, o, reply, _ := N.Serve(heap, entry.perDevice, query, layout, junk);
      failed, overrun, r := f, o, reply;
    }
  }

  /** The same for the disks. */
  method DiskIoCounters(heap: Heap, first: Js, second: Js, listing: D.Listing, junk: D.DiskCounters)
    returns (refused: bool, failed: bool, r: D.Reply)
    requires D.FitsAll(junk)
    modifies heap
    ensures refused <==> !first.Function? && !second.Function? && !first.Bool?
    ensures refused ==> heap.live == old(heap.live)
    ensures !refused ==> (failed <==> D.ScanListing(listing).error)
    ensures !refused && !failed ==>
              var rows := D.ScanListing(listing).rows;
              && (first.Function? ==> r == D.Summed(D.WrapAll(D.Add(junk, Total(rows, D.DISK_SUM)))))
              && (!first.Function? && second.Function? ==> r == D.PerDisk(LastOf(rows)))
    ensures !refused ==> (!failed <==> D.AllClean(listing))
    ensures !refused && !failed && (first.Function? || second.Function?) ==>
              exists rows :: D.Pushed(listing.disks, |listing.disks|, rows)
                             && r == D.ReplyOf(!first.Function?, rows, junk)
  {
    hide D.ScanListing, D.AllClean, D.Pushed, D.WrapAll, D.Add, Total, LastOf, Extends;
    var entry := Wrapper(first, second);
    refused, failed, r := entry.Exception?, false, D.Nothing;
    if !refused {
      var f, reply, _ := D.Serve(heap, entry.perDevice, listing, junk);
      failed, r := f, reply;
    }
  }
}
