/** Darwin's `DiskPartitionsWorker::execute`: the mount flags of every file system rendered as a
    comma-separated text in one 400-byte buffer. */
module MountOptions {
  import opened Text
  import opened CHeap
  import opened CStrings

  const BUFFER_SIZE: nat := 400

  /** The options after "ro" or "rw", in the order of their tests. */
  const NAMES: seq<string> := [
    "sync", "noexec", "nosuid", "union", "async", "exported", "quarantine", "local",
    "quota", "rootfs", "dovolfs", "dontbrowse", "ignore-ownership", "automounted",
    "journaled", "nouserxattr", "defwrite", "multilabel", "noatime", "update", "reload",
    "force", "cmdflags"]

  function Name(k: nat): string
    requires k < 23
  {
    NAMES[k]
  }

  /** The tested masks of sys/mount.h: MNT_RDONLY, then one for each name.  Nothing is assumed
      of their values. */
  type Masks = ms: seq<bv64> | |ms| == 24 witness seq(24, _ => 1)

  predicate IsSet(flags: bv64, masks: Masks, k: nat)
    requires k < 24
  {
    flags & masks[k] != 0
  }

  // ------------------------------------------------------- the text

  /** The names among the first `n` whose flag is set. */
  function Selected(flags: bv64, masks: Masks, n: nat): seq<string>
    requires n <= 23
  {
    if n == 0 then []
    else Selected(flags, masks, n - 1) + (if IsSet(flags, masks, n) then [Name(n - 1)] else [])
  }

  function Access(flags: bv64, masks: Masks): string { if IsSet(flags, masks, 0) then "ro" else "rw" }

  function Options(flags: bv64, masks: Masks): seq<string> {
    [Access(flags, masks)] + Selected(flags, masks, 23)
  }

  /** What the mount's options are meant to read. */
  function Rendered(flags: bv64, masks: Masks): string { Join(Options(flags, masks), ',') }

  // ------------------------------------------------------- appending

  /** `strlcat(dst, src, sizeof(dst))`: appends what fits and always leaves a terminator. */
  method StrlCat(dst: array<char>, src: string)
    requires Terminated(dst[..]) && NUL !in src
    modifies dst
    ensures Terminated(dst[..])
    ensures var all := old(CText(dst[..])) + src;
            CText(dst[..]) == if |all| < dst.Length then all else all[..dst.Length - 1]
  {
    hide IndexOf;
    ghost var before := dst[..];
    ghost var text := CText(before);
    var end := 0;
    while dst[end] != NUL
      invariant 0 <= end <= |text| < dst.Length
      invariant NUL !in before[..end]
      decreases |text| - end
    {
      assert before[..end + 1] == before[..end] + [before[end]];
      end := end + 1;
    }
    IndexOfIs(before, NUL, end);
    var i := 0;
    while i < |src| && end + i + 1 < dst.Length
      invariant 0 <= i <= |src| && end + i < dst.Length
      invariant dst[..end + i] == text + src[..i]
    {
      dst[end + i] := src[i];
      i := i + 1;
      assert dst[..end + i] == dst[..end + i - 1] + [src[i - 1]];
    }
    dst[end + i] := NUL;
    assert dst[..end + i] == text + src[..i];
    CTextIs(dst[..], text + src[..i]);
    assert text + src[..i] == (text + src)[..end + i];
    assert i == |src| ==> src[..i] == src;
  }

  // ------------------------------------------------------- rendering

  method Render(opts: array<char>, flags: bv64, masks: Masks)
    requires opts.Length == BUFFER_SIZE
    modifies opts
    ensures Terminated(opts[..]) && CText(opts[..]) == Rendered(flags, masks)
  {
    hide CText, Terminated, Join, Selected, IsSet, IndexOf, Access, Name;
    opts[0] := NUL;
    EmptyText(opts[..]);
    AccessText(flags, masks);
    assert "" + Access(flags, masks) == Access(flags, masks);
    StrlCat(opts, Access(flags, masks));
    NothingSelected(flags, masks);
    for k := 0 to 23
      invariant Terminated(opts[..])
      invariant CText(opts[..]) == Join([Access(flags, masks)] + Selected(flags, masks, k), ',')
    {
      SelectOneMore(flags, masks, k);
      RenderedFits(flags, masks, k + 1);
      if IsSet(flags, masks, k + 1) {
        NameHasNoNul(k);
        StrlCat(opts, "," + Name(k));
      }
    }
  }

  lemma {:induction false} EmptyText(bytes: seq<char>)
    requires |bytes| > 0 && bytes[0] == NUL
    ensures Terminated(bytes) && CText(bytes) == ""
  {
    CTextIs(bytes, "");
  }

  lemma {:induction false} AccessText(flags: bv64, masks: Masks)
    ensures |Access(flags, masks)| == 2 && NUL !in Access(flags, masks) && ',' !in Access(flags, masks)
    ensures Access(flags, masks)[0] == 'r'
  {
  }

  lemma {:induction false} NameHasNoComma(k: nat)
    requires k < 23
    ensures ',' !in Name(k) && |Name(k)| >= 4
  {
  }

  lemma {:induction false} NameHasNoNul(k: nat)
    requires k < 23
    ensures NUL !in "," + Name(k)
  {
    assert NUL !in Name(k);
  }

  lemma {:induction false} NamesAreDistinct()
    ensures forall i, j :: 0 <= i < j < 23 ==> Name(i) != Name(j)
  {
  }

  lemma {:induction false} NothingSelected(flags: bv64, masks: Masks)
    ensures Join([Access(flags, masks)] + Selected(flags, masks, 0), ',') == Access(flags, masks)
  {
    assert [Access(flags, masks)] + [] == [Access(flags, masks)];
  }

  lemma {:induction false} JoinSnoc(parts: seq<string>, last: string, sep: char)
    requires |parts| >= 1
    ensures Join(parts + [last], sep) == Join(parts, sep) + [sep] + last
  {
    assert (parts + [last])[1..] == parts[1..] + [last];
    if |parts| > 1 {
      JoinSnoc(parts[1..], last, sep);
    }
  }

  lemma {:induction false} SelectOneMore(flags: bv64, masks: Masks, k: nat)
    requires k < 23
    ensures Join([Access(flags, masks)] + Selected(flags, masks, k + 1), ',') ==
            Join([Access(flags, masks)] + Selected(flags, masks, k), ',')
            + (if IsSet(flags, masks, k + 1) then "," + Name(k) else "")
  {
    hide IsSet, Access, Join, Name;
    var parts := [Access(flags, masks)] + Selected(flags, masks, k);
    var more := if IsSet(flags, masks, k + 1) then [Name(k)] else [];
    assert parts + more == [Access(flags, masks)] + Selected(flags, masks, k + 1);
    JoinMore(parts, Name(k), IsSet(flags, masks, k + 1));
  }

  lemma {:induction false} JoinMore(parts: seq<string>, name: string, selected: bool)
    requires |parts| >= 1
    ensures Join(parts + (if selected then [name] else []), ',') ==
            Join(parts, ',') + (if selected then "," + name else "")
  {
    if selected {
      JoinSnoc(parts, name, ',');
      assert Join(parts, ',') + [','] + name == Join(parts, ',') + ("," + name);
    } else {
      assert parts + [] == parts;
    }
  }

  /** The longest text of the first `n` options. */
  function Longest(n: nat): nat
    requires n <= 23
  {
    if n == 0 then 2 else Longest(n - 1) + 1 + |Name(n - 1)|
  }

  lemma {:induction false} LongestHalf()
    ensures Longest(12) == 91
  {
    assert Longest(4) == 27;
    assert Longest(8) == 59;
  }

  lemma {:induction false} LongestIs()
    ensures Longest(23) == 199
  {
    LongestHalf();
    assert Longest(16) == 142;
    assert Longest(20) == 177;
  }

  lemma {:induction false} LongestGrows(k: nat, n: nat)
    requires k <= n <= 23
    ensures Longest(k) <= Longest(n)
  {
    if k < n {
      LongestGrows(k, n - 1);
    }
  }

  lemma {:induction false} TextIsShort(flags: bv64, masks: Masks, k: nat)
    requires k <= 23
    ensures |Join([Access(flags, masks)] + Selected(flags, masks, k), ',')| <= Longest(k)
  {
    hide IsSet, Access, Join, Selected;
    AccessText(flags, masks);
    if k == 0 {
      NothingSelected(flags, masks);
    } else {
      TextIsShort(flags, masks, k - 1);
      SelectOneMore(flags, masks, k - 1);
    }
  }

  /** At most 199 characters, so nothing is truncated and a terminator fits. */
  lemma {:induction false} RenderedFits(flags: bv64, masks: Masks, k: nat)
    requires k <= 23
    ensures |Join([Access(flags, masks)] + Selected(flags, masks, k), ',')| <= 199 < BUFFER_SIZE
    ensures |Rendered(flags, masks)| <= 199
  {
    hide Join, Selected, Access, Longest;
    LongestIs();
    LongestGrows(k, 23);
    TextIsShort(flags, masks, k);
    TextIsShort(flags, masks, 23);
  }

  // ------------------------------------------------------- reading the text back

  lemma {:induction false} SelectedHolds(flags: bv64, masks: Masks, n: nat, k: nat)
    requires n <= 23 && k < 23
    ensures Name(k) in Selected(flags, masks, n) <==> k < n && IsSet(flags, masks, k + 1)
  {
    hide IsSet, Name;
    if n > 0 {
      SelectedHolds(flags, masks, n - 1, k);
      NamesAreDistinct();
    }
  }

  lemma {:induction false} SelectedIsClean(flags: bv64, masks: Masks, n: nat)
    requires n <= 23
    ensures forall s :: s in Selected(flags, masks, n) ==> ',' !in s && |s| >= 4
  {
    hide IsSet, Name;
    if n > 0 {
      SelectedIsClean(flags, masks, n - 1);
      NameHasNoComma(n - 1);
    }
  }

  lemma {:induction false} PartsOfText(flags: bv64, masks: Masks)
    ensures SplitOn(Rendered(flags, masks), ',') == Options(flags, masks)
  {
    hide IsSet, Selected, SplitOn, Join, Access;
    SelectedIsClean(flags, masks, 23);
    AccessText(flags, masks);
    SplitOfJoin(Options(flags, masks), ',');
  }

  /** Splitting the text on commas recovers the truth of every tested mask. */
  lemma {:induction false} SplitRecoversFlags(flags: bv64, masks: Masks, k: nat)
    requires k < 23
    ensures var parts := SplitOn(Rendered(flags, masks), ',');
            && (Name(k) in parts <==> IsSet(flags, masks, k + 1))
            && (parts[0] == "ro" <==> IsSet(flags, masks, 0))
  {
    hide IsSet, Selected, SplitOn, Join, Rendered, Name;
    PartsOfText(flags, masks);
    SelectedHolds(flags, masks, 23, k);
    NameHasNoComma(k);
    assert |Name(k)| != |Access(flags, masks)|;
  }

  /** How many of the first `n` named masks are set. */
  function SetAmong(flags: bv64, masks: Masks, n: nat): nat
    requires n <= 23
  {
    if n == 0 then 0 else SetAmong(flags, masks, n - 1) + if flags & masks[n] != 0 then 1 else 0
  }

  lemma {:induction false} SelectedAt(flags: bv64, masks: Masks, n: nat, k: nat)
    requires k < n <= 23 && IsSet(flags, masks, k + 1)
    ensures |Selected(flags, masks, n)| == SetAmong(flags, masks, n)
    ensures SetAmong(flags, masks, k) < SetAmong(flags, masks, n)
    ensures Selected(flags, masks, n)[SetAmong(flags, masks, k)] == Name(k)
  {
    hide Name;
    SelectedCount(flags, masks, n - 1);
    if k < n - 1 {
      SelectedAt(flags, masks, n - 1, k);
    }
  }

  lemma {:induction false} SelectedCount(flags: bv64, masks: Masks, n: nat)
    requires n <= 23
    ensures |Selected(flags, masks, n)| == SetAmong(flags, masks, n)
  {
    hide Name;
    if n > 0 {
      SelectedCount(flags, masks, n - 1);
    }
  }

  /** The parts of the text: "ro" or "rw", then the name of each set mask, in the order of the masks
      and no other. */
  lemma {:induction false} PartsInOrder(flags: bv64, masks: Masks)
    ensures var parts := SplitOn(Rendered(flags, masks), ',');
            && |parts| == 1 + SetAmong(flags, masks, 23)
            && parts[0] == (if IsSet(flags, masks, 0) then "ro" else "rw")
            && forall k: nat :: k < 23 && IsSet(flags, masks, k + 1) ==>
                 SetAmong(flags, masks, k) + 1 < |parts| && parts[SetAmong(flags, masks, k) + 1] == Name(k)
  {
    hide Selected, SplitOn, Join, Rendered, SetAmong, Name, IsSet, Access;
    PartsOfText(flags, masks);
    SelectedCount(flags, masks, 23);
    AccessIs(flags, masks);
    forall k: nat | k < 23 && IsSet(flags, masks, k + 1)
      ensures SetAmong(flags, masks, k) < SetAmong(flags, masks, 23)
      ensures Selected(flags, masks, 23)[SetAmong(flags, masks, k)] == Name(k)
    {
      SelectedAt(flags, masks, 23, k);
    }
  }

  lemma {:induction false} AccessIs(flags: bv64, masks: Masks)
    ensures Access(flags, masks) == if IsSet(flags, masks, 0) then "ro" else "rw"
  {
    hide IsSet;
  }

  /** The names, in that order. */
  lemma {:induction false} NamesAre()
    ensures seq(23, k requires 0 <= k < 23 => Name(k)) == [
              "sync", "noexec", "nosuid", "union", "async", "exported", "quarantine", "local", "quota", "rootfs",
              "dovolfs", "dontbrowse", "ignore-ownership", "automounted", "journaled", "nouserxattr", "defwrite",
              "multilabel", "noatime", "update", "reload", "force", "cmdflags"]
  {
  }

  ghost predicate Agree(f: bv64, g: bv64, masks: Masks) {
    forall k :: 0 <= k < 24 ==> (IsSet(f, masks, k) <==> IsSet(g, masks, k))
  }

  lemma {:induction false} SelectedAgree(f: bv64, g: bv64, masks: Masks, n: nat)
    requires n <= 23 && Agree(f, g, masks)
    ensures Selected(f, masks, n) == Selected(g, masks, n)
  {
    hide IsSet, Name;
    if n > 0 {
      SelectedAgree(f, g, masks, n - 1);
    }
  }

  /** Two flag words give the same text exactly if they agree on every tested mask. */
  lemma {:induction false} SameTextExactly(f: bv64, g: bv64, masks: Masks)
    ensures Rendered(f, masks) == Rendered(g, masks) <==> Agree(f, g, masks)
  {
    hide IsSet, Selected, SplitOn, Join, Name;
    if Agree(f, g, masks) {
      SelectedAgree(f, g, masks, 23);
    }
    if Rendered(f, masks) == Rendered(g, masks) {
      SplitRecoversFlags(f, masks, 0);
      SplitRecoversFlags(g, masks, 0);
      forall k | 0 <= k < 24
        ensures IsSet(f, masks, k) <==> IsSet(g, masks, k)
      {
        if k > 0 {
          SplitRecoversFlags(f, masks, k - 1);
          SplitRecoversFlags(g, masks, k - 1);
        }
      }
    }
  }

  // ------------------------------------------------------- all mounts

  datatype Mount = Mount(device: string, mountPoint: string, fstype: string, flags: bv64)

  /** The size of a struct statfs. */
  const STATFS_SIZE: nat := 2168

  /** What the two `getfsstat` calls and the allocation between them do.  `room` is the number of
      mounts that the first call counted. */
  datatype Listing = CountFailed(message: string) | NoMemory | ListFailed(room: nat, message: string)
                   | Mounts(room: nat, mounts: seq<Mount>)

  /** The kernel keeps to the buffer it was given. */
  predicate KeepsToBuffer(listing: Listing) { listing.Mounts? ==> |listing.mounts| <= listing.room }

  /** An array that is a local variable: it lives until its function returns. */
  class Local {
    const cells: array<char>
    var live: bool

    constructor (size: nat)
      ensures fresh(cells) && cells.Length == size && live
    {
      cells := new char[size](_ => NUL);
      live := true;
    }
  }

  /** A record: its own block, its place in the list buffer at `fs`, and a pointer to the options.
      The first three texts are read through the list buffer. */
  datatype DiskPartition = DiskPartition(self: Ptr, fs: Ptr, index: nat, opts: Local)

  /** What `map` delivers for one record: None for options that are no longer there. */
  datatype Entry = Entry(device: string, mountPoint: string, fstype: string, opts: Option<string>)

  function Blocks(results: seq<DiskPartition>): set<Ptr> { set i | 0 <= i < |results| :: results[i].self }

  predicate Distinct(results: seq<DiskPartition>) {
    forall i, j :: 0 <= i < j < |results| ==> results[i].self != results[j].self
  }

  lemma {:induction false} BlocksSnoc(results: seq<DiskPartition>, r: DiskPartition)
    ensures Blocks(results + [r]) == Blocks(results) + {r.self}
    ensures Distinct(results) && r.self !in Blocks(results) ==> Distinct(results + [r])
  {
    var all := results + [r];
    assert forall i :: 0 <= i < |results| ==> all[i] == results[i];
    assert all[|results|] == r;
  }

  lemma {:induction false} OneBlockEach(results: seq<DiskPartition>)
    requires Distinct(results)
    ensures |Blocks(results)| == |results|
  {
    if results != [] {
      var n := |results| - 1;
      assert results == results[..n] + [results[n]];
      OneBlockEach(results[..n]);
      BlocksSnoc(results[..n], results[n]);
    }
  }

  lemma {:induction false} BlocksHead(results: seq<DiskPartition>, i: nat)
    requires i < |results| && Distinct(results)
    ensures Blocks(results[i..]) == {results[i].self} + Blocks(results[i + 1..])
    ensures results[i].self !in Blocks(results[i + 1..])
  {
    var rest, later := results[i..], results[i + 1..];
    assert rest == [results[i]] + later;
    assert forall j :: 0 <= j < |later| ==> later[j] == results[i + 1 + j] == rest[j + 1];
  }

  class DiskPartitionsWorker {
    var error: bool
    var errorMessage: string
    var results: seq<DiskPartition>

    constructor ()
      ensures !error && results == []
    {
      error, errorMessage, results := false, "", [];
    }

    /** Record i points into the list buffer at mount i and at the one options buffer. */
    ghost predicate Lists(fs: Ptr, mounts: seq<Mount>, opts: Local)
      reads this
    {
      && |results| == |mounts| && Distinct(results)
      && forall i :: 0 <= i < |results| ==>
           results[i].fs == fs && results[i].index == i && results[i].opts == opts
    }

    /** An entry of the list buffer, which must be allocated and reach that far. */
    method ReadMount(heap: Heap, mounts: seq<Mount>, fs: Ptr, index: nat) returns (m: Mount)
      requires fs in heap.live && index < |mounts| && (index + 1) * STATFS_SIZE <= heap.live[fs]
      ensures m == mounts[index]
    {
      m := mounts[index];
    }

    /** The loop: one record for each mount, the options rendered over those of the mount before.
        At its end, with the buffer still there, a record's own options are in it exactly if its
        flags agree with the last mount's on every tested mask. */
    method List(heap: Heap, fs: Ptr, mounts: seq<Mount>, masks: Masks, opts: Local)
      requires results == [] && opts.live && opts.cells.Length == BUFFER_SIZE
      requires fs in heap.live && |mounts| * STATFS_SIZE <= heap.live[fs]
      modifies this`results, heap, opts.cells
      ensures Lists(fs, mounts, opts) && fs !in Blocks(results)
      ensures Extends(old(heap.live), heap.live, Blocks(results))
      ensures mounts != [] ==>
                Terminated(opts.cells[..]) && CText(opts.cells[..]) == Rendered(mounts[|mounts| - 1].flags, masks)
      ensures forall i :: 0 <= i < |mounts| ==>
                (CText(results[i].opts.cells[..]) == Rendered(mounts[i].flags, masks) <==>
                 Agree(mounts[i].flags, mounts[|mounts| - 1].flags, masks))
    {
      hide CText, Terminated, Rendered, Blocks, Distinct, Extends, Agree;
      ghost var before := heap.live;
      NoBlocks(before);
      for i := 0 to |mounts|
        invariant Lists(fs, mounts[..i], opts)
        invariant Extends(before, heap.live, Blocks(results))
        invariant i > 0 ==> Terminated(opts.cells[..]) && CText(opts.cells[..]) == Rendered(mounts[i - 1].flags, masks)
      {
        StillThere(before, heap.live, Blocks(results), fs);
        var m := ReadMount(heap, mounts, fs, i);
        Render(opts.cells, m.flags, masks);
        ghost var was := heap.live;
        var self := heap.Malloc(32, true);
        ExtendsByMalloc(before, was, Blocks(results), self.value, 32);
        BlocksSnoc(results, DiskPartition(self.value, fs, i, opts));
        results := results + [DiskPartition(self.value, fs, i, opts)];
      }
      assert mounts[..|mounts|] == mounts;
      OldIsNotNew(before, heap.live, Blocks(results), fs);
      forall i | 0 <= i < |mounts| {
        SameTextExactly(mounts[i].flags, mounts[|mounts| - 1].flags, masks);
      }
    }

    /** The options buffer ends with the call; the list buffer is never freed. */
    method Execute(heap: Heap, listing: Listing, masks: Masks) returns (opts: Local, ghost fs: Option<Ptr>)
      requires !error && results == [] && KeepsToBuffer(listing)
      modifies this, heap
      ensures fresh(opts) && fresh(opts.cells) && !opts.live
      ensures error <==> !listing.Mounts?
      ensures error ==> results == []
      ensures error ==> errorMessage == (if listing.NoMemory? then "could not allocate memory" else listing.message)
      ensures fs.Some? <==> listing.Mounts? || listing.ListFailed?
      ensures fs.None? ==> heap.live == old(heap.live)
      ensures fs.Some? ==> fs.value !in Blocks(results)
      ensures fs.Some? ==> Extends(old(heap.live), heap.live, {fs.value} + Blocks(results))
      ensures listing.Mounts? ==> Lists(fs.value, listing.mounts, opts)
      ensures listing.Mounts? ==> fs.value in heap.live && |listing.mounts| * STATFS_SIZE <= heap.live[fs.value]
      ensures listing.Mounts? && listing.mounts != [] ==>
                CText(opts.cells[..]) == Rendered(listing.mounts[|listing.mounts| - 1].flags, masks)
    {
      hide CText, Terminated, Rendered, Blocks, Distinct, Extends;
      ghost var before := heap.live;
      opts := new Local(BUFFER_SIZE);
      fs := None;
      if listing.CountFailed? || listing.NoMemory? {
        error, errorMessage := true, if listing.NoMemory? then "could not allocate memory" else listing.message;
        opts.live := false;
        return;
      }
      var list := heap.Malloc(listing.room * STATFS_SIZE, true);
      fs := list;
      NoBlocks(before);
      ExtendsByMalloc(before, before, {}, list.value, listing.room * STATFS_SIZE);
      assert {} + {list.value} == {list.value};
      if listing.ListFailed? {
        error, errorMessage := true, listing.message;
        opts.live := false;
        assert Blocks([]) == {} by { NoBlocks(before); }
        assert {list.value} + {} == {list.value};
        return;
      }
      ghost var was := heap.live;
      List(heap, list.value, listing.mounts, masks, opts);
      ExtendsTwice(before, was, heap.live, {list.value}, Blocks(results));
      StillThere(was, heap.live, Blocks(results), list.value);
      opts.live := false;
    }

    /** One entry for each record, which is deleted.  `mounts` is what the list buffer holds. */
    method Map(heap: Heap, ghost fs: Ptr, mounts: seq<Mount>, ghost opts: Local, ghost before: map<Ptr, nat>)
      returns (entries: seq<Entry>)
      requires Lists(fs, mounts, opts) && fs !in Blocks(results)
      requires fs in heap.live && |mounts| * STATFS_SIZE <= heap.live[fs]
      requires Extends(before, heap.live, {fs} + Blocks(results))
      modifies heap
      ensures Extends(before, heap.live, {fs}) && fs in heap.live && heap.live[fs] == old(heap.live)[fs]
      ensures |entries| == |mounts|
      ensures forall i :: 0 <= i < |mounts| ==>
                entries[i] == Entry(mounts[i].device, mounts[i].mountPoint, mounts[i].fstype,
                                    if opts.live then Some(CText(opts.cells[..])) else None)
    {
      hide CText, Blocks, Distinct, Extends;
      entries := [];
      assert results[0..] == results;
      for i := 0 to |results|
        invariant |entries| == i
        invariant fs in heap.live && heap.live[fs] == old(heap.live)[fs]
        invariant Extends(before, heap.live, {fs} + Blocks(results[i..])) && fs !in Blocks(results[i..])
        invariant forall j :: 0 <= j < i ==>
                    entries[j] == Entry(mounts[j].device, mounts[j].mountPoint, mounts[j].fstype,
                                        if opts.live then Some(CText(opts.cells[..])) else None)
      {
        var r := results[i];
        var m := ReadMount(heap, mounts, r.fs, r.index);
        entries := entries + [Entry(m.device, m.mountPoint, m.fstype, ReadOptions(r.opts))];
        BlocksHead(results, i);
        var rest := Blocks(results[i + 1..]);
        ExtendsByFree(before, heap.live, {fs} + ({r.self} + rest), r.self);
        assert {fs} + ({r.self} + rest) - {r.self} == {fs} + rest;
        heap.Free(r.self);
      }
      assert results[|results|..] == [];
      NoBlocks(before);
      assert {fs} + {} == {fs};
    }
  }

  /** Reading a record's options: only while their buffer lives. */
  function ReadOptions(opts: Local): Option<string>
    reads opts, opts.cells
  {
    if opts.live then Some(CText(opts.cells[..])) else None
  }

  lemma {:induction false} NoBlocks(before: map<Ptr, nat>)
    ensures Blocks([]) == {} && Distinct([]) && Extends(before, before, Blocks([])) && Extends(before, before, {})
  {
  }

  lemma {:induction false} OldIsNotNew(before: map<Ptr, nat>, now: map<Ptr, nat>, added: set<Ptr>, p: Ptr)
    requires Extends(before, now, added) && p in before
    ensures p !in added
  {
  }

  lemma {:induction false} StillThere(before: map<Ptr, nat>, now: map<Ptr, nat>, added: set<Ptr>, p: Ptr)
    requires Extends(before, now, added) && p in before
    ensures p in now && now[p] == before[p]
  {
  }

  lemma {:induction false} ExtendsTwice(a: map<Ptr, nat>, b: map<Ptr, nat>, c: map<Ptr, nat>, x: set<Ptr>, y: set<Ptr>)
    requires Extends(a, b, x) && Extends(b, c, y)
    ensures Extends(a, c, x + y)
  {
  }

  datatype Reply = ErrorReply(message: string) | Entries(entries: seq<Entry>)

  /** `execute` on the pool and, unless it failed, `map` on the loop.  Every record is deleted; the
      list buffer stays allocated exactly if it was allocated at all; and `map` reads the options
      while they are there exactly if there is nothing to read, for their buffer ended with
      `execute`. */
  method Serve(heap: Heap, listing: Listing, masks: Masks) returns (reply: Reply, ghost left: set<Ptr>)
    requires KeepsToBuffer(listing)
    modifies heap
    ensures listing.CountFailed? || listing.ListFailed? ==> reply == ErrorReply(listing.message)
    ensures listing.NoMemory? ==> reply == ErrorReply("could not allocate memory")
    ensures listing.Mounts? ==>
              && reply.Entries? && |reply.entries| == |listing.mounts|
              && (forall i :: 0 <= i < |listing.mounts| ==>
                    var m, e := listing.mounts[i], reply.entries[i];
                    e.device == m.device && e.mountPoint == m.mountPoint && e.fstype == m.fstype)
              && ((forall i :: 0 <= i < |reply.entries| ==> reply.entries[i].opts.Some?) <==> listing.mounts == [])
    ensures Extends(old(heap.live), heap.live, left)
    ensures |left| == if listing.CountFailed? || listing.NoMemory? then 0 else 1
  {
    hide CText, Rendered, Extends, Blocks, Distinct;
    ghost var before := heap.live;
    var worker := new DiskPartitionsWorker();
    var opts, fs := worker.Execute(heap, listing, masks);
    left := if fs.Some? then {fs.value} else {};
    if worker.error {
      reply := ErrorReply(worker.errorMessage);
      NoBlocks(before);
      assert left + {} == left;
    } else {
      var entries := worker.Map(heap, fs.value, listing.mounts, opts, before);
      reply := Entries(entries);
    }
  }
}
