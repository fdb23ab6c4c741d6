/** `disk_io_counters` over any two files that the kernel prints: exactly when the answer is the
    meant one. */
module DiskRoundTrip {
  import opened Text
  import opened Numerals
  import opened Totals
  import opened DiskStats
  import opened DiskFiles

  function NamesOf(ps: seq<Partition>): set<string> { set i | 0 <= i < |ps| :: ps[i].name }

  /** What the code takes the listed devices for: the first words of their names. */
  function KeysOf(ps: seq<Partition>): set<string> { set i | 0 <= i < |ps| :: FirstWord(ps[i].name) }

  predicate ManyColumnsEach(ds: seq<Disk>) { forall i :: 0 <= i < |ds| ==> |ds[i].columns| >= 11 }

  /** The rows of the listed devices. */
  function MeantRows(listed: set<string>, ds: seq<Disk>): seq<(string, DiskCounters)>
    requires ManyColumnsEach(ds)
  {
    if ds == [] then []
    else (if ds[0].name in listed then [(ds[0].name, Meant(ds[0]))] else []) + MeantRows(listed, ds[1..])
  }

  predicate ListedAreWords(listed: set<string>, ds: seq<Disk>) {
    forall i :: 0 <= i < |ds| && ds[i].name in listed ==> AllWord(ds[i].name)
  }

  /** Disk i is not listed, but is taken for a listed one. */
  predicate Stranger(listed: set<string>, keys: set<string>, ds: seq<Disk>, i: nat)
    requires i < |ds| && ManyColumnsEach(ds)
  {
    ds[i].name !in listed && DiskKey(ds[i]) in keys
  }

  predicate NoStrangers(listed: set<string>, keys: set<string>, ds: seq<Disk>)
    requires ManyColumnsEach(ds)
  {
    forall i :: 0 <= i < |ds| ==> !Stranger(listed, keys, ds, i)
  }

  /** A later line is read under the same key. */
  predicate Overtaken(keys: set<string>, ds: seq<Disk>, i: nat)
    requires i < |ds| && ManyColumnsEach(ds)
  {
    exists j :: i < j < |ds| && DiskKey(ds[j]) in keys && DiskKey(ds[j]) == DiskKey(ds[i])
  }

  /** The lines read as the code reads them: under their keys, and a word's with its counters. */
  ghost predicate Reads(listed: set<string>, keys: set<string>, names: seq<Option<string>>, ds: seq<Disk>,
                        lines: seq<string>) {
    && |lines| == |ds| && ManyColumnsEach(ds)
    && (forall i :: 0 <= i < |ds| ==> DeviceOf(lines[i]) == Some(DiskKey(ds[i])))
    && (forall i :: 0 <= i < |ds| && AllWord(ds[i].name) ==>
          DiskKey(ds[i]) == ds[i].name && CountersIn(lines[i]) == Meant(ds[i]))
    && (forall key :: Some(key) in names <==> key in keys)
    && (forall name :: name in listed && AllWord(name) ==> name in keys)
  }

  lemma {:induction false} ReadsRest(listed: set<string>, keys: set<string>, names: seq<Option<string>>, ds: seq<Disk>,
                                     lines: seq<string>)
    requires Reads(listed, keys, names, ds, lines) && ds != []
    ensures Reads(listed, keys, names, ds[1..], lines[1..])
    ensures ListedAreWords(listed, ds) ==> ListedAreWords(listed, ds[1..])
    ensures |lines| == |ds| && ManyColumnsEach(ds)
    ensures Rows(names, lines) ==
              (if DiskKey(ds[0]) in keys then [(DiskKey(ds[0]), CountersIn(lines[0]))] else [])
              + Rows(names, lines[1..])
  {
    hide DeviceOf, CountersIn, AllWord, Meant, DiskKey;
  }

  // ------------------------------------------------------- the rows

  lemma {:induction false} RowKeysAreWords(names: seq<Option<string>>, lines: seq<string>)
    ensures forall row :: row in Rows(names, lines) ==> AllWord(row.0)
  {
    hide DeviceOf, KeyOf, CountersIn, AllWord;
    if lines != [] {
      DeviceIsWord(lines[0]);
      RowKeysAreWords(names, lines[1..]);
    }
  }

  lemma {:induction false} MeantHasListed(listed: set<string>, ds: seq<Disk>, i: nat)
    requires ManyColumnsEach(ds) && i < |ds| && ds[i].name in listed
    ensures (ds[i].name, Meant(ds[i])) in MeantRows(listed, ds)
  {
    hide Meant;
    if i > 0 {
      MeantHasListed(listed, ds[1..], i - 1);
    }
  }

  /** The rows that a stranger adds. */
  function StrangerRows(listed: set<string>, keys: set<string>, ds: seq<Disk>, lines: seq<string>)
    : seq<(string, DiskCounters)>
    requires |lines| == |ds| && ManyColumnsEach(ds)
  {
    if ds == [] then []
    else
      (if Stranger(listed, keys, ds, 0) then [(DiskKey(ds[0]), CountersIn(lines[0]))] else []) +
      StrangerRows(listed, keys, ds[1..], lines[1..])
  }

  /** When the listed names are words, the rows read are the meant ones and those of strangers. */
  lemma {:induction false} RowsSplit(listed: set<string>, keys: set<string>, names: seq<Option<string>>, ds: seq<Disk>,
                                     lines: seq<string>)
    requires Reads(listed, keys, names, ds, lines) && ListedAreWords(listed, ds)
    ensures |lines| == |ds| && ManyColumnsEach(ds)
    ensures |Rows(names, lines)| == |MeantRows(listed, ds)| + |StrangerRows(listed, keys, ds, lines)|
    ensures Total(Rows(names, lines), DISK_SUM) ==
              Add(Total(MeantRows(listed, ds), DISK_SUM), Total(StrangerRows(listed, keys, ds, lines), DISK_SUM))
    ensures StrangerRows(listed, keys, ds, lines) == [] ==> Rows(names, lines) == MeantRows(listed, ds)
  {
    hide DeviceOf, RowOf, CountersIn, Meant, AllWord, Add, DiskKey, Reads, Total;
    HasShape(listed, keys, names, ds, lines);
    if ds == [] {
      NoTotal();
    } else {
      ReadsRest(listed, keys, names, ds, lines);
      RowsSplit(listed, keys, names, ds[1..], lines[1..]);
      var key, c := DiskKey(ds[0]), CountersIn(lines[0]);
      var m, r := MeantRows(listed, ds[1..]), StrangerRows(listed, keys, ds[1..], lines[1..]);
      FirstRow(listed, keys, names, ds, lines);
      TotalCons(key, c, Rows(names, lines[1..]));
      TotalCons(key, c, m);
      TotalCons(key, c, r);
      DiskSumIsLawful();
      Swap(DISK_SUM, c, Total(m, DISK_SUM), Total(r, DISK_SUM));
      assert [] + m == m && [] + r == r && [] + Rows(names, lines[1..]) == Rows(names, lines[1..]);
    }
  }

  lemma {:induction false} TotalCons(key: string, c: DiskCounters, rest: seq<(string, DiskCounters)>)
    ensures Total([(key, c)] + rest, DISK_SUM) == Add(c, Total(rest, DISK_SUM))
  {
    assert ([(key, c)] + rest)[1..] == rest;
  }

  lemma {:induction false} NoTotal()
    ensures Total<string, DiskCounters>([], DISK_SUM) == ZERO == Add(ZERO, ZERO)
  {
  }

  lemma {:induction false} HasShape(listed: set<string>, keys: set<string>, names: seq<Option<string>>, ds: seq<Disk>,
                                    lines: seq<string>)
    requires Reads(listed, keys, names, ds, lines)
    ensures |lines| == |ds| && ManyColumnsEach(ds)
  {
  }

  lemma {:induction false} FirstRow(listed: set<string>, keys: set<string>, names: seq<Option<string>>, ds: seq<Disk>,
                                    lines: seq<string>)
    requires Reads(listed, keys, names, ds, lines) && ListedAreWords(listed, ds) && ds != []
    ensures ManyColumnsEach(ds)
    ensures ds[0].name in listed ==>
              DiskKey(ds[0]) in keys && DiskKey(ds[0]) == ds[0].name && CountersIn(lines[0]) == Meant(ds[0])
  {
    hide DeviceOf, CountersIn, Meant, AllWord, DiskKey;
  }

  lemma {:induction false} StrangersExactly(listed: set<string>, keys: set<string>, ds: seq<Disk>, lines: seq<string>)
    requires |lines| == |ds| && ManyColumnsEach(ds)
    ensures StrangerRows(listed, keys, ds, lines) == [] <==> NoStrangers(listed, keys, ds)
  {
    hide CountersIn, DiskKey;
    if ds != [] {
      StrangersExactly(listed, keys, ds[1..], lines[1..]);
      if NoStrangers(listed, keys, ds) {
        assert !Stranger(listed, keys, ds, 0);
        forall i: nat | i < |ds| - 1
          ensures !Stranger(listed, keys, ds[1..], i)
        {
          assert ds[1..][i] == ds[i + 1] && !Stranger(listed, keys, ds, i + 1);
        }
      }
      if NoStrangers(listed, keys, ds[1..]) && !Stranger(listed, keys, ds, 0) {
        forall i: nat | i < |ds|
          ensures !Stranger(listed, keys, ds, i)
        {
          if i > 0 {
            assert ds[1..][i - 1] == ds[i] && !Stranger(listed, keys, ds[1..], i - 1);
          }
        }
      }
    }
  }

  /** The rows are the meant ones exactly if the listed names are words and nobody is a stranger. */
  lemma {:induction false} RowsAreMeant(listed: set<string>, keys: set<string>, names: seq<Option<string>>,
                                        ds: seq<Disk>,
                                        lines: seq<string>)
    requires Reads(listed, keys, names, ds, lines)
    ensures |lines| == |ds| && ManyColumnsEach(ds)
    ensures Rows(names, lines) == MeantRows(listed, ds) <==> ListedAreWords(listed, ds) && NoStrangers(listed, keys, ds)
  {
    hide DeviceOf, RowOf, Meant, AllWord, NoStrangers, Rows, MeantRows, Reads, StrangerRows, Total;
    HasShape(listed, keys, names, ds, lines);
    if Rows(names, lines) == MeantRows(listed, ds) {
      RowKeysAreWords(names, lines);
      forall i | 0 <= i < |ds| && ds[i].name in listed
        ensures AllWord(ds[i].name)
      {
        MeantHasListed(listed, ds, i);
      }
    }
    if ListedAreWords(listed, ds) {
      RowsSplit(listed, keys, names, ds, lines);
      StrangersExactly(listed, keys, ds, lines);
    }
  }

  // ------------------------------------------------------- the object

  /** The last line read under a key decides. */
  lemma {:induction false} LastRead(listed: set<string>, keys: set<string>, names: seq<Option<string>>, ds: seq<Disk>,
                                    lines: seq<string>, i: nat)
    requires Reads(listed, keys, names, ds, lines) && i < |ds|
    requires ManyColumnsEach(ds) && DiskKey(ds[i]) in keys && !Overtaken(keys, ds, i)
    ensures |lines| == |ds| && DiskKey(ds[i]) in LastOf(Rows(names, lines))
    ensures LastOf(Rows(names, lines))[DiskKey(ds[i])] == CountersIn(lines[i])
  {
    hide DeviceOf, RowOf, CountersIn, Meant, AllWord, DiskKey, Reads;
    ReadsRest(listed, keys, names, ds, lines);
    var rest := Rows(names, lines[1..]);
    assert forall j :: 0 < j < |ds| ==> ds[j] == ds[1..][j - 1];
    if i > 0 {
      LastRead(listed, keys, names, ds[1..], lines[1..], i - 1);
    } else if DiskKey(ds[0]) in LastOf(rest) {
      ReadAgain(listed, keys, names, ds, lines);
    }
    FirstOf(Rows(names, lines), rest);
  }

  lemma {:induction false} ReadAgain(listed: set<string>, keys: set<string>, names: seq<Option<string>>, ds: seq<Disk>,
                                     lines: seq<string>)
    requires Reads(listed, keys, names, ds, lines) && ds != []
    requires |lines| == |ds| && ManyColumnsEach(ds) && DiskKey(ds[0]) in LastOf(Rows(names, lines[1..]))
    ensures Overtaken(keys, ds, 0)
  {
    hide DeviceOf, RowOf, CountersIn, Meant, AllWord, DiskKey, Reads;
    ReadsRest(listed, keys, names, ds, lines);
    var j := FindLast(listed, keys, names, ds[1..], lines[1..], DiskKey(ds[0]));
    assert ds[1..][j] == ds[j + 1];
  }

  lemma {:induction false} FirstOf(rows: seq<(string, DiskCounters)>, rest: seq<(string, DiskCounters)>)
    requires rows != [] ==> rows[1..] == rest || rows == rest
    ensures rows != [] && rows[1..] == rest ==>
              LastOf(rows) == if rows[0].0 in LastOf(rest) then LastOf(rest) else LastOf(rest)[rows[0].0 := rows[0].1]
  {
  }

  lemma {:induction false} FindLast(listed: set<string>, keys: set<string>, names: seq<Option<string>>, ds: seq<Disk>,
                                    lines: seq<string>, key: string) returns (i: nat)
    requires Reads(listed, keys, names, ds, lines)
    requires |lines| == |ds| && ManyColumnsEach(ds) && key in LastOf(Rows(names, lines))
    ensures i < |ds| && DiskKey(ds[i]) == key && key in keys && !Overtaken(keys, ds, i)
  {
    hide DeviceOf, RowOf, CountersIn, Meant, AllWord, DiskKey, Reads;
    if ds == [] {
      assert false;
    } else {
      ReadsRest(listed, keys, names, ds, lines);
      var rest := Rows(names, lines[1..]);
      assert forall j :: 0 < j < |ds| ==> ds[j] == ds[1..][j - 1];
      FirstOf(Rows(names, lines), rest);
      if key in LastOf(rest) {
        i := FindLast(listed, keys, names, ds[1..], lines[1..], key);
        i := i + 1;
      } else {
        i := 0;
        NotLater(listed, keys, names, ds[1..], lines[1..], key);
      }
    }
  }

  lemma {:induction false} NotLater(listed: set<string>, keys: set<string>, names: seq<Option<string>>, ds: seq<Disk>,
                                    lines: seq<string>, key: string)
    requires Reads(listed, keys, names, ds, lines)
    requires |lines| == |ds| && ManyColumnsEach(ds) && key !in LastOf(Rows(names, lines))
    ensures forall j :: 0 <= j < |ds| && DiskKey(ds[j]) == key ==> key !in keys
  {
    hide DeviceOf, RowOf, CountersIn, Meant, AllWord, DiskKey, Reads;
    if ds != [] {
      ReadsRest(listed, keys, names, ds, lines);
      var rest := Rows(names, lines[1..]);
      FirstOf(Rows(names, lines), rest);
      NotLater(listed, keys, names, ds[1..], lines[1..], key);
      assert forall j :: 0 < j < |ds| ==> ds[j] == ds[1..][j - 1];
    }
  }

  lemma {:induction false} LastMeant(listed: set<string>, ds: seq<Disk>, i: nat)
    requires ManyColumnsEach(ds) && i < |ds| && ds[i].name in listed
    requires forall j :: i < j < |ds| ==> ds[j].name != ds[i].name
    ensures ds[i].name in LastOf(MeantRows(listed, ds)) && LastOf(MeantRows(listed, ds))[ds[i].name] == Meant(ds[i])
  {
    hide Meant;
    var rest := MeantRows(listed, ds[1..]);
    assert forall j :: 0 < j < |ds| ==> ds[j] == ds[1..][j - 1];
    if i > 0 {
      LastMeant(listed, ds[1..], i - 1);
    } else if ds[0].name in LastOf(rest) {
      MeantAgain(listed, ds);
    }
    FirstOf(MeantRows(listed, ds), rest);
  }

  lemma {:induction false} MeantAgain(listed: set<string>, ds: seq<Disk>)
    requires ManyColumnsEach(ds) && ds != [] && ds[0].name in LastOf(MeantRows(listed, ds[1..]))
    ensures exists j :: 0 < j < |ds| && ds[j].name == ds[0].name
  {
    hide Meant;
    var j := FindMeant(listed, ds[1..], ds[0].name);
    assert ds[1..][j] == ds[j + 1];
  }

  lemma {:induction false} FindMeant(listed: set<string>, ds: seq<Disk>, name: string) returns (i: nat)
    requires ManyColumnsEach(ds) && name in LastOf(MeantRows(listed, ds))
    ensures i < |ds| && ds[i].name == name && name in listed
  {
    hide Meant;
    if ds == [] {
      assert false;
    } else {
      FirstOf(MeantRows(listed, ds), MeantRows(listed, ds[1..]));
      if ds[0].name == name && name in listed {
        i := 0;
      } else {
        i := FindMeant(listed, ds[1..], name);
        assert ds[1..][i] == ds[i + 1];
        i := i + 1;
      }
    }
  }

  /** A stranger does no harm: a later line of its key overtakes it, or its counters happen to be
      those that are meant under that key. */
  predicate Harmless(listed: set<string>, keys: set<string>, ds: seq<Disk>, lines: seq<string>, i: nat)
    requires i < |ds| == |lines| && ManyColumnsEach(ds)
  {
    || Overtaken(keys, ds, i)
    || var meant := LastOf(MeantRows(listed, ds));
       DiskKey(ds[i]) in meant && CountersIn(lines[i]) == meant[DiskKey(ds[i])]
  }

  /** When the listed names are words, the object is the meant one exactly if every stranger is
      harmless. */
  lemma {:induction false} ObjectIsMeant(listed: set<string>, keys: set<string>, names: seq<Option<string>>,
                                         ds: seq<Disk>,
                                         lines: seq<string>)
    requires Reads(listed, keys, names, ds, lines) && ListedAreWords(listed, ds)
    ensures |lines| == |ds| && ManyColumnsEach(ds)
    ensures LastOf(Rows(names, lines)) == LastOf(MeantRows(listed, ds)) <==>
            forall i :: 0 <= i < |ds| && Stranger(listed, keys, ds, i) ==> Harmless(listed, keys, ds, lines, i)
  {
    hide DeviceOf, RowOf, CountersIn, Meant, AllWord, DiskKey, Reads, Rows, MeantRows, LastOf, Overtaken;
    HasShape(listed, keys, names, ds, lines);
    var read, meant := LastOf(Rows(names, lines)), LastOf(MeantRows(listed, ds));
    if read == meant {
      forall i | 0 <= i < |ds| && Stranger(listed, keys, ds, i)
        ensures Harmless(listed, keys, ds, lines, i)
      {
        if !Overtaken(keys, ds, i) {
          LastRead(listed, keys, names, ds, lines, i);
        }
      }
    }
    if forall i :: 0 <= i < |ds| && Stranger(listed, keys, ds, i) ==> Harmless(listed, keys, ds, lines, i) {
      forall key | key in read
        ensures key in meant && read[key] == meant[key]
      {
        var i := FindLast(listed, keys, names, ds, lines, key);
        LastRead(listed, keys, names, ds, lines, i);
        assert ds[i].name !in listed ==> Stranger(listed, keys, ds, i);
        if ds[i].name in listed {
          ListedLast(listed, keys, names, ds, lines, i);
          LastMeant(listed, ds, i);
        }
      }
      forall key | key in meant
        ensures key in read
      {
        var i := FindMeant(listed, ds, key);
        ListedAccepted(listed, keys, names, ds, lines, i);
        if key !in read {
          NotLater(listed, keys, names, ds, lines, key);
        }
      }
    }
  }

  lemma {:induction false} ListedAccepted(listed: set<string>, keys: set<string>, names: seq<Option<string>>,
                                          ds: seq<Disk>,
                                          lines: seq<string>, i: nat)
    requires Reads(listed, keys, names, ds, lines) && ListedAreWords(listed, ds) && i < |ds| && ds[i].name in listed
    ensures ManyColumnsEach(ds) && |lines| == |ds|
    ensures DiskKey(ds[i]) == ds[i].name && ds[i].name in keys && CountersIn(lines[i]) == Meant(ds[i])
  {
    hide DeviceOf, CountersIn, Meant, AllWord, DiskKey;
  }

  /** A listed line that nothing overtakes is the last of its name. */
  lemma {:induction false} ListedLast(listed: set<string>, keys: set<string>, names: seq<Option<string>>, ds: seq<Disk>,
                                      lines: seq<string>, i: nat)
    requires Reads(listed, keys, names, ds, lines) && ListedAreWords(listed, ds) && i < |ds| && ds[i].name in listed
    requires ManyColumnsEach(ds) && !Overtaken(keys, ds, i)
    ensures |lines| == |ds| && DiskKey(ds[i]) == ds[i].name && CountersIn(lines[i]) == Meant(ds[i])
    ensures forall j :: i < j < |ds| ==> ds[j].name != ds[i].name
  {
    hide DeviceOf, CountersIn, Meant, AllWord, DiskKey, Reads;
    ListedAccepted(listed, keys, names, ds, lines, i);
    forall j | i < j < |ds|
      ensures ds[j].name != ds[i].name
    {
      if ds[j].name in listed {
        ListedAccepted(listed, keys, names, ds, lines, j);
      }
    }
  }

  // ------------------------------------------------------- the round trip

  predicate Printed(h: string, ps: seq<Partition>, pls: seq<Layout>, ds: seq<Disk>, dls: seq<Layout>) {
    Header(h) && AllPartitionsPrint(ps, pls) && AllPrintable(ds, dls)
  }

  /** What a pair of printed files gives the loops to work with. */
  lemma {:induction false} FilesRead(h: string, ps: seq<Partition>, pls: seq<Layout>, ds: seq<Disk>, dls: seq<Layout>)
    requires Printed(h, ps, pls, ds, dls)
    ensures var names, lines := PartitionNames(PartitionFile(h, ps, pls)), LinesOf(ds, dls);
            && Reads(NamesOf(ps), KeysOf(ps), names, ds, lines)
            && Rows(names, SplitOn(Trim(DiskFile(ds, dls)), '\n')) == Rows(names, lines)
  {
    hide SplitOn, Trim, Tokens, LineOf, PartitionLine, CountersIn, Rows, PartitionFile, PartitionNames, DiskFile;
    hide AllWord;
    hide PartitionPrints, Printable, DeviceOf, FirstWord, DiskKey;
    var names, lines := PartitionNames(PartitionFile(h, ps, pls)), LinesOf(ds, dls);
    PartitionNamesOf(h, ps, pls);
    forall i | 0 <= i < |ps|
      ensures names[i] == Some(FirstWord(ps[i].name))
    {
      PartitionIsKey(ps[i], pls[i]);
    }
    forall i | 0 <= i < |ds|
      ensures |ds[i].columns| >= 11 && DeviceOf(lines[i]) == Some(DiskKey(ds[i]))
      ensures AllWord(ds[i].name) ==> DiskKey(ds[i]) == ds[i].name && CountersIn(lines[i]) == Meant(ds[i])
    {
      ManyColumns(ds[i], dls[i]);
      DeviceIsKey(ds[i], dls[i]);
      LineParses(ds[i], dls[i]);
    }
    forall key
      ensures Some(key) in names <==> key in KeysOf(ps)
    {
      if key in KeysOf(ps) {
        var i :| 0 <= i < |ps| && FirstWord(ps[i].name) == key;
        assert names[i] == Some(key);
      }
    }
    forall name | name in NamesOf(ps) && AllWord(name)
      ensures name in KeysOf(ps)
    {
      WordIsFirst(name);
    }
    UnpaddedRows(names, ds, dls);
  }

  /** Printing any two lists and reading the files: the rows are the meant ones exactly if every
      listed disk has a word for a name and no unlisted one is taken for a listed one. */
  lemma {:induction false} RowsAreMeantExactly(h: string, ps: seq<Partition>, pls: seq<Layout>, ds: seq<Disk>,
                                               dls: seq<Layout>)
    requires Printed(h, ps, pls, ds, dls)
    ensures ManyColumnsEach(ds)
    ensures Rows(PartitionNames(PartitionFile(h, ps, pls)), SplitOn(Trim(DiskFile(ds, dls)), '\n')) ==
              MeantRows(NamesOf(ps), ds) <==>
            ListedAreWords(NamesOf(ps), ds) && NoStrangers(NamesOf(ps), KeysOf(ps), ds)
  {
    hide SplitOn, Trim, Rows, MeantRows, PartitionNames, PartitionFile, DiskFile, LinesOf, NoStrangers, ListedAreWords;
    hide Reads, NamesOf, KeysOf, ManyColumnsEach;
    FilesRead(h, ps, pls, ds, dls);
    RowsAreMeant(NamesOf(ps), KeysOf(ps), PartitionNames(PartitionFile(h, ps, pls)), ds, LinesOf(ds, dls));
  }

  /** Printing any two lists and asking per disk: the answer is the meant one exactly if every
      listed disk has a word for a name and every unlisted one that is taken for a listed one is
      harmless. */
  lemma {:induction false} PerDiskIsMeantExactly(h: string, ps: seq<Partition>, pls: seq<Layout>, ds: seq<Disk>,
                                                 dls: seq<Layout>)
    requires Printed(h, ps, pls, ds, dls)
    ensures ManyColumnsEach(ds)
    ensures var listed, keys := NamesOf(ps), KeysOf(ps);
            Answer(Contents(PartitionFile(h, ps, pls)), Contents(DiskFile(ds, dls)), true) ==
              PerDisk(LastOf(MeantRows(listed, ds))) <==>
            && ListedAreWords(listed, ds)
            && forall i :: 0 <= i < |ds| && Stranger(listed, keys, ds, i) ==>
                 Harmless(listed, keys, ds, LinesOf(ds, dls), i)
  {
    hide SplitOn, Trim, Rows, MeantRows, PartitionNames, PartitionFile, DiskFile, LinesOf, Reads, NamesOf, KeysOf;
    hide LastOf, Total, AllWord, Stranger, Harmless, ManyColumnsEach, Meant;
    FilesRead(h, ps, pls, ds, dls);
    var names, lines := PartitionNames(PartitionFile(h, ps, pls)), LinesOf(ds, dls);
    var listed, keys := NamesOf(ps), KeysOf(ps);
    AnswerOfFiles(PartitionFile(h, ps, pls), DiskFile(ds, dls), true);
    HasShape(listed, keys, names, ds, lines);
    if LastOf(Rows(names, lines)) == LastOf(MeantRows(listed, ds)) {
      RowKeysAreWords(names, lines);
      ListedKeys(listed, ds, Rows(names, lines));
    }
    if ListedAreWords(listed, ds) {
      ObjectIsMeant(listed, keys, names, ds, lines);
    }
  }

  lemma {:induction false} ListedKeys(listed: set<string>, ds: seq<Disk>, rows: seq<(string, DiskCounters)>)
    requires ManyColumnsEach(ds) && LastOf(rows) == LastOf(MeantRows(listed, ds))
    requires forall row :: row in rows ==> AllWord(row.0)
    ensures ListedAreWords(listed, ds)
  {
    hide AllWord, LastOf, MeantRows, Meant;
    forall i | 0 <= i < |ds| && ds[i].name in listed
      ensures AllWord(ds[i].name)
    {
      MeantHasListed(listed, ds, i);
      KeyOfRow(MeantRows(listed, ds), (ds[i].name, Meant(ds[i])));
      RowOfKey(rows, ds[i].name);
    }
  }

  lemma {:induction false} KeyOfRow(rows: seq<(string, DiskCounters)>, row: (string, DiskCounters))
    requires row in rows
    ensures row.0 in LastOf(rows)
  {
    LastOfKeys(rows);
    var i :| 0 <= i < |rows| && rows[i] == row;
    assert row.0 in (set i | 0 <= i < |rows| :: rows[i].0);
  }

  lemma {:induction false} RowOfKey(rows: seq<(string, DiskCounters)>, key: string)
    requires key in LastOf(rows)
    ensures exists row :: row in rows && row.0 == key
  {
    LastOfKeys(rows);
    var i :| 0 <= i < |rows| && rows[i].0 == key;
    assert rows[i] in rows;
  }

  lemma {:induction false} StrangersAreNonNegative(listed: set<string>, keys: set<string>, ds: seq<Disk>,
                                                   lines: seq<string>)
    requires |lines| == |ds| && ManyColumnsEach(ds)
    ensures forall row :: row in StrangerRows(listed, keys, ds, lines) ==> NonNegative(row.1)
  {
    hide CountersIn, DiskKey, NonNegative;
    if ds != [] {
      CountersAreNonNegative(lines[0]);
      StrangersAreNonNegative(listed, keys, ds[1..], lines[1..]);
    }
  }

  /** The aggregate of two printed files whose listed names are words is the meant one exactly if
      in each counter every stranger's row is 0, or the meant total is NaN anyway. */
  lemma {:induction false} AggregateIsMeantExactly(h: string, ps: seq<Partition>, pls: seq<Layout>, ds: seq<Disk>,
                                                   dls: seq<Layout>)
    requires Printed(h, ps, pls, ds, dls) && ListedAreWords(NamesOf(ps), ds)
    ensures ManyColumnsEach(ds)
    ensures var meant := Total(MeantRows(NamesOf(ps), ds), DISK_SUM);
            Answer(Contents(PartitionFile(h, ps, pls)), Contents(DiskFile(ds, dls)), false) == Summed(meant) <==>
            forall row :: row in StrangerRows(NamesOf(ps), KeysOf(ps), ds, LinesOf(ds, dls)) ==> Unmoved(meant, row.1)
  {
    hide SplitOn, Trim, Rows, MeantRows, PartitionNames, PartitionFile, DiskFile, LinesOf, Reads, NamesOf, KeysOf;
    hide LastOf, Total, AllWord, ManyColumnsEach, StrangerRows, ListedAreWords, Add, Unmoved, NonNegative;
    FilesRead(h, ps, pls, ds, dls);
    var names, lines := PartitionNames(PartitionFile(h, ps, pls)), LinesOf(ds, dls);
    AnswerOfFiles(PartitionFile(h, ps, pls), DiskFile(ds, dls), false);
    RowsSplit(NamesOf(ps), KeysOf(ps), names, ds, lines);
    var meant := Total(MeantRows(NamesOf(ps), ds), DISK_SUM);
    var strangers := StrangerRows(NamesOf(ps), KeysOf(ps), ds, lines);
    AddCancels(meant, Total(strangers, DISK_SUM));
    StrangersAreNonNegative(NamesOf(ps), KeysOf(ps), ds, lines);
    TotalUnmoves(meant, strangers);
  }

  /** When every name in both files is a word, both forms of the answer are the meant ones,
      whatever is listed. */
  lemma {:induction false} WordsAreMeant(h: string, ps: seq<Partition>, pls: seq<Layout>, ds: seq<Disk>,
                                         dls: seq<Layout>)
    requires Printed(h, ps, pls, ds, dls)
    requires (forall i :: 0 <= i < |ps| ==> AllWord(ps[i].name)) && (forall i :: 0 <= i < |ds| ==> AllWord(ds[i].name))
    ensures ManyColumnsEach(ds)
    ensures var p, d := Contents(PartitionFile(h, ps, pls)), Contents(DiskFile(ds, dls));
            var meant := MeantRows(NamesOf(ps), ds);
            Answer(p, d, true) == PerDisk(LastOf(meant)) && Answer(p, d, false) == Summed(Total(meant, DISK_SUM))
  {
    hide MeantRows, PartitionFile, DiskFile, LastOf, Total, AllWord, Printable, PartitionPrints, PartitionNames, Rows;
    hide SplitOn, Trim, DiskKey, FirstWord, LinesOf, Reads;
    RowsAreMeantExactly(h, ps, pls, ds, dls);
    FilesRead(h, ps, pls, ds, dls);
    AnswerOfFiles(PartitionFile(h, ps, pls), DiskFile(ds, dls), true);
    AnswerOfFiles(PartitionFile(h, ps, pls), DiskFile(ds, dls), false);
    forall i | 0 <= i < |ds|
      ensures !Stranger(NamesOf(ps), KeysOf(ps), ds, i)
    {
      WordKey(ds[i], dls[i]);
      if DiskKey(ds[i]) in KeysOf(ps) {
        var j :| 0 <= j < |ps| && FirstWord(ps[j].name) == DiskKey(ds[i]);
        WordIsFirst(ps[j].name);
        assert ps[j].name in NamesOf(ps);
      }
    }
  }

  lemma {:induction false} WordKey(d: Disk, layout: Layout)
    requires Printable(d, layout) && AllWord(d.name)
    ensures |d.columns| >= 11 && DiskKey(d) == d.name
  {
    WordIsFirst(d.name);
  }

  /** A disk on which the answer is wrong: the listed dm-0 is answered as "dm", with the 0 of its
      name for its reads and every other counter from the column before. */
  lemma {:induction false} MapperIsMisread(h: string, p: Partition, pl: Layout, d: Disk, dl: Layout)
    requires Header(h) && PartitionPrints(p, pl) && Printable(d, dl) && p.name == d.name == "dm-0"
    ensures var c := d.columns;
            Answer(Contents(PartitionFile(h, [p], [pl])), Contents(DiskFile([d], [dl])), true) ==
              PerDisk(map["dm" := DiskCounters(Int(0), Int(c[3]), Int(c[1]), Int(c[5]), Int(c[2]), Int(c[6]))])
  {
    hide SplitOn, Trim, PartitionNames, PartitionFile, DiskFile, Tokens, LineOf, CountersIn, PartitionLine, DeviceOf;
    hide Printable;
    hide PartitionPrints, AllWord;
    var names := PartitionNames(PartitionFile(h, [p], [pl]));
    FilesRead(h, [p], [pl], [d], [dl]);
    PartitionNamesOf(h, [p], [pl]);
    DmZero();
    HyphenShifts(d, dl, "dm", 0);
    PartitionShifts(p, pl, "dm", 0);
    var line := LineOf(d, dl);
    assert LinesOf([d], [dl]) == [line];
    assert names[0] == Some("dm");
    AnswerOfFiles(PartitionFile(h, [p], [pl]), DiskFile([d], [dl]), true);
    assert Rows(names, [line]) == [RowOf(line)];
    assert LastOf([RowOf(line)]) == map[RowOf(line).0 := RowOf(line).1];
  }

  lemma {:induction false} DmZero()
    ensures "dm-0" == "dm" + "-" + Decimal(0) && AllWord("dm")
  {
  }

}
