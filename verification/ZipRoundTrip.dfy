/** Archives: what is written can be opened, listed, extracted and copied. */
module ZipRoundTrip {
  import opened Bits
  import opened ZipFormat
  import opened ZipReaders
  import opened ZipExtract
  import opened ZipWriters

  datatype File = File(name: CString, data: seq<byte>, comment: seq<byte>, level: nat, time: nat, date: nat)

  predicate ValidFile(f: File) {
    |f.comment| <= MAX16 && f.time <= MAX16 && f.date <= MAX16
  }

  /** The entry holds the file. */
  predicate Keeps(e: Entry, f: File) {
    e.name == f.name && e.data == f.data && e.comment == f.comment && e.time == f.time && e.date == f.date
    && e.form == FormOf(f.data, f.level)
  }

  predicate KeepsAll(es: seq<Entry>, files: seq<File>) {
    |es| == |files| && forall k :: 0 <= k < |es| ==> Keeps(es[k], files[k])
  }

  // ---------- which lists of files can be written

  predicate AllStored(files: seq<File>) {
    forall k :: 0 <= k < |files| ==> FormOf(files[k].data, files[k].level) == 0
  }

  function LocalSum(files: seq<File>): nat {
    if files == [] then 0
    else
      var f := files[|files| - 1];
      LocalSum(files[..|files| - 1]) + 30 + |f.name| + |f.data|
  }

  function CentralSum(files: seq<File>): nat {
    if files == [] then 0
    else
      var f := files[|files| - 1];
      CentralSum(files[..|files| - 1]) + 46 + |f.name| + |f.comment|
  }

  /** Every name and level is right, directories are empty, and 16 and 32 bits hold the counts and sizes. */
  predicate Storable(files: seq<File>) {
    && |files| <= MAX16 && LocalSum(files) + CentralSum(files) + 22 <= MAX32
    && forall k :: 0 <= k < |files| ==> Proper(files[k])
  }

  predicate Proper(f: File) {
    ValidName(f.name) && |f.name| <= MAX16 && f.level <= 10 && (IsDirectory(f.name) ==> f.data == [])
  }

  lemma OneSum(f: File)
    ensures LocalSum([f]) == 30 + |f.name| + |f.data| && CentralSum([f]) == 46 + |f.name| + |f.comment|
  {
    assert [f][..0] == [];
    assert LocalSum([f][..0]) == 0 && CentralSum([f][..0]) == 0;
  }

  lemma {:induction false} SumPrefix(files: seq<File>, k: nat)
    requires k <= |files|
    ensures LocalSum(files[..k]) <= LocalSum(files) && CentralSum(files[..k]) <= CentralSum(files)
    decreases |files| - k
  {
    if k < |files| {
      SumPrefix(files, k + 1);
      assert files[..k + 1][..k] == files[..k];
    } else {
      assert files[..k] == files;
    }
  }

  /** The next file is refused only if the list cannot be written. */
  lemma NextAddable(files: seq<File>, i: nat)
    requires i < |files| && ValidFile(files[i])
    ensures var f := files[i]; var n, m := LocalSum(files[..i]), CentralSum(files[..i]);
            Storable(files) ==> Addable(f.name, f.comment, |f.data|, f.level, i, n) && Recorded(f.name, f.comment, f.data, n, m)
  {
    hide ValidName, IsDirectory;
    SumPrefix(files, i + 1);
    assert files[..i + 1][..i] == files[..i];
    if Storable(files) { assert Proper(files[i]); }
  }

  /** Adds the files one by one and closes the archive; gives up at the first refusal. */
  method WriteAll(files: seq<File>) returns (ok: bool, archive: seq<byte>, ghost es: seq<Entry>)
    requires forall k :: 0 <= k < |files| ==> ValidFile(files[k])
    ensures ok ==> Written(archive, es) && KeepsAll(es, files)
    ensures AllStored(files) ==> (ok <==> Storable(files))
  {
    hide *;
    var w := new Writer();
    es, archive := [], [];
    KeepsNone(files[..0]);
    for i := 0 to |files|
      invariant w.Valid() && w.Tidy() && w.mode == Writing && KeepsAll(w.entries, files[..i]) && fresh(w)
      invariant forall k :: 0 <= k < i ==> Proper(files[k])
    {
      var f := files[i];
      FileParts(f);
      Measures(w, files[..i]);
      StoredPart(files, i);
      NextAddable(files, i);
      ghost var n, m, t := w.archiveSize, |w.centralDir|, w.totalFiles;
      var added, packed := w.AddMem(f.name, f.data, f.comment, f.level, f.time, f.date);
      ProperIfAddable(f, t, n);
      if !added {
        if AllStored(files) { LessRecorded(f.name, f.comment, packed, f.data, n, m); }
        return false, [], [];
      }
      KeepsSnoc(files, i, w.entries, packed);
    }
    assert files[..|files|] == files;
    Measures(w, files);
    ok := w.Finalize();
    StorableParts(files);
    archive, es := w.buffer, w.entries;
    if ok { WholeBuffer(w); }
  }

  /** What stored files take up. */
  lemma Measures(w: Writer, files: seq<File>)
    requires w.mode == Writing && KeepsAll(w.entries, files)
    requires w.Valid()
    ensures w.totalFiles == |files| <= MAX16
    ensures AllStored(files) ==> w.archiveSize == LocalSum(files) && |w.centralDir| == CentralSum(files)
  {
    hide Locals, Central, OffsetsOf, LocalSum, CentralSum, AllStored, Keeps, ValidEntries;
    if AllStored(files) { SumsOf(w.entries, files); }
  }

  lemma {:induction false} SumsOf(es: seq<Entry>, files: seq<File>)
    requires KeepsAll(es, files) && AllStored(files) && ValidEntries(es)
    ensures |Locals(es)| == LocalSum(files) && |Central(es)| == CentralSum(files)
    decreases |es|
  {
    hide LocalHeader, CentralHeader, ValidName, Unpacks;
    if es != [] {
      var m := |es| - 1;
      assert Keeps(es[m], files[m]) && ValidEntry(es[m]);
      SumsOf(es[..m], files[..m]);
    }
  }

  lemma StoredPart(files: seq<File>, i: nat)
    requires i < |files|
    ensures AllStored(files) ==> AllStored(files[..i]) && FormOf(files[i].data, files[i].level) == 0
  {
  }

  lemma ProperIfAddable(f: File, files: nat, archiveSize: nat)
    ensures Addable(f.name, f.comment, |f.data|, f.level, files, archiveSize) ==> Proper(f)
  {
    hide ValidName;
  }

  lemma LessRecorded(name: seq<byte>, comment: seq<byte>, a: seq<byte>, b: seq<byte>, n: nat, m: nat)
    requires |a| <= |b|
    ensures Recorded(name, comment, b, n, m) ==> Recorded(name, comment, a, n, m)
  {
  }

  lemma StorableParts(files: seq<File>)
    ensures Storable(files) <==> |files| <= MAX16 && LocalSum(files) + CentralSum(files) + 22 <= MAX32
                                 && forall k :: 0 <= k < |files| ==> Proper(files[k])
  {
  }

  lemma FileParts(f: File)
    requires ValidFile(f)
    ensures |f.comment| <= MAX16 && f.time <= MAX16 && f.date <= MAX16
  {
  }

  lemma KeepsNone(files: seq<File>)
    requires files == []
    ensures KeepsAll([], files)
  {
  }

  lemma KeepsSnoc(files: seq<File>, i: nat, es: seq<Entry>, packed: seq<byte>)
    requires i < |files| && es != [] && KeepsAll(es[..|es| - 1], files[..i])
    requires var f := files[i];
             es[|es| - 1] == Entry(f.name, f.comment, f.data, packed, FormOf(f.data, f.level), f.time, f.date)
    ensures KeepsAll(es, files[..i + 1])
  {
    var m := |es| - 1;
    forall k | 0 <= k < |es| ensures Keeps(es[k], files[..i + 1][k]) {
      if k < m { assert es[..m][k] == es[k] && files[..i][k] == files[k]; }
    }
  }

  lemma WholeBuffer(w: Writer)
    requires w.Valid() && w.Tidy() && w.mode == Finalized
    ensures Written(w.buffer, w.entries)
  {
    hide Written, Holding;
    assert w.buffer[..w.archiveSize] == w.buffer;
  }

  /** What was written can be opened, by the exact rule; every file is listed as it was added, and extracting it
      gives back its data. */
  method RoundTrip(files: seq<File>)
    returns (written: bool, accepted: bool, listed: seq<Stat>, found: seq<seq<byte>>, ghost es: seq<Entry>)
    requires forall k :: 0 <= k < |files| ==> ValidFile(files[k])
    ensures AllStored(files) ==> (written <==> Storable(files))
    ensures written ==> KeepsAll(es, files) && (accepted <==> Opens(es))
    ensures written && accepted ==> |listed| == |es| && forall k :: 0 <= k < |es| ==> listed[k] == StatOf(es[k], |Locals(es[..k])|)
    ensures written && accepted ==> |found| == |files| && forall k :: 0 <= k < |files| ==> found[k] == files[k].data
  {
    hide *;
    accepted, listed, found := false, [], [];
    var archive;
    written, archive, es := WriteAll(files);
    if !written {
      return;
    }
    var r := new Reader();
    accepted := r.InitMem(archive, es);
    if !accepted {
      return;
    }
    WrittenShown(r, es);
    KeepsCount(es, files);
    for i := 0 to r.totalFiles
      invariant |listed| == |found| == i && r.Valid() && r.Shows(es)
      invariant forall k :: 0 <= k < i ==> listed[k] == StatOf(es[k], |Locals(es[..k])|)
      invariant forall k :: 0 <= k < i ==> found[k] == files[k].data
    {
      KeepsAt(es, files, i);
      var stat := r.FileStat(i, es);
      listed := listed + [stat.value];
      var ok, data := ExtractShown(r, i, es);
      found := found + [data[..]];
    }
  }

  lemma KeepsCount(es: seq<Entry>, files: seq<File>)
    requires KeepsAll(es, files)
    ensures |es| == |files|
  {
  }

  lemma KeepsAt(es: seq<Entry>, files: seq<File>, k: nat)
    requires KeepsAll(es, files) && k < |files|
    ensures |es| == |files| && es[k].data == files[k].data
  {
  }

  /** Stored files never have the one size that keeps an archive from being opened. */
  lemma StoredOpens(archive: seq<byte>, es: seq<Entry>)
    requires Written(archive, es) && forall k :: 0 <= k < |es| ==> es[k].form == 0
    ensures Opens(es) <==> SignedOnce(EndOf(es))
  {
    hide Written, SignedOnce, EndOf, ValidEntry, Locals;
    OpensParts(es);
    forall k | 0 <= k < |es| ensures |es[k].data| != MAX32 {
      EntryValid(archive, es, k);
      LocalFits(archive, es, k);
      StoredSize(es[k]);
    }
  }

  lemma StoredSize(e: Entry)
    requires ValidEntry(e) && e.form == 0
    ensures |e.packed| == |e.data|
  {
    hide Unpacks, ValidName;
  }

  /** A file whose local record ends where the offset of the directory reads like the signature of the end. */
  function Unlucky(): File {
    File([97], Zeros(END_SIG - 31), [], 0, 0, 0)
  }

  function Stored(f: File): Entry {
    Entry(f.name, f.comment, f.data, f.data, 0, f.time, f.date)
  }

  /** The writer makes an archive of it, and the reader refuses the archive. */
  lemma UnluckyRefused()
    ensures var es := [Stored(Unlucky())];
            ValidFile(Unlucky()) && Storable([Unlucky()]) && KeepsAll(es, [Unlucky()]) && Written(Archive(es), es) && !Opens(es)
  {
    hide Zeros, LocalHeader, CentralHeader, EndRecord, Unpacks, Get32;
    var f, e := Unlucky(), Stored(Unlucky());
    var es := [e];
    OneRecord(e);
    OneSum(f);
    EndFields(1, |Central(es)|, END_SIG);
    assert SignAt(EndOf(es), 16);
  }

  lemma OneRecord(e: Entry)
    ensures Locals([e]) == LocalRecord(e) && Central([e]) == CentralRecord(e, 0)
  {
    hide LocalRecord, CentralRecord;
    NoRecords();
    SnocRecords([], e);
    assert [] + [e] == [e];
  }

  /** Copying every file of an open archive into a new one never fails and changes no byte. */
  method Clone(r: Reader, ghost es: seq<Entry>) returns (w: Writer)
    requires r.Valid() && r.Shows(es)
    ensures fresh(w) && w.Valid() && w.Tidy() && w.mode == Writing && w.entries == es
  {
    hide *;
    WrittenShown(r, es);
    w := new Writer();
    Started(w, es);
    for i := 0 to r.totalFiles
      invariant fresh(w) && w.Valid() && w.Tidy() && w.mode == Writing && w.entries == es[..i]
      invariant r.Valid() && r.Shows(es) && r.totalFiles == |es|
    {
      Room(w, r, es, i);
      var ok := w.AddFromReader(r, i, es);
      assert es[..i + 1] == es[..i] + [es[i]];
    }
    assert es[..|es|] == es;
  }

  /** The copy of an archive that was written is, byte for byte, the archive. */
  method Copy(r: Reader, ghost es: seq<Entry>) returns (ok: bool, archive: seq<byte>)
    requires r.Valid() && r.Shows(es)
    ensures ok && archive == r.archive
  {
    hide *;
    var w := Clone(r, es);
    RoomToEnd(w, r, es);
    ok := w.Finalize();
    archive := w.buffer;
    WholeBuffer(w);
    SameArchive(archive, r, es);
  }

  lemma RoomToEnd(w: Writer, r: Reader, es: seq<Entry>)
    requires w.mode == Writing && w.entries == es
    requires w.Valid() && r.Shows(es)
    ensures w.archiveSize + |w.centralDir| + 22 <= MAX32
  {
    hide Locals, Central, OffsetsOf, ValidEntries, EndRecord;
    WrittenShown(r, es);
    ArchiveParts(r.archive, es);
  }

  lemma SameArchive(archive: seq<byte>, r: Reader, es: seq<Entry>)
    requires Written(archive, es) && r.Shows(es)
    ensures archive == r.archive
  {
    hide Archive, ValidEntries, Fits;
  }

  lemma Started(w: Writer, es: seq<Entry>)
    requires w.entries == []
    ensures w.entries == es[..0]
  {
  }

  lemma Room(w: Writer, r: Reader, es: seq<Entry>, i: nat)
    requires i < |es| && w.mode == Writing && w.entries == es[..i]
    requires w.Valid() && r.Shows(es)
    ensures Copyable(es[i], w.totalFiles, w.archiveSize, |w.centralDir|)
  {
    hide Locals, Central, OffsetsOf, ValidEntries, LocalRecord, CentralRecord, EndRecord;
    WrittenShown(r, es);
    RecordsAt(es, i);
    ArchiveParts(r.archive, es);
    assert |LocalRecord(es[i])| == 30 + |es[i].name| + |es[i].packed|;
    assert |CentralRecord(es[i], |Locals(es[..i])|)| == 46 + |es[i].name| + |es[i].comment|;
  }
}
