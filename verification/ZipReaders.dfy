/** Opening an archive in memory, listing its files, finding one by name and extracting it. */
module ZipReaders {
  import opened Bits
  import opened Format
  import opened Inflate
  import opened ZipFormat
  import opened NameIndex
  import Crc32

  const WINDOW: nat := 4096
  const MAX_FILENAME: nat := 260
  const MAX_COMMENT: nat := 256

  datatype Stat = Stat(form: nat, time: nat, date: nat, crc: nat, packedSize: nat, size: nat, flags: nat,
                       attributes: nat, localOfs: nat, name: seq<byte>, comment: seq<byte>)

  datatype Option<T> = None | Some(value: T)

  /** What the read callback gives: no more than there is. */
  function Read(archive: seq<byte>, ofs: nat, n: nat): seq<byte> {
    if ofs >= |archive| then []
    else if ofs + n <= |archive| then archive[ofs..ofs + n]
    else archive[ofs..]
  }

  function Cut(s: seq<byte>, n: nat): seq<byte> {
    if |s| <= n then s else s[..n]
  }

  /** The checks on one header of the central directory. */
  predicate HeaderOk(h: seq<byte>, disk: nat, archiveSize: nat)
    requires |h| == 46
  {
    && Get32(h, 0) == CENTRAL_SIG
    && (Get32(h, 10) == 0 ==> Get32(h, 24) == Get32(h, 20))
    && (Get32(h, 24) != 0 ==> Get32(h, 20) != 0)
    && Get32(h, 24) != MAX32 && Get32(h, 20) != MAX32
    && (Get16(h, 34) == disk || Get16(h, 34) == 1)
    && Get32(h, 42) + 30 + Get32(h, 20) <= archiveSize
  }

  function HeaderSize(h: seq<byte>): nat
    requires |h| == 46
  {
    46 + Get16(h, 28) + Get16(h, 30) + Get16(h, 32)
  }

  /** The checks on the end record: an archive on one disk. */
  predicate EndOk(h: seq<byte>, archiveSize: nat)
    requires |h| == 22
  {
    && Get32(h, 0) == END_SIG && Get16(h, 10) == Get16(h, 8)
    && (Get16(h, 4) == 0 == Get16(h, 6) || Get16(h, 4) == 1 == Get16(h, 6))
    && Get32(h, 12) >= Get16(h, 10) * 46 && Get32(h, 16) + Get32(h, 12) <= archiveSize
  }

  predicate SignAt(s: seq<byte>, i: int) {
    0 <= i && i + 4 <= |s| && Get32(s, i) == END_SIG
  }

  /** The signature of the end record begins at its first byte and nowhere else in it. */
  predicate SignedOnce(h: seq<byte>)
    requires |h| == 22
  {
    forall i :: 1 <= i <= 18 ==> !SignAt(h, i)
  }

  function EndOf(es: seq<Entry>): (h: seq<byte>)
    ensures |h| == 22
  {
    EndRecord(|es|, |Central(es)|, |Locals(es)|)
  }

  /** Exactly these archives can be opened. */
  predicate Opens(es: seq<Entry>) {
    SignedOnce(EndOf(es)) && forall k :: 0 <= k < |es| ==> |es[k].data| != MAX32
  }

  ghost predicate Written(archive: seq<byte>, es: seq<Entry>) {
    archive == Archive(es) && ValidEntries(es) && Fits(es)
  }

  // ---------- the end record

  /** The last signature within the last 4096 bytes; -1 if there is none. */
  method FindEnd(archive: seq<byte>) returns (ofs: int)
    requires |archive| >= 22
    ensures ofs == -1 || SignAt(archive, ofs)
    ensures forall k :: |archive| - WINDOW <= k && ofs < k ==> !SignAt(archive, k)
  {
    hide Get32;
    var start: nat := if |archive| > WINDOW then |archive| - WINDOW else 0;
    var n := |archive| - start;
    var buf := archive[start..];
    var i := n - 4;
    while i >= 0 && Get32(buf, i) != END_SIG
      invariant -1 <= i <= n - 4
      invariant forall k :: start + i < k ==> !SignAt(archive, k)
    {
      WithinTail(archive, start, i);
      i := i - 1;
    }
    if i >= 0 {
      WithinTail(archive, start, i);
      ofs := start + i;
    } else {
      ofs := -1;
    }
  }

  lemma WithinTail(s: seq<byte>, start: nat, i: nat)
    requires start <= |s| && start + i + 4 <= |s|
    ensures Get32(s[start..], i) == Get32(s, start + i)
  {
  }

  lemma EndOfArchive(archive: seq<byte>, es: seq<Entry>)
    requires Written(archive, es)
    ensures var p := |archive| - 22; p >= 0 && archive[p..] == EndOf(es) && SignAt(archive, p)
    ensures forall i :: SignAt(EndOf(es), i) ==> SignAt(archive, |archive| - 22 + i)
    ensures forall i :: |archive| - 22 <= i && SignAt(archive, i) ==> SignAt(EndOf(es), i - (|archive| - 22))
    ensures |es| <= MAX16 && |Central(es)| <= MAX32 && |Locals(es)| <= MAX32
    ensures |archive| == |Locals(es)| + |Central(es)| + 22
  {
    hide Locals, Central, EndRecord, ValidEntries, Get32;
    var p: nat := |archive| - 22;
    EndFields(|es|, |Central(es)|, |Locals(es)|);
    assert archive[p..] == EndOf(es);
    forall i: nat | i + 4 <= 22 ensures Get32(archive, p + i) == Get32(EndOf(es), i) {
      WithinTail(archive, p, i);
    }
    forall i | p <= i && SignAt(archive, i) ensures SignAt(EndOf(es), i - p) {
      WithinTail(archive, p, i - p);
    }
    WithinTail(archive, p, 0);
  }

  /** What the search finds in an archive that was written. */
  lemma EndFound(archive: seq<byte>, es: seq<Entry>, ofs: int)
    requires Written(archive, es) && (ofs == -1 || SignAt(archive, ofs))
    requires forall k :: |archive| - WINDOW <= k && ofs < k ==> !SignAt(archive, k)
    ensures 0 <= |archive| - 22 <= ofs <= |archive| - 4
    ensures ofs == |archive| - 22 <==> SignedOnce(EndOf(es))
  {
    hide Written, EndOf, Get32;
    var p := |archive| - 22;
    EndOfArchive(archive, es);
    if ofs > p {
      assert SignAt(EndOf(es), ofs - p);
    }
  }

  /** A central directory of 0x06054B50 bytes hides the end record from the search. */
  lemma SizeLooksSigned(n: nat, ofs: nat)
    requires n <= MAX16 && ofs <= MAX32
    ensures !SignedOnce(EndRecord(n, END_SIG, ofs))
  {
    hide EndRecord, Get32;
    EndFields(n, END_SIG, ofs);
    assert SignAt(EndRecord(n, END_SIG, ofs), 12);
  }

  // ---------- the central directory

  lemma PackedNotEmpty(packed: seq<byte>, data: seq<byte>)
    requires Unpacks(packed, data)
    ensures packed != []
  {
    var blocks, tail :| Holds(packed, blocks, tail) && StreamGrounded(blocks, []) && StreamData(blocks, []) == data;
    StreamNotEmpty(blocks);
    if packed == [] { NoBytes(); }
  }

  lemma StreamNotEmpty(blocks: seq<Block>)
    requires blocks != [] && AllShape(blocks)
    ensures StreamBits(blocks, true) != []
  {
  }

  /** The header of the k-th file passes its checks unless the file has 4 GiB less one byte. */
  lemma HeaderChecks(archive: seq<byte>, es: seq<Entry>, k: nat, h: seq<byte>)
    requires Written(archive, es) && k < |es| && h == CentralHeader(es[k], |Locals(es[..k])|)
    ensures HeaderOk(h, 0, |archive|) <==> |es[k].data| != MAX32
    ensures HeaderSize(h) == |CentralRecord(es[k], |Locals(es[..k])|)|
  {
    hide Unpacks, CentralHeader, Get16, Get32, Locals, Central, LocalRecord, CentralRecord, EndRecord, Fits, ValidName;
    var e := es[k];
    assert ValidEntry(e);
    LocalFits(archive, es, k);
    CentralFields(e, |Locals(es[..k])|);
    if e.form == DEFLATED { PackedNotEmpty(e.packed, e.data); }
  }

  lemma LocalFits(archive: seq<byte>, es: seq<Entry>, k: nat)
    requires Written(archive, es) && k < |es|
    ensures |Locals(es[..k])| + 30 + |es[k].name| + |es[k].packed| + 22 <= |archive| <= MAX32
    ensures |CentralRecord(es[k], |Locals(es[..k])|)| == 46 + |es[k].name| + |es[k].comment|
  {
    hide ValidEntries, Locals, Central, EndRecord;
    RecordsAt(es, k);
    assert |LocalRecord(es[k])| == 30 + |es[k].name| + |es[k].packed|;
  }

  /** A header that is wholly in the directory, with what follows it. */
  predicate HeaderIn(dir: seq<byte>, p: nat) {
    p + 46 <= |dir| && p + HeaderSize(dir[p..p + 46]) <= |dir|
  }

  predicate HeadersIn(dir: seq<byte>, offsets: seq<nat>) {
    forall k :: 0 <= k < |offsets| ==> HeaderIn(dir, offsets[k])
  }

  predicate AllSmall(es: seq<Entry>) {
    forall k :: 0 <= k < |es| ==> |es[k].data| != MAX32
  }

  ghost predicate OffsetsOf(offsets: seq<nat>, es: seq<Entry>) {
    |offsets| <= |es| && forall k :: 0 <= k < |offsets| ==> offsets[k] == |Central(es[..k])|
  }

  /** The directory, as the reader has it when it starts on the headers, is that of an archive that was written. */
  ghost predicate Directory(dir: seq<byte>, total: nat, disk: nat, archiveSize: nat, archive: seq<byte>, es: seq<Entry>) {
    Written(archive, es) && dir == Central(es) && total == |es| && disk == 0 && archiveSize == |archive|
  }

  /** The record of the file e, whose data start at ofs, is at p. */
  ghost predicate RecordAt(dir: seq<byte>, p: nat, e: Entry, ofs: nat) {
    && p + 46 + |e.name| + |e.comment| <= |dir|
    && dir[p..p + 46] == CentralHeader(e, ofs)
    && dir[p + 46..p + 46 + |e.name|] == e.name
    && dir[p + 46 + |e.name|..p + 46 + |e.name| + |e.comment|] == e.comment
  }

  lemma SliceTwice(s: seq<byte>, p: nat, r: seq<byte>, a: nat, b: nat)
    requires p + |r| <= |s| && s[p..p + |r|] == r && a <= b <= |r|
    ensures s[p + a..p + b] == r[a..b]
  {
    assert forall j :: a <= j < b ==> s[p..p + |r|][j] == r[j];
    assert |s[p + a..p + b]| == |r[a..b]|;
    assert forall i :: 0 <= i < b - a ==> s[p + a..p + b][i] == r[a..b][i];
  }

  lemma RecordIs(dir: seq<byte>, p: nat, e: Entry, ofs: nat)
    requires var r := CentralRecord(e, ofs); p + |r| <= |dir| && dir[p..p + |r|] == r
    ensures RecordAt(dir, p, e, ofs)
  {
    hide CentralHeader;
    var r := CentralRecord(e, ofs);
    assert r[..46] == CentralHeader(e, ofs) && r[46..46 + |e.name|] == e.name && r[46 + |e.name|..] == e.comment;
    SliceTwice(dir, p, r, 0, 46);
    SliceTwice(dir, p, r, 46, 46 + |e.name|);
    SliceTwice(dir, p, r, 46 + |e.name|, |r|);
  }

  lemma HeaderAt(archive: seq<byte>, es: seq<Entry>, k: nat)
    requires Written(archive, es) && k < |es|
    ensures RecordAt(Central(es), |Central(es[..k])|, es[k], |Locals(es[..k])|)
    ensures HeaderIn(Central(es), |Central(es[..k])|)
    ensures var h := CentralHeader(es[k], |Locals(es[..k])|);
            && (HeaderOk(h, 0, |archive|) <==> |es[k].data| != MAX32)
            && |Central(es[..k])| + HeaderSize(h) == |Central(es[..k + 1])|
  {
    hide Written, Locals, LocalRecord, Central, CentralHeader, CentralRecord, Archive, HeaderOk, HeaderSize;
    RecordsAt(es, k);
    HeaderChecks(archive, es, k, CentralHeader(es[k], |Locals(es[..k])|));
    RecordIs(Central(es), |Central(es[..k])|, es[k], |Locals(es[..k])|);
  }

  lemma NoRecords()
    ensures Locals([]) == [] && Central([]) == []
  {
  }

  /** The loop over the headers; it takes a directory that was written unless a file has 4 GiB less one byte. */
  method ReadHeaders(dir: seq<byte>, total: nat, disk: nat, archiveSize: nat, ghost archive: seq<byte>, ghost es: seq<Entry>)
    returns (ok: bool, offsets: seq<nat>)
    ensures ok ==> |offsets| == total && HeadersIn(dir, offsets)
    ensures Directory(dir, total, disk, archiveSize, archive, es) ==> (ok <==> AllSmall(es))
    ensures Directory(dir, total, disk, archiveSize, archive, es) && ok ==> OffsetsOf(offsets, es)
  {
    hide HeaderOk, HeaderSize, Central, Locals, Written;
    offsets := [];
    var n: nat, p: nat := |dir|, 0;
    ghost var good := Directory(dir, total, disk, archiveSize, archive, es);
    NoRecords();
    assert es[..0] == [];
    for i := 0 to total
      invariant p + n == |dir| && |offsets| == i && HeadersIn(dir, offsets)
      invariant good ==> p == |Central(es[..i])| && OffsetsOf(offsets, es)
      invariant good ==> forall k :: 0 <= k < i ==> |es[k].data| != MAX32
    {
      if good { HeaderAt(archive, es, i); }
      if n < 46 || !HeaderOk(dir[p..p + 46], disk, archiveSize) {
        return false, [];
      }
      var header := dir[p..p + 46];
      offsets := offsets + [p];
      var size := HeaderSize(header);
      if size > n {
        return false, [];
      }
      n := n - size;
      p := p + size;
    }
    ok := true;
  }

  function NameIn(dir: seq<byte>, p: nat): Name
    requires HeaderIn(dir, p)
  {
    dir[p + 46..p + 46 + Get16(dir[p..p + 46], 28)]
  }

  function NamesIn(dir: seq<byte>, offsets: seq<nat>): (names: seq<Name>)
    requires HeadersIn(dir, offsets)
    ensures |names| == |offsets|
  {
    seq(|offsets|, k requires 0 <= k < |offsets| => NameIn(dir, offsets[k]))
  }

  function StatIn(dir: seq<byte>, p: nat): Stat
    requires HeaderIn(dir, p)
  {
    var h := dir[p..p + 46];
    var n, x, c := Get16(h, 28), Get16(h, 30), Get16(h, 32);
    Stat(Get16(h, 10), Get16(h, 12), Get16(h, 14), Get32(h, 16), Get32(h, 20), Get32(h, 24), Get16(h, 8),
         Get32(h, 38), Get32(h, 42), Cut(dir[p + 46..p + 46 + n], MAX_FILENAME - 1),
         Cut(dir[p + 46 + n + x..p + 46 + n + x + c], MAX_COMMENT - 1))
  }

  predicate DirectoryIn(dir: seq<byte>, p: nat)
    requires HeaderIn(dir, p)
  {
    IsDirectory(NameIn(dir, p)) || Get32(dir[p..p + 46], 38) / 0x10 % 2 != 0
  }

  /** What is listed of a file whose local record is at ofs. */
  function StatOf(e: Entry, ofs: nat): Stat {
    Stat(e.form, e.time, e.date, Checksum(e.data), |e.packed|, |e.data|, 0, Attributes(e.name), ofs,
         Cut(e.name, MAX_FILENAME - 1), Cut(e.comment, MAX_COMMENT - 1))
  }

  lemma StatOfRecord(dir: seq<byte>, p: nat, e: Entry, ofs: nat)
    requires ValidEntry(e) && ofs <= MAX32 && RecordAt(dir, p, e, ofs)
    ensures HeaderIn(dir, p) && StatIn(dir, p) == StatOf(e, ofs) && NameIn(dir, p) == e.name
    ensures DirectoryIn(dir, p) <==> IsDirectory(e.name)
  {
    hide Get16, Get32, CentralHeader, Unpacks, Checksum, ValidName;
    CentralFields(e, ofs);
  }

  lemma OpensParts(es: seq<Entry>)
    ensures Opens(es) <==> SignedOnce(EndOf(es)) && AllSmall(es)
  {
  }

  lemma ReadAt(s: seq<byte>, ofs: nat, n: nat)
    ensures |Read(s, ofs, n)| == n || ofs + n > |s|
    ensures n > 0 && |Read(s, ofs, n)| == n ==> ofs + n <= |s| && Read(s, ofs, n) == s[ofs..ofs + n]
  {
  }

  lemma EndBounds(h: seq<byte>, archiveSize: nat)
    requires |h| == 22 && EndOk(h, archiveSize)
    ensures Get32(h, 16) + Get32(h, 12) <= archiveSize
  {
  }

  /** The end record of an archive passes its checks. */
  lemma EndChecks(archive: seq<byte>, es: seq<Entry>)
    requires Written(archive, es)
    ensures var h := EndOf(es);
            && |archive| >= 22 && archive[|archive| - 22..] == h && EndOk(h, |archive|)
            && Get16(h, 10) == |es| && Get16(h, 4) == 0 && Get32(h, 12) == |Central(es)| && Get32(h, 16) == |Locals(es)|
            && archive[|Locals(es)|..|Locals(es)| + |Central(es)|] == Central(es)
  {
    hide Written, Locals, Central, EndRecord, Get16, Get32;
    EndOfArchive(archive, es);
    EndFields(|es|, |Central(es)|, |Locals(es)|);
    CentralSize(es);
    ArchiveParts(archive, es);
  }

  lemma ArchiveParts(archive: seq<byte>, es: seq<Entry>)
    requires Written(archive, es)
    ensures |archive| == |Locals(es)| + |Central(es)| + 22 && archive[..|Locals(es)|] == Locals(es)
    ensures archive[|Locals(es)|..|Locals(es)| + |Central(es)|] == Central(es)
  {
    hide Locals, Central, EndRecord;
  }

  // ---------- the reader

  class Reader {
    var archive: seq<byte>
    var totalFiles: nat
    var centralOfs: nat
    var centralDir: seq<byte>
    var offsets: seq<nat>
    var sorted: array<nat>

    /** Every file has a header that is wholly in the central directory. */
    predicate Valid()
      reads `totalFiles, `offsets, `centralDir
    {
      |offsets| == totalFiles && HeadersIn(centralDir, offsets)
    }

    /** The reader has these files before it. */
    ghost predicate Shows(es: seq<Entry>)
      reads `archive, `totalFiles, `centralOfs, `offsets, `centralDir
    {
      && Written(archive, es) && totalFiles == |es| && centralOfs == |Locals(es)| && centralDir == Central(es)
      && |offsets| == |es| && OffsetsOf(offsets, es)
    }

    function StatAt(k: nat): Stat
      requires Valid() && k < totalFiles
      reads `totalFiles, `offsets, `centralDir
    {
      StatIn(centralDir, offsets[k])
    }

    predicate DirectoryAt(k: nat)
      requires Valid() && k < totalFiles
      reads `totalFiles, `offsets, `centralDir
    {
      DirectoryIn(centralDir, offsets[k])
    }

    function Names(): (names: seq<Name>)
      requires Valid()
      reads `totalFiles, `offsets, `centralDir
      ensures |names| == totalFiles
    {
      NamesIn(centralDir, offsets)
    }

    /** The index is in order. */
    predicate Indexed()
      requires Valid()
      reads this, sorted
    {
      Indices(sorted[..], totalFiles) && Sorted(Names(), sorted[..])
    }

    constructor ()
      ensures Valid() && totalFiles == 0
    {
      archive, totalFiles, centralOfs, centralDir, offsets := [], 0, 0, [], [];
      sorted := new nat[0];
    }

    /** Opens any bytes or refuses them; the bytes of an archive that was written, by an exact rule. */
    method InitMem(bytes: seq<byte>, ghost es: seq<Entry>) returns (ok: bool)
      modifies this
      ensures ok ==> Valid() && archive == bytes && fresh(sorted) && Indexed()
      ensures Written(bytes, es) ==> (ok <==> Opens(es))
      ensures Written(bytes, es) && ok ==> Shows(es)
    {
      hide *;
      ok := ReadCentralDir(bytes, es);
      if ok {
        sorted := new nat[totalFiles](k => k);
        SizeOfNames(this);
        Identity(sorted[..], totalFiles);
        SortByFilename(Names(), sorted);
        IsIndexed(this);
      }
    }

    /** All that is listed of the k-th file. */
    method FileStat(k: nat, ghost es: seq<Entry>) returns (stat: Option<Stat>)
      requires Valid()
      ensures stat == if k < totalFiles then Some(StatAt(k)) else None
      ensures Shows(es) && k < |es| ==> stat == Some(StatOf(es[k], |Locals(es[..k])|))
    {
      hide StatIn, StatOf, Written, Central, Locals;
      if Shows(es) && k < |es| { FileShown(archive, es, k); }
      stat := if k < totalFiles then Some(StatAt(k)) else None;
    }

    method ReadCentralDir(bytes: seq<byte>, ghost es: seq<Entry>) returns (ok: bool)
      modifies `archive, `totalFiles, `centralOfs, `centralDir, `offsets
      ensures ok ==> Valid() && archive == bytes
      ensures Written(bytes, es) ==> (ok <==> Opens(es))
      ensures Written(bytes, es) && ok ==> Shows(es)
    {
      hide EndOk, Written, Opens, EndOf, Central, Locals, Get16, Get32, HeadersIn, AllSmall, OffsetsOf, Read, SignAt, SignedOnce;
      ghost var good := Written(bytes, es);
      if good {
        EndChecks(bytes, es);
        OpensParts(es);
      }
      ok := false;
      if |bytes| < 22 {
        return;
      }
      var at := FindEnd(bytes);
      if good { EndFound(bytes, es, at); }
      if at < 0 {
        return;
      }
      var end := Read(bytes, at, 22);
      ReadAt(bytes, at, 22);
      if good && |end| == 22 { assert bytes[at..at + 22] == bytes[at..]; }
      if |end| != 22 || !EndOk(end, |bytes|) {
        return;
      }
      EndBounds(end, |bytes|);
      var total, size, ofs := Get16(end, 10), Get32(end, 12), Get32(end, 16);
      var dir := bytes[ofs..ofs + size];
      ok, offsets := ReadHeaders(dir, total, Get16(end, 4), |bytes|, bytes, es);
      archive, totalFiles, centralOfs, centralDir := bytes, total, ofs, dir;
    }
  }

  /** The k-th file of an archive that was written, as the reader sees it. */
  lemma FileShown(archive: seq<byte>, es: seq<Entry>, k: nat)
    requires Written(archive, es) && k < |es|
    ensures var p := |Central(es[..k])|;
            && HeaderIn(Central(es), p) && StatIn(Central(es), p) == StatOf(es[k], |Locals(es[..k])|)
            && NameIn(Central(es), p) == es[k].name && (DirectoryIn(Central(es), p) <==> IsDirectory(es[k].name))
  {
    hide Central, Locals, Archive, ValidEntry, StatIn, StatOf, NameIn, DirectoryIn, RecordAt, IsDirectory, CentralHeader;
    HeaderAt(archive, es, k);
    LocalFits(archive, es, k);
    StatOfRecord(Central(es), |Central(es[..k])|, es[k], |Locals(es[..k])|);
  }

  lemma SizeOfNames(r: Reader)
    requires r.Valid()
    ensures |r.Names()| == r.totalFiles
  {
  }

  lemma Identity(s: seq<nat>, n: nat)
    requires |s| == n && forall k :: 0 <= k < n ==> s[k] == k
    ensures Indices(s, n)
  {
  }

  lemma IsIndexed(r: Reader)
    requires r.Valid() && Indices(r.sorted[..], r.totalFiles) && Sorted(r.Names(), r.sorted[..])
    ensures r.Indexed()
  {
  }
}
