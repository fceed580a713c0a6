/** Writing an archive: files are added one after the other, then the central directory closes it. */
module ZipWriters {
  import opened Bits
  import opened Symbols
  import opened Format
  import opened Inflate
  import opened Sinks
  import opened Parsers
  import opened Compressors
  import opened ZipFormat
  import opened ZipReaders
  import opened ZipExtract
  import Deflate

  /** A string of C: it has no zero byte. */
  type CString = s: seq<byte> | 0 !in s

  datatype Mode = Writing | Finalized

  /** The write callback: the buffer grows with zeros as needed. */
  function Put(buffer: seq<byte>, ofs: nat, bytes: seq<byte>): (r: seq<byte>)
    ensures |r| == if ofs + |bytes| > |buffer| then ofs + |bytes| else |buffer|
  {
    var room := if ofs + |bytes| > |buffer| then buffer + Zeros(ofs + |bytes| - |buffer|) else buffer;
    room[..ofs] + bytes + room[ofs + |bytes|..]
  }

  function Zeros(n: nat): (r: seq<byte>)
    ensures |r| == n
  {
    seq(n, _ => 0)
  }

  function Probes(level: nat): nat
    requires 1 <= level <= 10
  {
    [0, 1, 6, 32, 16, 32, 128, 256, 512, 768, 1500][level]
  }

  /** The options a level from 1 to 10 stands for. */
  function OptionsOf(level: nat): (o: Options)
    requires 1 <= level <= 10
    ensures o.probes >= 1 && o.probesLong >= 1
  {
    var p := Probes(level);
    Options(1 + (p + 2) / 3, 1 + (p / 4 + 2) / 3, level <= 3, false, false, false, false)
  }

  /** How many positions the search looks at for each level, and for a match of 32 bytes or more to beat. */
  lemma OptionsAt(level: nat)
    requires 1 <= level <= 10
    ensures var o := OptionsOf(level);
            && o.probes == match level { case 1 => 2 case 2 => 3 case 3 => 12 case 4 => 7 case 5 => 12 case 6 => 44
                                         case 7 => 87 case 8 => 172 case 9 => 257 case _ => 501 }
            && o.probesLong == match level { case 1 => 1 case 2 => 2 case 3 => 4 case 4 => 3 case 5 => 4 case 6 => 12
                                             case 7 => 23 case 8 => 44 case 9 => 65 case _ => 126 }
            && (o.greedy <==> level in {1, 2, 3}) && !o.rle && !o.filter && !o.forceRaw && !o.forceFixed
  {
  }

  /** Names have no zero byte, colon or backslash, and do not start with a slash. */
  lemma ValidNameMeans(name: seq<byte>)
    ensures ValidName(name) <==> forall i :: 0 <= i < |name| ==> name[i] !in {0, 58, 92} && (i == 0 ==> name[i] != 47)
  {
  }

  /** What has to hold before a byte is written. */
  predicate Addable(name: CString, comment: seq<byte>, size: nat, level: nat, files: nat, archiveSize: nat) {
    && files != MAX16 && level <= 10 && size <= MAX32 && ValidName(name) && |name| <= MAX16
    && archiveSize + 30 + 46 + |comment| + |name| <= MAX32
    && (IsDirectory(name) ==> size == 0)
  }

  /** What has to hold when the contents are in place. */
  predicate Recorded(name: seq<byte>, comment: seq<byte>, packed: seq<byte>, archiveSize: nat, centralSize: nat) {
    && |packed| <= MAX32 && archiveSize + 30 + |name| + |packed| <= MAX32
    && centralSize + 46 + |name| + |comment| <= MAX32
  }

  method ValidateArchiveName(name: CString) returns (ok: bool)
    ensures ok <==> ValidName(name)
  {
    if name != [] && name[0] == SLASH {
      return false;
    }
    for i := 0 to |name|
      invariant BACKSLASH !in name[..i] && COLON !in name[..i]
    {
      if name[i] == BACKSLASH || name[i] == COLON {
        return false;
      }
      assert name[..i + 1] == name[..i] + [name[i]];
    }
    assert name[..|name|] == name;
    ok := true;
  }

  // ---------- where the pieces land

  lemma PutKeeps(buffer: seq<byte>, ofs: nat, bytes: seq<byte>, n: nat)
    requires n <= ofs && n <= |buffer|
    ensures Put(buffer, ofs, bytes)[..n] == buffer[..n]
  {
  }

  lemma PutThere(buffer: seq<byte>, ofs: nat, bytes: seq<byte>)
    requires ofs <= |buffer|
    ensures Put(buffer, ofs, bytes)[..ofs + |bytes|] == buffer[..ofs] + bytes
  {
  }

  /** Zeros for the header, the name, the contents, and then the header over the zeros. */
  lemma LocalInPlace(buffer: seq<byte>, ofs: nat, header: seq<byte>, name: seq<byte>, packed: seq<byte>)
    requires ofs <= |buffer| && |header| == 30
    ensures var n := ofs + 30;
            var b := Put(Put(Put(Put(buffer, ofs, Zeros(30)), n, name), n + |name|, packed), ofs, header);
            var m := n + |name| + |packed|;
            && |b| == (if m > |buffer| then m else |buffer|)
            && b[..m] == buffer[..ofs] + header + name + packed
  {
    hide Put, Zeros;
    var n := ofs + 30;
    var b1 := Put(buffer, ofs, Zeros(30));
    var b2 := Put(b1, n, name);
    var b3 := Put(b2, n + |name|, packed);
    PutThere(buffer, ofs, Zeros(30));
    PutThere(b1, n, name);
    PutThere(b2, n + |name|, packed);
    PutOver(b3, ofs, header);
    var m := n + |name| + |packed|;
    var q := buffer[..ofs] + Zeros(30) + name + packed;
    assert b3[..m] == q;
    assert b3[..ofs] == q[..ofs] == buffer[..ofs];
    assert b3[n..m] == q[n..] == name + packed;
    assert (b3[..ofs] + header + b3[n..])[..m] == b3[..ofs] + header + b3[n..m];
  }

  lemma PutOver(buffer: seq<byte>, ofs: nat, bytes: seq<byte>)
    requires ofs + |bytes| <= |buffer|
    ensures Put(buffer, ofs, bytes) == buffer[..ofs] + bytes + buffer[ofs + |bytes|..]
  {
  }

  function FormOf(data: seq<byte>, level: nat): nat {
    if level == 0 || |data| <= 3 then 0 else DEFLATED
  }

  ghost predicate Explains(p: Deflate.Parse, packed: seq<byte>, blocks: seq<Block>, tail: seq<bool>, data: seq<byte>, o: Options) {
    Holds(packed, blocks, tail) && Explained(p.looks, p.told, blocks, o, data)
  }

  /** The bytes are a stream that a parse of the data with these options makes. */
  ghost predicate MadeWith(packed: seq<byte>, data: seq<byte>, o: Options) {
    exists p, blocks, tail :: Explains(p, packed, blocks, tail, data, o)
  }

  /** Stored as they are, or compressed, by the level and the size of the data. */
  method Pack(data: seq<byte>, level: nat) returns (packed: seq<byte>, form: nat)
    requires level <= 10
    ensures form == FormOf(data, level)
    ensures form == 0 ==> packed == data
    ensures form == DEFLATED ==> Unpacks(packed, data) && MadeWith(packed, data, OptionsOf(level))
  {
    hide Unpacks, Holds, StreamGrounded, StreamData, OptionsOf, Explained;
    if level == 0 || |data| <= 3 {
      return data, 0;
    }
    form := DEFLATED;
    var sink := new Sink(true, 0);
    ghost var blocks, tail, parse;
    var ok;
    ok, blocks, tail, parse := Deflate.MemToOutput(data, OptionsOf(level), sink);
    assert Explains(parse, sink.got, blocks, tail, data, OptionsOf(level));
    packed := sink.got;
    UnpacksThis(packed, data, blocks, tail);
  }

  lemma UnpacksThis(packed: seq<byte>, data: seq<byte>, blocks: seq<Block>, tail: seq<bool>)
    requires Holds(packed, blocks, tail) && StreamGrounded(blocks, []) && StreamData(blocks, []) == data
    ensures Unpacks(packed, data)
  {
    hide Holds, StreamGrounded, StreamData;
  }

  // ---------- the writer

  /** The records of the entries, each where the directory says. */
  ghost predicate Holding(locals: seq<byte>, centralDir: seq<byte>, offsets: seq<nat>, totalFiles: nat, es: seq<Entry>) {
    && locals == Locals(es) && centralDir == Central(es) && |offsets| == |es| && OffsetsOf(offsets, es)
    && totalFiles == |es| <= MAX16 && |locals| <= MAX32 && |centralDir| <= MAX32 && ValidEntries(es)
  }

  lemma OffsetsSnoc(offsets: seq<nat>, es: seq<Entry>, e: Entry)
    requires |offsets| == |es| && OffsetsOf(offsets, es)
    ensures OffsetsOf(offsets + [|Central(es)|], es + [e])
  {
    hide Central;
    var t := es + [e];
    forall k | 0 <= k <= |offsets| ensures (offsets + [|Central(es)|])[k] == |Central(t[..k])| {
      assert t[..k] == es[..k];
      if k == |es| { assert es[..k] == es; }
    }
  }

  lemma HoldingSnoc(locals: seq<byte>, centralDir: seq<byte>, offsets: seq<nat>, n: nat, es: seq<Entry>, e: Entry)
    requires Holding(locals, centralDir, offsets, n, es) && n < MAX16 && ValidEntry(e)
    requires |locals| + 30 + |e.name| + |e.packed| <= MAX32 && |centralDir| + 46 + |e.name| + |e.comment| <= MAX32
    ensures Holding(locals + LocalRecord(e), centralDir + CentralRecord(e, |locals|), offsets + [|centralDir|], n + 1, es + [e])
  {
    hide Locals, Central, ValidEntry;
    assert |LocalRecord(e)| == 30 + |e.name| + |e.packed|;
    assert |CentralRecord(e, |locals|)| == 46 + |e.name| + |e.comment|;
    hide OffsetsOf, LocalRecord, CentralRecord;
    SnocRecords(es, e);
    OffsetsSnoc(offsets, es, e);
    ValidSnoc(es, e);
  }

  lemma ValidSnoc(es: seq<Entry>, e: Entry)
    requires ValidEntries(es) && ValidEntry(e)
    ensures ValidEntries(es + [e])
  {
    hide ValidEntry;
  }

  /** With the end record behind them, the records are an archive. */
  lemma HoldingArchive(locals: seq<byte>, centralDir: seq<byte>, offsets: seq<nat>, n: nat, es: seq<Entry>)
    requires Holding(locals, centralDir, offsets, n, es) && |locals| + |centralDir| + 22 <= MAX32
    ensures Written(locals + centralDir + EndRecord(n, |centralDir|, |locals|), es)
    ensures n == 0 ==> locals == [] && centralDir == []
  {
    hide OffsetsOf, ValidEntries, EndRecord;
    NoRecords();
    hide Locals, Central;
  }

  /** The buffer with the contents of a new record, whose header is still missing. */
  function Headless(buffer: seq<byte>, ofs: nat, name: seq<byte>, packed: seq<byte>): seq<byte> {
    Put(Put(Put(buffer, ofs, Zeros(30)), ofs + 30, name), ofs + 30 + |name|, packed)
  }

  /** While the pieces of a new record are put in place, what is before them stays. */
  lemma Pieces(buffer: seq<byte>, ofs: nat, name: seq<byte>, packed: seq<byte>)
    requires ofs <= |buffer|
    ensures var b := Headless(buffer, ofs, name, packed);
            ofs <= |b| && b[..ofs] == buffer[..ofs]
  {
    hide Put, Zeros;
    var b1 := Put(buffer, ofs, Zeros(30));
    var b2 := Put(b1, ofs + 30, name);
    PutKeeps(buffer, ofs, Zeros(30), ofs);
    PutKeeps(b1, ofs + 30, name, ofs);
    PutKeeps(b2, ofs + 30 + |name|, packed, ofs);
  }

  /** The new record is that of the entry. */
  lemma Registered(locals: seq<byte>, centralDir: seq<byte>, offsets: seq<nat>, n: nat, es: seq<Entry>, e: Entry, header: seq<byte>)
    requires Holding(locals, centralDir, offsets, n, es) && n < MAX16 && ValidEntry(e)
    requires |locals| + 30 + |e.name| + |e.packed| <= MAX32 && |centralDir| + 46 + |e.name| + |e.comment| <= MAX32
    requires header == LocalHeader(e)
    ensures Holding(locals + header + e.name + e.packed,
                    centralDir + (CentralHeader(e, |locals|) + e.name + e.comment), offsets + [|centralDir|], n + 1, es + [e])
  {
    hide ValidEntry, Holding, LocalHeader, CentralHeader;
    HoldingSnoc(locals, centralDir, offsets, n, es, e);
    assert LocalRecord(e) == header + e.name + e.packed;
    assert locals + (header + e.name + e.packed) == locals + header + e.name + e.packed;
    assert CentralRecord(e, |locals|) == CentralHeader(e, |locals|) + e.name + e.comment;
  }

  lemma HoldingNothing()
    ensures Holding([], [], [], 0, [])
  {
  }

  function Le32(v: nat): (r: seq<byte>)
    ensures |r| == 4
  {
    [ByteOf(v, 0), ByteOf(v, 1), ByteOf(v, 2), ByteOf(v, 3)]
  }

  /** There is room for the records of a file that is copied. */
  predicate Copyable(e: Entry, files: nat, archiveSize: nat, centralSize: nat) {
    && files != MAX16 && archiveSize + 76 <= MAX32 && archiveSize + 30 + |e.name| + |e.packed| <= MAX32
    && centralSize + 46 + |e.name| + |e.comment| <= MAX32
  }

  /** A header with another place in it. */
  lemma PatchHeader(e: Entry, from: nat, to: nat)
    ensures CentralHeader(e, from)[..42] + Le32(to) == CentralHeader(e, to)
  {
    hide ByteOf, Kind, Sizes, Checksum, Attributes;
    var a, b := CentralHeader(e, from), CentralHeader(e, to);
    var k := [0x50, 0x4B, 1, 2, 0, 0] + Kind(e.form, e.time, e.date) + Sizes(Checksum(e.data), |e.packed|, |e.data|, |e.name|);
    var p, q := Place(|e.comment|, Attributes(e.name), from), Place(|e.comment|, Attributes(e.name), to);
    assert a == k + p && b == k + q && |k| == 32;
    assert p[..10] == q[..10] && q[10..] == Le32(to);
    assert a[..42] == k + p[..10];
    assert b == k + q[..10] + q[10..];
  }

  /** The headers of the k-th file of an open archive, as the copying reads them. */
  lemma ShownCentral(r: Reader, es: seq<Entry>, k: nat)
    requires r.Valid() && r.Shows(es) && k < |es|
    ensures ValidEntry(es[k]) && |Locals(es[..k])| <= MAX32
    ensures var p := r.offsets[k]; RecordAt(r.centralDir, p, es[k], |Locals(es[..k])|)
    ensures r.offsets[k] + 46 <= |r.centralDir|
    ensures var h := r.centralDir[r.offsets[k]..r.offsets[k] + 46];
            && h == CentralHeader(es[k], |Locals(es[..k])|)
            && Get32(h, 42) == |Locals(es[..k])| && Get32(h, 20) == |es[k].packed|
            && Get16(h, 28) == |es[k].name| && Get16(h, 30) == 0 && Get16(h, 32) == |es[k].comment|
  {
    hide Written, Central, Locals, CentralHeader, Get16, Get32, ValidEntry;
    EntryValid(r.archive, es, k);
    LocalFits(r.archive, es, k);
    HeaderAt(r.archive, es, k);
    CentralFields(es[k], |Locals(es[..k])|);
  }

  lemma ShownTail(dir: seq<byte>, p: nat, e: Entry, ofs: nat)
    requires RecordAt(dir, p, e, ofs)
    ensures p + 46 + |e.name| + |e.comment| <= |dir|
    ensures dir[p + 46..p + 46 + |e.name| + |e.comment|] == e.name + e.comment
  {
    hide CentralHeader;
    var n := p + 46 + |e.name|;
    assert dir[p + 46..n + |e.comment|] == dir[p + 46..n] + dir[n..n + |e.comment|];
  }

  lemma ShownLocal(archive: seq<byte>, es: seq<Entry>, k: nat)
    requires Written(archive, es) && k < |es|
    ensures var e := es[k]; var ofs := |Locals(es[..k])|; var n := |e.name| + |e.packed|;
            && ofs + 30 + n <= |archive| && Read(archive, ofs, 30) == LocalHeader(e)
            && archive[ofs + 30..ofs + 30 + n] == e.name + e.packed
    ensures var h := LocalHeader(es[k]);
            Get32(h, 0) == LOCAL_SIG && Get16(h, 26) == |es[k].name| && Get16(h, 28) == 0
  {
    hide Written, Locals, LocalHeader, Get16, Get32, ValidEntry;
    var e, ofs := es[k], |Locals(es[..k])|;
    EntryValid(archive, es, k);
    LocalFields(e);
    LocalRecordAt(archive, es, k);
    var r := LocalRecord(e);
    assert r[..30] == LocalHeader(e) && r[30..] == e.name + e.packed;
    SliceTwice(archive, ofs, r, 0, 30);
    SliceTwice(archive, ofs, r, 30, |r|);
    ReadAll(archive, ofs, 30);
  }

  class Writer {
    var buffer: seq<byte>
    var archiveSize: nat
    var totalFiles: nat
    var centralDir: seq<byte>
    var offsets: seq<nat>
    var mode: Mode
    ghost var entries: seq<Entry>

    /** The records of the entries are in place; after the end, the whole archive is. */
    ghost predicate Valid()
      reads this
    {
      && archiveSize <= |buffer|
      && (mode == Writing ==> Holding(buffer[..archiveSize], centralDir, offsets, totalFiles, entries))
      && (mode == Finalized ==> Written(buffer[..archiveSize], entries))
    }

    /** Nothing is left behind the archive. */
    predicate Tidy()
      reads this
    {
      |buffer| == archiveSize
    }

    constructor ()
      ensures Valid() && Tidy() && mode == Writing && entries == []
    {
      buffer, archiveSize, totalFiles, centralDir, offsets, mode, entries := [], 0, 0, [], [], Writing, [];
      new;
      HoldingNothing();
      hide Holding;
      assert buffer[..0] == [];
    }

    method PutAt(ofs: nat, bytes: seq<byte>)
      modifies `buffer
      ensures buffer == Put(old(buffer), ofs, bytes)
    {
      buffer := Put(buffer, ofs, bytes);
    }

    method AddToCentralDir(name: seq<byte>, comment: seq<byte>, size: nat, packedSize: nat, crc: nat,
                           form: nat, time: nat, date: nat, localOfs: nat, attributes: nat) returns (ok: bool)
      modifies `centralDir, `offsets
      ensures ok <==> localOfs <= MAX32 && old(|centralDir|) + 46 + |name| + |comment| <= MAX32
      ensures ok ==> offsets == old(offsets) + [old(|centralDir|)] && centralDir == old(centralDir)
                     + (CreateCentralDirHeader(|name|, |comment|, size, packedSize, crc, form, time, date, localOfs, attributes) + name + comment)
      ensures !ok ==> offsets == old(offsets) && centralDir == old(centralDir)
    {
      if localOfs > MAX32 || |centralDir| + 46 + |name| + |comment| > MAX32 {
        return false;
      }
      var start := |centralDir|;
      centralDir := centralDir + CreateCentralDirHeader(|name|, |comment|, size, packedSize, crc, form, time, date, localOfs, attributes);
      centralDir := centralDir + name;
      centralDir := centralDir + comment;
      offsets := offsets + [start];
      ok := true;
    }

    /** The header over the zeros, and the record in the directory. */
    method Register(name: CString, comment: seq<byte>, data: seq<byte>, packed: seq<byte>, crc: nat, form: nat,
                    time: nat, date: nat, cur: nat, ghost was: seq<byte>) returns (ok: bool)
      requires mode == Writing && totalFiles < MAX16 && archiveSize <= |was| && crc == Checksum(data)
      requires Holding(was[..archiveSize], centralDir, offsets, totalFiles, entries)
      requires buffer == Headless(was, archiveSize, name, packed)
      requires cur == archiveSize + 30 + |name| + |packed| <= MAX32
      requires ValidEntry(Entry(name, comment, data, packed, form, time, date))
      modifies this
      ensures Valid() && mode == Writing
      ensures ok <==> old(|centralDir|) + 46 + |name| + |comment| <= MAX32
      ensures ok ==> entries == old(entries) + [Entry(name, comment, data, packed, form, time, date)]
      ensures ok && |was| == old(archiveSize) ==> Tidy()
      ensures !ok ==> entries == old(entries) && archiveSize == old(archiveSize) && totalFiles == old(totalFiles)
      ensures !ok ==> centralDir == old(centralDir) && buffer[..archiveSize] == was[..archiveSize]
    {
      hide Holding, Written, Put, Zeros, IsDirectory, CreateLocalDirHeader, CreateCentralDirHeader, ValidEntry, Checksum;
      ghost var e := Entry(name, comment, data, packed, form, time, date);
      var localOfs := archiveSize;
      var header := CreateLocalDirHeader(|name|, |data|, |packed|, crc, form, time, date);
      LocalInPlace(was, localOfs, header, name, packed);
      PutAt(localOfs, header);
      assert buffer[..localOfs] == was[..localOfs] by {
        assert buffer[..cur][..localOfs] == was[..localOfs];
      }
      var attributes := if IsDirectory(name) then 0x10 else 0;
      ok := AddToCentralDir(name, comment, |data|, |packed|, crc, form, time, date, localOfs, attributes);
      if ok {
        Registered(was[..localOfs], old(centralDir), old(offsets), totalFiles, entries, e, header);
        totalFiles := totalFiles + 1;
        archiveSize := cur;
        entries := entries + [e];
      }
    }

    /** Adds a file, or refuses it and keeps what was there. */
    method AddMem(name: CString, data: seq<byte>, comment: seq<byte>, level: nat, time: nat, date: nat)
      returns (ok: bool, packed: seq<byte>)
      requires Valid() && |comment| <= MAX16 && time <= MAX16 && date <= MAX16
      modifies this
      ensures Valid() && mode == old(mode)
      ensures ok <==> mode == Writing && Addable(name, comment, |data|, level, old(totalFiles), old(archiveSize))
                      && Recorded(name, comment, packed, old(archiveSize), old(|centralDir|))
      ensures FormOf(data, level) == 0 ==> |packed| <= |data|
      ensures ok ==> entries == old(entries) + [Entry(name, comment, data, packed, FormOf(data, level), time, date)]
      ensures ok && FormOf(data, level) == 8 ==> MadeWith(packed, data, OptionsOf(level))
      ensures FormOf(data, level) == if level == 0 || |data| <= 3 then 0 else 8
      ensures ok && old(Tidy()) ==> Tidy()
      ensures !ok ==> entries == old(entries) && archiveSize == old(archiveSize) && totalFiles == old(totalFiles)
      ensures !ok ==> centralDir == old(centralDir) && buffer[..archiveSize] == old(buffer[..archiveSize])
    {
      hide Holding, Written, Put, Zeros, ValidName, IsDirectory, Unpacks, Checksum, MadeWith;
      packed := [];
      var valid := ValidateArchiveName(name);
      if mode != Writing || totalFiles == MAX16 || level > 10 || |data| > MAX32 || !valid || |name| > MAX16
         || archiveSize + 30 + 46 + |comment| + |name| > MAX32 || (IsDirectory(name) && data != []) {
        return false, [];
      }
      HoldingCount(buffer[..archiveSize], centralDir, offsets, totalFiles, entries);
      var cur := archiveSize;
      PutAt(cur, Zeros(30));
      cur := cur + 30;
      PutAt(cur, name);
      cur := cur + |name|;
      var crc := CheckSum(data);
      var form;
      packed, form := Pack(data, level);
      PutAt(cur, packed);
      cur := cur + |packed|;
      Pieces(old(buffer), archiveSize, name, packed);
      if |packed| > MAX32 || cur > MAX32 {
        return false, packed;
      }
      ok := Register(name, comment, data, packed, crc, form, time, date, cur, old(buffer));
    }

    /** Closes the archive. */
    method Finalize() returns (ok: bool)
      requires Valid()
      modifies this
      ensures Valid() && entries == old(entries)
      ensures ok <==> old(mode) == Writing && old(archiveSize + |centralDir|) + 22 <= MAX32
      ensures mode == if ok then Finalized else old(mode)
      ensures ok && old(Tidy()) ==> Tidy()
    {
      hide Holding, Written, Put, EndRecord;
      if mode != Writing || totalFiles > MAX16 || archiveSize + |centralDir| + 22 > MAX32 {
        if mode == Writing { HoldingCount(buffer[..archiveSize], centralDir, offsets, totalFiles, entries); }
        return false;
      }
      ghost var locals := buffer[..archiveSize];
      var ofs, size := 0, 0;
      HoldingArchive(buffer[..archiveSize], centralDir, offsets, totalFiles, entries);
      if totalFiles > 0 {
        ofs := archiveSize;
        size := |centralDir|;
        PutThere(buffer, ofs, centralDir);
        PutAt(ofs, centralDir);
        archiveSize := archiveSize + size;
      }
      assert buffer[..archiveSize] == locals + centralDir && size == |centralDir| && ofs == |locals|;
      var end := EndRecord(totalFiles, size, ofs);
      PutThere(buffer, archiveSize, end);
      PutAt(archiveSize, end);
      archiveSize := archiveSize + 22;
      assert buffer[..archiveSize] == locals + centralDir + end;
      mode := Finalized;
      ok := true;
    }

    /** Copies bytes of another archive, at most 64 KiB at a time. */
    method CopyBytes(archive: seq<byte>, from: nat, to: nat, count: nat) returns (ok: bool)
      requires to <= |buffer| && from <= |archive|
      modifies `buffer
      ensures ok <==> from + count <= |archive|
      ensures ok ==> |buffer| == if to + count > old(|buffer|) then to + count else old(|buffer|)
      ensures ok ==> buffer[..to + count] == old(buffer[..to]) + archive[from..from + count]
    {
      hide Put, Read;
      var src, dst, remaining: nat := from, to, count;
      while remaining > 0
        invariant src - from == dst - to == count - remaining && from <= src <= |archive| && to <= dst <= |buffer|
        invariant buffer[..dst] == old(buffer[..to]) + archive[from..src]
        invariant |buffer| == if dst > old(|buffer|) then dst else old(|buffer|)
      {
        var n := if remaining < 0x1_0000 then remaining else 0x1_0000;
        var bytes := Read(archive, src, n);
        ReadAll(archive, src, n);
        if |bytes| != n {
          return false;
        }
        assert archive[from..src] + bytes == archive[from..src + n];
        PutThere(buffer, dst, bytes);
        PutAt(dst, bytes);
        src := src + n;
        dst := dst + n;
        remaining := remaining - n;
      }
      ok := true;
    }

    /** Copies the record of a file of an open archive as it is. The caller gives up when this fails. */
    method AddFromReader(r: Reader, k: nat, ghost es: seq<Entry>) returns (ok: bool)
      requires Valid() && r.Valid() && r.Shows(es)
      modifies this
      ensures ok <==> k < |es| && old(mode) == Writing && Copyable(es[k], old(totalFiles), old(archiveSize), old(|centralDir|))
      ensures ok ==> Valid() && mode == Writing && entries == old(entries) + [es[k]]
      ensures ok ==> archiveSize == old(archiveSize) + 30 + |es[k].name| + |es[k].packed|
      ensures ok ==> |centralDir| == old(|centralDir|) + 46 + |es[k].name| + |es[k].comment|
      ensures ok ==> totalFiles == old(totalFiles) + 1
      ensures ok && old(Tidy()) ==> Tidy()
    {
      hide Holding, Written, Put, Read, Get16, Get32, LocalHeader, CentralHeader, RecordAt, Locals, Central, ValidEntry, Le32, HeadersIn;
      WrittenShown(r, es);
      ok := false;
      if mode != Writing || k >= r.totalFiles {
        return;
      }
      HoldingCount(buffer[..archiveSize], centralDir, offsets, totalFiles, entries);
      ShownCentral(r, es, k);
      ShownTail(r.centralDir, r.offsets[k], es[k], |Locals(es[..k])|);
      ShownLocal(r.archive, es, k);
      PatchHeader(es[k], |Locals(es[..k])|, archiveSize);
      if totalFiles == MAX16 || archiveSize + 76 > MAX32 {
        return;
      }
      var p := r.offsets[k];
      var source := r.centralDir[p..p + 46];
      var src := Get32(source, 42);
      var header := Read(r.archive, src, 30);
      if |header| != 30 || Get32(header, 0) != LOCAL_SIG {
        return;
      }
      var localOfs := archiveSize;
      PutThere(buffer, localOfs, header);
      PutAt(localOfs, header);
      ghost var locals := old(buffer[..archiveSize]);
      assert buffer[..localOfs + 30] == locals + header;
      var n := Get16(header, 26) + Get16(header, 28);
      var count := n + Get32(source, 20);
      var copied := CopyBytes(r.archive, src + 30, localOfs + 30, count);
      if !copied || localOfs + 30 + count > MAX32 {
        return;
      }
      var rest := Get16(source, 28) + Get16(source, 30) + Get16(source, 32);
      var record := source[..42] + Le32(localOfs) + r.centralDir[p + 46..p + 46 + rest];
      if |centralDir| + |record| > MAX32 {
        return;
      }
      Registered(locals, centralDir, offsets, totalFiles, entries, es[k], header);
      assert buffer[..localOfs + 30 + count] == locals + header + es[k].name + es[k].packed;
      assert record == CentralHeader(es[k], localOfs) + es[k].name + es[k].comment;
      offsets := offsets + [|centralDir|];
      centralDir := centralDir + record;
      totalFiles := totalFiles + 1;
      archiveSize := localOfs + 30 + count;
      entries := entries + [es[k]];
      ok := true;
    }
  }

  lemma HoldingCount(locals: seq<byte>, centralDir: seq<byte>, offsets: seq<nat>, n: nat, es: seq<Entry>)
    requires Holding(locals, centralDir, offsets, n, es)
    ensures n <= MAX16
  {
  }
}
