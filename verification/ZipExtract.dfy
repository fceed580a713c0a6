/** Getting the contents of a file out of an open archive. */
module ZipExtract {
  import opened Bits
  import opened Format
  import opened Inflate
  import opened ZipFormat
  import opened ZipReaders
  import opened NameIndex
  import Crc32

  /** Where the contents start, if the local header is there. */
  function DataStart(archive: seq<byte>, localOfs: nat): Option<nat> {
    var h := Read(archive, localOfs, 30);
    if |h| != 30 || Get32(h, 0) != LOCAL_SIG then None
    else Some(localOfs + 30 + Get16(h, 26) + Get16(h, 28))
  }

  /** The contents lie within the archive. */
  predicate Present(archive: seq<byte>, stat: Stat) {
    var start := DataStart(archive, stat.localOfs);
    && start.Some? && start.value + stat.packedSize <= |archive|
    && (stat.form == 0 ==> start.value + stat.size <= |archive|)
  }

  function Packed(archive: seq<byte>, stat: Stat): seq<byte>
    requires Present(archive, stat)
  {
    var start := DataStart(archive, stat.localOfs).value;
    archive[start..start + if stat.form == 0 then stat.size else stat.packedSize]
  }

  /** If the contents are compressed, they are a whole stream for d. */
  ghost predicate Inflatable(archive: seq<byte>, stat: Stat, d: seq<byte>) {
    stat.form == DEFLATED && Present(archive, stat) ==> Unpacks(Packed(archive, stat), d)
  }

  function Contents(archive: seq<byte>, stat: Stat, d: seq<byte>): seq<byte>
    requires Present(archive, stat)
  {
    if stat.form == 0 then Packed(archive, stat) else d
  }

  /** Encrypted, or a patch. */
  predicate Flagged(flags: nat) {
    flags % 2 != 0 || flags / 32 % 2 != 0
  }

  /** Bit 0 stands for encryption and bit 5 for a patch. */
  lemma FlaggedBits(flags: nat)
    requires flags <= MAX16
    ensures Flagged(flags) <==> ToBits(flags, 16)[0] || ToBits(flags, 16)[5]
  {
    ToBitsAt(flags, 16, 0);
    ToBitsAt(flags, 16, 5);
    ShrTwo(flags, 3);
    ShrTwo(flags / 4, 1);
    assert Shr(flags / 4 / 4, 1) == flags / 4 / 4 / 2;
  }

  predicate NoContents(stat: Stat, directory: bool) {
    stat.packedSize == 0 || directory
  }

  /** Exactly these files can be extracted. */
  predicate Extractable(archive: seq<byte>, stat: Stat, directory: bool, d: seq<byte>) {
    || NoContents(stat, directory)
    || (&& !Flagged(stat.flags) && (stat.form == 0 || stat.form == DEFLATED) && Present(archive, stat)
        && |Contents(archive, stat, d)| == stat.size && Checksum(Contents(archive, stat, d)) == stat.crc)
  }

  lemma LocalRecordAt(archive: seq<byte>, es: seq<Entry>, k: nat)
    requires Written(archive, es) && k < |es|
    ensures var r := LocalRecord(es[k]); var ofs := |Locals(es[..k])|;
            ofs + |r| + 22 <= |archive| && archive[ofs..ofs + |r|] == r
  {
    hide Written, Locals, LocalRecord, Archive, ValidEntry, Central;
    var ofs, r := |Locals(es[..k])|, LocalRecord(es[k]);
    RecordsAt(es, k);
    ArchiveParts(archive, es);
    InPrefix(archive, Locals(es), ofs, ofs + |r|);
  }

  lemma PartsOfLocal(archive: seq<byte>, e: Entry, ofs: nat)
    requires var r := LocalRecord(e); ofs + |r| + 22 <= |archive| && archive[ofs..ofs + |r|] == r
    ensures archive[ofs..ofs + 30] == LocalHeader(e)
    ensures archive[ofs + 30 + |e.name|..ofs + 30 + |e.name| + |e.packed|] == e.packed
  {
    hide LocalHeader;
    var r := LocalRecord(e);
    assert r[..30] == LocalHeader(e) && r[30 + |e.name|..] == e.packed;
    SliceTwice(archive, ofs, r, 0, 30);
    SliceTwice(archive, ofs, r, 30 + |e.name|, |r|);
  }

  lemma StartOfLocal(archive: seq<byte>, e: Entry, ofs: nat)
    requires ValidEntry(e) && ofs + 30 <= |archive| && archive[ofs..ofs + 30] == LocalHeader(e)
    ensures DataStart(archive, ofs) == Some(ofs + 30 + |e.name|)
  {
    hide LocalHeader, Get16, Get32, ValidEntry;
    LocalFields(e);
  }

  lemma DataShown(archive: seq<byte>, es: seq<Entry>, k: nat)
    requires Written(archive, es) && k < |es|
    ensures var e := es[k]; var ofs := |Locals(es[..k])|;
            && DataStart(archive, ofs) == Some(ofs + 30 + |e.name|)
            && ofs + 30 + |e.name| + |e.packed| <= |archive|
            && archive[ofs + 30 + |e.name|..ofs + 30 + |e.name| + |e.packed|] == e.packed
  {
    hide Written, Locals, LocalHeader, LocalRecord, DataStart, ValidEntry;
    LocalRecordAt(archive, es, k);
    PartsOfLocal(archive, es[k], |Locals(es[..k])|);
    EntryValid(archive, es, k);
    StartOfLocal(archive, es[k], |Locals(es[..k])|);
  }

  lemma InPrefix(s: seq<byte>, p: seq<byte>, a: nat, b: nat)
    requires |p| <= |s| && s[..|p|] == p && a <= b <= |p|
    ensures s[a..b] == p[a..b]
  {
    assert forall j :: 0 <= j < |p| ==> s[j] == p[j];
  }

  lemma EntryValid(archive: seq<byte>, es: seq<Entry>, k: nat)
    requires Written(archive, es) && k < |es|
    ensures ValidEntry(es[k])
  {
    hide ValidEntry;
  }

  /** A file of an archive that was written can be extracted. */
  lemma ShownExtractable(archive: seq<byte>, es: seq<Entry>, k: nat)
    requires Written(archive, es) && k < |es|
    ensures var e := es[k]; var stat := StatOf(e, |Locals(es[..k])|);
            && Inflatable(archive, stat, e.data) && Extractable(archive, stat, IsDirectory(e.name), e.data)
            && (NoContents(stat, IsDirectory(e.name)) ==> e.data == [])
            && (!NoContents(stat, IsDirectory(e.name)) ==> Present(archive, stat) && Contents(archive, stat, e.data) == e.data)
  {
    hide Written, Locals, DataStart, Unpacks, ValidName, Checksum, Attributes, IsDirectory;
    var e := es[k];
    DataShown(archive, es, k);
    EntryValid(archive, es, k);
    if e.form == DEFLATED { PackedNotEmpty(e.packed, e.data); }
  }

  lemma ChecksumOfCrc(data: seq<byte>, c: bv32)
    requires c == Crc32.Not(Crc32.Remainder(Crc32.Not(0), Bytes8(data)))
    ensures c as nat == Checksum(data)
  {
    hide Crc32.Not, Crc32.Remainder, Bytes8;
    Crc32.NotNot(0);
  }

  method CheckSum(data: seq<byte>) returns (c: nat)
    ensures c == Checksum(data)
  {
    hide *;
    var crc := Crc32.Crc(0, Bytes8(data));
    ChecksumOfCrc(data, crc);
    c := crc as nat;
  }

  lemma UnpackedBy(packed: seq<byte>, d: seq<byte>) returns (blocks: seq<Block>, tail: seq<bool>)
    requires Unpacks(packed, d)
    ensures Holds(packed, blocks, tail) && StreamGrounded(blocks, []) && StreamData(blocks, []) == d
  {
    hide Holds, StreamGrounded, StreamData;
    blocks, tail :| Holds(packed, blocks, tail) && StreamGrounded(blocks, []) && StreamData(blocks, []) == d;
  }

  /** Copies or decompresses the contents and compares their checksum with the listed one. */
  method Fill(archive: seq<byte>, stat: Stat, out: array<byte>, ghost d: seq<byte>) returns (ok: bool)
    requires out.Length == stat.size && Inflatable(archive, stat, d) && (stat.form == 0 || stat.form == DEFLATED)
    modifies out
    ensures ok <==> Present(archive, stat) && |Contents(archive, stat, d)| == stat.size
                    && Checksum(Contents(archive, stat, d)) == stat.crc
    ensures ok ==> out[..] == Contents(archive, stat, d)
  {
    hide Checksum, Unpacks, Holds, StreamGrounded, StreamData, Read, Get16, Get32;
    var header := Read(archive, stat.localOfs, 30);
    if |header| != 30 || Get32(header, 0) != LOCAL_SIG {
      return false;
    }
    var start := stat.localOfs + 30 + Get16(header, 26) + Get16(header, 28);
    if start + stat.packedSize > |archive| {
      return false;
    }
    if stat.form == 0 {
      var bytes := Read(archive, start, stat.size);
      ReadAll(archive, start, stat.size);
      if |bytes| != stat.size {
        return false;
      }
      forall i | 0 <= i < |bytes| { out[i] := bytes[i]; }
      assert out[..] == bytes;
    } else {
      ghost var blocks, tail := UnpackedBy(Packed(archive, stat), d);
      var n := MemToMem(out, archive[start..start + stat.packedSize], blocks, tail);
      if n != stat.size {
        return false;
      }
      assert out[..] == out[..n];
    }
    var crc := CheckSum(out[..]);
    ok := crc == stat.crc;
  }

  lemma ReadAll(s: seq<byte>, ofs: nat, n: nat)
    requires ofs <= |s|
    ensures |Read(s, ofs, n)| == n <==> ofs + n <= |s|
    ensures ofs + n <= |s| ==> Read(s, ofs, n) == s[ofs..ofs + n]
  {
  }

  /** A buffer of the listed size, with the contents. */
  method ExtractToHeap(r: Reader, k: nat, ghost d: seq<byte>) returns (ok: bool, data: array<byte>)
    requires r.Valid() && (k < r.totalFiles ==> Inflatable(r.archive, r.StatAt(k), d))
    ensures ok <==> k < r.totalFiles && Extractable(r.archive, r.StatAt(k), r.DirectoryAt(k), d)
    ensures ok ==> data.Length == r.StatAt(k).size && fresh(data)
    ensures ok && !NoContents(r.StatAt(k), r.DirectoryAt(k)) ==> data[..] == Contents(r.archive, r.StatAt(k), d)
  {
    hide Checksum, Unpacks, Present, Packed, Contents, Inflatable, Flagged;
    if k >= r.totalFiles {
      return false, new byte[0];
    }
    var stat := r.StatAt(k);
    data := new byte[stat.size];
    ok := false;
    if stat.packedSize == 0 || r.DirectoryAt(k) {
      ok := true;
    } else if !Flagged(stat.flags) && (stat.form == 0 || stat.form == DEFLATED) {
      ok := Fill(r.archive, stat, data, d);
    }
  }

  lemma ShownAt(r: Reader, es: seq<Entry>, k: nat)
    requires r.Valid() && r.Shows(es) && k < |es|
    ensures k < r.totalFiles && r.StatAt(k) == StatOf(es[k], |Locals(es[..k])|)
    ensures r.DirectoryAt(k) == IsDirectory(es[k].name) && r.Names()[k] == es[k].name
  {
    hide Written, Central, Locals, StatIn, StatOf, DirectoryIn, IsDirectory, NameIn;
    FileShown(r.archive, es, k);
  }

  /** Extraction of the k-th file of an archive that was written gives its data. */
  method ExtractShown(r: Reader, k: nat, ghost es: seq<Entry>) returns (ok: bool, data: array<byte>)
    requires r.Valid() && r.Shows(es) && k < |es|
    ensures ok && data[..] == es[k].data && fresh(data)
  {
    hide *;
    ShownAt(r, es, k);
    WrittenShown(r, es);
    ShownExtractable(r.archive, es, k);
    ok, data := ExtractToHeap(r, k, es[k].data);
    SizeShown(es[k], |Locals(es[..k])|);
    assert es[k].data == [] ==> data[..] == [];
  }

  lemma WrittenShown(r: Reader, es: seq<Entry>)
    requires r.Shows(es)
    ensures Written(r.archive, es) && r.totalFiles == |es|
  {
    hide Written;
  }

  lemma SizeShown(e: Entry, ofs: nat)
    ensures StatOf(e, ofs).size == |e.data|
  {
  }

  /** By name: some file whose name differs in case at most. */
  method ExtractByName(r: Reader, name: seq<byte>, ghost es: seq<Entry>) returns (k: int, data: array<byte>)
    requires r.Valid() && r.Indexed() && r.Shows(es)
    ensures k >= 0 <==> exists i :: 0 <= i < |es| && SameName(es[i].name, Truncated(name))
    ensures k >= 0 ==> k < |es| && SameName(es[k].name, Truncated(name)) && data[..] == es[k].data && fresh(data)
  {
    hide *;
    WrittenShown(r, es);
    IndexedNames(r);
    NamesShown(r, es, Truncated(name));
    k := LocateBinary(r.Names(), r.sorted, name);
    if k >= 0 {
      ShownAt(r, es, k);
      var ok;
      ok, data := ExtractShown(r, k, es);
    } else {
      data := new byte[0];
    }
  }

  lemma IndexedNames(r: Reader)
    requires r.Valid() && r.Indexed()
    ensures |r.Names()| == r.totalFiles && Indices(r.sorted[..], |r.Names()|) && Sorted(r.Names(), r.sorted[..])
  {
    hide Indices, Sorted;
  }

  lemma NamesShown(r: Reader, es: seq<Entry>, name: seq<byte>)
    requires r.Valid() && r.Shows(es)
    ensures Found(r.Names(), name) <==> exists i :: 0 <= i < |es| && SameName(es[i].name, name)
  {
    hide SameName, Reader.Shows, Reader.Names, Reader.Valid;
    WrittenShown(r, es);
    SizeOfNames(r);
    forall i: nat | i < |es| ensures r.Names()[i] == es[i].name { ShownAt(r, es, i); }
    if Found(r.Names(), name) {
      var i: nat :| i < |r.Names()| && SameName(r.Names()[i], name);
      assert SameName(es[i].name, name);
    }
    if i: nat :| i < |es| && SameName(es[i].name, name) {
      assert SameName(r.Names()[i], name);
    }
  }
}
