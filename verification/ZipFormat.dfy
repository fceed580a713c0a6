/** The ZIP container (APPNOTE.TXT, sections 4.3.7, 4.3.12 and 4.3.16): the records of an archive. */
module ZipFormat {
  import opened Bits
  import opened Format
  import opened Inflate
  import Crc32

  const LOCAL_SIG: nat := 0x0403_4B50
  const CENTRAL_SIG: nat := 0x0201_4B50
  const END_SIG: nat := 0x0605_4B50
  const MAX16: nat := 0xFFFF
  const MAX32: nat := 0xFFFF_FFFF
  const DEFLATED: nat := 8
  const SLASH: byte := 47
  const BACKSLASH: byte := 92
  const COLON: byte := 58

  /** What is stored of one file: its data, and the bytes that stand for them in the archive. */
  datatype Entry = Entry(name: seq<byte>, comment: seq<byte>, data: seq<byte>, packed: seq<byte>,
                         form: nat, time: nat, date: nat)

  predicate IsDirectory(name: seq<byte>) {
    name != [] && name[|name| - 1] == SLASH
  }

  /** No leading slash, no drive letter, no backslash; the name ends at its first zero byte. */
  predicate ValidName(name: seq<byte>) {
    (name != [] ==> name[0] != SLASH) && 0 !in name && BACKSLASH !in name && COLON !in name
  }

  /** The bytes are a whole stream for the data. */
  ghost predicate Unpacks(packed: seq<byte>, data: seq<byte>) {
    exists blocks, tail ::
      Holds(packed, blocks, tail) && StreamGrounded(blocks, []) && StreamData(blocks, []) == data
  }

  ghost predicate ValidEntry(e: Entry) {
    && ValidName(e.name) && |e.name| <= MAX16 && |e.comment| <= MAX16 && e.time <= MAX16 && e.date <= MAX16
    && |e.data| <= MAX32 && |e.packed| <= MAX32
    && (IsDirectory(e.name) ==> e.data == [])
    && (e.form == 0 || e.form == DEFLATED)
    && (e.form == 0 ==> e.packed == e.data)
    && (e.form == DEFLATED ==> |e.data| > 3 && Unpacks(e.packed, e.data))
  }

  ghost predicate ValidEntries(es: seq<Entry>) {
    forall k :: 0 <= k < |es| ==> ValidEntry(es[k])
  }

  function Bytes8(data: seq<byte>): seq<bv8> {
    seq(|data|, i requires 0 <= i < |data| => data[i] as bv8)
  }

  function Checksum(data: seq<byte>): (c: nat)
    ensures c <= MAX32
  {
    Crc32.Not(Crc32.Remainder(0xFFFF_FFFF, Bytes8(data))) as nat
  }

  /** The k-th byte of a number, lowest first. */
  function ByteOf(v: nat, k: nat): byte
    requires k < 4
  {
    match k
    case 0 => v % 256
    case 1 => v / 256 % 256
    case 2 => v / 0x1_0000 % 256
    case _ => v / 0x100_0000 % 256
  }

  function Get16(s: seq<nat>, p: nat): nat
    requires p + 2 <= |s|
  {
    s[p] + 256 * s[p + 1]
  }

  function Get32(s: seq<nat>, p: nat): nat
    requires p + 4 <= |s|
  {
    s[p] + 256 * s[p + 1] + 0x1_0000 * s[p + 2] + 0x100_0000 * s[p + 3]
  }

  lemma Get16Of(v: nat)
    requires v <= MAX16
    ensures ByteOf(v, 0) + 256 * ByteOf(v, 1) == v
  {
  }

  lemma Get32Of(v: nat)
    requires v <= MAX32
    ensures ByteOf(v, 0) + 256 * ByteOf(v, 1) + 0x1_0000 * ByteOf(v, 2) + 0x100_0000 * ByteOf(v, 3) == v
  {
    assert v / 0x1_0000 == v / 256 / 256 && v / 0x100_0000 == v / 256 / 256 / 256;
    assert v / 0x100_0000 < 256;
  }

  function VersionNeeded(form: nat): nat {
    if form != 0 then 20 else 0
  }

  function Attributes(name: seq<byte>): nat {
    if IsDirectory(name) then 0x10 else 0
  }

  /** The fields that a local and a central header share. */
  function Kind(form: nat, time: nat, date: nat): (h: seq<byte>)
    ensures |h| == 10
  {
    var v := VersionNeeded(form);
    [ByteOf(v, 0), ByteOf(v, 1), 0, 0, ByteOf(form, 0), ByteOf(form, 1),
     ByteOf(time, 0), ByteOf(time, 1), ByteOf(date, 0), ByteOf(date, 1)]
  }

  function Sizes(crc: nat, packedSize: nat, size: nat, nameSize: nat): (h: seq<byte>)
    ensures |h| == 16
  {
    [ByteOf(crc, 0), ByteOf(crc, 1), ByteOf(crc, 2), ByteOf(crc, 3),
     ByteOf(packedSize, 0), ByteOf(packedSize, 1), ByteOf(packedSize, 2), ByteOf(packedSize, 3),
     ByteOf(size, 0), ByteOf(size, 1), ByteOf(size, 2), ByteOf(size, 3),
     ByteOf(nameSize, 0), ByteOf(nameSize, 1), 0, 0]
  }

  /** Comment length, disk, internal and external attributes, place of the local record. */
  function Place(commentSize: nat, attributes: nat, ofs: nat): (h: seq<byte>)
    ensures |h| == 14
  {
    [ByteOf(commentSize, 0), ByteOf(commentSize, 1), 0, 0, 0, 0,
     ByteOf(attributes, 0), ByteOf(attributes, 1), ByteOf(attributes, 2), ByteOf(attributes, 3),
     ByteOf(ofs, 0), ByteOf(ofs, 1), ByteOf(ofs, 2), ByteOf(ofs, 3)]
  }

  function CreateLocalDirHeader(nameSize: nat, size: nat, packedSize: nat, crc: nat, form: nat, time: nat, date: nat): (h: seq<byte>)
    ensures |h| == 30
  {
    [0x50, 0x4B, 3, 4] + Kind(form, time, date) + Sizes(crc, packedSize, size, nameSize)
  }

  function CreateCentralDirHeader(nameSize: nat, commentSize: nat, size: nat, packedSize: nat, crc: nat,
                                  form: nat, time: nat, date: nat, ofs: nat, attributes: nat): (h: seq<byte>)
    ensures |h| == 46
  {
    [0x50, 0x4B, 1, 2, 0, 0] + Kind(form, time, date) + Sizes(crc, packedSize, size, nameSize) + Place(commentSize, attributes, ofs)
  }

  function LocalHeader(e: Entry): (h: seq<byte>)
    ensures |h| == 30
  {
    CreateLocalDirHeader(|e.name|, |e.data|, |e.packed|, Checksum(e.data), e.form, e.time, e.date)
  }

  function CentralHeader(e: Entry, ofs: nat): (h: seq<byte>)
    ensures |h| == 46
  {
    CreateCentralDirHeader(|e.name|, |e.comment|, |e.data|, |e.packed|, Checksum(e.data),
                           e.form, e.time, e.date, ofs, Attributes(e.name))
  }

  function Totals(n: nat, size: nat, ofs: nat): (h: seq<byte>)
    ensures |h| == 14
  {
    [ByteOf(n, 0), ByteOf(n, 1), ByteOf(n, 0), ByteOf(n, 1),
     ByteOf(size, 0), ByteOf(size, 1), ByteOf(size, 2), ByteOf(size, 3),
     ByteOf(ofs, 0), ByteOf(ofs, 1), ByteOf(ofs, 2), ByteOf(ofs, 3), 0, 0]
  }

  function EndRecord(n: nat, size: nat, ofs: nat): (h: seq<byte>)
    ensures |h| == 22
  {
    [0x50, 0x4B, 5, 6, 0, 0, 0, 0] + Totals(n, size, ofs)
  }

  lemma KindFields(form: nat, time: nat, date: nat)
    requires form <= MAX16 && time <= MAX16 && date <= MAX16
    ensures var h := Kind(form, time, date);
            && Get16(h, 0) == (if form == 0 then 0 else 20) && Get16(h, 2) == 0
            && Get16(h, 4) == form && Get32(h, 4) == form + 0x1_0000 * time
            && Get16(h, 6) == time && Get16(h, 8) == date
  {
    hide ByteOf;
    Get16Of(VersionNeeded(form));
    Get16Of(form);
    Get16Of(time);
    Get16Of(date);
  }

  lemma SizesFields(crc: nat, packedSize: nat, size: nat, nameSize: nat)
    requires crc <= MAX32 && packedSize <= MAX32 && size <= MAX32 && nameSize <= MAX16
    ensures var h := Sizes(crc, packedSize, size, nameSize);
            && Get32(h, 0) == crc && Get32(h, 4) == packedSize && Get32(h, 8) == size
            && Get16(h, 12) == nameSize && Get16(h, 14) == 0
  {
    hide ByteOf;
    Get32Of(crc);
    Get32Of(packedSize);
    Get32Of(size);
    Get16Of(nameSize);
  }

  lemma PlaceFields(commentSize: nat, attributes: nat, ofs: nat)
    requires commentSize <= MAX16 && attributes <= MAX32 && ofs <= MAX32
    ensures var h := Place(commentSize, attributes, ofs);
            && Get16(h, 0) == commentSize && Get16(h, 2) == 0 && Get16(h, 4) == 0 && Get32(h, 6) == attributes && Get32(h, 10) == ofs
  {
    hide ByteOf;
    Get16Of(commentSize);
    Get32Of(attributes);
    Get32Of(ofs);
  }

  lemma AttributesSmall(name: seq<byte>)
    ensures Attributes(name) == if |name| > 0 && name[|name| - 1] == 47 then 0x10 else 0
  {
  }

  /** A field is read alike within a larger record. */
  lemma GetWithin(s: seq<nat>, p: nat, part: seq<nat>, o: nat)
    requires p + |part| <= |s| && s[p..p + |part|] == part
    ensures o + 2 <= |part| ==> Get16(s, p + o) == Get16(part, o)
    ensures o + 4 <= |part| ==> Get32(s, p + o) == Get32(part, o)
  {
    assert forall i :: 0 <= i < |part| ==> part[i] == s[p + i];
  }

  /** The local header field by field: signature, version, flags, form, time, date, checksum, sizes, and the
      lengths of the name and of an extra field. */
  lemma LocalFields(e: Entry)
    requires ValidEntry(e)
    ensures var h := LocalHeader(e);
            && Get32(h, 0) == 0x04034B50 && Get16(h, 4) == (if e.form == 8 then 20 else 0) && Get16(h, 6) == 0
            && Get16(h, 8) == e.form && Get16(h, 10) == e.time && Get16(h, 12) == e.date
            && Get32(h, 14) == Checksum(e.data) && Get32(h, 18) == |e.packed| && Get32(h, 22) == |e.data|
            && Get16(h, 26) == |e.name| && Get16(h, 28) == 0
  {
    hide Unpacks, Checksum, Kind, Sizes, ValidName, LocalHeader, Get16, Get32;
    var h := LocalHeader(e);
    var kind, sizes := Kind(e.form, e.time, e.date), Sizes(Checksum(e.data), |e.packed|, |e.data|, |e.name|);
    LocalParts(e);
    KindFields(e.form, e.time, e.date);
    SizesFields(Checksum(e.data), |e.packed|, |e.data|, |e.name|);
    GetWithin(h, 4, kind, 0);
    GetWithin(h, 4, kind, 2);
    GetWithin(h, 4, kind, 4);
    GetWithin(h, 4, kind, 6);
    GetWithin(h, 4, kind, 8);
    GetWithin(h, 14, sizes, 0);
    GetWithin(h, 14, sizes, 4);
    GetWithin(h, 14, sizes, 8);
    GetWithin(h, 14, sizes, 12);
    GetWithin(h, 14, sizes, 14);
  }

  lemma LocalParts(e: Entry)
    ensures var h := LocalHeader(e);
            h[4..14] == Kind(e.form, e.time, e.date) && h[14..30] == Sizes(Checksum(e.data), |e.packed|, |e.data|, |e.name|)
    ensures Get32(LocalHeader(e), 0) == 0x04034B50
  {
    hide Kind, Sizes;
  }

  lemma CentralParts(e: Entry, ofs: nat)
    ensures var h := CentralHeader(e, ofs);
            && h[6..16] == Kind(e.form, e.time, e.date)
            && h[16..32] == Sizes(Checksum(e.data), |e.packed|, |e.data|, |e.name|)
            && h[32..46] == Place(|e.comment|, Attributes(e.name), ofs)
    ensures Get32(CentralHeader(e, ofs), 0) == 0x02014B50 && Get16(CentralHeader(e, ofs), 4) == 0
  {
    hide Kind, Sizes, Place;
  }

  /** The central header field by field: signature, the version that made it, version, flags, form, time, date,
      checksum, sizes, the lengths of name, extra field and comment, disk, attributes and the local record's place. */
  lemma CentralFields(e: Entry, ofs: nat)
    requires ValidEntry(e) && ofs <= MAX32
    ensures var h := CentralHeader(e, ofs);
            && Get32(h, 0) == 0x02014B50 && Get16(h, 4) == 0 && Get16(h, 6) == (if e.form == 8 then 20 else 0) && Get16(h, 8) == 0
            && Get16(h, 10) == e.form && Get32(h, 10) == e.form + 0x1_0000 * e.time
            && Get16(h, 12) == e.time && Get16(h, 14) == e.date && Get32(h, 16) == Checksum(e.data)
            && Get32(h, 20) == |e.packed| && Get32(h, 24) == |e.data|
            && Get16(h, 28) == |e.name| && Get16(h, 30) == 0 && Get16(h, 32) == |e.comment|
            && Get16(h, 34) == 0 && Get16(h, 36) == 0 && Get32(h, 42) == ofs
            && Get32(h, 38) == if |e.name| > 0 && e.name[|e.name| - 1] == 47 then 0x10 else 0
  {
    hide Unpacks, Checksum, Kind, Sizes, Place, CentralHeader, Get16, Get32, ValidName, Attributes;
    var h := CentralHeader(e, ofs);
    CentralParts(e, ofs);
    AttributesSmall(e.name);
    KindFields(e.form, e.time, e.date);
    SizesFields(Checksum(e.data), |e.packed|, |e.data|, |e.name|);
    PlaceFields(|e.comment|, Attributes(e.name), ofs);
    GetWithin(h, 6, Kind(e.form, e.time, e.date), 0);
    GetWithin(h, 6, Kind(e.form, e.time, e.date), 2);
    GetWithin(h, 6, Kind(e.form, e.time, e.date), 4);
    GetWithin(h, 6, Kind(e.form, e.time, e.date), 6);
    GetWithin(h, 6, Kind(e.form, e.time, e.date), 8);
    GetWithin(h, 16, Sizes(Checksum(e.data), |e.packed|, |e.data|, |e.name|), 0);
    GetWithin(h, 16, Sizes(Checksum(e.data), |e.packed|, |e.data|, |e.name|), 4);
    GetWithin(h, 16, Sizes(Checksum(e.data), |e.packed|, |e.data|, |e.name|), 8);
    GetWithin(h, 16, Sizes(Checksum(e.data), |e.packed|, |e.data|, |e.name|), 12);
    GetWithin(h, 16, Sizes(Checksum(e.data), |e.packed|, |e.data|, |e.name|), 14);
    GetWithin(h, 32, Place(|e.comment|, Attributes(e.name), ofs), 0);
    GetWithin(h, 32, Place(|e.comment|, Attributes(e.name), ofs), 2);
    GetWithin(h, 32, Place(|e.comment|, Attributes(e.name), ofs), 4);
    GetWithin(h, 32, Place(|e.comment|, Attributes(e.name), ofs), 6);
    GetWithin(h, 32, Place(|e.comment|, Attributes(e.name), ofs), 10);
  }

  lemma TotalsFields(n: nat, size: nat, ofs: nat)
    requires n <= MAX16 && size <= MAX32 && ofs <= MAX32
    ensures var h := Totals(n, size, ofs);
            Get16(h, 0) == n && Get16(h, 2) == n && Get32(h, 4) == size && Get32(h, 8) == ofs && Get16(h, 12) == 0
  {
    hide ByteOf;
    Get16Of(n);
    Get32Of(size);
    Get32Of(ofs);
  }

  /** The end record field by field: signature, disks, counts of files, size and place of the directory, and the
      length of a comment. */
  lemma EndFields(n: nat, size: nat, ofs: nat)
    requires n <= MAX16 && size <= MAX32 && ofs <= MAX32
    ensures var h := EndRecord(n, size, ofs);
            && Get32(h, 0) == 0x06054B50 && Get16(h, 4) == 0 && Get16(h, 6) == 0 && Get16(h, 8) == n && Get16(h, 10) == n
            && Get32(h, 12) == size && Get32(h, 16) == ofs && Get16(h, 20) == 0
  {
    hide Totals;
    var h := EndRecord(n, size, ofs);
    TotalsFields(n, size, ofs);
    assert h[8..22] == Totals(n, size, ofs);
    GetWithin(h, 8, Totals(n, size, ofs), 0);
    GetWithin(h, 8, Totals(n, size, ofs), 2);
    GetWithin(h, 8, Totals(n, size, ofs), 4);
    GetWithin(h, 8, Totals(n, size, ofs), 8);
    GetWithin(h, 8, Totals(n, size, ofs), 12);
  }

  // ---------- the archive

  function LocalRecord(e: Entry): (r: seq<byte>)
    ensures |r| == 30 + |e.name| + |e.packed|
  {
    LocalHeader(e) + e.name + e.packed
  }

  function CentralRecord(e: Entry, ofs: nat): (r: seq<byte>)
    ensures |r| == 46 + |e.name| + |e.comment|
  {
    CentralHeader(e, ofs) + e.name + e.comment
  }

  function Locals(es: seq<Entry>): seq<byte> {
    if es == [] then [] else Locals(es[..|es| - 1]) + LocalRecord(es[|es| - 1])
  }

  /** One record a file, each with the place of the file's local record. */
  function Central(es: seq<Entry>): seq<byte> {
    if es == [] then []
    else
      var m := |es| - 1;
      Central(es[..m]) + CentralRecord(es[m], |Locals(es[..m])|)
  }

  function Archive(es: seq<Entry>): seq<byte> {
    Locals(es) + Central(es) + EndRecord(|es|, |Central(es)|, |Locals(es)|)
  }

  /** The archive can be written with 16-bit counts and 32-bit offsets. */
  predicate Fits(es: seq<Entry>) {
    |es| <= MAX16 && |Archive(es)| <= MAX32
  }

  lemma SnocRecords(es: seq<Entry>, e: Entry)
    ensures Locals(es + [e]) == Locals(es) + LocalRecord(e)
    ensures Central(es + [e]) == Central(es) + CentralRecord(e, |Locals(es)|)
  {
    hide LocalRecord, CentralRecord;
    assert (es + [e])[..|es|] == es;
  }

  lemma {:induction false} PrefixRecords(es: seq<Entry>, k: nat)
    requires k <= |es|
    ensures Locals(es[..k]) <= Locals(es) && Central(es[..k]) <= Central(es)
    decreases |es| - k
  {
    hide LocalRecord, CentralRecord;
    if k < |es| {
      PrefixRecords(es, k + 1);
      assert es[..k + 1][..k] == es[..k];
    } else {
      assert es[..k] == es;
    }
  }

  /** Where the records of the k-th file are. */
  lemma RecordsAt(es: seq<Entry>, k: nat)
    requires k < |es|
    ensures var p := |Locals(es[..k])|; var r := LocalRecord(es[k]);
            p + |r| <= |Locals(es)| && Locals(es)[p..p + |r|] == r && |Locals(es[..k + 1])| == p + |r|
    ensures var p := |Central(es[..k])|; var r := CentralRecord(es[k], |Locals(es[..k])|);
            p + |r| <= |Central(es)| && Central(es)[p..p + |r|] == r && |Central(es[..k + 1])| == p + |r|
  {
    hide LocalRecord, CentralRecord, Locals, Central;
    PrefixRecords(es, k + 1);
    assert es[..k] + [es[k]] == es[..k + 1];
    SnocRecords(es[..k], es[k]);
    SliceOfPrefix(Locals(es[..k]), LocalRecord(es[k]), Locals(es));
    SliceOfPrefix(Central(es[..k]), CentralRecord(es[k], |Locals(es[..k])|), Central(es));
  }

  lemma SliceOfPrefix(a: seq<byte>, b: seq<byte>, s: seq<byte>)
    requires a + b <= s
    ensures |a| + |b| <= |s| && s[|a|..|a| + |b|] == b
  {
    assert s[..|a| + |b|] == a + b;
    assert s[|a|..|a| + |b|] == s[..|a| + |b|][|a|..];
  }

  /** The central directory has at least one header for each file. */
  lemma {:induction false} CentralSize(es: seq<Entry>)
    ensures |Central(es)| >= 46 * |es|
    decreases |es|
  {
    hide CentralRecord;
    if es != [] { CentralSize(es[..|es| - 1]); }
  }
}
