/**
 A FAT volume on a block device, and the entries of its allocation table.

 The disk maps the sectors that can be read to their bytes; reading any other sector is
 an error.  Sector numbers and table offsets are 32-bit.
 */
module FatVolume {
  import opened Words
  import opened Wrappers

  datatype Status = Ok | InvalidArgument | InvalidPath | NotFound | NotDirectory | NotFile | Corrupt | IoError

  datatype Kind = Fat12 | Fat16 | Fat32

  datatype Volume = Volume(bytesPerSector: int, sectorsPerCluster: int, fatLba: int, dataLba: int,
                           rootLba: int, rootSectors: int, rootCluster: int, clusterCount: int, kind: Kind)

  type Disk = map<int, seq<int>>

  ghost predicate Distinct(s: seq<int>) {
    forall i, j :: 0 <= i < j < |s| ==> s[i] != s[j]
  }

  /** The geometry that fat_mount accepts. */
  predicate IsVolume(v: Volume) {
    && (v.bytesPerSector == 512 || v.bytesPerSector == 1024 || v.bytesPerSector == 2048 || v.bytesPerSector == 4096)
    && 1 <= v.sectorsPerCluster <= 128 && 1 <= v.clusterCount < WORD
  }

  /** Readable sectors are whole sectors of bytes. */
  ghost predicate IsDisk(v: Volume, disk: Disk) {
    forall lba :: lba in disk ==> |disk[lba]| == v.bytesPerSector && forall i :: 0 <= i < |disk[lba]| ==> 0 <= disk[lba][i] < 256
  }

  /** fat_cluster_is_valid */
  predicate ClusterValid(v: Volume, c: int) {
    2 <= c < (v.clusterCount + 2) % WORD
  }

  /** fat_entry_is_end, fat_entry_is_bad, fat_entry_is_reserved */
  predicate EntryEnds(k: Kind, e: int) {
    match k
    case Fat12 => e >= 0x0FF8
    case Fat16 => e >= 0xFFF8
    case Fat32 => e >= 0x0FFF_FFF8
  }

  predicate EntryBad(k: Kind, e: int) {
    match k
    case Fat12 => e == 0x0FF7
    case Fat16 => e == 0xFFF7
    case Fat32 => e == 0x0FFF_FFF7
  }

  predicate EntryReserved(k: Kind, e: int) {
    match k
    case Fat12 => 0x0FF0 <= e <= 0x0FF6
    case Fat16 => 0xFFF0 <= e <= 0xFFF6
    case Fat32 => 0x0FFF_FFF0 <= e <= 0x0FFF_FFF6
  }

  /** An entry that a walk may follow to the next cluster. */
  predicate EntryLinks(v: Volume, e: int) {
    e != 0 && !EntryEnds(v.kind, e) && !EntryBad(v.kind, e) && !EntryReserved(v.kind, e) && ClusterValid(v, e)
  }

  /** Sector `k` of a cluster; the first is fat_cluster_first_lba. */
  function SectorLba(v: Volume, c: int, k: int): int {
    (v.dataLba + (c - 2) * v.sectorsPerCluster + k) % WORD
  }

  /** The sector that byte `o` lies in, and its place there, for each size a sector may have. */
  function SectorOf(v: Volume, o: int): int {
    if v.bytesPerSector == 512 then o / 512
    else if v.bytesPerSector == 1024 then o / 1024
    else if v.bytesPerSector == 2048 then o / 2048
    else o / 4096
  }

  function InSector(v: Volume, o: int): int {
    if v.bytesPerSector == 512 then o % 512
    else if v.bytesPerSector == 1024 then o % 1024
    else if v.bytesPerSector == 2048 then o % 2048
    else o % 4096
  }

  lemma {:induction false} SectorMeans(v: Volume, o: int)
    requires IsVolume(v)
    ensures SectorOf(v, o) == o / v.bytesPerSector && InSector(v, o) == o % v.bytesPerSector
  {
  }

  // ----- block_read_device -----

  /** The bytes of `count` sectors, if all can be read. */
  function Sectors(disk: Disk, lba: int, count: nat): Option<seq<int>> {
    if count == 0 then Some([])
    else
      var front := Sectors(disk, lba, count - 1);
      var last := (lba + count - 1) % WORD;
      if front.None? || last !in disk then None else Some(front.value + disk[last])
  }

  method ReadDevice(disk: Disk, lba: int, count: nat) returns (r: Option<seq<int>>)
    ensures r == if count == 0 then None else Sectors(disk, lba, count)
  {
    if count == 0 {
      return None;
    }
    var buffer: seq<int> := [];
    var k := 0;
    while k < count
      invariant 0 <= k <= count && Sectors(disk, lba, k) == Some(buffer)
    {
      if (lba + k) % WORD !in disk {
        SectorsFail(disk, lba, k + 1, count);
        return None;
      }
      buffer := buffer + disk[(lba + k) % WORD];
      k := k + 1;
    }
    return Some(buffer);
  }

  lemma {:induction false} SectorsFail(disk: Disk, lba: int, k: nat, count: nat)
    requires k <= count && Sectors(disk, lba, k).None?
    ensures Sectors(disk, lba, count).None?
  {
    if k < count {
      SectorsFail(disk, lba, k, count - 1);
    }
  }

  // ----- table entries -----

  /** Byte offset of an entry, as the 32-bit code computes it. */
  function EntryOffset(k: Kind, c: int): int {
    match k
    case Fat12 => (c + c / 2) % WORD
    case Fat16 => c * 2 % WORD
    case Fat32 => c * 4 % WORD
  }

  function EntryWidth(k: Kind): int {
    if k == Fat32 then 4 else 2
  }

  function Le16(b: seq<int>): int
    requires |b| == 2
  {
    b[0] + 256 * b[1]
  }

  function Le32(b: seq<int>): int
    requires |b| == 4
  {
    b[0] + 256 * b[1] + 65536 * b[2] + 16777216 * b[3]
  }

  /** The entry of cluster `c` held in its own bytes. */
  function Decode(k: Kind, c: int, b: seq<int>): int
    requires |b| == EntryWidth(k)
  {
    match k
    case Fat12 => if c % 2 == 0 then Le16(b) % 4096 else Le16(b) / 16 % 4096
    case Fat16 => Le16(b)
    case Fat32 => Le32(b) % 0x1000_0000
  }

  /** How many sectors fat_read_fat_entry reads. */
  function SectorsNeeded(v: Volume, c: int): int
    requires IsVolume(v)
  {
    var at := InSector(v, EntryOffset(v.kind, c));
    if || (v.kind == Fat12 && at == v.bytesPerSector - 1)
       || (v.kind == Fat16 && at > v.bytesPerSector - 2)
       || (v.kind == Fat32 && at > v.bytesPerSector - 4)
    then 2 else 1
  }

  /** fat_read_fat_entry */
  method ReadFatEntry(v: Volume, disk: Disk, c: int) returns (r: Option<int>)
    requires IsVolume(v) && IsDisk(v, disk) && 0 <= c < WORD
    ensures r == FatEntry(v, disk, c)
  {
    var offset := EntryOffset(v.kind, c);
    var sector, at := offset / v.bytesPerSector, offset % v.bytesPerSector;
    SectorMeans(v, offset);
    var buffer := ReadDevice(disk, v.fatLba + sector, SectorsNeeded(v, c));
    if buffer.None? {
      return None;
    }
    BufferHolds(v, disk, c);
    return Some(Decode(v.kind, c, buffer.value[at..at + EntryWidth(v.kind)]));
  }

  /** `w` bytes of the table at offset `o`, read through `n` sectors. */
  function BytesAt(v: Volume, disk: Disk, o: int, w: nat, n: nat): Option<seq<int>>
    requires IsVolume(v) && IsDisk(v, disk)
  {
    var buffer := Sectors(disk, v.fatLba + SectorOf(v, o), n);
    if buffer.None? || InSector(v, o) + w > |buffer.value| then None
    else Some(buffer.value[InSector(v, o)..InSector(v, o) + w])
  }

  /** The bytes of an entry as read through one or two sectors. */
  function EntryBytes(v: Volume, disk: Disk, c: int): (b: Option<seq<int>>)
    requires IsVolume(v) && IsDisk(v, disk) && 0 <= c < WORD
    ensures b.Some? ==> |b.value| == EntryWidth(v.kind)
  {
    BytesAt(v, disk, EntryOffset(v.kind, c), EntryWidth(v.kind), SectorsNeeded(v, c))
  }

  function FatEntry(v: Volume, disk: Disk, c: int): Option<int>
    requires IsVolume(v) && IsDisk(v, disk) && 0 <= c < WORD
  {
    var b := EntryBytes(v, disk, c);
    if b.None? then None else Some(Decode(v.kind, c, b.value))
  }

  lemma {:induction false} BufferHolds(v: Volume, disk: Disk, c: int)
    requires IsVolume(v) && IsDisk(v, disk) && 0 <= c < WORD
    ensures var offset := EntryOffset(v.kind, c);
            var buffer := Sectors(disk, v.fatLba + SectorOf(v, offset), SectorsNeeded(v, c));
            0 <= InSector(v, offset) && (buffer.Some? ==> InSector(v, offset) + EntryWidth(v.kind) <= |buffer.value|)
  {
    var lba := v.fatLba + SectorOf(v, EntryOffset(v.kind, c));
    if SectorsNeeded(v, c) == 1 {
      SectorsOne(disk, lba);
    } else {
      SectorsTwo(disk, lba);
    }
  }

  // ----- the table as one flat array of bytes -----

  function FlatLba(v: Volume, o: int): int
    requires IsVolume(v)
  {
    (v.fatLba + SectorOf(v, o)) % WORD
  }

  /** Byte `o` of the table, 0 where it cannot be read. */
  function FlatByte(v: Volume, disk: Disk, o: int): int
    requires IsVolume(v) && IsDisk(v, disk) && 0 <= o
  {
    if FlatLba(v, o) in disk then disk[FlatLba(v, o)][InSector(v, o)] else 0
  }

  function FlatBytes(v: Volume, disk: Disk, o: int, n: nat): (b: seq<int>)
    requires IsVolume(v) && IsDisk(v, disk) && 0 <= o
    ensures |b| == n && forall j :: 0 <= j < n ==> b[j] == FlatByte(v, disk, o + j)
  {
    if n == 0 then [] else FlatBytes(v, disk, o, n - 1) + [FlatByte(v, disk, o + n - 1)]
  }

  /** The entry's offset does not wrap. */
  predicate InTable(k: Kind, c: int) {
    0 <= c && match k case Fat12 => c + c / 2 < WORD case Fat16 => c * 2 < WORD case Fat32 => c * 4 < WORD
  }

  lemma {:induction false} SameSector(v: Volume, o: int, j: int)
    requires IsVolume(v) && 0 <= o && 0 <= j && InSector(v, o) + j < v.bytesPerSector
    ensures SectorOf(v, o + j) == SectorOf(v, o) && InSector(v, o + j) == InSector(v, o) + j
  {
  }

  lemma {:induction false} NextSector(v: Volume, o: int)
    requires IsVolume(v) && 0 <= o && InSector(v, o) == v.bytesPerSector - 1
    ensures SectorOf(v, o + 1) == SectorOf(v, o) + 1 && InSector(v, o + 1) == 0
  {
  }

  // A multiple of two leaves room for two bytes in its sector, a multiple of four for four.

  lemma {:induction false} Even512(x: int)
    ensures x * 2 % 512 <= 510
  {
    var q := x * 2 / 512;
    assert x * 2 % 512 == 2 * (x - 256 * q);
  }

  lemma {:induction false} Even1024(x: int)
    ensures x * 2 % 1024 <= 1022
  {
    var q := x * 2 / 1024;
    assert x * 2 % 1024 == 2 * (x - 512 * q);
  }

  lemma {:induction false} Even2048(x: int)
    ensures x * 2 % 2048 <= 2046
  {
    var q := x * 2 / 2048;
    assert x * 2 % 2048 == 2 * (x - 1024 * q);
  }

  lemma {:induction false} Even4096(x: int)
    ensures x * 2 % 4096 <= 4094
  {
    var q := x * 2 / 4096;
    assert x * 2 % 4096 == 2 * (x - 2048 * q);
  }

  lemma {:induction false} Quad512(x: int)
    ensures x * 4 % 512 <= 508
  {
    var q := x * 4 / 512;
    assert x * 4 % 512 == 4 * (x - 128 * q);
  }

  lemma {:induction false} Quad1024(x: int)
    ensures x * 4 % 1024 <= 1020
  {
    var q := x * 4 / 1024;
    assert x * 4 % 1024 == 4 * (x - 256 * q);
  }

  lemma {:induction false} Quad2048(x: int)
    ensures x * 4 % 2048 <= 2044
  {
    var q := x * 4 / 2048;
    assert x * 4 % 2048 == 4 * (x - 512 * q);
  }

  lemma {:induction false} Quad4096(x: int)
    ensures x * 4 % 4096 <= 4092
  {
    var q := x * 4 / 4096;
    assert x * 4 % 4096 == 4 * (x - 1024 * q);
  }

  lemma {:induction false} EvenFits(v: Volume, x: int)
    requires IsVolume(v)
    ensures InSector(v, x * 2) <= v.bytesPerSector - 2
  {
    Even512(x);
    Even1024(x);
    Even2048(x);
    Even4096(x);
  }

  lemma {:induction false} QuadFits(v: Volume, x: int)
    requires IsVolume(v)
    ensures InSector(v, x * 4) <= v.bytesPerSector - 4
  {
    Quad512(x);
    Quad1024(x);
    Quad2048(x);
    Quad4096(x);
  }

  /** A 16- or 32-bit entry never straddles a sector. */
  lemma {:induction false} NeverStraddles(v: Volume, c: int)
    requires IsVolume(v) && InTable(v.kind, c) && v.kind != Fat12
    ensures InSector(v, EntryOffset(v.kind, c)) + EntryWidth(v.kind) <= v.bytesPerSector
  {
    if v.kind == Fat16 {
      EvenFits(v, c);
    } else {
      QuadFits(v, c);
    }
  }

  /** Two sectors are read exactly for a 12-bit entry whose first byte is the last of its sector. */
  lemma {:induction false} TwoSectors(v: Volume, c: int)
    requires IsVolume(v) && InTable(v.kind, c)
    ensures SectorsNeeded(v, c) == 2 <==> v.kind == Fat12 && InSector(v, c + c / 2) == v.bytesPerSector - 1
  {
    if v.kind != Fat12 {
      NeverStraddles(v, c);
    }
  }

  lemma {:induction false} SectorsOne(disk: Disk, lba: int)
    ensures Sectors(disk, lba, 1) == if lba % WORD in disk then Some(disk[lba % WORD]) else None
  {
    assert Sectors(disk, lba, 0) == Some([]);
    if lba % WORD in disk { assert [] + disk[lba % WORD] == disk[lba % WORD]; }
  }

  lemma {:induction false} SectorsTwo(disk: Disk, lba: int)
    ensures Sectors(disk, lba, 2) ==
            if lba % WORD in disk && (lba + 1) % WORD in disk then Some(disk[lba % WORD] + disk[(lba + 1) % WORD]) else None
  {
    SectorsOne(disk, lba);
  }

  /** fat_read_fat_entry reads the table as if it were one flat array: it fails exactly when a byte it needs cannot be read. */
  lemma {:induction false} ReadsFlat(v: Volume, disk: Disk, c: int)
    requires IsVolume(v) && IsDisk(v, disk) && InTable(v.kind, c) && c < WORD
    ensures var o, w := EntryOffset(v.kind, c), EntryWidth(v.kind);
            FatEntry(v, disk, c) ==
            if FlatLba(v, o) in disk && FlatLba(v, o + w - 1) in disk then Some(Decode(v.kind, c, FlatBytes(v, disk, o, w)))
            else None
  {
    FlatEntryBytes(v, disk, c);
  }

  lemma {:induction false} FlatEntryBytes(v: Volume, disk: Disk, c: int)
    requires IsVolume(v) && IsDisk(v, disk) && InTable(v.kind, c) && c < WORD
    ensures var o, w := EntryOffset(v.kind, c), EntryWidth(v.kind);
            EntryBytes(v, disk, c) ==
            if FlatLba(v, o) in disk && FlatLba(v, o + w - 1) in disk then Some(FlatBytes(v, disk, o, w)) else None
  {
    var o, w := EntryOffset(v.kind, c), EntryWidth(v.kind);
    TwoSectors(v, c);
    if SectorsNeeded(v, c) == 1 {
      OneSectorFits(v, c);
      ReadsFlatInOne(v, disk, o, w);
    } else {
      ReadsFlatInTwo(v, disk, o);
    }
  }

  lemma {:induction false} ReadsFlatInOne(v: Volume, disk: Disk, o: nat, w: nat)
    requires IsVolume(v) && IsDisk(v, disk) && 1 <= w && InSector(v, o) + w <= v.bytesPerSector
    ensures FlatLba(v, o + w - 1) == FlatLba(v, o)
    ensures BytesAt(v, disk, o, w, 1) == if FlatLba(v, o) in disk then Some(FlatBytes(v, disk, o, w)) else None
  {
    SameSector(v, o, w - 1);
    OneRead(v, disk, o, w, FlatLba(v, o), InSector(v, o));
    if FlatLba(v, o) in disk {
      OneSectorBytes(v, disk, o, w);
    }
  }

  lemma {:induction false} OneRead(v: Volume, disk: Disk, o: nat, w: nat, lba: int, at: nat)
    requires IsVolume(v) && IsDisk(v, disk) && lba == FlatLba(v, o) && at == InSector(v, o) && at + w <= v.bytesPerSector
    ensures BytesAt(v, disk, o, w, 1) == if lba in disk then Some(disk[lba][at..at + w]) else None
  {
    SectorsOne(disk, v.fatLba + SectorOf(v, o));
  }

  lemma {:induction false} OneSectorFits(v: Volume, c: int)
    requires IsVolume(v) && InTable(v.kind, c) && SectorsNeeded(v, c) == 1
    ensures InSector(v, EntryOffset(v.kind, c)) + EntryWidth(v.kind) <= v.bytesPerSector
  {
    if v.kind != Fat12 {
      NeverStraddles(v, c);
    }
  }

  lemma {:induction false} ReadsFlatInTwo(v: Volume, disk: Disk, o: nat)
    requires IsVolume(v) && IsDisk(v, disk) && InSector(v, o) == v.bytesPerSector - 1
    ensures BytesAt(v, disk, o, 2, 2) ==
            if FlatLba(v, o) in disk && FlatLba(v, o + 1) in disk then Some(FlatBytes(v, disk, o, 2)) else None
  {
    SectorsTwo(disk, v.fatLba + SectorOf(v, o));
    NextSector(v, o);
    if FlatLba(v, o) in disk && FlatLba(v, o + 1) in disk {
      TwoSectorBytes(v, disk, o);
      Seam(disk[FlatLba(v, o)], disk[FlatLba(v, o + 1)]);
    }
  }

  lemma {:induction false} Seam(a: seq<int>, b: seq<int>)
    requires |a| > 0 && |b| > 0
    ensures (a + b)[|a| - 1..|a| + 1] == [a[|a| - 1], b[0]]
  {
  }

  lemma {:induction false} TwoSectorBytes(v: Volume, disk: Disk, o: nat)
    requires IsVolume(v) && IsDisk(v, disk) && InSector(v, o) == v.bytesPerSector - 1
    requires FlatLba(v, o) in disk && FlatLba(v, o + 1) in disk
    ensures FlatBytes(v, disk, o, 2) == [disk[FlatLba(v, o)][v.bytesPerSector - 1], disk[FlatLba(v, o + 1)][0]]
  {
    NextSector(v, o);
    var flat := FlatBytes(v, disk, o, 2);
    assert flat[0] == FlatByte(v, disk, o + 0) && flat[1] == FlatByte(v, disk, o + 1);
  }

  lemma {:induction false} OneSectorBytes(v: Volume, disk: Disk, o: int, w: nat)
    requires IsVolume(v) && IsDisk(v, disk) && 0 <= o && InSector(v, o) + w <= v.bytesPerSector && FlatLba(v, o) in disk
    ensures FlatBytes(v, disk, o, w) == disk[FlatLba(v, o)][InSector(v, o)..InSector(v, o) + w]
  {
    var b, sector := FlatBytes(v, disk, o, w), disk[FlatLba(v, o)];
    forall j | 0 <= j < w ensures b[j] == sector[InSector(v, o) + j] {
      SameSector(v, o, j);
    }
  }

  // ----- 12-bit packing -----

  ghost predicate TwelveBit(values: seq<int>) {
    forall i :: 0 <= i < |values| ==> 0 <= values[i] < 4096
  }

  /** Two 12-bit values in three bytes. */
  function Pack12(values: seq<int>): (b: seq<int>)
    ensures |b| == |values| + |values| / 2 + |values| % 2
    decreases |values|
  {
    if values == [] then []
    else if |values| == 1 then [values[0] % 256, values[0] / 256]
    else [values[0] % 256, values[0] / 256 + values[1] % 16 * 16, values[1] / 16] + Pack12(values[2..])
  }

  /** The two bytes of 12-bit entry `i`. */
  function At12(b: seq<int>, i: nat): seq<int>
    requires i + i / 2 + 1 < |b|
  {
    b[i + i / 2..i + i / 2 + 2]
  }

  /** The two entries of three bytes. */
  lemma {:induction false} PairRoundTrip(x: int, y: int, b: seq<int>)
    requires 0 <= x < 4096 && 0 <= y < 4096 && |b| >= 3
    requires b[0] == x % 256 && b[1] == x / 256 + y % 16 * 16 && b[2] == y / 16
    ensures Decode(Fat12, 0, At12(b, 0)) == x && Decode(Fat12, 1, At12(b, 1)) == y
  {
    assert Le16(At12(b, 0)) == x + 4096 * (y % 16);
    assert Le16(At12(b, 1)) == x / 256 + 16 * y;
  }

  /** Packing any table of 12-bit values and decoding entry `i` gives value `i` back. */
  lemma {:induction false} Pack12RoundTrip(values: seq<int>, i: nat)
    requires TwelveBit(values) && i < |values|
    ensures i + i / 2 + 1 < |Pack12(values)| && Decode(Fat12, i, At12(Pack12(values), i)) == values[i]
    decreases |values|
  {
    var b := Pack12(values);
    if |values| == 1 {
      assert At12(b, 0) == b && Le16(b) == values[0];
    } else if i < 2 {
      PairRoundTrip(values[0], values[1], b);
    } else {
      Pack12RoundTrip(values[2..], i - 2);
      PackedLater(values, b);
      LaterPair(b, i);
    }
  }

  lemma {:induction false} PackedLater(values: seq<int>, b: seq<int>)
    requires |values| >= 2 && b == Pack12(values)
    ensures b[3..] == Pack12(values[2..])
  {
  }

  lemma {:induction false} LaterPair(b: seq<int>, i: nat)
    requires 2 <= i && i + i / 2 + 1 < |b|
    ensures At12(b, i) == At12(b[3..], i - 2) && Decode(Fat12, i, At12(b, i)) == Decode(Fat12, i - 2, At12(b[3..], i - 2))
  {
    assert i / 2 == (i - 2) / 2 + 1;
  }

  /** The table on the disk starts with the bytes `b`. */
  ghost predicate TableIs(v: Volume, disk: Disk, b: seq<int>)
    requires IsVolume(v) && IsDisk(v, disk)
  {
    forall o :: 0 <= o < |b| ==> FlatLba(v, o) in disk && FlatByte(v, disk, o) == b[o]
  }

  lemma {:induction false} TableBytes(v: Volume, disk: Disk, b: seq<int>, o: nat)
    requires IsVolume(v) && IsDisk(v, disk) && TableIs(v, disk, b) && o + 2 <= |b|
    ensures FlatBytes(v, disk, o, 2) == b[o..o + 2] && FlatLba(v, o) in disk && FlatLba(v, o + 1) in disk
  {
    var flat := FlatBytes(v, disk, o, 2);
    assert flat[0] == FlatByte(v, disk, o + 0) && flat[1] == FlatByte(v, disk, o + 1);
    assert b[o..o + 2] == [b[o], b[o + 1]];
  }

  lemma {:induction false} FlatEntry12(v: Volume, disk: Disk, c: nat, o: nat)
    requires IsVolume(v) && IsDisk(v, disk) && v.kind == Fat12 && InTable(Fat12, c) && o == c + c / 2
    requires FlatLba(v, o) in disk && FlatLba(v, o + 1) in disk
    ensures EntryBytes(v, disk, c) == Some(FlatBytes(v, disk, o, 2))
  {
    assert EntryOffset(v.kind, c) == o && EntryWidth(v.kind) == 2;
    assert EntryBytes(v, disk, c) == Some(FlatBytes(v, disk, o, 2)) by {
      FlatEntryBytes(v, disk, c);
    }
  }

  lemma {:induction false} TableEntry(v: Volume, disk: Disk, b: seq<int>, c: nat, o: nat)
    requires IsVolume(v) && IsDisk(v, disk) && v.kind == Fat12 && TableIs(v, disk, b)
    requires InTable(Fat12, c) && o == c + c / 2 && o + 2 <= |b|
    ensures EntryBytes(v, disk, c) == Some(b[o..o + 2])
  {
    var bytes := FlatBytes(v, disk, o, 2);
    assert bytes == b[o..o + 2] && FlatLba(v, o) in disk && FlatLba(v, o + 1) in disk by {
      TableBytes(v, disk, b, o);
    }
    FlatEntry12(v, disk, c, o);
  }

  /** A table packed onto the disk is read back value by value. */
  lemma {:induction false} PackedTableReads(v: Volume, disk: Disk, values: seq<int>, c: nat)
    requires IsVolume(v) && IsDisk(v, disk) && v.kind == Fat12 && TableIs(v, disk, Pack12(values))
    requires TwelveBit(values) && c < |values| && InTable(Fat12, c)
    ensures FatEntry(v, disk, c) == Some(values[c])
  {
    Pack12RoundTrip(values, c);
    TableEntry(v, disk, Pack12(values), c, c + c / 2);
  }
}
