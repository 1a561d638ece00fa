/** Mounting a FAT volume from its boot sector, and where that puts its parts. */
module FatMount {
  import opened Words
  import opened Wrappers
  import opened FatVolume
  import opened FatNames

  /** The BIOS parameter block, as far as fat_mount reads it. */
  datatype Bpb = Bpb(bytesPerSector: int, sectorsPerCluster: int, reserved: int, fats: int, rootEntries: int,
                     total: int, fatSectors: int, rootCluster: int, signed: bool)

  /** The fields at the offsets that the Microsoft FAT32 File System Specification 1.03 gives them. */
  function ReadBpb(s: seq<int>): Bpb
    requires |s| >= 512
  {
    var total16, fat16 := Le16(s[19..21]), Le16(s[22..24]);
    Bpb(Le16(s[11..13]), s[13], Le16(s[14..16]), s[16], Le16(s[17..19]),
        if total16 == 0 then Le32(s[32..36]) else total16,
        if fat16 == 0 then Le32(s[36..40]) else fat16,
        if fat16 == 0 then Le32(s[44..48]) else 0,
        s[510] == 0x55 && s[511] == 0xAA)
  }

  ghost predicate InRange(b: Bpb) {
    && 0 <= b.bytesPerSector < 65536 && 0 <= b.sectorsPerCluster < 256 && 0 <= b.reserved < 65536 && 0 <= b.fats < 256
    && 0 <= b.rootEntries < 65536 && 0 <= b.total < WORD && 0 <= b.fatSectors < WORD && 0 <= b.rootCluster < WORD
  }

  lemma {:induction false} BpbInRange(s: seq<int>)
    requires |s| >= 512 && Bytes(s)
    ensures InRange(ReadBpb(s))
  {
    assert Bytes(s[11..13]) && Bytes(s[14..16]) && Bytes(s[17..19]) && Bytes(s[19..21]) && Bytes(s[22..24]);
    assert Bytes(s[32..36]) && Bytes(s[36..40]) && Bytes(s[44..48]);
    Le32Range(s[32..36]);
    Le32Range(s[36..40]);
    Le32Range(s[44..48]);
  }

  lemma {:induction false} Le32Range(b: seq<int>)
    requires |b| == 4 && Bytes(b)
    ensures 0 <= Le32(b) < WORD
  {
  }

  /** Sectors of the fixed root directory: 32 bytes an entry, rounded up. */
  function RootSectors(b: Bpb): int {
    var bytes := b.rootEntries * 32 + b.bytesPerSector - 1;
    if b.bytesPerSector == 512 then bytes / 512
    else if b.bytesPerSector == 1024 then bytes / 1024
    else if b.bytesPerSector == 2048 then bytes / 2048
    else bytes / 4096
  }

  /** Sectors before the data, not wrapped. */
  function Metadata(b: Bpb): int {
    b.reserved + b.fats * b.fatSectors + RootSectors(b)
  }

  function ClusterSizes(): set<int> {
    {1, 2, 4, 8, 16, 32, 64, 128}
  }

  /** The clusters that fit after `metadata` sectors, for each number of sectors a cluster may have. */
  function Clusters(sectors: int, perCluster: int): int {
    match perCluster
    case 1 => sectors
    case 2 => sectors / 2
    case 4 => sectors / 4
    case 8 => sectors / 8
    case 16 => sectors / 16
    case 32 => sectors / 32
    case 64 => sectors / 64
    case _ => sectors / 128
  }

  /** The sectors of `n` clusters. */
  function Spread(n: int, perCluster: int): int {
    match perCluster
    case 1 => n
    case 2 => n * 2
    case 4 => n * 4
    case 8 => n * 8
    case 16 => n * 16
    case 32 => n * 32
    case 64 => n * 64
    case _ => n * 128
  }

  lemma {:induction false} SpreadIsProduct(n: int, perCluster: int)
    requires perCluster in ClusterSizes()
    ensures Spread(n, perCluster) == n * perCluster
  {
  }

  /** Section "FAT Type Determination" of the specification. */
  function KindOfCount(n: int): Kind {
    if n < 4085 then Fat12 else if n < 65525 then Fat16 else Fat32
  }

  /** The checks of the fields themselves. */
  predicate Acceptable(b: Bpb, sectorSize: int) {
    && b.bytesPerSector in {512, 1024, 2048, 4096} && b.bytesPerSector == sectorSize && b.sectorsPerCluster in ClusterSizes()
    && b.reserved != 0 && b.fats != 0 && b.fatSectors != 0 && b.total != 0 && b.signed
  }

  /** The layout, given how many sectors the tables and the fixed root take. */
  function Laid(b: Bpb, tables: int, root: int, bootLba: int): Option<Volume> {
    var metadata := (b.reserved + tables + root) % WORD;
    if b.total <= metadata then None
    else
      var count := Clusters(b.total - metadata, b.sectorsPerCluster);
      var fatLba := (bootLba + b.reserved) % WORD;
      var rootLba := (fatLba + tables) % WORD;
      var dataLba := (rootLba + root) % WORD;
      var kind := KindOfCount(count);
      var v := Volume(b.bytesPerSector, b.sectorsPerCluster, fatLba, dataLba,
                      if kind == Fat32 then 0 else rootLba, root, b.rootCluster, count, kind);
      if count == 0 || (kind == Fat32 && !ClusterValid(v, b.rootCluster)) then None else Some(v)
  }

  /** fat_mount, after the boot sector has been read. */
  function Mount(b: Bpb, sectorSize: int, bootLba: int): Option<Volume> {
    if Acceptable(b, sectorSize) then Laid(b, b.fats * b.fatSectors, RootSectors(b), bootLba) else None
  }

  lemma {:induction false} ClustersFit(sectors: int, perCluster: int)
    requires perCluster in ClusterSizes() && 0 <= sectors
    ensures 0 <= Clusters(sectors, perCluster) <= sectors
    ensures Spread(Clusters(sectors, perCluster), perCluster) <= sectors < Spread(Clusters(sectors, perCluster) + 1, perCluster)
  {
  }

  /** Every volume that mounts has the geometry the rest of the reader relies on. */
  lemma {:induction false} MountedIsVolume(b: Bpb, sectorSize: int, bootLba: int)
    requires InRange(b) && 0 <= bootLba < WORD && Mount(b, sectorSize, bootLba).Some?
    ensures var v := Mount(b, sectorSize, bootLba).value;
            && IsVolume(v) && 0 <= v.fatLba < WORD && 0 <= v.rootLba < WORD && 0 <= v.dataLba < WORD
            && v.bytesPerSector == sectorSize && (v.kind == Fat32 ==> ClusterValid(v, v.rootCluster))
            && (v.kind == Fat12 <==> v.clusterCount < 4085) && (v.kind == Fat32 <==> v.clusterCount >= 65525)
  {
    LaidIsVolume(b, b.fats * b.fatSectors, RootSectors(b), bootLba);
  }

  lemma {:induction false} LaidIsVolume(b: Bpb, tables: int, root: int, bootLba: int)
    requires InRange(b) && Acceptable(b, b.bytesPerSector) && Laid(b, tables, root, bootLba).Some?
    ensures var v := Laid(b, tables, root, bootLba).value;
            && IsVolume(v) && 0 <= v.fatLba < WORD && 0 <= v.rootLba < WORD && 0 <= v.dataLba < WORD
            && v.bytesPerSector == b.bytesPerSector && (v.kind == Fat32 ==> ClusterValid(v, v.rootCluster))
            && (v.kind == Fat12 <==> v.clusterCount < 4085) && (v.kind == Fat32 <==> v.clusterCount >= 65525)
  {
    ClustersFit(b.total - (b.reserved + tables + root) % WORD, b.sectorsPerCluster);
  }

  lemma {:induction false} PartsPositive(b: Bpb)
    requires InRange(b)
    ensures 0 <= b.fats * b.fatSectors && (b.bytesPerSector > 0 ==> 0 <= RootSectors(b))
  {
  }

  /** A mounted volume's tables and root lie inside it exactly when their size did not overflow 32 bits. */
  lemma {:induction false} MountedFits(b: Bpb, sectorSize: int, bootLba: int)
    requires InRange(b) && 0 <= bootLba < WORD && Mount(b, sectorSize, bootLba).Some?
    ensures Metadata(b) < b.total <==> Metadata(b) < WORD
  {
    PartsPositive(b);
    LaidFits(b, b.fats * b.fatSectors, RootSectors(b), bootLba);
  }

  lemma {:induction false} LaidFits(b: Bpb, tables: int, root: int, bootLba: int)
    requires InRange(b) && 0 <= tables && 0 <= root && Laid(b, tables, root, bootLba).Some?
    ensures b.reserved + tables + root < b.total <==> b.reserved + tables + root < WORD
  {
  }

  /** Two tables of 2^31 sectors each on a volume of 5000 sectors of 512 bytes, one sector to a cluster. */
  function OversizedSector(): (s: seq<int>)
    ensures |s| == 512 && forall i :: 0 <= i < 512 ==> s[i] == OversizedByte(i)
  {
    seq(512, i requires 0 <= i < 512 => OversizedByte(i))
  }

  function OversizedByte(i: int): int {
    match i
    case 12 => 2
    case 13 => 1
    case 14 => 1
    case 16 => 2
    case 19 => 0x88
    case 20 => 0x13
    case 39 => 0x80
    case 510 => 0x55
    case 511 => 0xAA
    case _ => 0
  }

  lemma {:induction false} OversizedFields()
    ensures |OversizedSector()| == 512 && Bytes(OversizedSector())
    ensures ReadBpb(OversizedSector()) == Bpb(512, 1, 1, 2, 0, 5000, 0x8000_0000, 0, true)
  {
    var s := OversizedSector();
    assert s[11..13] == [0, 2] && s[14..16] == [1, 0] && s[17..19] == [0, 0] && s[19..21] == [0x88, 0x13] && s[22..24] == [0, 0];
    assert s[36..40] == [0, 0, 0, 0x80] && s[44..48] == [0, 0, 0, 0];
  }

  /** A boot sector whose table size wraps: it mounts although its tables are larger than the volume. */
  lemma {:induction false} OversizedTablesMount()
    ensures var s := OversizedSector();
            && |s| == 512 && Bytes(s) && Mount(ReadBpb(s), 512, 0).Some?
            && Metadata(ReadBpb(s)) > ReadBpb(s).total
  {
    OversizedFields();
  }

  /**
   For any bytes of a boot sector that mounts: the geometry is one the reader relies on, and
   on a device of fewer than 2^32 sectors the tables, the root and the data lie inside the
   volume in that order exactly when the size of the tables and the root did not overflow.
   */
  lemma {:induction false} SectorMounts(s: seq<int>, sectorSize: int, bootLba: int)
    requires |s| >= 512 && Bytes(s) && 0 <= bootLba < WORD && Mount(ReadBpb(s), sectorSize, bootLba).Some?
    ensures var v := Mount(ReadBpb(s), sectorSize, bootLba).value;
            IsVolume(v) && v.bytesPerSector == sectorSize && (v.kind == Fat32 ==> ClusterValid(v, v.rootCluster))
    ensures bootLba + ReadBpb(s).total <= WORD ==>
              (Metadata(ReadBpb(s)) < WORD <==> Inside(ReadBpb(s), Mount(ReadBpb(s), sectorSize, bootLba).value, bootLba))
  {
    var b := ReadBpb(s);
    BpbInRange(s);
    MountedIsVolume(b, sectorSize, bootLba);
    MountedFits(b, sectorSize, bootLba);
    if bootLba + b.total <= WORD && Metadata(b) < WORD {
      MountedLayout(b, sectorSize, bootLba);
    }
  }

  /** Reserved sectors, tables, root and data clusters follow one another inside the volume. */
  ghost predicate Inside(b: Bpb, v: Volume, bootLba: int) {
    && bootLba + b.reserved == v.fatLba && v.dataLba == v.fatLba + b.fats * b.fatSectors + RootSectors(b)
    && (v.kind != Fat32 ==> v.rootLba == v.fatLba + b.fats * b.fatSectors && v.dataLba == v.rootLba + v.rootSectors)
    && v.dataLba + Spread(v.clusterCount, v.sectorsPerCluster) <= bootLba + b.total
  }

  /** Without overflow the parts follow one another, and the data clusters end inside the volume. */
  lemma {:induction false} MountedLayout(b: Bpb, sectorSize: int, bootLba: int)
    requires InRange(b) && 0 <= bootLba && bootLba + b.total <= WORD && Metadata(b) < WORD && Mount(b, sectorSize, bootLba).Some?
    ensures var v := Mount(b, sectorSize, bootLba).value;
            && v.fatLba == bootLba + b.reserved && v.dataLba == bootLba + Metadata(b)
            && (v.kind != Fat32 ==> v.rootLba == v.fatLba + b.fats * b.fatSectors && v.dataLba == v.rootLba + v.rootSectors)
            && v.dataLba + Spread(v.clusterCount, v.sectorsPerCluster) <= bootLba + b.total
  {
    PartsPositive(b);
    LaidLayout(b, b.fats * b.fatSectors, RootSectors(b), bootLba);
    LaidData(b, b.fats * b.fatSectors, RootSectors(b), bootLba);
  }

  lemma {:induction false} LaidLayout(b: Bpb, tables: int, root: int, bootLba: int)
    requires InRange(b) && 0 <= tables && 0 <= root && 0 <= bootLba && bootLba + b.total <= WORD
    requires b.reserved + tables + root < WORD && Laid(b, tables, root, bootLba).Some?
    ensures var v := Laid(b, tables, root, bootLba).value;
            && v.fatLba == bootLba + b.reserved && v.dataLba == bootLba + b.reserved + tables + root
            && (v.kind != Fat32 ==> v.rootLba == v.fatLba + tables && v.dataLba == v.rootLba + v.rootSectors)
  {
    LaidFits(b, tables, root, bootLba);
    Stacked(bootLba, b.reserved, tables, root);
  }

  lemma {:induction false} Stacked(boot: int, reserved: int, tables: int, root: int)
    requires 0 <= boot && 0 <= reserved && 0 <= tables && 0 <= root && boot + reserved + tables + root < WORD
    ensures var fat := (boot + reserved) % WORD;
            fat == boot + reserved && (fat + tables) % WORD == fat + tables && (fat + tables + root) % WORD == fat + tables + root
  {
  }

  lemma {:induction false} LaidData(b: Bpb, tables: int, root: int, bootLba: int)
    requires InRange(b) && Acceptable(b, b.bytesPerSector) && 0 <= tables && 0 <= root
    requires b.reserved + tables + root < WORD && Laid(b, tables, root, bootLba).Some?
    ensures var v := Laid(b, tables, root, bootLba).value;
            b.reserved + tables + root + Spread(v.clusterCount, v.sectorsPerCluster) <= b.total
  {
    ClustersFit(b.total - (b.reserved + tables + root), b.sectorsPerCluster);
  }

  /** Sector `k` of a cluster, when nothing wraps. */
  lemma {:induction false} SectorPlace(v: Volume, c: int, k: int)
    requires IsVolume(v) && 2 <= c < v.clusterCount + 2 && 0 <= k < v.sectorsPerCluster
    requires 0 <= v.dataLba && v.dataLba + v.clusterCount * v.sectorsPerCluster <= WORD
    ensures SectorLba(v, c, k) == v.dataLba + (c - 2) * v.sectorsPerCluster + k
    ensures v.dataLba <= SectorLba(v, c, k) < v.dataLba + v.clusterCount * v.sectorsPerCluster
  {
    Within(c - 2, v.clusterCount, v.sectorsPerCluster, k);
  }

  lemma {:induction false} Within(a: int, n: int, d: int, k: int)
    requires 0 <= a < n && 0 <= k < d
    ensures 0 <= a * d && a * d + k < n * d
  {
    Scales(0, a, d);
    Scales(a + 1, n, d);
  }

  lemma {:induction false} Scales(a: int, b: int, d: int)
    requires a <= b && 0 <= d
    ensures a * d <= b * d
  {
  }

  /** No two sectors of the data area coincide. */
  lemma {:induction false} SectorsApart(v: Volume, c: int, k: int, e: int, j: int)
    requires IsVolume(v) && 2 <= c < v.clusterCount + 2 && 0 <= k < v.sectorsPerCluster
    requires 2 <= e < v.clusterCount + 2 && 0 <= j < v.sectorsPerCluster
    requires 0 <= v.dataLba && v.dataLba + v.clusterCount * v.sectorsPerCluster <= WORD
    requires SectorLba(v, c, k) == SectorLba(v, e, j)
    ensures c == e && k == j
  {
    SectorPlace(v, c, k);
    SectorPlace(v, e, j);
    if c < e {
      Within(c - 2, e - 2, v.sectorsPerCluster, k);
    } else if e < c {
      Within(e - 2, c - 2, v.sectorsPerCluster, j);
    }
  }

  /** Every sector of every cluster of a volume mounted without overflow lies in its data area, and no other sector lies there too. */
  lemma {:induction false} MountedSectors(b: Bpb, sectorSize: int, bootLba: int, c: int, k: int, e: int, j: int)
    requires InRange(b) && 0 <= bootLba && bootLba + b.total <= WORD && Metadata(b) < WORD && Mount(b, sectorSize, bootLba).Some?
    requires var v := Mount(b, sectorSize, bootLba).value;
             ClusterValid(v, c) && ClusterValid(v, e) && 0 <= k < v.sectorsPerCluster && 0 <= j < v.sectorsPerCluster
    ensures var v := Mount(b, sectorSize, bootLba).value;
            && bootLba + Metadata(b) <= SectorLba(v, c, k) < bootLba + b.total
            && (SectorLba(v, c, k) == SectorLba(v, e, j) ==> c == e && k == j)
  {
    var v := Mount(b, sectorSize, bootLba).value;
    assert 0 < b.total < WORD;
    MountedIsVolume(b, sectorSize, bootLba);
    MountedLayout(b, sectorSize, bootLba);
    SpreadIsProduct(v.clusterCount, v.sectorsPerCluster);
    InData(v, bootLba + b.total, c, k, e, j);
  }

  lemma {:induction false} InData(v: Volume, end: int, c: int, k: int, e: int, j: int)
    requires IsVolume(v) && ClusterValid(v, c) && ClusterValid(v, e) && 0 <= k < v.sectorsPerCluster && 0 <= j < v.sectorsPerCluster
    requires 0 <= v.dataLba && v.dataLba + v.clusterCount * v.sectorsPerCluster <= end <= WORD
    ensures v.dataLba <= SectorLba(v, c, k) < end
    ensures SectorLba(v, c, k) == SectorLba(v, e, j) ==> c == e && k == j
  {
    SectorPlace(v, c, k);
    if SectorLba(v, c, k) == SectorLba(v, e, j) {
      SectorsApart(v, c, k, e, j);
    }
  }
}
