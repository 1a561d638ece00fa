/**
 Files on volumes that mount: one whose end cannot be sought, one too long to be read whole,
 and one that cannot be opened by its long name.
 */
module FatExamples {
  import opened Words
  import opened Wrappers
  import opened FatVolume
  import opened FatMount
  import opened FatNames
  import opened FatDirectory
  import opened FatLookup
  import opened FatFile
  import opened FatPath

  // ----- a file of one full cluster -----

  /** A volume of 103 sectors: boot sector, one table sector, one root sector and 100 clusters. */
  const SMALL_BPB := Bpb(512, 1, 1, 1, 16, 103, 1, 0, true)
  const SMALL_VOLUME := Volume(512, 1, 1, 3, 2, 1, 0, 100, Fat12)

  lemma {:induction false} SmallMounts()
    ensures Mount(SMALL_BPB, 512, 0) == Some(SMALL_VOLUME)
  {
  }

  /** Seeking to the end of the file is refused although the end is a position it can be read to. */
  lemma {:induction false} SeekToEndFails(sector: seq<int>)
    requires |sector| == 512 && forall i :: 0 <= i < 512 ==> 0 <= sector[i] < 256
    ensures var v, disk := SMALL_VOLUME, map[3 := sector];
            && Mount(SMALL_BPB, 512, 0) == Some(v) && Healthy(v, disk, 512, [2])
            && Seeked(v, disk, 512, 2, Start(512, 2), 512).0 == Corrupt
            && HandleAt(v, 512, [2], 512) == Handle(512, 2, 0, 1, [2])
  {
    var v, disk := SMALL_VOLUME, map[3 := sector];
    SmallMounts();
    assert Base(512, 1) == 512 && Base(512, 0) == 0;
    assert Healthy(v, disk, 512, [2]);
    IndexUnique(512, 512, 1);
    IndexUnique(512, 511, 0);
    SeekHealthy(v, disk, 512, [2], Start(512, 2), 2, 512);
  }

  // ----- a file of 257 clusters -----

  /** Boot sector, 98 table sectors, one root sector and 5000 clusters. */
  const LONG_BPB := Bpb(512, 1, 1, 1, 16, 5100, 98, 0, true)
  const LONG_VOLUME := Volume(512, 1, 1, 100, 99, 1, 0, 5000, Fat16)

  lemma {:induction false} LongMounts()
    ensures Mount(LONG_BPB, 512, 0) == Some(LONG_VOLUME)
  {
  }

  /** The table begins in sector 1 and links every cluster to the next one. */
  function LongByte(lba: int, i: int): int {
    var next := (lba - 1) * 256 + i / 2 + 1;
    if lba > 2 then 0 else if i % 2 == 0 then next % 256 else next / 256
  }

  function LongSector(lba: int): (s: seq<int>)
    ensures |s| == 512 && forall i :: 0 <= i < 512 ==> s[i] == LongByte(lba, i)
  {
    seq(512, i requires 0 <= i < 512 => LongByte(lba, i))
  }

  function LongDisk(): Disk {
    map lba | 1 <= lba < 400 :: LongSector(lba)
  }

  function LongChain(): (c: seq<int>)
    ensures |c| == 257 && forall i :: 0 <= i < 257 ==> c[i] == i + 2
  {
    seq(257, i => i + 2)
  }

  lemma {:induction false} LongDiskIsDisk()
    ensures IsVolume(LONG_VOLUME) && IsDisk(LONG_VOLUME, LongDisk())
  {
  }

  /** The entry of cluster `c` lies in one sector and holds `c + 1`. */
  lemma {:induction false} LongPlace(c: int)
    requires 2 <= c <= 257
    ensures var lba, i := 1 + c / 256, 2 * (c % 256);
            && FlatLba(LONG_VOLUME, 2 * c) == lba && FlatLba(LONG_VOLUME, 2 * c + 1) == lba
            && InSector(LONG_VOLUME, 2 * c) == i && InSector(LONG_VOLUME, 2 * c + 1) == i + 1
            && 1 <= lba <= 2 && LongByte(lba, i) + 256 * LongByte(lba, i + 1) == c + 1
  {
    assert 2 * c / 512 == c / 256 && (2 * c + 1) / 512 == c / 256;
    assert 2 * c % 512 == 2 * (c % 256) && (2 * c + 1) % 512 == 2 * (c % 256) + 1;
  }

  lemma {:induction false} LongBytes(c: int)
    requires 2 <= c <= 257
    ensures IsDisk(LONG_VOLUME, LongDisk())
    ensures FlatLba(LONG_VOLUME, 2 * c) in LongDisk() && FlatLba(LONG_VOLUME, 2 * c + 1) in LongDisk()
    ensures Le16(FlatBytes(LONG_VOLUME, LongDisk(), 2 * c, 2)) == c + 1
  {
    var v, disk := LONG_VOLUME, LongDisk();
    LongDiskIsDisk();
    LongPlace(c);
    var b := FlatBytes(v, disk, 2 * c, 2);
    assert b[0] == FlatByte(v, disk, 2 * c + 0) && b[1] == FlatByte(v, disk, 2 * c + 1);
  }

  lemma {:induction false} LongLink(c: int)
    requires 2 <= c <= 257
    ensures IsDisk(LONG_VOLUME, LongDisk()) && LinkOk(LONG_VOLUME, LongDisk(), c, c + 1)
  {
    LongBytes(c);
    Link16(LONG_VOLUME, LongDisk(), c, c + 1);
  }

  lemma {:induction false} Link16(v: Volume, disk: Disk, c: int, next: int)
    requires IsVolume(v) && IsDisk(v, disk) && v.kind == Fat16 && 0 <= c < 65536 && EntryLinks(v, next)
    requires FlatLba(v, 2 * c) in disk && FlatLba(v, 2 * c + 1) in disk && Le16(FlatBytes(v, disk, 2 * c, 2)) == next
    ensures LinkOk(v, disk, c, next)
  {
    assert EntryOffset(Fat16, c) == 2 * c;
    ReadsFlat(v, disk, c);
  }

  lemma {:induction false} LongCluster(c: int)
    requires 2 <= c <= 258
    ensures ClusterValid(LONG_VOLUME, c) && 0 <= c < WORD && Readable(LONG_VOLUME, LongDisk(), c)
  {
    assert SectorLba(LONG_VOLUME, c, 0) == 98 + c;
  }

  lemma {:induction false} LongIsChain()
    ensures IsVolume(LONG_VOLUME) && IsDisk(LONG_VOLUME, LongDisk()) && Chain(LONG_VOLUME, LongDisk(), LongChain())
  {
    var v, disk, chain := LONG_VOLUME, LongDisk(), LongChain();
    LongDiskIsDisk();
    forall i | 0 <= i < 257 ensures ClusterValid(v, chain[i]) && 0 <= chain[i] < WORD && Readable(v, disk, chain[i]) {
      LongCluster(i + 2);
    }
    forall i | 0 < i < 257 ensures LinkOk(v, disk, chain[i - 1], chain[i]) {
      LongLink(i + 1);
    }
  }

  lemma {:induction false} LongFileIsSound()
    ensures Sound(LONG_VOLUME, LongDisk(), 131584, LongChain())
  {
    LongIsChain();
    BaseIsProduct(512, 257);
    BaseIsProduct(512, 256);
  }

  /** Every cluster of this file is good, and reading it whole is refused after 256 of them. */
  lemma {:induction false} LongFileCut()
    ensures Mount(LONG_BPB, 512, 0) == Some(LONG_VOLUME) && Sound(LONG_VOLUME, LongDisk(), 131584, LongChain())
    ensures var d := Reading(LONG_VOLUME, LongDisk(), 131584, Start(131584, 2), 131584);
            d.status == Corrupt && |d.bytes| == 131072
  {
    var v, disk, chain := LONG_VOLUME, LongDisk(), LongChain();
    LongMounts();
    LongFileIsSound();
    StartIsZero(v, disk, 131584, chain);
    BaseIsProduct(512, 256);
    ReadSound(v, disk, 131584, chain, 0, Start(131584, 2), 131584);
  }

  // ----- a file with a long name -----

  /** A root sector of one file: a long-name slot, the short entry, and nothing more. */
  function RootSector(name: seq<int>, short: seq<int>): seq<int>
    requires |short| == 32
  {
    EncodeSlot(name, 1, Checksum(short[..11]), true) + (short + Zeros(448))
  }

  /** The disk holds such a root, of one sector. */
  ghost predicate OneFile(v: Volume, disk: Disk, name: seq<int>, short: seq<int>) {
    && Mounted(v) && IsDisk(v, disk) && v.kind != Fat32 && RootCount(v) == 1
    && IsName(name) && SlotCount(name) == 1 && IsShort(short) && KindOf(short) == RegularFile && FromRaw(short).firstCluster == 0
    && v.rootLba in disk && disk[v.rootLba] == RootSector(name, short)
  }

  /** The sector holds the slots of the name and then empty ones. */
  lemma {:induction false} RootSlots(name: seq<int>, short: seq<int>)
    requires IsName(name) && SlotCount(name) == 1 && IsShort(short)
    ensures Bytes(RootSector(name, short)) && |RootSector(name, short)| == 512
    ensures AllSlots(NamedSlots(name, short)) && Bytes(Zeros(448))
    ensures Slots(RootSector(name, short)) == NamedSlots(name, short) + Slots(Zeros(448))
  {
    var first := EncodeSlot(name, 1, Checksum(short[..11]), true);
    FirstIsSlot(name, short);
    assert AllSlots([first, short]);
    NamedOne(name, short);
    ZeroBytes(448);
    TwoSlots(first, short, Zeros(448));
  }

  lemma {:induction false} FirstIsSlot(name: seq<int>, short: seq<int>)
    requires IsName(name) && |short| == 32
    ensures IsSlot(EncodeSlot(name, 1, Checksum(short[..11]), true))
  {
    ChecksumRange(short[..11]);
    SlotBytes(name, 1, Checksum(short[..11]), true);
  }

  lemma {:induction false} ZeroBytes(n: nat)
    ensures Bytes(Zeros(n)) && |Zeros(n)| == n
  {
  }

  lemma {:induction false} NamedOne(name: seq<int>, short: seq<int>)
    requires SlotCount(name) == 1 && |short| == 32
    ensures NamedSlots(name, short) == [EncodeSlot(name, 1, Checksum(short[..11]), true), short]
  {
    OneSlot(name, Checksum(short[..11]));
  }

  lemma {:induction false} OneSlot(name: seq<int>, sum: int)
    requires SlotCount(name) == 1
    ensures Numbers(Down(1), 1) && NameSlots(name, Down(1), sum) == [EncodeSlot(name, 1, sum, true)]
  {
    assert Down(1) == [1] && [1][1..] == [];
    assert NameSlots(name, [], sum) == [];
  }

  lemma {:induction false} TwoSlots(a: seq<int>, b: seq<int>, rest: seq<int>)
    requires IsSlot(a) && IsSlot(b) && Bytes(rest)
    ensures |a + (b + rest)| == 64 + |rest| && Bytes(a + (b + rest)) && Slots(a + (b + rest)) == [a, b] + Slots(rest)
  {
    var all := a + (b + rest);
    assert all[..32] == a && all[32..] == b + rest;
    assert (b + rest)[..32] == b && (b + rest)[32..] == rest;
  }

  lemma {:induction false} EmptyEnds(v: Volume, l: Lfn, seen: seq<Dirent>)
    requires Bytes(Zeros(448))
    ensures VisitSlots(v, GoOn(), Slots(Zeros(448)), l, seen) == Visit(Cleared(), seen, Ended)
  {
    assert Slots(Zeros(448))[0] == Zeros(448)[..32];
  }

  /** Its slots deliver one entry. */
  lemma {:induction false} SlotsListed(v: Volume, name: seq<int>, short: seq<int>)
    requires IsName(name) && SlotCount(name) == 1 && IsShort(short)
    ensures Bytes(RootSector(name, short))
    ensures VisitSlots(v, GoOn(), Slots(RootSector(name, short)), Cleared(), []) == Visit(Cleared(), [Titled(v, short, Some(name))], Ended)
  {
    RootSlots(name, short);
    NameVisited(v, name, short);
    ThenEmpty(v, NamedSlots(name, short));
  }

  lemma {:induction false} NameVisited(v: Volume, name: seq<int>, short: seq<int>)
    requires IsName(name) && IsShort(short)
    ensures AllSlots(NamedSlots(name, short))
    ensures VisitSlots(v, GoOn(), NamedSlots(name, short), Cleared(), []) == Visit(Cleared(), [Titled(v, short, Some(name))], More)
  {
    LongNameRoundTrip(v, GoOn(), name, short, Cleared(), []);
    var r := VisitSlots(v, GoOn(), NamedSlots(name, short), Cleared(), []);
    assert r.seen == [r.seen[0]];
  }

  lemma {:induction false} ThenEmpty(v: Volume, slots: seq<seq<int>>)
    requires AllSlots(slots) && Bytes(Zeros(448)) && VisitSlots(v, GoOn(), slots, Cleared(), []).outcome == More
    ensures AllSlots(slots + Slots(Zeros(448)))
    ensures VisitSlots(v, GoOn(), slots + Slots(Zeros(448)), Cleared(), []) ==
            Visit(Cleared(), VisitSlots(v, GoOn(), slots, Cleared(), []).seen, Ended)
  {
    var r := VisitSlots(v, GoOn(), slots, Cleared(), []);
    VisitJoin(v, GoOn(), slots, Slots(Zeros(448)), Cleared(), []);
    EmptyEnds(v, r.lfn, r.seen);
  }

  lemma {:induction false} FileListed(v: Volume, disk: Disk, name: seq<int>, short: seq<int>)
    requires OneFile(v, disk, name, short)
    ensures Listing(v, disk, Root) == Walk(Ok, [Titled(v, short, Some(name))], false, [])
  {
    SlotsListed(v, name, short);
    OneSector(v, disk, Visit(Cleared(), [Titled(v, short, Some(name))], Ended));
  }

  lemma {:induction false} OneSector(v: Volume, disk: Disk, r: Visit)
    requires Mounted(v) && IsDisk(v, disk) && v.kind != Fat32 && RootCount(v) == 1 && v.rootLba in disk && Bytes(disk[v.rootLba])
    requires VisitSlots(v, GoOn(), Slots(disk[v.rootLba]), Cleared(), []) == r && r.outcome == Ended
    ensures Listing(v, disk, Root) == Walk(Ok, r.seen, false, [])
  {
    OneLba(v.rootLba);
    assert VisitSectors(v, disk, GoOn(), false, [v.rootLba], Cleared(), []) == r;
  }

  lemma {:induction false} OneLba(lba: int)
    requires 0 <= lba < WORD
    ensures Lbas(lba, 1) == [lba]
  {
  }

  /**
   A file alone in its root with a long name of 13 characters: it is listed under that name, a
   path with it is refused, and a path with its short name leads to it.
   */
  lemma {:induction false} LongNameRefused(v: Volume, disk: Disk, name: seq<int>, short: seq<int>)
    requires OneFile(v, disk, name, short) && |name| == 13 && SLASH !in name && SLASH !in short[..11]
    ensures var d := Titled(v, short, Some(name));
            && Listing(v, disk, Root).seen == [d] && d.hasLongName && d.displayName == name
            && Looked(v, disk, [SLASH] + name).0 == InvalidPath
            && Looked(v, disk, [SLASH] + ShortName(short[..11])) == (Ok, At(d))
  {
    FileListed(v, disk, name, short);
    OneComponent(name);
    ShortNameGood(short[..11]);
    SlashShows(short[..11]);
    OneComponent(ShortName(short[..11]));
    OnlyEntry(v, disk, Titled(v, short, Some(name)), ShortName(short[..11]));
    TooLong(v, disk, name);
  }

  lemma {:induction false} OnlyEntry(v: Volume, disk: Disk, d: Dirent, name: seq<int>)
    requires Mounted(v) && IsDisk(v, disk) && Listing(v, disk, Root) == Walk(Ok, [d], false, [])
    requires Listed(d) && !d.suspicious && d.shortName == name && Good(name)
    ensures Resolve(v, disk, Root, [name]) == (Ok, At(d))
  {
    FirstUnique(name, [d], 0);
    NameReachable(v, disk, [], Root, name);
    assert [] + [name] == [name];
  }

  lemma {:induction false} TooLong(v: Volume, disk: Disk, name: seq<int>)
    requires Mounted(v) && IsDisk(v, disk) && |name| > COMPONENT_MAX
    ensures Resolve(v, disk, Root, [name]).0 == InvalidPath
  {
  }

  lemma {:induction false} OneComponent(name: seq<int>)
    requires name != [] && SLASH !in name
    ensures Components([SLASH] + name, 0) == [name]
  {
    assert [name][1..] == [];
    assert Join([name]) == [SLASH] + name;
    SplitJoin([name]);
  }

  /** longnames.txt */
  const EXAMPLE_NAME: seq<int> := [0x6C, 0x6F, 0x6E, 0x67, 0x6E, 0x61, 0x6D, 0x65, 0x73, 0x2E, 0x74, 0x78, 0x74]

  /** LONGNA~1.TXT, an empty file. */
  function ExampleShort(): seq<int> {
    [0x4C, 0x4F, 0x4E, 0x47, 0x4E, 0x41, 0x7E, 0x31, 0x54, 0x58, 0x54, 0x20] + Zeros(20)
  }

  lemma {:induction false} ExampleNameIs()
    ensures IsName(EXAMPLE_NAME) && SlotCount(EXAMPLE_NAME) == 1 && |EXAMPLE_NAME| == 13 && SLASH !in EXAMPLE_NAME
  {
  }

  lemma {:induction false} ExampleShortIs()
    ensures var s := ExampleShort();
            IsShort(s) && KindOf(s) == RegularFile && FromRaw(s).firstCluster == 0 && SLASH !in s[..11]
  {
    var s := ExampleShort();
    ZeroBytes(20);
    assert s[20..22] == [0, 0] && s[26..28] == [0, 0];
    assert s[..11] == [0x4C, 0x4F, 0x4E, 0x47, 0x4E, 0x41, 0x7E, 0x31, 0x54, 0x58, 0x54];
  }

  /** Such a file on a volume that mounts. */
  lemma {:induction false} LongNameExample() returns (disk: Disk)
    ensures Mount(SMALL_BPB, 512, 0) == Some(SMALL_VOLUME) && Mounted(SMALL_VOLUME) && IsDisk(SMALL_VOLUME, disk)
    ensures exists d :: && Listing(SMALL_VOLUME, disk, Root).seen == [d] && d.hasLongName && d.displayName == EXAMPLE_NAME
                        && Looked(SMALL_VOLUME, disk, [SLASH] + EXAMPLE_NAME).0 == InvalidPath
                        && Looked(SMALL_VOLUME, disk, [SLASH] + d.shortName) == (Ok, At(d))
  {
    SmallMounts();
    ExampleNameIs();
    ExampleShortIs();
    disk := ExampleRefused(EXAMPLE_NAME, ExampleShort());
  }

  lemma {:induction false} ExampleRefused(name: seq<int>, short: seq<int>) returns (disk: Disk)
    requires IsName(name) && SlotCount(name) == 1 && |name| == 13 && SLASH !in name
    requires IsShort(short) && KindOf(short) == RegularFile && FromRaw(short).firstCluster == 0 && SLASH !in short[..11]
    ensures Mounted(SMALL_VOLUME) && IsDisk(SMALL_VOLUME, disk)
    ensures exists d :: && Listing(SMALL_VOLUME, disk, Root).seen == [d] && d.hasLongName && d.displayName == name
                        && Looked(SMALL_VOLUME, disk, [SLASH] + name).0 == InvalidPath
                        && Looked(SMALL_VOLUME, disk, [SLASH] + d.shortName) == (Ok, At(d))
  {
    RootSlots(name, short);
    RootHolds(name, short);
    disk := map[2 := RootSector(name, short)];
    LongNameRefused(SMALL_VOLUME, disk, name, short);
    var d := Titled(SMALL_VOLUME, short, Some(name));
    assert d.shortName == ShortName(short[..11]);
  }

  lemma {:induction false} RootHolds(name: seq<int>, short: seq<int>)
    requires IsName(name) && SlotCount(name) == 1 && IsShort(short) && KindOf(short) == RegularFile && FromRaw(short).firstCluster == 0
    requires Bytes(RootSector(name, short)) && |RootSector(name, short)| == 512
    ensures OneFile(SMALL_VOLUME, map[2 := RootSector(name, short)], name, short)
  {
    var sector := RootSector(name, short);
    var disk: Disk := map[2 := sector];
    assert disk[2] == sector;
  }
}
