/**
 Directories of fat.c: what the slots of a directory deliver to a callback, sector by
 sector and cluster by cluster.

 A callback is a function of everything delivered so far, the entry at hand being the
 last: it says whether to go on.
 */
module FatDirectory {
  import opened Words
  import opened Wrappers
  import opened FatVolume
  import opened FatNames

  const MAX_CLUSTERS: int := 256

  datatype DirentKind = RegularFile | Directory | VolumeLabel | LongNamePart | Deleted | Reserved

  datatype Dirent = Dirent(rawName: seq<int>, shortName: seq<int>, displayName: seq<int>, attributes: int,
                           firstCluster: int, size: int, kind: DirentKind, hasLongName: bool, suspicious: bool)

  type Callback = seq<Dirent> -> bool

  // ----- one entry -----

  function KindOf(slot: seq<int>): DirentKind
    requires |slot| == 32
  {
    if slot[0] == 0xE5 then Deleted
    else if slot[11] == 0x0F then LongNamePart
    else if slot[11] / 8 % 2 == 1 then VolumeLabel
    else if slot[11] / 16 % 2 == 1 then Directory
    else if slot[11] / 64 != 0 then Reserved
    else RegularFile
  }

  /** fat_dirent_from_raw */
  function FromRaw(slot: seq<int>): Dirent
    requires |slot| == 32
  {
    var name := ShortName(slot[..11]);
    Dirent(slot[..11], name, name, slot[11], Le16(slot[20..22]) * 65536 + Le16(slot[26..28]), Le32(slot[28..32]),
           KindOf(slot), false, KindOf(slot) == Reserved)
  }

  method DirentFromRaw(slot: seq<int>) returns (d: Dirent)
    requires |slot| == 32
    ensures d == FromRaw(slot)
  {
    var name := CopyShortName(slot[..11]);
    d := Dirent(slot[..11], name, name, slot[11], Le16(slot[20..22]) * 65536 + Le16(slot[26..28]), Le32(slot[28..32]),
                RegularFile, false, false);
    if slot[0] == 0xE5 {
      return d.(kind := Deleted);
    }
    if slot[11] == 0x0F {
      return d.(kind := LongNamePart);
    }
    if slot[11] / 8 % 2 == 1 {
      return d.(kind := VolumeLabel);
    }
    if slot[11] / 16 % 2 == 1 {
      return d.(kind := Directory);
    }
    if slot[11] / 64 != 0 {
      return d.(kind := Reserved, suspicious := true);
    }
  }

  predicate Listed(d: Dirent) {
    d.kind == RegularFile || d.kind == Directory
  }

  /** The assembled long name belongs to the short entry in `slot`. */
  predicate Claims(l: Lfn, slot: seq<int>)
    requires |slot| == 32
  {
    l.active && l.checksum == Checksum(slot[..11]) && |l.name| > 0 && l.name[0] != 0
  }

  /** The entry a short slot delivers after the long-name slots collected in `l`. */
  function Entry(v: Volume, l: Lfn, slot: seq<int>): Dirent
    requires |slot| == 32
  {
    var d := FromRaw(slot);
    var n := if Claims(l, slot) then d.(displayName := CString(l.name), hasLongName := true) else d;
    if Listed(n) && n.firstCluster != 0 && !ClusterValid(v, n.firstCluster) then n.(suspicious := true) else n
  }

  // ----- scanning slots -----

  datatype Outcome = More | Ended | Stopped | Unreadable

  datatype Visit = Visit(lfn: Lfn, seen: seq<Dirent>, outcome: Outcome)

  ghost predicate AllSlots(slots: seq<seq<int>>) {
    forall i :: 0 <= i < |slots| ==> IsSlot(slots[i])
  }

  function Deliver(cb: Callback, seen: seq<Dirent>): Visit {
    Visit(Cleared(), seen, if cb(seen) then More else Stopped)
  }

  function Step(v: Volume, cb: Callback, l: Lfn, seen: seq<Dirent>, slot: seq<int>): Visit
    requires |slot| == 32
  {
    if slot[0] == 0 then Visit(Cleared(), seen, Ended)
    else if slot[0] == 0xE5 then Deliver(cb, seen + [FromRaw(slot)])
    else if slot[11] == 0x0F then Visit(Collected(l, slot), seen, More)
    else Deliver(cb, seen + [Entry(v, l, slot)])
  }

  /** The slots in order, up to the first empty one or the callback's stop. */
  function VisitSlots(v: Volume, cb: Callback, slots: seq<seq<int>>, l: Lfn, seen: seq<Dirent>): Visit
    requires AllSlots(slots)
    decreases |slots|
  {
    if slots == [] then Visit(l, seen, More)
    else
      var r := Step(v, cb, l, seen, slots[0]);
      if r.outcome != More then r else VisitSlots(v, cb, slots[1..], r.lfn, r.seen)
  }

  /** A sector cut into slots. */
  function Slots(b: seq<int>): (s: seq<seq<int>>)
    requires Bytes(b)
    ensures AllSlots(s)
    decreases |b|
  {
    if |b| < 32 then [] else [b[..32]] + Slots(b[32..])
  }

  lemma {:induction false} VisitJoin(v: Volume, cb: Callback, a: seq<seq<int>>, b: seq<seq<int>>, l: Lfn, seen: seq<Dirent>)
    requires AllSlots(a) && AllSlots(b)
    ensures AllSlots(a + b)
    ensures var r := VisitSlots(v, cb, a, l, seen);
            VisitSlots(v, cb, a + b, l, seen) == if r.outcome == More then VisitSlots(v, cb, b, r.lfn, r.seen) else r
    decreases |a|
  {
    if a == [] {
      assert a + b == b;
    } else {
      assert (a + b)[0] == a[0] && (a + b)[1..] == a[1..] + b;
      var r := Step(v, cb, l, seen, a[0]);
      VisitJoin(v, cb, a[1..], b, r.lfn, r.seen);
    }
  }

  /** One step of fat_visit_sector_entries. */
  method VisitSlot(v: Volume, cb: Callback, lfn: NameState, seen: seq<Dirent>, slot: seq<int>) returns (delivered: seq<Dirent>, outcome: Outcome)
    requires lfn.Valid() && IsSlot(slot)
    modifies lfn, lfn.name
    ensures lfn.Valid() && Visit(lfn.State(), delivered, outcome) == Step(v, cb, old(lfn.State()), seen, slot)
  {
    if slot[0] == 0 {
      lfn.Reset();
      return seen, Ended;
    }
    if slot[0] == 0xE5 {
      lfn.Reset();
      var gone := DirentFromRaw(slot);
      delivered := seen + [gone];
      return delivered, if cb(delivered) then More else Stopped;
    }
    if slot[11] == 0x0F {
      var _ := lfn.Collect(slot);
      return seen, More;
    }
    var d := NameEntry(v, lfn, slot);
    lfn.Reset();
    delivered := seen + [d];
    return delivered, if cb(delivered) then More else Stopped;
  }

  method NameEntry(v: Volume, lfn: NameState, slot: seq<int>) returns (d: Dirent)
    requires lfn.Valid() && |slot| == 32
    ensures d == Entry(v, lfn.State(), slot)
  {
    d := DirentFromRaw(slot);
    var sum := ShortNameChecksum(slot[..11]);
    if lfn.active && lfn.checksum == sum && lfn.name[0] != 0 {
      var name := CopyName(lfn.name[..]);
      d := d.(displayName := name, hasLongName := true);
    }
    if Listed(d) && d.firstCluster != 0 && !ClusterValid(v, d.firstCluster) {
      d := d.(suspicious := true);
    }
  }

  lemma {:induction false} VisitFrom(v: Volume, cb: Callback, b: seq<int>, i: nat, l: Lfn, seen: seq<Dirent>)
    requires Bytes(b) && i + 32 <= |b|
    ensures IsSlot(b[i..i + 32])
    ensures var r := Step(v, cb, l, seen, b[i..i + 32]);
            VisitSlots(v, cb, Slots(b[i..]), l, seen) ==
            if r.outcome != More then r else VisitSlots(v, cb, Slots(b[i + 32..]), r.lfn, r.seen)
  {
    assert b[i..][..32] == b[i..i + 32] && b[i..][32..] == b[i + 32..];
    assert Slots(b[i..]) == [b[i..i + 32]] + Slots(b[i + 32..]);
    assert Slots(b[i..])[1..] == Slots(b[i + 32..]);
  }

  /** The slot at `offset`; what is left to visit stays on the way to `all`. */
  method VisitNext(v: Volume, cb: Callback, lfn: NameState, seen: seq<Dirent>, sector: seq<int>, offset: nat, ghost all: Visit)
    returns (delivered: seq<Dirent>, outcome: Outcome)
    requires lfn.Valid() && Bytes(sector) && offset + 32 <= |sector|
    requires VisitSlots(v, cb, Slots(sector[offset..]), lfn.State(), seen) == all
    modifies lfn, lfn.name
    ensures lfn.Valid()
    ensures outcome != More ==> Visit(lfn.State(), delivered, outcome) == all
    ensures outcome == More ==> VisitSlots(v, cb, Slots(sector[offset + 32..]), lfn.State(), delivered) == all
  {
    VisitFrom(v, cb, sector, offset, lfn.State(), seen);
    delivered, outcome := VisitSlot(v, cb, lfn, seen, sector[offset..offset + 32]);
  }

  /** The loop of fat_visit_sector_entries. */
  method VisitAll(v: Volume, cb: Callback, lfn: NameState, seen: seq<Dirent>, sector: seq<int>, ghost m: nat) returns (delivered: seq<Dirent>, outcome: Outcome)
    requires lfn.Valid() && |sector| == 32 * m && Bytes(sector)
    modifies lfn, lfn.name
    ensures lfn.Valid()
    ensures Visit(lfn.State(), delivered, outcome) == VisitSlots(v, cb, Slots(sector), old(lfn.State()), seen)
  {
    delivered, outcome := seen, More;
    var offset := 0;
    ghost var k, all := 0, VisitSlots(v, cb, Slots(sector), lfn.State(), seen);
    assert sector[0..] == sector;
    while offset < |sector|
      invariant 0 <= k <= m && offset == 32 * k && lfn.Valid()
      invariant VisitSlots(v, cb, Slots(sector[offset..]), lfn.State(), delivered) == all
    {
      delivered, outcome := VisitNext(v, cb, lfn, delivered, sector, offset, all);
      if outcome != More {
        return;
      }
      offset, k := offset + 32, k + 1;
    }
    assert Slots(sector[offset..]) == [];
    return delivered, More;
  }

  lemma {:induction false} WholeSlots(v: Volume)
    requires IsVolume(v)
    ensures v.bytesPerSector == 32 * (v.bytesPerSector / 32)
  {
  }

  /** fat_visit_sector_entries */
  method VisitSector(v: Volume, cb: Callback, lfn: NameState, seen: seq<Dirent>, sector: seq<int>) returns (delivered: seq<Dirent>, outcome: Outcome)
    requires IsVolume(v) && lfn.Valid() && |sector| == v.bytesPerSector && Bytes(sector)
    modifies lfn, lfn.name
    ensures lfn.Valid()
    ensures Visit(lfn.State(), delivered, outcome) == VisitSlots(v, cb, Slots(sector), old(lfn.State()), seen)
  {
    WholeSlots(v);
    delivered, outcome := VisitAll(v, cb, lfn, seen, sector, v.bytesPerSector / 32);
  }

  // ----- a run of sectors -----

  /** `count` sectors from `first` on. */
  function Lbas(first: int, count: nat): seq<int>
    decreases count
  {
    if count == 0 then [] else [first % WORD] + Lbas(first + 1, count - 1)
  }

  lemma {:induction false} SectorSlots(v: Volume, disk: Disk, lba: int)
    requires IsDisk(v, disk) && lba in disk
    ensures Bytes(disk[lba])
  {
  }

  /** The sectors in order.  A stop by the callback leaves the current sector only, unless `halt` holds. */
  function VisitSectors(v: Volume, disk: Disk, cb: Callback, halt: bool, lbas: seq<int>, l: Lfn, seen: seq<Dirent>): Visit
    requires IsDisk(v, disk)
    decreases |lbas|
  {
    if lbas == [] then Visit(l, seen, More)
    else if lbas[0] !in disk then Visit(l, seen, Unreadable)
    else
      SectorSlots(v, disk, lbas[0]);
      var r := VisitSlots(v, cb, Slots(disk[lbas[0]]), l, seen);
      if r.outcome == Ended || (halt && r.outcome == Stopped) then r
      else VisitSectors(v, disk, cb, halt, lbas[1..], r.lfn, r.seen)
  }

  /** The loop over sectors that listing and finding share. */
  method VisitRun(v: Volume, disk: Disk, cb: Callback, halt: bool, first: int, count: nat, lfn: NameState, seen: seq<Dirent>)
    returns (delivered: seq<Dirent>, outcome: Outcome)
    requires IsVolume(v) && IsDisk(v, disk) && lfn.Valid()
    modifies lfn, lfn.name
    ensures lfn.Valid()
    ensures Visit(lfn.State(), delivered, outcome) == VisitSectors(v, disk, cb, halt, Lbas(first, count), old(lfn.State()), seen)
  {
    delivered, outcome :=
      VisitRest(v, disk, cb, halt, first, count, lfn, seen, VisitSectors(v, disk, cb, halt, Lbas(first, count), lfn.State(), seen));
  }

  method VisitRest(v: Volume, disk: Disk, cb: Callback, halt: bool, first: int, count: nat, lfn: NameState, seen: seq<Dirent>, ghost all: Visit)
    returns (delivered: seq<Dirent>, outcome: Outcome)
    requires IsVolume(v) && IsDisk(v, disk) && lfn.Valid() && Remains(v, disk, cb, halt, first, count, lfn.State(), seen, all)
    modifies lfn, lfn.name
    ensures lfn.Valid() && Visit(lfn.State(), delivered, outcome) == all
  {
    delivered, outcome := seen, More;
    var k := 0;
    while k < count
      invariant 0 <= k <= count && lfn.Valid()
      invariant Remains(v, disk, cb, halt, first + k, count - k, lfn.State(), delivered, all)
    {
      delivered, outcome := VisitLba(v, disk, cb, halt, first + k, count - k, lfn, delivered, all);
      if outcome == Unreadable || outcome == Ended || (halt && outcome == Stopped) {
        return;
      }
      k := k + 1;
    }
    RemainsNothing(v, disk, cb, halt, first + k, lfn.State(), delivered, all);
    return delivered, More;
  }

  /** Visiting `count` sectors from `first` on leads to `all`. */
  ghost predicate Remains(v: Volume, disk: Disk, cb: Callback, halt: bool, first: int, count: nat, l: Lfn, seen: seq<Dirent>, all: Visit)
    requires IsDisk(v, disk)
  {
    VisitSectors(v, disk, cb, halt, Lbas(first, count), l, seen) == all
  }

  lemma {:induction false} RemainsNothing(v: Volume, disk: Disk, cb: Callback, halt: bool, first: int, l: Lfn, seen: seq<Dirent>, all: Visit)
    requires IsDisk(v, disk) && Remains(v, disk, cb, halt, first, 0, l, seen, all)
    ensures all == Visit(l, seen, More)
  {
    assert Lbas(first, 0) == [];
  }

  /** One sector of the loop; what is left to visit stays on the way to `all`. */
  method VisitLba(v: Volume, disk: Disk, cb: Callback, halt: bool, first: int, count: nat, lfn: NameState, seen: seq<Dirent>, ghost all: Visit)
    returns (delivered: seq<Dirent>, outcome: Outcome)
    requires IsVolume(v) && IsDisk(v, disk) && lfn.Valid() && count > 0
    requires Remains(v, disk, cb, halt, first, count, lfn.State(), seen, all)
    modifies lfn, lfn.name
    ensures lfn.Valid()
    ensures if outcome == Unreadable || outcome == Ended || (halt && outcome == Stopped) then Visit(lfn.State(), delivered, outcome) == all
            else Remains(v, disk, cb, halt, first + 1, count - 1, lfn.State(), delivered, all)
  {
    assert Lbas(first, count)[1..] == Lbas(first + 1, count - 1);
    var lba := first % WORD;
    if lba !in disk {
      return seen, Unreadable;
    }
    SectorSlots(v, disk, lba);
    delivered, outcome := VisitSector(v, cb, lfn, seen, disk[lba]);
    NeverUnreadable(v, cb, Slots(disk[lba]), old(lfn.State()), seen);
  }

  lemma {:induction false} NeverUnreadable(v: Volume, cb: Callback, slots: seq<seq<int>>, l: Lfn, seen: seq<Dirent>)
    requires AllSlots(slots)
    ensures VisitSlots(v, cb, slots, l, seen).outcome != Unreadable
    decreases |slots|
  {
    if slots != [] {
      var r := Step(v, cb, l, seen, slots[0]);
      if r.outcome == More {
        NeverUnreadable(v, cb, slots[1..], r.lfn, r.seen);
      }
    }
  }

  // ----- walks -----

  /** What a walk delivered, how it ended, and the clusters it entered. */
  datatype Walk = Walk(status: Status, seen: seq<Dirent>, found: bool, visited: seq<int>)

  function ClusterLbas(v: Volume, c: int): seq<int>
    requires IsVolume(v)
  {
    Lbas(SectorLba(v, c, 0), v.sectorsPerCluster)
  }

  /** One cluster of a walk: it ends there, or goes on to the next cluster. */
  datatype Pace = Done(walk: Walk) | Next(cluster: int, lfn: Lfn, seen: seq<Dirent>)

  function WalkStep(v: Volume, disk: Disk, cb: Callback, halt: bool, c: int, visited: seq<int>, l: Lfn, seen: seq<Dirent>): (p: Pace)
    requires IsVolume(v) && IsDisk(v, disk) && 0 <= c < WORD
    ensures p.Next? ==> |visited| < MAX_CLUSTERS && c !in visited && ClusterValid(v, c)
    ensures p.Next? ==> 0 <= p.cluster < WORD && FatEntry(v, disk, c) == Some(p.cluster)
    ensures p.Done? ==> p.walk.visited == visited || (p.walk.visited == visited + [c] && |visited| < MAX_CLUSTERS && c !in visited && ClusterValid(v, c))
  {
    if !ClusterValid(v, c) || c in visited || |visited| >= MAX_CLUSTERS then Done(Walk(Corrupt, seen, false, visited))
    else Onward(v, VisitSectors(v, disk, cb, halt, ClusterLbas(v, c), l, seen), FatEntry(v, disk, c), visited + [c])
  }

  /** What the slots of a cluster and its table entry make of a walk. */
  function Onward(v: Volume, r: Visit, e: Option<int>, visited: seq<int>): Pace {
    if r.outcome != More then Done(Closed(r, visited))
    else if e.None? then Done(Walk(IoError, r.seen, false, visited))
    else if EntryEnds(v.kind, e.value) then Done(Walk(Ok, r.seen, false, visited))
    else if !EntryLinks(v, e.value) then Done(Walk(Corrupt, r.seen, false, visited))
    else Next(e.value, r.lfn, r.seen)
  }

  /** The walk from cluster `c` on. */
  function WalkFrom(v: Volume, disk: Disk, cb: Callback, halt: bool, c: int, visited: seq<int>, l: Lfn, seen: seq<Dirent>): Walk
    requires IsVolume(v) && IsDisk(v, disk) && 0 <= c < WORD
    decreases MAX_CLUSTERS - |visited|
  {
    match WalkStep(v, disk, cb, halt, c, visited, l, seen)
    case Done(walk) => walk
    case Next(next, lfn, delivered) => WalkFrom(v, disk, cb, halt, next, visited + [c], lfn, delivered)
  }

  /** A walk that ends inside a run of sectors, or at the end of the fixed root. */
  function Closed(r: Visit, visited: seq<int>): Walk {
    Walk(if r.outcome == Unreadable then IoError else Ok, r.seen, r.outcome == Stopped, visited)
  }

  function ChainWalk(v: Volume, disk: Disk, cb: Callback, halt: bool, c: int): Walk
    requires IsVolume(v) && IsDisk(v, disk) && 0 <= c < WORD
  {
    WalkFrom(v, disk, cb, halt, c, [], Cleared(), [])
  }

  /** How many sectors the loop over the fixed root reads: none if its 32-bit end wraps. */
  function RootCount(v: Volume): nat {
    var end := (v.rootLba + v.rootSectors) % WORD;
    if v.rootLba < end then end - v.rootLba else 0
  }

  function RootWalk(v: Volume, disk: Disk, cb: Callback, halt: bool): Walk
    requires IsVolume(v) && IsDisk(v, disk)
  {
    Closed(VisitSectors(v, disk, cb, halt, Lbas(v.rootLba, RootCount(v)), Cleared(), []), [])
  }

  /** The loop over clusters that listing and finding share. */
  method WalkChain(v: Volume, disk: Disk, cb: Callback, halt: bool, start: int) returns (status: Status, seen: seq<Dirent>, found: bool, visited: seq<int>)
    requires IsVolume(v) && IsDisk(v, disk) && 0 <= start < WORD
    ensures Walk(status, seen, found, visited) == ChainWalk(v, disk, cb, halt, start)
  {
    var lfn := new NameState();
    var c := start;
    seen, found, visited := [], false, [];
    while ClusterValid(v, c)
      invariant lfn.Valid() && fresh(lfn) && fresh(lfn.name) && 0 <= c < WORD && |visited| <= MAX_CLUSTERS && !found
      invariant WalkFrom(v, disk, cb, halt, c, visited, lfn.State(), seen) == ChainWalk(v, disk, cb, halt, start)
      decreases MAX_CLUSTERS - |visited|
    {
      var again := Entered(visited, c);
      if again {
        return Corrupt, seen, found, visited;
      }
      if |visited| >= MAX_CLUSTERS {
        return Corrupt, seen, found, visited;
      }
      var outcome;
      seen, outcome := VisitRun(v, disk, cb, halt, SectorLba(v, c, 0), v.sectorsPerCluster, lfn, seen);
      visited := visited + [c];
      if outcome != More {
        return if outcome == Unreadable then IoError else Ok, seen, outcome == Stopped, visited;
      }
      var next := ReadFatEntry(v, disk, c);
      if next.None? {
        return IoError, seen, found, visited;
      }
      if EntryEnds(v.kind, next.value) {
        return Ok, seen, found, visited;
      }
      if next.value == 0 || EntryBad(v.kind, next.value) || EntryReserved(v.kind, next.value) || !ClusterValid(v, next.value) {
        return Corrupt, seen, found, visited;
      }
      c := next.value;
    }
    status := Corrupt;
  }

  method Entered(visited: seq<int>, c: int) returns (found: bool)
    ensures found <==> c in visited
  {
    var i := 0;
    while i < |visited|
      invariant 0 <= i <= |visited| && c !in visited[..i]
    {
      if visited[i] == c {
        return true;
      }
      i := i + 1;
    }
    return false;
  }

  method WalkRoot(v: Volume, disk: Disk, cb: Callback, halt: bool) returns (status: Status, seen: seq<Dirent>, found: bool)
    requires IsVolume(v) && IsDisk(v, disk) && 0 <= v.rootLba < WORD
    ensures Walk(status, seen, found, []) == RootWalk(v, disk, cb, halt)
  {
    var lfn := new NameState();
    var outcome;
    seen, outcome := VisitRun(v, disk, cb, halt, v.rootLba, RootCount(v), lfn, []);
    return if outcome == Unreadable then IoError else Ok, seen, outcome == Stopped;
  }

  // ----- what every walk keeps -----

  /** Each cluster is valid, and the table links it to the next. */
  ghost predicate Linked(v: Volume, disk: Disk, visited: seq<int>)
    requires IsVolume(v) && IsDisk(v, disk)
  {
    && (forall i :: 0 <= i < |visited| ==> 0 <= visited[i] < WORD && ClusterValid(v, visited[i]))
    && (forall i :: 0 < i < |visited| ==> FatEntry(v, disk, visited[i - 1]) == Some(visited[i]))
  }

  ghost predicate Follows(v: Volume, disk: Disk, visited: seq<int>, c: int)
    requires IsVolume(v) && IsDisk(v, disk)
  {
    Linked(v, disk, visited) && (visited == [] || FatEntry(v, disk, visited[|visited| - 1]) == Some(c))
  }

  lemma {:induction false} LinkedMore(v: Volume, disk: Disk, visited: seq<int>, c: int)
    requires IsVolume(v) && IsDisk(v, disk) && Follows(v, disk, visited, c) && 0 <= c < WORD && ClusterValid(v, c)
    ensures Linked(v, disk, visited + [c])
  {
    var w := visited + [c];
    forall i | 0 < i < |w| ensures FatEntry(v, disk, w[i - 1]) == Some(w[i]) {
      if i < |visited| {
        assert FatEntry(v, disk, visited[i - 1]) == Some(visited[i]);
      }
    }
  }

  /** On every table, cyclic ones included, a walk enters at most 256 clusters, all valid, linked in a row and different. */
  lemma {:induction false} WalkBounded(v: Volume, disk: Disk, cb: Callback, halt: bool, c: int, visited: seq<int>, l: Lfn, seen: seq<Dirent>)
    requires IsVolume(v) && IsDisk(v, disk) && 0 <= c < WORD
    requires |visited| <= MAX_CLUSTERS && Distinct(visited) && Follows(v, disk, visited, c)
    ensures var w := WalkFrom(v, disk, cb, halt, c, visited, l, seen);
            |w.visited| <= MAX_CLUSTERS && Distinct(w.visited) && Linked(v, disk, w.visited) && visited <= w.visited
    decreases MAX_CLUSTERS - |visited|
  {
    var p := WalkStep(v, disk, cb, halt, c, visited, l, seen);
    if ClusterValid(v, c) && c !in visited && |visited| < MAX_CLUSTERS {
      LinkedMore(v, disk, visited, c);
      assert Distinct(visited + [c]);
    }
    if p.Next? {
      WalkBounded(v, disk, cb, halt, p.cluster, visited + [c], p.lfn, p.seen);
    }
  }

  // ----- sector and cluster boundaries are invisible -----

  /** A callback that never stops. */
  ghost predicate Steady(cb: Callback) {
    forall h :: cb(h)
  }

  function SlotsAt(v: Volume, disk: Disk, lba: int): (s: seq<seq<int>>)
    requires IsDisk(v, disk)
    ensures AllSlots(s)
  {
    if lba in disk then SectorSlots(v, disk, lba); Slots(disk[lba]) else []
  }

  /** The slots of the sectors, one after the other. */
  function SlotsOf(v: Volume, disk: Disk, lbas: seq<int>): (s: seq<seq<int>>)
    requires IsDisk(v, disk)
    ensures AllSlots(s)
  {
    if lbas == [] then [] else SlotsAt(v, disk, lbas[0]) + SlotsOf(v, disk, lbas[1..])
  }

  /** The slots of the clusters, one after the other. */
  function ChainSlots(v: Volume, disk: Disk, chain: seq<int>): (s: seq<seq<int>>)
    requires IsVolume(v) && IsDisk(v, disk)
    ensures AllSlots(s)
  {
    if chain == [] then [] else SlotsOf(v, disk, ClusterLbas(v, chain[0])) + ChainSlots(v, disk, chain[1..])
  }

  lemma {:induction false} NeverStops(v: Volume, cb: Callback, slots: seq<seq<int>>, l: Lfn, seen: seq<Dirent>)
    requires AllSlots(slots) && Steady(cb)
    ensures VisitSlots(v, cb, slots, l, seen).outcome in {More, Ended}
    decreases |slots|
  {
    if slots != [] {
      var r := Step(v, cb, l, seen, slots[0]);
      NeverStops(v, cb, slots[1..], r.lfn, r.seen);
    }
  }

  lemma {:induction false} SectorsJoin(v: Volume, disk: Disk, cb: Callback, halt: bool, lbas: seq<int>, l: Lfn, seen: seq<Dirent>)
    requires IsDisk(v, disk) && Steady(cb)
    ensures var r := VisitSectors(v, disk, cb, halt, lbas, l, seen);
            r.outcome != Unreadable ==> r == VisitSlots(v, cb, SlotsOf(v, disk, lbas), l, seen)
    decreases |lbas|
  {
    if lbas != [] && lbas[0] in disk {
      var a := SlotsAt(v, disk, lbas[0]);
      var r := VisitSlots(v, cb, a, l, seen);
      NeverStops(v, cb, a, l, seen);
      VisitJoin(v, cb, a, SlotsOf(v, disk, lbas[1..]), l, seen);
      SectorsJoin(v, disk, cb, halt, lbas[1..], r.lfn, r.seen);
    }
  }

  /** One cluster of a walk with a steady callback is one scan of its slots. */
  lemma {:induction false} StepJoins(v: Volume, disk: Disk, cb: Callback, halt: bool, c: int, visited: seq<int>, l: Lfn, seen: seq<Dirent>)
    requires IsVolume(v) && IsDisk(v, disk) && 0 <= c < WORD && Steady(cb)
    ensures var p := WalkStep(v, disk, cb, halt, c, visited, l, seen);
            var r := VisitSlots(v, cb, SlotsOf(v, disk, ClusterLbas(v, c)), l, seen);
            && (p.Next? ==> r == Visit(p.lfn, p.seen, More))
            && (p.Done? ==> !p.walk.found && (p.walk.status == Ok ==> p.walk.visited == visited + [c] && p.walk.seen == r.seen))
  {
    var lbas := ClusterLbas(v, c);
    SectorsJoin(v, disk, cb, halt, lbas, l, seen);
    NeverStops(v, cb, SlotsOf(v, disk, lbas), l, seen);
    OnwardJoins(v, VisitSectors(v, disk, cb, halt, lbas, l, seen), FatEntry(v, disk, c), visited + [c]);
  }

  lemma {:induction false} OnwardJoins(v: Volume, r: Visit, e: Option<int>, visited: seq<int>)
    requires r.outcome != Stopped
    ensures var p := Onward(v, r, e, visited);
            && (p.Next? ==> r == Visit(p.lfn, p.seen, More))
            && (p.Done? ==> !p.walk.found && p.walk.visited == visited && (p.walk.status == Ok ==> r.outcome != Unreadable && p.walk.seen == r.seen))
  {
  }

  lemma {:induction false} WalkExtends(v: Volume, disk: Disk, cb: Callback, halt: bool, c: int, visited: seq<int>, l: Lfn, seen: seq<Dirent>)
    requires IsVolume(v) && IsDisk(v, disk) && 0 <= c < WORD
    ensures visited <= WalkFrom(v, disk, cb, halt, c, visited, l, seen).visited
    decreases MAX_CLUSTERS - |visited|
  {
    var p := WalkStep(v, disk, cb, halt, c, visited, l, seen);
    if p.Next? {
      WalkExtends(v, disk, cb, halt, p.cluster, visited + [c], p.lfn, p.seen);
    }
  }

  /** The clusters that a walk enters after `visited`. */
  function Entering(w: Walk, visited: seq<int>): seq<int>
    requires visited <= w.visited
  {
    w.visited[|visited|..]
  }

  lemma {:induction false} EnteringFirst(w: Walk, visited: seq<int>, c: int)
    requires visited + [c] <= w.visited
    ensures visited <= w.visited && Entering(w, visited) == [c] + Entering(w, visited + [c])
  {
  }

  /** A walk with a steady callback that succeeds delivers what one scan of all its slots delivers. */
  lemma {:induction false} WalkJoins(v: Volume, disk: Disk, cb: Callback, halt: bool, c: int, visited: seq<int>, l: Lfn, seen: seq<Dirent>)
    requires IsVolume(v) && IsDisk(v, disk) && 0 <= c < WORD && Steady(cb)
    ensures var w := WalkFrom(v, disk, cb, halt, c, visited, l, seen);
            visited <= w.visited && !w.found &&
            (w.status == Ok ==> w.seen == VisitSlots(v, cb, ChainSlots(v, disk, Entering(w, visited)), l, seen).seen)
    decreases MAX_CLUSTERS - |visited|
  {
    var w, p := WalkFrom(v, disk, cb, halt, c, visited, l, seen), WalkStep(v, disk, cb, halt, c, visited, l, seen);
    WalkExtends(v, disk, cb, halt, c, visited, l, seen);
    StepJoins(v, disk, cb, halt, c, visited, l, seen);
    if p.Next? {
      WalkJoins(v, disk, cb, halt, p.cluster, visited + [c], p.lfn, p.seen);
      EnteringFirst(w, visited, c);
      ChainVisit(v, disk, cb, c, Entering(w, visited + [c]), l, seen);
    } else if w.status == Ok {
      EnteringFirst(w, visited, c);
      ChainVisit(v, disk, cb, c, [], l, seen);
    }
  }

  lemma {:induction false} ChainVisit(v: Volume, disk: Disk, cb: Callback, c: int, rest: seq<int>, l: Lfn, seen: seq<Dirent>)
    requires IsVolume(v) && IsDisk(v, disk)
    ensures var r := VisitSlots(v, cb, SlotsOf(v, disk, ClusterLbas(v, c)), l, seen);
            VisitSlots(v, cb, ChainSlots(v, disk, [c] + rest), l, seen) ==
            if r.outcome == More then VisitSlots(v, cb, ChainSlots(v, disk, rest), r.lfn, r.seen) else r
  {
    assert ([c] + rest)[1..] == rest;
    VisitJoin(v, cb, SlotsOf(v, disk, ClusterLbas(v, c)), ChainSlots(v, disk, rest), l, seen);
  }

  /** Listing a chain of clusters: at most 256 different ones, and on success one scan of all their slots. */
  lemma {:induction false} ChainListing(v: Volume, disk: Disk, cb: Callback, c: int)
    requires IsVolume(v) && IsDisk(v, disk) && 0 <= c < WORD && Steady(cb)
    ensures var w := ChainWalk(v, disk, cb, false, c);
            && |w.visited| <= MAX_CLUSTERS && Distinct(w.visited) && Linked(v, disk, w.visited)
            && (w.status == Ok ==> w.seen == VisitSlots(v, cb, ChainSlots(v, disk, w.visited), Cleared(), []).seen)
  {
    var w := ChainWalk(v, disk, cb, false, c);
    WalkBounded(v, disk, cb, false, c, [], Cleared(), []);
    WalkJoins(v, disk, cb, false, c, [], Cleared(), []);
    assert Entering(w, []) == w.visited;
  }

  /** Listing the fixed root: on success one scan of all its slots. */
  lemma {:induction false} RootListing(v: Volume, disk: Disk, cb: Callback)
    requires IsVolume(v) && IsDisk(v, disk) && Steady(cb)
    ensures var w := RootWalk(v, disk, cb, false);
            w.status == Ok ==> w.seen == VisitSlots(v, cb, SlotsOf(v, disk, Lbas(v.rootLba, RootCount(v))), Cleared(), []).seen
  {
    SectorsJoin(v, disk, cb, false, Lbas(v.rootLba, RootCount(v)), Cleared(), []);
  }

  lemma {:induction false} WalkStatus(v: Volume, disk: Disk, cb: Callback, halt: bool, c: int, visited: seq<int>, l: Lfn, seen: seq<Dirent>)
    requires IsVolume(v) && IsDisk(v, disk) && 0 <= c < WORD
    ensures WalkFrom(v, disk, cb, halt, c, visited, l, seen).status in {Ok, IoError, Corrupt}
    decreases MAX_CLUSTERS - |visited|
  {
    var p := WalkStep(v, disk, cb, halt, c, visited, l, seen);
    if p.Next? {
      WalkStatus(v, disk, cb, halt, p.cluster, visited + [c], p.lfn, p.seen);
    }
  }

  /** fat_list_root_fixed */
  method ListRootFixed(v: Volume, disk: Disk, cb: Callback) returns (ok: bool, seen: seq<Dirent>)
    requires IsVolume(v) && IsDisk(v, disk) && 0 <= v.rootLba < WORD
    ensures seen == RootWalk(v, disk, cb, false).seen && (ok <==> RootWalk(v, disk, cb, false).status == Ok)
    ensures ok && Steady(cb) ==> seen == VisitSlots(v, cb, SlotsOf(v, disk, Lbas(v.rootLba, RootCount(v))), Cleared(), []).seen
  {
    var status, found;
    status, seen, found := WalkRoot(v, disk, cb, false);
    ok := status == Ok;
    if Steady(cb) {
      RootListing(v, disk, cb);
    }
  }

  /** fat_list_cluster_chain */
  method ListClusterChain(v: Volume, disk: Disk, start: int, cb: Callback) returns (ok: bool, seen: seq<Dirent>, visited: seq<int>)
    requires IsVolume(v) && IsDisk(v, disk) && 0 <= start < WORD
    ensures seen == ChainWalk(v, disk, cb, false, start).seen && (ok <==> ChainWalk(v, disk, cb, false, start).status == Ok)
    ensures |visited| <= MAX_CLUSTERS && Distinct(visited) && Linked(v, disk, visited)
    ensures ok && Steady(cb) ==> seen == VisitSlots(v, cb, ChainSlots(v, disk, visited), Cleared(), []).seen
  {
    var status, found;
    status, seen, found, visited := WalkChain(v, disk, cb, false, start);
    ok := status == Ok;
    WalkBounded(v, disk, cb, false, start, [], Cleared(), []);
    if Steady(cb) {
      ChainListing(v, disk, cb, start);
    }
  }
}
