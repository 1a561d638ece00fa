/**
 Paths: splitting them, following them from directory to directory, and opening and reading
 the files they name.  A path is the codes before its terminating zero.
 */
module FatPath {
  import opened Words
  import opened Wrappers
  import opened FatVolume
  import opened FatNames
  import opened FatDirectory
  import opened FatLookup
  import opened FatFile
  import FatMount

  const SLASH: int := 0x2F

  /** The buffer for a component holds 13 characters, its zero included. */
  const COMPONENT_MAX: int := 12

  // ----- splitting a path -----

  /** fat_skip_path_separators */
  function Skip(path: seq<int>, i: nat): (j: nat)
    requires i <= |path|
    ensures i <= j <= |path| && (j < |path| ==> path[j] != SLASH) && forall k :: i <= k < j ==> path[k] == SLASH
    decreases |path| - i
  {
    if i < |path| && path[i] == SLASH then Skip(path, i + 1) else i
  }

  /** Where the component at `i` ends. */
  function Stop(path: seq<int>, i: nat): (j: nat)
    requires i <= |path|
    ensures i <= j <= |path| && (j < |path| ==> path[j] == SLASH) && forall k :: i <= k < j ==> path[k] != SLASH
    decreases |path| - i
  {
    if i < |path| && path[i] != SLASH then Stop(path, i + 1) else i
  }

  /** The components from `i` on. */
  function Components(path: seq<int>, i: nat): seq<seq<int>>
    requires i <= |path|
    decreases |path| - i
  {
    var j := Skip(path, i);
    if j == |path| then [] else [path[j..Stop(path, j)]] + Components(path, Stop(path, j))
  }

  /** fat_is_valid_path_char */
  predicate PathChar(c: int) {
    0x20 <= c <= 0x7E && c != SLASH
  }

  predicate Good(component: seq<int>) {
    0 < |component| <= COMPONENT_MAX && forall i :: 0 <= i < |component| ==> PathChar(component[i])
  }

  /** The path with these components. */
  function Join(cs: seq<seq<int>>): seq<int> {
    if cs == [] then [] else [SLASH] + cs[0] + Join(cs[1..])
  }

  ghost predicate Plain(cs: seq<seq<int>>) {
    forall k :: 0 <= k < |cs| ==> cs[k] != [] && SLASH !in cs[k]
  }

  lemma {:induction false} SkipTo(path: seq<int>, i: nat, j: nat)
    requires i <= j <= |path| && (j < |path| ==> path[j] != SLASH) && forall k :: i <= k < j ==> path[k] == SLASH
    ensures Skip(path, i) == j
    decreases j - i
  {
    if i < j {
      SkipTo(path, i + 1, j);
    }
  }

  lemma {:induction false} StopAt(path: seq<int>, i: nat, j: nat)
    requires i <= j <= |path| && (j < |path| ==> path[j] == SLASH) && forall k :: i <= k < j ==> path[k] != SLASH
    ensures Stop(path, i) == j
    decreases j - i
  {
    if i < j {
      StopAt(path, i + 1, j);
    }
  }

  /** Splitting undoes joining. */
  lemma {:induction false} SplitJoin(cs: seq<seq<int>>)
    requires Plain(cs)
    ensures Components(Join(cs), 0) == cs
  {
    SplitTail([], cs);
    assert [] + Join(cs) == Join(cs);
  }

  lemma {:induction false} SplitTail(front: seq<int>, cs: seq<seq<int>>)
    requires Plain(cs)
    ensures Components(front + Join(cs), |front|) == cs
    decreases |cs|
  {
    var path := front + Join(cs);
    if cs == [] {
      SkipTo(path, |front|, |path|);
    } else {
      var j, e := |front| + 1, |front| + 1 + |cs[0]|;
      assert path == front + [SLASH] + cs[0] + Join(cs[1..]);
      assert path[|front|] == SLASH && path[j..e] == cs[0] && path[j] == cs[0][0];
      SkipTo(path, |front|, j);
      forall k | j <= k < e ensures path[k] != SLASH {
        assert path[k] == cs[0][k - j];
      }
      assert cs[1..] == [] ==> e == |path|;
      StopAt(path, j, e);
      SplitTail(front + [SLASH] + cs[0], cs[1..]);
    }
  }

  /** The copying loop of fat_parse_path_component: the component at `start`, unless it is too long or holds a bad character. */
  method ParseComponent(path: seq<int>, cursor: nat) returns (ok: bool, component: seq<int>, next: nat, more: bool)
    requires cursor <= |path|
    ensures ok ==> cursor <= next <= |path| && (next < |path| ==> path[next] != SLASH) && (more <==> next < |path|)
    ensures Skip(path, cursor) == |path| ==> ok && component == [] && next == |path|
    ensures var j := Skip(path, cursor);
            j < |path| ==> && (ok <==> Good(path[j..Stop(path, j)]))
                           && (ok ==> component == path[j..Stop(path, j)] && next == Skip(path, Stop(path, j)))
  {
    var at := SkipSeparators(path, cursor);
    if at == |path| {
      return true, [], at, false;
    }
    ghost var start, stop := at, Stop(path, at);
    component := [];
    while at < |path| && path[at] != SLASH
      invariant start <= at <= stop && component == path[start..at] && |component| <= COMPONENT_MAX
      invariant forall i :: 0 <= i < |component| ==> PathChar(component[i])
    {
      if !PathChar(path[at]) || |component| + 1 >= COMPONENT_MAX + 1 {
        BadComponent(path, start, at, stop);
        return false, [], 0, false;
      }
      component := component + [path[at]];
      at := at + 1;
    }
    next := SkipSeparators(path, at);
    return true, component, next, next < |path|;
  }

  lemma {:induction false} BadComponent(path: seq<int>, start: nat, at: nat, stop: nat)
    requires start <= at < stop <= |path| && (!PathChar(path[at]) || at - start >= COMPONENT_MAX)
    ensures !Good(path[start..stop])
  {
    assert path[start..stop][at - start] == path[at];
  }

  method SkipSeparators(path: seq<int>, cursor: nat) returns (at: nat)
    requires cursor <= |path|
    ensures at == Skip(path, cursor)
  {
    at := cursor;
    while at < |path| && path[at] == SLASH
      invariant cursor <= at <= |path| && Skip(path, at) == Skip(path, cursor)
    {
      at := at + 1;
    }
  }

  // ----- following a path -----

  /** What a lookup is at: the root, or an entry. */
  datatype Place = Root | At(entry: Dirent)

  /** The geometry and addresses that fat_mount leaves. */
  predicate Mounted(v: Volume) {
    IsVolume(v) && 0 <= v.rootLba < WORD && 0 <= v.rootCluster < WORD
  }

  /** Every boot sector that mounts leaves them. */
  lemma {:induction false} MountLeaves(s: seq<int>, sectorSize: int, bootLba: int)
    requires |s| >= 512 && Bytes(s) && 0 <= bootLba < WORD && FatMount.Mount(FatMount.ReadBpb(s), sectorSize, bootLba).Some?
    ensures Mounted(FatMount.Mount(FatMount.ReadBpb(s), sectorSize, bootLba).value)
  {
    FatMount.BpbInRange(s);
    FatMount.MountedIsVolume(FatMount.ReadBpb(s), sectorSize, bootLba);
  }

  /** The listing of a directory. */
  ghost function Listing(v: Volume, disk: Disk, place: Place): Walk
    requires Mounted(v) && IsDisk(v, disk)
  {
    match place
    case Root => if v.kind == Fat32 then ChainWalk(v, disk, GoOn(), false, v.rootCluster) else RootWalk(v, disk, GoOn(), false)
    case At(d) => if ClusterValid(v, d.firstCluster) then ChainWalk(v, disk, GoOn(), false, d.firstCluster) else Walk(Corrupt, [], false, [])
  }

  /** The first match of a name among the entries, their number if there is none. */
  function FirstIndex(name: seq<int>, seen: seq<Dirent>): (i: nat)
    ensures i <= |seen| && NoMatch(name, seen[..i]) && (i < |seen| ==> Matches(name, seen[i]))
  {
    if seen == [] then 0
    else if Matches(name, seen[0]) then 0
    else
      var i := 1 + FirstIndex(name, seen[1..]);
      assert forall k :: 0 < k < |seen| ==> seen[k] == seen[1..][k - 1];
      i
  }

  /** What looking a name up in a directory gives, by its listing. */
  function Found(name: seq<int>, a: Walk): (Status, Option<Dirent>) {
    var i := FirstIndex(name, a.seen);
    if i == |a.seen| then (if a.status == Ok then NotFound else a.status, None)
    else (if a.seen[i].suspicious then Corrupt else Ok, Some(a.seen[i]))
  }

  lemma {:induction false} AnswersFound(name: seq<int>, a: Walk, status: Status, entry: Option<Dirent>)
    requires Answers(name, a, status, entry)
    ensures (status, entry) == Found(name, a)
  {
    var i := FirstIndex(name, a.seen);
    if i == |a.seen| {
      assert a.seen[..i] == a.seen;
    } else {
      assert !NoMatch(name, a.seen);
      var j :| && 0 <= j < |a.seen| && Matches(name, a.seen[j]) && NoMatch(name, a.seen[..j])
               && entry == Some(a.seen[j]) && status == if a.seen[j].suspicious then Corrupt else Ok;
      FirstUnique(name, a.seen, j);
    }
  }

  lemma {:induction false} FirstUnique(name: seq<int>, seen: seq<Dirent>, j: nat)
    requires j < |seen| && Matches(name, seen[j]) && NoMatch(name, seen[..j])
    ensures FirstIndex(name, seen) == j
  {
    if j > 0 {
      assert seen[..j][0] == seen[0];
      assert seen[1..][..j - 1] == seen[..j][1..];
      FirstUnique(name, seen[1..], j - 1);
    }
  }

  /** Following components from a place, by the listings of the directories on the way. */
  ghost function Resolve(v: Volume, disk: Disk, place: Place, cs: seq<seq<int>>): (Status, Place)
    requires Mounted(v) && IsDisk(v, disk)
    decreases |cs|
  {
    if cs == [] then (Ok, place)
    else if place.At? && place.entry.kind != Directory then (NotDirectory, place)
    else if !Good(cs[0]) then (InvalidPath, place)
    else
      var f := Found(cs[0], Listing(v, disk, place));
      if f.0 != Ok || f.1.None? then (f.0, place) else Resolve(v, disk, At(f.1.value), cs[1..])
  }

  /** Looking up a whole path. */
  ghost function Looked(v: Volume, disk: Disk, path: seq<int>): (Status, Place)
    requires Mounted(v) && IsDisk(v, disk)
  {
    if path == [] || path[0] != SLASH then (InvalidPath, Root) else Resolve(v, disk, Root, Components(path, 0))
  }

  /** fat_find_root_entry and fat_find_directory_entry */
  method FindIn(v: Volume, disk: Disk, place: Place, name: seq<int>) returns (status: Status, entry: Option<Dirent>)
    requires Mounted(v) && IsDisk(v, disk)
    ensures (status, entry) == Found(name, Listing(v, disk, place))
  {
    if place.Root? {
      if v.kind == Fat32 {
        status, entry := FindDirectoryClusterChain(v, disk, v.rootCluster, name);
      } else {
        status, entry := FindRootFixed(v, disk, name);
      }
    } else {
      if !ClusterValid(v, place.entry.firstCluster) {
        return Corrupt, None;
      }
      status, entry := FindDirectoryClusterChain(v, disk, place.entry.firstCluster, name);
    }
    AnswersFound(name, Listing(v, disk, place), status, entry);
  }

  /** fat_lookup_path */
  method LookupPath(v: Volume, disk: Disk, path: seq<int>) returns (status: Status, place: Place)
    requires Mounted(v) && IsDisk(v, disk)
    ensures status == Looked(v, disk, path).0 && (status == Ok ==> place == Looked(v, disk, path).1)
  {
    place := Root;
    if path == [] || path[0] != SLASH {
      return InvalidPath, place;
    }
    var cursor := SkipSeparators(path, 0);
    SplitSkips(path, 0);
    while cursor < |path|
      invariant cursor <= |path| && (cursor < |path| ==> path[cursor] != SLASH && Enterable(place))
      invariant Resolve(v, disk, place, Components(path, cursor)) == Looked(v, disk, path)
      decreases |path| - cursor
    {
      status, place, cursor := Descend(v, disk, path, cursor, place);
      if status != Ok {
        return;
      }
    }
    NothingLeft(v, disk, place, path);
    return Ok, place;
  }

  lemma {:induction false} NothingLeft(v: Volume, disk: Disk, place: Place, path: seq<int>)
    requires Mounted(v) && IsDisk(v, disk)
    ensures Resolve(v, disk, place, Components(path, |path|)) == (Ok, place)
  {
  }

  predicate Enterable(place: Place) {
    place.Root? || place.entry.kind == Directory
  }

  /** One turn of the loop of fat_lookup_path; a file with more components after it is refused here, before the next turn. */
  method Descend(v: Volume, disk: Disk, path: seq<int>, cursor: nat, place: Place) returns (status: Status, deeper: Place, next: nat)
    requires Mounted(v) && IsDisk(v, disk) && cursor < |path| && path[cursor] != SLASH && Enterable(place)
    ensures status != Ok ==> Resolve(v, disk, place, Components(path, cursor)).0 == status
    ensures status == Ok ==> cursor < next <= |path| && (next < |path| ==> path[next] != SLASH && Enterable(deeper))
    ensures status == Ok ==> Resolve(v, disk, place, Components(path, cursor)) == Resolve(v, disk, deeper, Components(path, next))
  {
    deeper := place;
    var ok, component, more;
    SkipTo(path, cursor, cursor);
    ok, component, next, more := ParseComponent(path, cursor);
    ResolveTurn(v, disk, place, path, cursor);
    if !ok || component == [] {
      return InvalidPath, deeper, cursor;
    }
    var found, entry := FindIn(v, disk, place, component);
    if found != Ok {
      return found, deeper, cursor;
    }
    if entry.value.suspicious {
      return Corrupt, deeper, cursor;
    }
    deeper := At(entry.value);
    if more && entry.value.kind != Directory {
      FileEnds(v, disk, deeper, path, next);
      return NotDirectory, deeper, next;
    }
    return Ok, deeper, next;
  }

  /** Following the component at the cursor. */
  lemma {:induction false} ResolveTurn(v: Volume, disk: Disk, place: Place, path: seq<int>, cursor: nat)
    requires Mounted(v) && IsDisk(v, disk) && cursor < |path| && path[cursor] != SLASH && Enterable(place)
    ensures cursor < Stop(path, cursor)
    ensures var c, next := path[cursor..Stop(path, cursor)], Skip(path, Stop(path, cursor));
            var f := Found(c, Listing(v, disk, place));
            Resolve(v, disk, place, Components(path, cursor)) ==
            if !Good(c) then (InvalidPath, place)
            else if f.0 != Ok || f.1.None? then (f.0, place)
            else Resolve(v, disk, At(f.1.value), Components(path, next))
  {
    SkipTo(path, cursor, cursor);
    var stop := Stop(path, cursor);
    SplitSkips(path, stop);
    var cs := Components(path, cursor);
    assert cs[0] == path[cursor..stop] && cs[1..] == Components(path, stop);
  }

  lemma {:induction false} FileEnds(v: Volume, disk: Disk, place: Place, path: seq<int>, next: nat)
    requires Mounted(v) && IsDisk(v, disk) && next < |path| && path[next] != SLASH && !Enterable(place)
    ensures Resolve(v, disk, place, Components(path, next)).0 == NotDirectory
  {
    SkipTo(path, next, next);
  }

  lemma {:induction false} SplitSkips(path: seq<int>, i: nat)
    requires i <= |path|
    ensures Components(path, Skip(path, i)) == Components(path, i)
  {
    SkipTo(path, Skip(path, i), Skip(path, i));
  }

  /** Following a path in two parts. */
  lemma {:induction false} ResolveJoins(v: Volume, disk: Disk, place: Place, a: seq<seq<int>>, b: seq<seq<int>>)
    requires Mounted(v) && IsDisk(v, disk)
    ensures var r := Resolve(v, disk, place, a);
            Resolve(v, disk, place, a + b) == if r.0 == Ok then Resolve(v, disk, r.1, b) else r
    decreases |a|
  {
    if a == [] {
      assert a + b == b;
    } else {
      assert (a + b)[0] == a[0] && (a + b)[1..] == a[1..] + b;
      if !(place.At? && place.entry.kind != Directory) && Good(a[0]) {
        var f := Found(a[0], Listing(v, disk, place));
        if f.0 == Ok && f.1.Some? {
          ResolveJoins(v, disk, At(f.1.value), a[1..], b);
        }
      }
    }
  }

  /**
   A name that some entry of a directory answers to, the first of them sound: the path of the
   directory followed by the name leads to it exactly when the name has at most 12 characters
   that a path may hold, and is refused as invalid otherwise, long names included.
   */
  lemma {:induction false} NameReachable(v: Volume, disk: Disk, cs: seq<seq<int>>, place: Place, name: seq<int>)
    requires Mounted(v) && IsDisk(v, disk) && Resolve(v, disk, Root, cs) == (Ok, place) && Enterable(place)
    requires name != [] && Found(name, Listing(v, disk, place)).0 == Ok
    ensures var r, f := Resolve(v, disk, Root, cs + [name]), Found(name, Listing(v, disk, place));
            if Good(name) then f.1.Some? && r == (Ok, At(f.1.value)) else r.0 == InvalidPath
  {
    ResolveJoins(v, disk, Root, cs, [name]);
    assert [name][1..] == [];
  }

  /** A short name always fits: it can be used in a path exactly when its eleven bytes hold no slash. */
  lemma {:induction false} ShortNameGood(raw: seq<int>)
    requires |raw| == 11
    ensures 0 < |ShortName(raw)| <= COMPONENT_MAX && (Good(ShortName(raw)) <==> SLASH !in raw)
  {
    var n := ShortName(raw);
    forall i | 0 <= i < |n| ensures 0x20 <= n[i] <= 0x7E {
      ShortNamePrintable(raw, i);
    }
    SlashShows(raw);
    if SLASH in n {
      var i :| 0 <= i < |n| && n[i] == SLASH;
      assert !PathChar(n[i]);
    }
  }

  lemma {:induction false} ShortNamePrintable(raw: seq<int>, i: nat)
    requires |raw| == 11 && i < |ShortName(raw)|
    ensures 0x20 <= ShortName(raw)[i] <= 0x7E
  {
  }

  lemma {:induction false} SlashShows(raw: seq<int>)
    requires |raw| == 11
    ensures SLASH in ShortName(raw) <==> SLASH in raw
  {
    var stem, ext := raw[..8], raw[8..];
    assert raw == stem + ext;
    SlashStays(stem);
    SlashStays(ext);
    SlashPrints(Trimmed(stem));
    SlashPrints(Trimmed(ext));
  }

  lemma {:induction false} SlashStays(s: seq<int>)
    ensures SLASH in Trimmed(s) <==> SLASH in s
  {
    if s != [] && s[|s| - 1] == SPACE {
      SlashStays(s[..|s| - 1]);
      assert s == s[..|s| - 1] + [SPACE];
    }
  }

  lemma {:induction false} SlashPrints(s: seq<int>)
    ensures SLASH in AllPrintable(s) <==> SLASH in s
  {
    var p := AllPrintable(s);
    if SLASH in s {
      var i :| 0 <= i < |s| && s[i] == SLASH;
      assert p[i] == SLASH;
    }
    if SLASH in p {
      var i :| 0 <= i < |p| && p[i] == SLASH;
      assert s[i] == SLASH;
    }
  }

  // ----- entries as the slots give them -----

  /** Cluster and size fit 32 bits, and the short name is that of the eleven raw bytes. */
  ghost predicate Genuine(d: Dirent) {
    |d.rawName| == 11 && d.shortName == ShortName(d.rawName) && 0 <= d.firstCluster < WORD && 0 <= d.size < WORD
  }

  ghost predicate AllGenuine(seen: seq<Dirent>) {
    forall i :: 0 <= i < |seen| ==> Genuine(seen[i])
  }

  lemma {:induction false} RawGenuine(slot: seq<int>)
    requires IsSlot(slot)
    ensures Genuine(FromRaw(slot))
  {
    assert Bytes(slot[20..22]) && Bytes(slot[26..28]) && Bytes(slot[28..32]);
  }

  lemma {:induction false} SlotsGenuine(v: Volume, slots: seq<seq<int>>, l: Lfn, seen: seq<Dirent>)
    requires AllSlots(slots) && AllGenuine(seen)
    ensures AllGenuine(VisitSlots(v, GoOn(), slots, l, seen).seen)
    decreases |slots|
  {
    if slots != [] {
      RawGenuine(slots[0]);
      var r := Step(v, GoOn(), l, seen, slots[0]);
      assert AllGenuine(r.seen);
      if r.outcome == More {
        SlotsGenuine(v, slots[1..], r.lfn, r.seen);
      }
    }
  }

  lemma {:induction false} SectorsGenuine(v: Volume, disk: Disk, lbas: seq<int>, l: Lfn, seen: seq<Dirent>)
    requires IsDisk(v, disk) && AllGenuine(seen)
    ensures AllGenuine(VisitSectors(v, disk, GoOn(), false, lbas, l, seen).seen)
    decreases |lbas|
  {
    if lbas != [] && lbas[0] in disk {
      var r := VisitSlots(v, GoOn(), SlotsAt(v, disk, lbas[0]), l, seen);
      SlotsGenuine(v, SlotsAt(v, disk, lbas[0]), l, seen);
      SectorsGenuine(v, disk, lbas[1..], r.lfn, r.seen);
    }
  }

  lemma {:induction false} WalkGenuine(v: Volume, disk: Disk, c: int, visited: seq<int>, l: Lfn, seen: seq<Dirent>)
    requires IsVolume(v) && IsDisk(v, disk) && 0 <= c < WORD && AllGenuine(seen)
    ensures AllGenuine(WalkFrom(v, disk, GoOn(), false, c, visited, l, seen).seen)
    decreases MAX_CLUSTERS - |visited|
  {
    var p := WalkStep(v, disk, GoOn(), false, c, visited, l, seen);
    PaceGenuine(v, disk, c, visited, l, seen);
    if p.Next? {
      WalkGenuine(v, disk, p.cluster, visited + [c], p.lfn, p.seen);
    }
  }

  lemma {:induction false} PaceGenuine(v: Volume, disk: Disk, c: int, visited: seq<int>, l: Lfn, seen: seq<Dirent>)
    requires IsVolume(v) && IsDisk(v, disk) && 0 <= c < WORD && AllGenuine(seen)
    ensures AllGenuine(Delivered(WalkStep(v, disk, GoOn(), false, c, visited, l, seen)))
  {
    SectorsGenuine(v, disk, ClusterLbas(v, c), l, seen);
  }

  lemma {:induction false} ListingGenuine(v: Volume, disk: Disk, place: Place)
    requires Mounted(v) && IsDisk(v, disk)
    ensures AllGenuine(Listing(v, disk, place).seen)
  {
    match place
    case Root =>
      if v.kind == Fat32 {
        WalkGenuine(v, disk, v.rootCluster, [], Cleared(), []);
      } else {
        SectorsGenuine(v, disk, Lbas(v.rootLba, RootCount(v)), Cleared(), []);
      }
    case At(d) =>
      if ClusterValid(v, d.firstCluster) {
        WalkGenuine(v, disk, d.firstCluster, [], Cleared(), []);
      }
  }

  /** What a path leads to is a sound entry. */
  lemma {:induction false} ResolvedGenuine(v: Volume, disk: Disk, place: Place, cs: seq<seq<int>>)
    requires Mounted(v) && IsDisk(v, disk) && (place.At? ==> Genuine(place.entry) && !place.entry.suspicious)
    ensures var r := Resolve(v, disk, place, cs);
            r.0 == Ok && r.1.At? ==> Genuine(r.1.entry) && !r.1.entry.suspicious
    decreases |cs|
  {
    if cs != [] {
      ListingGenuine(v, disk, place);
      FoundGenuine(cs[0], Listing(v, disk, place));
      var f := Found(cs[0], Listing(v, disk, place));
      if f.0 == Ok && f.1.Some? {
        ResolvedGenuine(v, disk, At(f.1.value), cs[1..]);
      }
    }
  }

  lemma {:induction false} FoundGenuine(name: seq<int>, a: Walk)
    requires AllGenuine(a.seen)
    ensures var f := Found(name, a);
            f.0 == Ok && f.1.Some? ==> Genuine(f.1.value) && !f.1.value.suspicious
  {
  }

  // ----- opening and reading by path -----

  /** The file that a path names, as fat_open_file finds it. */
  ghost function Named(v: Volume, disk: Disk, path: seq<int>): (Status, Option<Dirent>)
    requires Mounted(v) && IsDisk(v, disk)
  {
    var l := Looked(v, disk, path);
    if l.0 != Ok then (l.0, None)
    else if l.1.Root? || l.1.entry.kind != RegularFile then (NotFile, None)
    else (Ok, Some(l.1.entry))
  }

  lemma {:induction false} NamedGenuine(v: Volume, disk: Disk, path: seq<int>)
    requires Mounted(v) && IsDisk(v, disk)
    ensures var f := Named(v, disk, path);
            f.0 == Ok ==> f.1.Some? && Genuine(f.1.value) && !f.1.value.suspicious && f.1.value.kind == RegularFile
  {
    if path != [] && path[0] == SLASH {
      ResolvedGenuine(v, disk, Root, Components(path, 0));
    }
  }

  method FindFile(v: Volume, disk: Disk, path: seq<int>) returns (status: Status, file: Option<Dirent>)
    requires Mounted(v) && IsDisk(v, disk)
    ensures (status, file) == Named(v, disk, path)
    ensures status == Ok ==> file.Some? && Genuine(file.value) && !file.value.suspicious
  {
    NamedGenuine(v, disk, path);
    var place;
    status, place := LookupPath(v, disk, path);
    if status != Ok {
      return status, None;
    }
    if place.Root? || place.entry.kind != RegularFile {
      return NotFile, None;
    }
    return Ok, Some(place.entry);
  }

  /** fat_open_file; its test for suspicious entries never acts, since the lookup has refused them. */
  method OpenPath(v: Volume, disk: Disk, path: seq<int>) returns (status: Status, file: Option<OpenFile>)
    requires Mounted(v) && IsDisk(v, disk)
    ensures status == Ok <==> file.Some?
    ensures var n := Named(v, disk, path);
            status == if n.0 != Ok then n.0
                      else if n.1.Some? && n.1.value.size != 0 && !ClusterValid(v, n.1.value.firstCluster) then Corrupt else Ok
    ensures file.Some? ==>
              var f, d := file.value, Named(v, disk, path).1;
              fresh(f) && f.Valid() && d.Some? && f.v == v && f.disk == disk && f.size == d.value.size && f.State() == Start(d.value.size, d.value.firstCluster)
  {
    var entry;
    status, entry := FindFile(v, disk, path);
    if status != Ok {
      return status, None;
    }
    var f;
    status, f := Open(v, disk, entry.value.size, entry.value.firstCluster);
    if status != Ok {
      return status, None;
    }
    return Ok, Some(f);
  }

  /** Reading a range of the file that a path names. */
  ghost function PathRanged(v: Volume, disk: Disk, path: seq<int>, offset: nat, count: nat): (Status, seq<int>)
    requires Mounted(v) && IsDisk(v, disk)
  {
    var n := Named(v, disk, path);
    if n.0 != Ok || n.1.None? then (n.0, [])
    else if !(0 <= n.1.value.firstCluster < WORD) then (Corrupt, [])
    else Ranged(v, disk, n.1.value.size, n.1.value.firstCluster, offset, count)
  }

  /** fat_read_file_range */
  method ReadPathRange(v: Volume, disk: Disk, path: seq<int>, offset: nat, buffer: array<int>, count: nat) returns (status: Status, copied: nat)
    requires Mounted(v) && IsDisk(v, disk) && count <= buffer.Length
    modifies buffer
    ensures copied <= count && buffer[copied..] == old(buffer[copied..])
    ensures (status, buffer[..copied]) == PathRanged(v, disk, path, offset, count)
  {
    var entry;
    status, entry := FindFile(v, disk, path);
    if status != Ok {
      return status, 0;
    }
    status, copied := ReadRange(v, disk, entry.value.size, entry.value.firstCluster, offset, buffer, count);
  }

  /** From a path to bytes: where the listings lead to a regular file whose chain is healthy, any range of it is read exactly. */
  lemma {:induction false} PathReads(v: Volume, disk: Disk, cs: seq<seq<int>>, d: Dirent, chain: seq<int>, offset: nat, count: nat)
    requires Mounted(v) && IsDisk(v, disk) && Plain(cs) && Resolve(v, disk, Root, cs) == (Ok, At(d)) && d.kind == RegularFile
    requires 0 <= d.size && Healthy(v, disk, d.size, chain) && (d.size > 0 ==> d.firstCluster == chain[0])
    ensures PathRanged(v, disk, Join(cs), offset, count) ==
            (Ok, if offset >= d.size then [] else Contents(v, disk, chain, d.size)[offset..Least(offset + count, d.size)])
  {
    NamedBy(v, disk, cs, d);
    ResolvedGenuine(v, disk, Root, cs);
    RangeHealthy(v, disk, d.size, chain, d.firstCluster, offset, count);
  }

  lemma {:induction false} NamedBy(v: Volume, disk: Disk, cs: seq<seq<int>>, d: Dirent)
    requires Mounted(v) && IsDisk(v, disk) && Plain(cs) && Resolve(v, disk, Root, cs) == (Ok, At(d)) && d.kind == RegularFile
    ensures Named(v, disk, Join(cs)) == (Ok, Some(d))
  {
    assert cs != [];
    SplitJoin(cs);
    assert Join(cs)[0] == SLASH;
  }
}
