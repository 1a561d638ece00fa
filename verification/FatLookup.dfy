/** Long names delivered whole, and finding an entry compared with listing its directory. */
module FatLookup {
  import opened Words
  import opened Wrappers
  import opened FatVolume
  import opened FatNames
  import opened FatDirectory

  // ----- long names survive the round trip -----

  lemma {:induction false} SlotBytes(s: seq<int>, k: nat, sum: int, last: bool)
    requires IsName(s) && 1 <= k <= 20 && 0 <= sum < 256
    ensures IsSlot(EncodeSlot(s, k, sum, last))
  {
    var slot := EncodeSlot(s, k, sum, last);
    forall b | 0 <= b < 32 ensures 0 <= slot[b] < 256 {
      SlotByteRange(s, k, sum, last, b);
    }
  }

  lemma {:induction false} SlotByteRange(s: seq<int>, k: nat, sum: int, last: bool, b: nat)
    requires IsName(s) && 1 <= k <= 20 && 0 <= sum < 256 && b < 32
    ensures 0 <= SlotByte(s, k, sum, last, b) < 256
  {
  }

  lemma {:induction false} EncodedSlots(s: seq<int>, ks: seq<nat>, sum: int)
    requires IsName(s) && Numbers(ks, SlotCount(s)) && 0 <= sum < 256
    ensures AllSlots(NameSlots(s, ks, sum))
  {
    if ks != [] {
      SlotBytes(s, ks[0], sum, ks[0] == SlotCount(s));
      EncodedSlots(s, ks[1..], sum);
    }
  }

  lemma {:induction false} ChecksumRange(name: seq<int>)
    ensures 0 <= Checksum(name) < 256
  {
  }

  /** Scanning slots of the name assembles what they carry and delivers nothing. */
  lemma {:induction false} CollectRun(v: Volume, cb: Callback, s: seq<int>, K: set<int>, ks: seq<nat>, sum: int, l: Lfn, seen: seq<Dirent>)
    requires IsName(s) && Numbers(ks, SlotCount(s)) && 0 <= sum < 256 && (K == {} || SlotCount(s) in K)
    requires l == Held(s, K, sum) || (ks != [] && ks[0] == SlotCount(s))
    ensures AllSlots(NameSlots(s, ks, sum))
    ensures VisitSlots(v, cb, NameSlots(s, ks, sum), l, seen) == Visit(Held(s, Gather(K, ks, SlotCount(s)), sum), seen, More)
    decreases |ks|
  {
    EncodedSlots(s, ks, sum);
    if ks != [] {
      var next := Gained(K, ks[0], SlotCount(s));
      CollectStep(v, cb, s, K, ks[0], sum, l, seen);
      assert NameSlots(s, ks, sum)[1..] == NameSlots(s, ks[1..], sum);
      CollectRun(v, cb, s, next, ks[1..], sum, Held(s, next, sum), seen);
    }
  }

  lemma {:induction false} CollectStep(v: Volume, cb: Callback, s: seq<int>, K: set<int>, k: nat, sum: int, l: Lfn, seen: seq<Dirent>)
    requires IsName(s) && 1 <= k <= SlotCount(s)
    requires k == SlotCount(s) || (l == Held(s, K, sum) && (K == {} || SlotCount(s) in K))
    ensures Step(v, cb, l, seen, EncodeSlot(s, k, sum, k == SlotCount(s))) == Visit(Held(s, Gained(K, k, SlotCount(s)), sum), seen, More)
  {
    SlotHeader(s, k, sum, k == SlotCount(s));
    CollectSlot(l, s, K, k, sum);
  }

  /** A slot of an ordinary entry. */
  ghost predicate IsShort(slot: seq<int>) {
    IsSlot(slot) && slot[0] != 0 && slot[0] != 0xE5 && slot[11] != 0x0F
  }

  /** Slots of a long name, in the order given, and the entry it belongs to. */
  function RunSlots(name: seq<int>, ks: seq<nat>, short: seq<int>): seq<seq<int>>
    requires |short| == 32 && Numbers(ks, SlotCount(name))
  {
    NameSlots(name, ks, Checksum(short[..11])) + [short]
  }

  /** The slots of a long name and of the entry it belongs to. */
  function NamedSlots(name: seq<int>, short: seq<int>): seq<seq<int>>
    requires |short| == 32
  {
    RunSlots(name, Down(SlotCount(name)), short)
  }

  /**
   Slots of a name, in any order, some missing or repeated, and then the short entry.  They
   follow another entry, or begin with the last slot after anything at all.  The entry is
   delivered with the long name up to the first slot missing, and without one when that is
   slot 1, slots before the last one counting as missing.  So the delivered long name is the
   encoded one exactly when every slot was seen, which is what fat_lfn_collect reports and
   the scan ignores.
   */
  lemma {:induction false} LongNameExact(v: Volume, cb: Callback, name: seq<int>, ks: seq<nat>, short: seq<int>, l: Lfn, seen: seq<Dirent>)
    requires IsName(name) && IsShort(short) && Numbers(ks, SlotCount(name))
    requires l == Cleared() || (ks != [] && ks[0] == SlotCount(name))
    ensures AllSlots(RunSlots(name, ks, short))
    ensures var K := Gather({}, ks, SlotCount(name));
            var r := VisitSlots(v, cb, RunSlots(name, ks, short), l, seen);
            && |r.seen| == |seen| + 1 && seen <= r.seen && r == Deliver(cb, r.seen)
            && r.seen[|seen|] == Titled(v, short, if 1 in K then Some(name[..Cut(name, K)]) else None)
            && (r.seen[|seen|] == Titled(v, short, Some(name)) <==> Complete(Held(name, K, Checksum(short[..11]))))
  {
    var sum, t := Checksum(short[..11]), SlotCount(name);
    ChecksumRange(short[..11]);
    var K := Gather({}, ks, t);
    CollectRun(v, cb, name, {}, ks, sum, l, seen);
    VisitJoin(v, cb, NameSlots(name, ks, sum), [short], l, seen);
    LastSlot(v, cb, short, Held(name, K, sum), seen);
    EntryTitled(v, name, K, short);
  }

  /** The entry of `short`, with this long name or without one. */
  function Titled(v: Volume, short: seq<int>, long: Option<seq<int>>): Dirent
    requires |short| == 32
  {
    var d := FromRaw(short);
    var n := if long.Some? then d.(displayName := long.value, hasLongName := true) else d;
    if Listed(n) && n.firstCluster != 0 && !ClusterValid(v, n.firstCluster) then n.(suspicious := true) else n
  }

  lemma {:induction false} EntryTitled(v: Volume, name: seq<int>, K: set<int>, short: seq<int>)
    requires IsName(name) && |short| == 32
    ensures var l := Held(name, K, Checksum(short[..11]));
            && Entry(v, l, short) == Titled(v, short, if 1 in K then Some(name[..Cut(name, K)]) else None)
            && (Entry(v, l, short) == Titled(v, short, Some(name)) <==> Complete(l))
  {
    if K != {} {
      AssembledName(name, K);
      assert name[..|name|] == name;
    }
  }

  /** Any name of 1 to 255 printable characters, in slots with the checksum of its short entry, is delivered unchanged, whatever was collected before. */
  lemma {:induction false} LongNameRoundTrip(v: Volume, cb: Callback, name: seq<int>, short: seq<int>, l: Lfn, seen: seq<Dirent>)
    requires IsName(name) && IsShort(short)
    ensures AllSlots(NamedSlots(name, short))
    ensures var r := VisitSlots(v, cb, NamedSlots(name, short), l, seen);
            && |r.seen| == |seen| + 1 && seen <= r.seen && r == Deliver(cb, r.seen)
            && r.seen[|seen|] == Titled(v, short, Some(name))
  {
    var t := SlotCount(name);
    LongNameExact(v, cb, name, Down(t), short, l, seen);
    GatherDown({}, t, t);
  }

  /** A name of 39 characters whose second slot is missing: its first 13 are delivered as its long name. */
  lemma {:induction false} MissingSlotTruncates(v: Volume, cb: Callback, short: seq<int>)
    requires IsShort(short)
    ensures var name := seq(39, i => 0x61);
            && IsName(name) && SlotCount(name) == 3 && AllSlots(RunSlots(name, [3, 1], short))
            && var d := VisitSlots(v, cb, RunSlots(name, [3, 1], short), Cleared(), []).seen;
            |d| == 1 && d[0] == Titled(v, short, Some(name[..13]))
  {
    var name := seq(39, i => 0x61);
    SecondMissing();
    LongNameExact(v, cb, name, [3, 1], short, Cleared(), []);
  }

  lemma {:induction false} SecondMissing()
    ensures var K := Gather({}, [3, 1], 3);
            1 in K && FirstMissing(K, 1, 3) == 2
  {
    assert [3, 1][1..] == [1] && [1][1..] == [];
    assert Gather({}, [3, 1], 3) == {3, 1};
  }

  lemma {:induction false} LastSlot(v: Volume, cb: Callback, short: seq<int>, l: Lfn, seen: seq<Dirent>)
    requires IsShort(short)
    ensures VisitSlots(v, cb, [short], l, seen) == Deliver(cb, seen + [Entry(v, l, short)])
  {
    var r := Step(v, cb, l, seen, short);
    assert [short][1..] == [];
    assert VisitSlots(v, cb, [], r.lfn, r.seen) == Visit(r.lfn, r.seen, More);
  }

  lemma {:induction false} VisitGrows(v: Volume, cb: Callback, slots: seq<seq<int>>, l: Lfn, seen: seq<Dirent>)
    requires AllSlots(slots)
    ensures seen <= VisitSlots(v, cb, slots, l, seen).seen
    decreases |slots|
  {
    if slots != [] {
      var r := Step(v, cb, l, seen, slots[0]);
      if r.outcome == More {
        VisitGrows(v, cb, slots[1..], r.lfn, r.seen);
      }
    }
  }

  /** The same inside any stretch of slots that the scan reaches. */
  lemma {:induction false} NameDelivered(v: Volume, cb: Callback, before: seq<seq<int>>, name: seq<int>, short: seq<int>, after: seq<seq<int>>)
    requires IsName(name) && IsShort(short) && AllSlots(before) && AllSlots(after) && Steady(cb)
    requires VisitSlots(v, cb, before, Cleared(), []).outcome == More
    ensures AllSlots(before + (NamedSlots(name, short) + after))
    ensures var i := |VisitSlots(v, cb, before, Cleared(), []).seen|;
            var seen := VisitSlots(v, cb, before + (NamedSlots(name, short) + after), Cleared(), []).seen;
            i < |seen| && seen[i] == Titled(v, short, Some(name))
  {
    var r := VisitSlots(v, cb, before, Cleared(), []);
    LongNameRoundTrip(v, cb, name, short, r.lfn, r.seen);
    var m := VisitSlots(v, cb, NamedSlots(name, short), r.lfn, r.seen);
    VisitJoin(v, cb, NamedSlots(name, short), after, r.lfn, r.seen);
    VisitJoin(v, cb, before, NamedSlots(name, short) + after, Cleared(), []);
    VisitGrows(v, cb, after, m.lfn, m.seen);
  }

  /** So a directory walk delivers it, wherever sector and cluster boundaries fall in the run. */
  lemma {:induction false} NameInDirectory(v: Volume, disk: Disk, cb: Callback, c: int, before: seq<seq<int>>, name: seq<int>, short: seq<int>, after: seq<seq<int>>)
    requires IsVolume(v) && IsDisk(v, disk) && 0 <= c < WORD && Steady(cb)
    requires IsName(name) && IsShort(short) && AllSlots(before) && AllSlots(after)
    requires var w := ChainWalk(v, disk, cb, false, c);
             w.status == Ok && ChainSlots(v, disk, w.visited) == before + (NamedSlots(name, short) + after)
    requires VisitSlots(v, cb, before, Cleared(), []).outcome == More
    ensures exists i :: 0 <= i < |ChainWalk(v, disk, cb, false, c).seen| && ChainWalk(v, disk, cb, false, c).seen[i].displayName == name
  {
    var w := ChainWalk(v, disk, cb, false, c);
    WalkJoins(v, disk, cb, false, c, [], Cleared(), []);
    assert w.visited[0..] == w.visited;
    NameDelivered(v, cb, before, name, short, after);
    assert w.seen[|VisitSlots(v, cb, before, Cleared(), []).seen|].displayName == name;
  }

  // ----- finding and listing -----

  predicate Matches(name: seq<int>, d: Dirent) {
    Listed(d) && ((d.hasLongName && SameName(d.displayName, name)) || SameName(d.shortName, name))
  }

  /** fat_find_entry_callback: go on until the entry at hand matches. */
  function FindCallback(name: seq<int>): Callback {
    (h: seq<Dirent>) => h == [] || !Matches(name, h[|h| - 1])
  }

  function GoOn(): Callback {
    (h: seq<Dirent>) => true
  }

  ghost predicate NoMatch(name: seq<int>, seen: seq<Dirent>) {
    forall i :: 0 <= i < |seen| ==> !Matches(name, seen[i])
  }

  /** `found` is `seen` up to and including its first match. */
  ghost predicate FirstMatch(name: seq<int>, found: seq<Dirent>, seen: seq<Dirent>) {
    found != [] && found <= seen && Matches(name, found[|found| - 1]) && NoMatch(name, found[..|found| - 1])
  }

  /** A scan that stops at a match, compared with one that does not stop. */
  ghost predicate Agrees(name: seq<int>, f: Visit, a: Visit) {
    if NoMatch(name, a.seen) then f == a else f.outcome == Stopped && FirstMatch(name, f.seen, a.seen)
  }

  lemma {:induction false} DeliverAgrees(name: seq<int>, seen: seq<Dirent>, d: Dirent)
    requires NoMatch(name, seen)
    ensures Agrees(name, Deliver(FindCallback(name), seen + [d]), Deliver(GoOn(), seen + [d]))
  {
    var more := seen + [d];
    assert more[..|more| - 1] == seen;
    if Matches(name, d) {
      assert !NoMatch(name, more) by { assert more[|seen|] == d; }
    } else {
      assert NoMatch(name, more);
    }
  }

  lemma {:induction false} StepAgrees(v: Volume, name: seq<int>, l: Lfn, seen: seq<Dirent>, slot: seq<int>)
    requires |slot| == 32 && NoMatch(name, seen)
    ensures Agrees(name, Step(v, FindCallback(name), l, seen, slot), Step(v, GoOn(), l, seen, slot))
  {
    if slot[0] == 0xE5 {
      DeliverAgrees(name, seen, FromRaw(slot));
    } else if slot[0] != 0 && slot[11] != 0x0F {
      DeliverAgrees(name, seen, Entry(v, l, slot));
    }
  }

  lemma {:induction false} FirstMatchGrows(name: seq<int>, found: seq<Dirent>, seen: seq<Dirent>, more: seq<Dirent>)
    requires FirstMatch(name, found, seen) && seen <= more
    ensures FirstMatch(name, found, more) && !NoMatch(name, more)
  {
    assert more[|found| - 1] == found[|found| - 1];
  }

  lemma {:induction false} SlotsAgree(v: Volume, name: seq<int>, slots: seq<seq<int>>, l: Lfn, seen: seq<Dirent>)
    requires AllSlots(slots) && NoMatch(name, seen)
    ensures Agrees(name, VisitSlots(v, FindCallback(name), slots, l, seen), VisitSlots(v, GoOn(), slots, l, seen))
    decreases |slots|
  {
    if slots != [] {
      var a := Step(v, GoOn(), l, seen, slots[0]);
      var f := Step(v, FindCallback(name), l, seen, slots[0]);
      StepAgrees(v, name, l, seen, slots[0]);
      if a.outcome == More {
        if NoMatch(name, a.seen) {
          SlotsAgree(v, name, slots[1..], a.lfn, a.seen);
        } else {
          VisitGrows(v, GoOn(), slots[1..], a.lfn, a.seen);
          FirstMatchGrows(name, f.seen, a.seen, VisitSlots(v, GoOn(), slots[1..], a.lfn, a.seen).seen);
        }
      }
    }
  }

  lemma {:induction false} SectorsGrow(v: Volume, disk: Disk, cb: Callback, halt: bool, lbas: seq<int>, l: Lfn, seen: seq<Dirent>)
    requires IsDisk(v, disk)
    ensures seen <= VisitSectors(v, disk, cb, halt, lbas, l, seen).seen
    decreases |lbas|
  {
    if lbas != [] && lbas[0] in disk {
      var r := VisitSlots(v, cb, SlotsAt(v, disk, lbas[0]), l, seen);
      VisitGrows(v, cb, SlotsAt(v, disk, lbas[0]), l, seen);
      SectorsGrow(v, disk, cb, halt, lbas[1..], r.lfn, r.seen);
    }
  }

  lemma {:induction false} SectorsAgree(v: Volume, disk: Disk, name: seq<int>, lbas: seq<int>, l: Lfn, seen: seq<Dirent>)
    requires IsDisk(v, disk) && NoMatch(name, seen)
    ensures Agrees(name, VisitSectors(v, disk, FindCallback(name), true, lbas, l, seen), VisitSectors(v, disk, GoOn(), false, lbas, l, seen))
    decreases |lbas|
  {
    if lbas != [] && lbas[0] in disk {
      var slots := SlotsAt(v, disk, lbas[0]);
      var a, f := VisitSlots(v, GoOn(), slots, l, seen), VisitSlots(v, FindCallback(name), slots, l, seen);
      SlotsAgree(v, name, slots, l, seen);
      NeverStops(v, GoOn(), slots, l, seen);
      if a.outcome == More {
        if NoMatch(name, a.seen) {
          SectorsAgree(v, disk, name, lbas[1..], a.lfn, a.seen);
        } else {
          SectorsGrow(v, disk, GoOn(), false, lbas[1..], a.lfn, a.seen);
          FirstMatchGrows(name, f.seen, a.seen, VisitSectors(v, disk, GoOn(), false, lbas[1..], a.lfn, a.seen).seen);
        }
      }
    }
  }

  /** The walk that finds, compared with the walk that lists. */
  ghost predicate WalksAgree(name: seq<int>, f: Walk, a: Walk) {
    if NoMatch(name, a.seen) then !f.found && f.status == a.status else f.found && FirstMatch(name, f.seen, a.seen)
  }

  lemma {:induction false} PaceGrows(v: Volume, disk: Disk, cb: Callback, halt: bool, c: int, visited: seq<int>, l: Lfn, seen: seq<Dirent>)
    requires IsVolume(v) && IsDisk(v, disk) && 0 <= c < WORD
    ensures var p := WalkStep(v, disk, cb, halt, c, visited, l, seen);
            seen <= Delivered(p)
  {
    SectorsGrow(v, disk, cb, halt, ClusterLbas(v, c), l, seen);
  }

  lemma {:induction false} WalkGrows(v: Volume, disk: Disk, cb: Callback, halt: bool, c: int, visited: seq<int>, l: Lfn, seen: seq<Dirent>)
    requires IsVolume(v) && IsDisk(v, disk) && 0 <= c < WORD
    ensures seen <= WalkFrom(v, disk, cb, halt, c, visited, l, seen).seen
    decreases MAX_CLUSTERS - |visited|
  {
    var p := WalkStep(v, disk, cb, halt, c, visited, l, seen);
    PaceGrows(v, disk, cb, halt, c, visited, l, seen);
    if p.Next? {
      WalkGrows(v, disk, cb, halt, p.cluster, visited + [c], p.lfn, p.seen);
    }
  }

  ghost predicate PacesAgree(name: seq<int>, f: Pace, a: Pace) {
    if NoMatch(name, Delivered(a)) then f == a && (a.Done? ==> !a.walk.found)
    else f.Done? && f.walk.found && FirstMatch(name, f.walk.seen, Delivered(a))
  }

  /** One cluster of the two walks. */
  lemma {:induction false} PaceAgrees(v: Volume, disk: Disk, name: seq<int>, c: int, visited: seq<int>, l: Lfn, seen: seq<Dirent>)
    requires IsVolume(v) && IsDisk(v, disk) && 0 <= c < WORD && NoMatch(name, seen)
    ensures PacesAgree(name, WalkStep(v, disk, FindCallback(name), true, c, visited, l, seen), WalkStep(v, disk, GoOn(), false, c, visited, l, seen))
  {
    var lbas := ClusterLbas(v, c);
    SectorsAgree(v, disk, name, lbas, l, seen);
    SectorsNeverStop(v, disk, lbas, l, seen);
    OnwardAgrees(v, name, VisitSectors(v, disk, FindCallback(name), true, lbas, l, seen),
                 VisitSectors(v, disk, GoOn(), false, lbas, l, seen), FatEntry(v, disk, c), visited + [c]);
  }

  function Delivered(p: Pace): seq<Dirent> {
    if p.Next? then p.seen else p.walk.seen
  }

  lemma {:induction false} OnwardAgrees(v: Volume, name: seq<int>, f: Visit, a: Visit, e: Option<int>, visited: seq<int>)
    requires Agrees(name, f, a) && a.outcome != Stopped
    ensures PacesAgree(name, Onward(v, f, e, visited), Onward(v, a, e, visited))
  {
  }

  lemma {:induction false} SectorsNeverStop(v: Volume, disk: Disk, lbas: seq<int>, l: Lfn, seen: seq<Dirent>)
    requires IsDisk(v, disk)
    ensures VisitSectors(v, disk, GoOn(), false, lbas, l, seen).outcome != Stopped
    decreases |lbas|
  {
    if lbas != [] && lbas[0] in disk {
      var r := VisitSlots(v, GoOn(), SlotsAt(v, disk, lbas[0]), l, seen);
      SectorsNeverStop(v, disk, lbas[1..], r.lfn, r.seen);
    }
  }

  lemma {:induction false} FindAgrees(v: Volume, disk: Disk, name: seq<int>, c: int, visited: seq<int>, l: Lfn, seen: seq<Dirent>)
    requires IsVolume(v) && IsDisk(v, disk) && 0 <= c < WORD && NoMatch(name, seen)
    ensures WalksAgree(name, WalkFrom(v, disk, FindCallback(name), true, c, visited, l, seen), WalkFrom(v, disk, GoOn(), false, c, visited, l, seen))
    decreases MAX_CLUSTERS - |visited|
  {
    var f, a := WalkStep(v, disk, FindCallback(name), true, c, visited, l, seen), WalkStep(v, disk, GoOn(), false, c, visited, l, seen);
    PaceAgrees(v, disk, name, c, visited, l, seen);
    if a.Next? {
      if NoMatch(name, a.seen) {
        FindAgrees(v, disk, name, a.cluster, visited + [c], a.lfn, a.seen);
      } else {
        WalkGrows(v, disk, GoOn(), false, a.cluster, visited + [c], a.lfn, a.seen);
        FirstMatchGrows(name, f.walk.seen, a.seen, WalkFrom(v, disk, GoOn(), false, a.cluster, visited + [c], a.lfn, a.seen).seen);
      }
    }
  }

  /** What finding a name must answer, given the listing of the same directory. */
  ghost predicate Answers(name: seq<int>, a: Walk, status: Status, entry: Option<Dirent>) {
    && (NoMatch(name, a.seen) ==> entry == None && status == if a.status == Ok then NotFound else a.status)
    && (!NoMatch(name, a.seen) ==>
          exists i :: && 0 <= i < |a.seen| && Matches(name, a.seen[i]) && NoMatch(name, a.seen[..i])
                      && entry == Some(a.seen[i]) && status == if a.seen[i].suspicious then Corrupt else Ok)
    && (status == NotFound <==> a.status == Ok && NoMatch(name, a.seen))
  }

  /** How the find functions end. */
  function Verdict(status: Status, seen: seq<Dirent>, found: bool): (Status, Option<Dirent>) {
    if found && seen != [] then
      (if seen[|seen| - 1].suspicious then Corrupt else Ok, Some(seen[|seen| - 1]))
    else (if status == Ok then NotFound else status, None)
  }

  lemma {:induction false} VerdictAnswers(name: seq<int>, f: Walk, a: Walk)
    requires WalksAgree(name, f, a) && a.status in {Ok, IoError, Corrupt}
    ensures Answers(name, a, Verdict(f.status, f.seen, f.found).0, Verdict(f.status, f.seen, f.found).1)
  {
    if !NoMatch(name, a.seen) {
      var i := |f.seen| - 1;
      assert a.seen[..i] == f.seen[..i] && a.seen[i] == f.seen[i];
    }
  }

  /** Finding in a chain of clusters answers what its listing determines. */
  lemma {:induction false} ChainFindAgrees(v: Volume, disk: Disk, name: seq<int>, c: int)
    requires IsVolume(v) && IsDisk(v, disk) && 0 <= c < WORD
    ensures var f, a := ChainWalk(v, disk, FindCallback(name), true, c), ChainWalk(v, disk, GoOn(), false, c);
            Answers(name, a, Verdict(f.status, f.seen, f.found).0, Verdict(f.status, f.seen, f.found).1)
  {
    FindAgrees(v, disk, name, c, [], Cleared(), []);
    WalkStatus(v, disk, GoOn(), false, c, [], Cleared(), []);
    VerdictAnswers(name, ChainWalk(v, disk, FindCallback(name), true, c), ChainWalk(v, disk, GoOn(), false, c));
  }

  /** Finding in the fixed root answers what its listing determines. */
  lemma {:induction false} RootFindAgrees(v: Volume, disk: Disk, name: seq<int>)
    requires IsVolume(v) && IsDisk(v, disk)
    ensures var f, a := RootWalk(v, disk, FindCallback(name), true), RootWalk(v, disk, GoOn(), false);
            Answers(name, a, Verdict(f.status, f.seen, f.found).0, Verdict(f.status, f.seen, f.found).1)
  {
    var lbas := Lbas(v.rootLba, RootCount(v));
    SectorsAgree(v, disk, name, lbas, Cleared(), []);
    SectorsNeverStop(v, disk, lbas, Cleared(), []);
    ClosedAgrees(name, VisitSectors(v, disk, FindCallback(name), true, lbas, Cleared(), []), VisitSectors(v, disk, GoOn(), false, lbas, Cleared(), []));
    VerdictAnswers(name, RootWalk(v, disk, FindCallback(name), true), RootWalk(v, disk, GoOn(), false));
  }

  lemma {:induction false} ClosedAgrees(name: seq<int>, f: Visit, a: Visit)
    requires Agrees(name, f, a) && a.outcome != Stopped
    ensures WalksAgree(name, Closed(f, []), Closed(a, []))
  {
  }

  /** fat_find_root_fixed */
  method FindRootFixed(v: Volume, disk: Disk, name: seq<int>) returns (status: Status, entry: Option<Dirent>)
    requires IsVolume(v) && IsDisk(v, disk) && 0 <= v.rootLba < WORD
    ensures Answers(name, RootWalk(v, disk, GoOn(), false), status, entry)
  {
    var end, seen, found := WalkRoot(v, disk, FindCallback(name), true);
    RootFindAgrees(v, disk, name);
    var verdict := Verdict(end, seen, found);
    return verdict.0, verdict.1;
  }

  /** fat_find_directory_cluster_chain */
  method FindDirectoryClusterChain(v: Volume, disk: Disk, start: int, name: seq<int>) returns (status: Status, entry: Option<Dirent>)
    requires IsVolume(v) && IsDisk(v, disk) && 0 <= start < WORD
    ensures Answers(name, ChainWalk(v, disk, GoOn(), false, start), status, entry)
  {
    var end, seen, found, _ := WalkChain(v, disk, FindCallback(name), true, start);
    ChainFindAgrees(v, disk, name, start);
    var verdict := Verdict(end, seen, found);
    return verdict.0, verdict.1;
  }
}
