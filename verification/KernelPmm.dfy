/** pmm.c: the physical frame allocator, a bitmap with a count and a search hint. */
module KernelPmm {
  import opened Words
  import opened Frames
  import opened BootMemory

  const LOAD_ADDRESS: int := 0x10_0000

  datatype Region = Region(base: int, length: int)

  class Pmm {
    var bitmap: array<bv8>
    var total: nat
    var freeCount: nat
    var next: nat
    var ready: bool
    ghost var free: set<int>
    ghost var issued: set<int>
    ghost var pool: set<int>

    /** `free` is what the bitmap says, the counter is its size, and the hint is in range. */
    ghost predicate Valid()
      reads this, bitmap
    {
      Tracks(bitmap[..], total, free) && total <= MAX_FRAMES && freeCount == |free| && next <= total
    }

    /** No free frame lies below the search hint. */
    ghost predicate Hinted()
      reads this
    {
      forall i :: i in free ==> next <= i
    }

    /** Every frame of the boot-time pool is either free or handed out, and no other frame is. */
    ghost predicate Owned()
      reads this
    {
      Partition(free, issued, pool)
    }

    /** What pmm_init establishes and every run of well-behaved clients keeps; frame 0 is not in the pool. */
    ghost predicate Sound()
      reads this, bitmap
    {
      Valid() && Hinted() && Pooled()
    }

    ghost predicate Pooled()
      reads this
    {
      Owned() && forall i :: i in pool ==> 0 < i < total
    }

    /** Before pmm_init. */
    constructor ()
      ensures !ready && fresh(bitmap)
    {
      bitmap := new bv8[0];
      total, freeCount, next, ready := 0, 0, 0, false;
      free, issued, pool := {}, {}, {};
    }

    /** pmm_frame_is_used */
    method FrameIsUsed(i: nat) returns (used: bool)
      requires Valid() && i < total
      ensures used <==> i !in free
    {
      used := bitmap[i / 8] & Mask(i % 8) != 0;
      assert used <==> Used(bitmap[..], i);
    }

    /** pmm_mark_frame_used */
    method MarkFrameUsed(i: nat)
      requires Valid()
      modifies `freeCount, `free, bitmap
      ensures Valid() && free == old(free) - {i as int}
    {
      if i >= total {
        return;
      }
      var used := FrameIsUsed(i);
      if used {
        return;
      }
      TracksUse(bitmap[..], total, free, i);
      SetByte(i / 8, bitmap[i / 8] | Mask(i % 8));
      free := free - {i as int};
      if freeCount > 0 {
        freeCount := freeCount - 1;
      }
    }

    method SetByte(k: nat, b: bv8)
      requires k < bitmap.Length
      modifies bitmap
      ensures bitmap[..] == old(bitmap[..])[k := b]
    {
      bitmap[k] := b;
    }

    /** pmm_mark_frame_free */
    method MarkFrameFree(i: nat)
      requires Valid()
      modifies `freeCount, `free, bitmap
      ensures Valid() && free == if i < total then old(free) + {i as int} else old(free)
    {
      if i >= total {
        return;
      }
      var used := FrameIsUsed(i);
      if !used {
        return;
      }
      TracksFree(bitmap[..], total, free, i);
      SetByte(i / 8, bitmap[i / 8] & !Mask(i % 8));
      free := free + {i as int};
      freeCount := freeCount + 1;
    }

    /** pmm_release_region */
    method ReleaseRegion(base: int, length: int)
      requires Valid() && IsWord(base) && IsWord(length)
      modifies `freeCount, `free, bitmap
      ensures Valid()
      ensures length == 0 ==> free == old(free)
      ensures length != 0 ==> Added(old(free), free, ReleasedFrom(base), ReleasedTo(base, length), total)
    {
      if length == 0 {
        return;
      }
      ReleasedBounds(base, length);
      FreeFrames(ReleasedFrom(base), ReleasedTo(base, length));
    }

    method FreeFrames(first: nat, end: nat)
      requires Valid()
      modifies `freeCount, `free, bitmap
      ensures Valid() && Added(old(free), free, first, end, total)
    {
      var i := first;
      while i < end
        invariant Valid() && first <= i
        invariant i <= end || i == first
        invariant Added(old(free), free, first, i, total)
      {
        MarkFrameFree(i);
        i := i + 1;
      }
    }

    /** pmm_reserve_region */
    method ReserveRegion(base: int, length: int)
      requires Valid() && IsWord(base) && IsWord(length)
      modifies `freeCount, `free, bitmap
      ensures Valid()
      ensures length == 0 ==> free == old(free)
      ensures length != 0 ==> Dropped(old(free), free, ReservedFrom(base), ReservedTo(base, length))
    {
      if length == 0 {
        return;
      }
      ReservedBounds(base, length);
      var end := ReservedTo(base, length);
      if end > total {
        end := total;
      }
      UseFrames(ReservedFrom(base), end);
      DroppedAll(old(free), free, ReservedFrom(base), end, ReservedTo(base, length));
    }

    method UseFrames(first: nat, end: nat)
      requires Valid() && end <= total
      modifies `freeCount, `free, bitmap
      ensures Valid() && Dropped(old(free), free, first, end)
      ensures forall i :: i in old(free) ==> 0 <= i < total
    {
      var i := first;
      while i < end
        invariant Valid() && first <= i
        invariant i <= end || i == first
        invariant Dropped(old(free), free, first, i)
      {
        MarkFrameUsed(i);
        i := i + 1;
      }
    }

    /** The bitmap of pmm_init: one bit for each frame up to the highest usable address, all set. */
    method NewBitmap(frames: nat)
      requires frames <= MAX_FRAMES
      modifies this
      ensures fresh(bitmap) && total == frames && bitmap.Length == (frames + 7) / 8
      ensures freeCount == 0 && next == 0 && free == {} && Valid() && !ready
    {
      ready := false;
      total, freeCount, next, free := frames, 0, 0, {};
      bitmap := new bv8[(frames + 7) / 8];
      var k := 0;
      while k < bitmap.Length
        invariant 0 <= k <= bitmap.Length
        invariant forall j :: 0 <= j < k ==> bitmap[j] == 0xFF
        modifies bitmap
      {
        bitmap[k] := 0xFF;
        k := k + 1;
      }
      AllUsed(bitmap[..], total);
    }

    /** The range loop of pmm_init. */
    method ReleaseRanges(ranges: seq<Range>)
      requires Valid() && free == {} && forall r :: r in ranges ==> IsWord(r.base) && IsWord(r.length)
      modifies `freeCount, `free, bitmap
      ensures Valid() && FreeAtBoot(free, ranges, [], total)
    {
      var k := 0;
      while k < |ranges|
        invariant 0 <= k <= |ranges| && Valid() && FreeAtBoot(free, ranges[..k], [], total)
      {
        ghost var was := free;
        if ranges[k].kind == AVAILABLE {
          assert ranges[k] in ranges;
          ReleaseRegion(ranges[k].base, ranges[k].length);
        }
        ReleaseStep(was, free, ranges, k, total);
        k := k + 1;
      }
      assert ranges[..k] == ranges;
    }

    /** pmm_reserve_region after `done` regions have been reserved. */
    method ReserveNext(g: Region, ghost ranges: seq<Range>, ghost done: seq<Region>)
      requires Valid() && FreeAtBoot(free, ranges, done, total) && IsWord(g.base) && IsWord(g.length)
      modifies `freeCount, `free, bitmap
      ensures Valid() && FreeAtBoot(free, ranges, done + [g], total)
    {
      ghost var was := free;
      ReserveRegion(g.base, g.length);
      ReserveStep(was, free, ranges, done, g, total);
    }

    /** pmm_init; `bitmapAddr` is where kcalloc puts the bitmap, 0 when it has no room. */
    method Init(bootValid: bool, heapReady: bool, ranges: seq<Range>, highest: int, kernelEnd: int,
                heap: Region, boot: Region, bitmapAddr: int)
      requires forall r :: r in ranges ==> IsWord(r.base) && IsWord(r.length)
      requires IsWord(highest) && LOAD_ADDRESS <= kernelEnd < WORD && IsWord(bitmapAddr)
      requires IsWord(heap.base) && IsWord(heap.length) && IsWord(boot.base) && IsWord(boot.length)
      modifies this
      ensures ready <==> bootValid && heapReady && highest >= FRAME - 1 && FramesUpTo(highest) > 0 && bitmapAddr != 0
      ensures !ready ==> bitmap == old(bitmap)
      ensures ready ==> fresh(bitmap) && Sound() && issued == {} && pool == free && total == FramesUpTo(highest)
      ensures ready ==> FreeAtBoot(free, ranges, Reservations(kernelEnd, heap, boot, bitmapAddr, total), total)
    {
      ready := false;
      if !bootValid || !heapReady || highest < FRAME - 1 {
        return;
      }
      var frames := FramesUpTo(highest);
      FrameCount(highest);
      if frames == 0 || bitmapAddr == 0 {
        total := 0;
        return;
      }
      Populate(frames, ranges, kernelEnd, heap, boot, bitmapAddr);
      ready := true;
    }

    /** The rest of pmm_init, once the bitmap has been granted. */
    method Populate(frames: nat, ranges: seq<Range>, kernelEnd: int, heap: Region, boot: Region, bitmapAddr: int)
      requires frames <= MAX_FRAMES && forall r :: r in ranges ==> IsWord(r.base) && IsWord(r.length)
      requires LOAD_ADDRESS <= kernelEnd < WORD && IsWord(bitmapAddr)
      requires IsWord(heap.base) && IsWord(heap.length) && IsWord(boot.base) && IsWord(boot.length)
      modifies this
      ensures fresh(bitmap) && Sound() && issued == {} && pool == free && total == frames
      ensures FreeAtBoot(free, ranges, Reservations(kernelEnd, heap, boot, bitmapAddr, total), total)
    {
      NewBitmap(frames);
      ReleaseRanges(ranges);
      ReserveAll(ranges, kernelEnd, heap, boot, bitmapAddr);
      issued, pool := {}, free;
      PoolPositive(pool, ranges, Reservations(kernelEnd, heap, boot, bitmapAddr, total), total);
    }

    /** The reservations of pmm_init. */
    method ReserveAll(ghost ranges: seq<Range>, kernelEnd: int, heap: Region, boot: Region, bitmapAddr: int)
      requires Valid() && FreeAtBoot(free, ranges, [], total)
      requires LOAD_ADDRESS <= kernelEnd < WORD && IsWord(bitmapAddr)
      requires IsWord(heap.base) && IsWord(heap.length) && IsWord(boot.base) && IsWord(boot.length)
      modifies `freeCount, `free, bitmap
      ensures Valid() && FreeAtBoot(free, ranges, Reservations(kernelEnd, heap, boot, bitmapAddr, total), total)
      ensures 0 !in free
    {
      var kernel := Region(LOAD_ADDRESS, (AlignUp(kernelEnd) - LOAD_ADDRESS) % WORD);
      ReserveNext(Region(0, LOAD_ADDRESS), ranges, []);
      ReserveNext(kernel, ranges, [] + [Region(0, LOAD_ADDRESS)]);
      ReserveNext(heap, ranges, [] + [Region(0, LOAD_ADDRESS)] + [kernel]);
      ReserveNext(boot, ranges, [] + [Region(0, LOAD_ADDRESS)] + [kernel] + [heap]);
      ReserveNext(Region(bitmapAddr, (total + 7) / 8), ranges, [] + [Region(0, LOAD_ADDRESS)] + [kernel] + [heap] + [boot]);
      assert [] + [Region(0, LOAD_ADDRESS)] + [kernel] + [heap] + [boot] + [Region(bitmapAddr, (total + 7) / 8)]
          == Reservations(kernelEnd, heap, boot, bitmapAddr, total);
      LowReserved(free, ranges, kernelEnd, heap, boot, bitmapAddr, total, 0);
    }

    /** First free frame from `from` on, or `to`. */
    method FindFree(from: nat, to: nat) returns (i: nat)
      requires Valid() && to <= total
      ensures from <= i && (i < to ==> i in free) && (i >= to ==> i == to || i == from)
      ensures forall j :: from <= j < i ==> j !in free
    {
      i := from;
      while i < to
        invariant from <= i && (i <= to || i == from)
        invariant forall j :: from <= j < i ==> j !in free
      {
        var used := FrameIsUsed(i);
        if !used {
          return;
        }
        i := i + 1;
      }
    }

    /** The two loops of pmm_alloc_frame: from the hint up, then from frame 0 up to the hint. */
    method Search() returns (i: nat, found: bool, wrapped: bool)
      requires Valid()
      ensures found <==> free != {}
      ensures found ==> i < total && i in free && forall j :: j in free && (wrapped || j >= next) ==> i <= j
      ensures wrapped ==> forall j :: j in free ==> j < next
    {
      wrapped := false;
      i := FindFree(next, total);
      if i < total {
        return i, true, false;
      }
      i := FindFree(0, next);
      found := i < next;
      wrapped := true;
      if !found {
        NoneFree(free, next, total);
      }
    }

    /** pmm_alloc_frame: always the lowest free frame, and never by way of the second loop. */
    method AllocFrame() returns (addr: int, ghost wrapped: bool)
      requires ready ==> Valid() && Hinted()
      modifies this, bitmap
      ensures ready == old(ready) && total == old(total) && bitmap == old(bitmap) && pool == old(pool)
      ensures ready ==> Valid() && Hinted()
      ensures !wrapped
      ensures !ready || old(free) == {} ==> addr == 0 && free == old(free) && issued == old(issued)
      ensures ready && old(free) != {} ==>
                var i := addr / FRAME;
                && addr == i * FRAME && i in old(free) && (forall j :: j in old(free) ==> i <= j)
                && free == old(free) - {i} && issued == old(issued) + {i}
      ensures ready ==> (addr == 0 <==> old(free) == {} || 0 in old(free))
      ensures ready && old(Pooled()) ==> Pooled() && (addr == 0 <==> old(free) == {})
    {
      addr, wrapped := TakeLowest();
      if ready && old(Pooled()) && old(free) != {} {
        PartitionKept(old(free), old(issued), pool, addr / FRAME);
      }
    }

    method TakeLowest() returns (addr: int, ghost wrapped: bool)
      requires ready ==> Valid() && Hinted()
      modifies this, bitmap
      ensures ready == old(ready) && total == old(total) && bitmap == old(bitmap) && pool == old(pool)
      ensures ready ==> Valid() && Hinted()
      ensures !wrapped
      ensures !ready || old(free) == {} ==> addr == 0 && free == old(free) && issued == old(issued)
      ensures ready && old(free) != {} ==>
                var i := addr / FRAME;
                && addr == i * FRAME && i in old(free) && (forall j :: j in old(free) ==> i <= j)
                && free == old(free) - {i} && issued == old(issued) + {i}
    {
      if !ready || freeCount == 0 {
        return 0, false;
      }
      var i, found, second := Search();
      if !found {
        return 0, false;
      }
      MarkFrameUsed(i);
      issued := issued + {i as int};
      next := i + 1;
      addr := i * FRAME;
      FrameAddress(i);
      wrapped := second;
    }

    /** pmm_free_frame */
    method FreeFrameAt(addr: int)
      requires ready ==> Valid() && Hinted()
      requires IsWord(addr)
      modifies this, bitmap
      ensures ready == old(ready) && total == old(total) && bitmap == old(bitmap) && pool == old(pool)
      ensures ready ==> Valid() && Hinted()
      ensures ready && old(Pooled()) && addr % FRAME == 0 && addr / FRAME in old(issued) ==> Pooled()
      ensures ready && addr % FRAME == 0 && addr / FRAME < total ==>
                free == old(free) + {addr / FRAME} && issued == old(issued) - {addr / FRAME}
      ensures !ready || addr % FRAME != 0 || addr / FRAME >= total ==> free == old(free) && issued == old(issued)
    {
      PutBack(addr);
      if old(Pooled()) {
        PartitionKept(old(free), old(issued), pool, addr / FRAME);
      }
    }

    method PutBack(addr: int)
      requires ready ==> Valid() && Hinted()
      requires IsWord(addr)
      modifies this, bitmap
      ensures ready == old(ready) && total == old(total) && bitmap == old(bitmap) && pool == old(pool)
      ensures ready ==> Valid() && Hinted()
      ensures ready && addr % FRAME == 0 && addr / FRAME < total ==>
                free == old(free) + {addr / FRAME} && issued == old(issued) - {addr / FRAME}
      ensures !ready || addr % FRAME != 0 || addr / FRAME >= total ==> free == old(free) && issued == old(issued)
    {
      if !ready || addr % FRAME != 0 {
        return;
      }
      var i := addr / FRAME;
      if i >= total {
        return;
      }
      MarkFrameFree(i);
      issued := issued - {i};
      if i < next {
        next := i;
      }
    }
  }

  /** Exactly the frames from `first` to `end` were added, as far as there are frames. */
  ghost predicate Added(was: set<int>, now: set<int>, first: int, end: int, total: nat) {
    forall i :: i in now <==> i in was || (0 <= i < total && first <= i < end)
  }

  /** Exactly the frames from `first` to `end` were taken out. */
  ghost predicate Dropped(was: set<int>, now: set<int>, first: int, end: int) {
    forall i :: i in now <==> i in was && !(first <= i < end)
  }

  lemma {:induction false} DroppedAll(was: set<int>, now: set<int>, first: int, end: int, beyond: int)
    requires Dropped(was, now, first, end) && end <= beyond && forall i :: i in was && i >= end ==> end == beyond
    ensures Dropped(was, now, first, beyond)
  {
  }

  lemma {:induction false} ReleasedBounds(base: int, length: int)
    requires IsWord(base) && IsWord(length)
    ensures 0 <= ReleasedFrom(base) && 0 <= ReleasedTo(base, length)
  {
  }

  lemma {:induction false} ReservedBounds(base: int, length: int)
    requires IsWord(base) && IsWord(length)
    ensures 0 <= ReservedFrom(base) && 0 <= ReservedTo(base, length)
  {
  }

  // ----- the free set at boot -----

  ghost predicate Releases(r: Range, i: int) {
    r.kind == AVAILABLE && r.length != 0 && ReleasedFrom(r.base) <= i < ReleasedTo(r.base, r.length)
  }

  ghost predicate Reserves(g: Region, i: int) {
    g.length != 0 && ReservedFrom(g.base) <= i < ReservedTo(g.base, g.length)
  }

  ghost predicate AtBoot(ranges: seq<Range>, regions: seq<Region>, total: nat, i: int) {
    0 <= i < total && (exists r :: r in ranges && Releases(r, i)) && forall g :: g in regions ==> !Reserves(g, i)
  }

  /** `free` holds the frames some range releases and no region reserves. */
  ghost predicate FreeAtBoot(free: set<int>, ranges: seq<Range>, regions: seq<Region>, total: nat) {
    forall i :: i in free <==> AtBoot(ranges, regions, total, i)
  }

  /** What pmm_init reserves: low memory, kernel, heap, boot information and the bitmap. */
  function Reservations(kernelEnd: int, heap: Region, boot: Region, bitmapAddr: int, total: nat): (rs: seq<Region>)
    ensures |rs| == 5
  {
    [Region(0, LOAD_ADDRESS), Region(LOAD_ADDRESS, (AlignUp(kernelEnd) - LOAD_ADDRESS) % WORD), heap, boot,
     Region(bitmapAddr, (total + 7) / 8)]
  }

  /** The number of frames pmm_init manages. */
  function FramesUpTo(highest: int): int
    requires IsWord(highest)
  {
    if highest == WORD - 1 then (WORD - 1) / FRAME + 1 else AlignUp(highest + 1) / FRAME
  }

  lemma {:induction false} FrameCount(highest: int)
    requires IsWord(highest)
    ensures 0 <= FramesUpTo(highest) <= MAX_FRAMES
  {
  }

  lemma {:induction false} AllUsed(bits: seq<bv8>, total: nat)
    requires total <= 8 * |bits| && forall k :: 0 <= k < |bits| ==> bits[k] == 0xFF
    ensures Tracks(bits, total, {})
  {
    forall i: nat | i < total ensures Used(bits, i) {
      AllSet(i % 8);
    }
  }

  lemma {:induction false} ReleaseStep(was: set<int>, now: set<int>, ranges: seq<Range>, k: nat, total: nat)
    requires k < |ranges| && FreeAtBoot(was, ranges[..k], [], total)
    requires if ranges[k].kind == AVAILABLE && ranges[k].length != 0
             then Added(was, now, ReleasedFrom(ranges[k].base), ReleasedTo(ranges[k].base, ranges[k].length), total)
             else now == was
    ensures FreeAtBoot(now, ranges[..k + 1], [], total)
  {
    assert ranges[..k + 1] == ranges[..k] + [ranges[k]];
    forall i ensures i in now <==> AtBoot(ranges[..k + 1], [], total, i) {
      assert i in was <==> AtBoot(ranges[..k], [], total, i);
      assert ranges[k] in ranges[..k + 1];
    }
  }

  lemma {:induction false} ReserveStep(was: set<int>, now: set<int>, ranges: seq<Range>, done: seq<Region>, g: Region, total: nat)
    requires FreeAtBoot(was, ranges, done, total)
    requires if g.length != 0 then Dropped(was, now, ReservedFrom(g.base), ReservedTo(g.base, g.length)) else now == was
    ensures FreeAtBoot(now, ranges, done + [g], total)
  {
    forall i ensures i in now <==> AtBoot(ranges, done + [g], total, i) {
      assert i in was <==> AtBoot(ranges, done, total, i);
      assert g in done + [g];
    }
  }

  lemma {:induction false} NoneFree(free: set<int>, next: nat, total: nat)
    requires (forall i :: i in free ==> 0 <= i < total)
    requires (forall j :: next <= j < total ==> j !in free) && (forall j :: 0 <= j < next ==> j !in free)
    ensures free == {}
  {
    assert forall i :: i !in free;
  }

  /** Every frame of the pool is free or handed out, not both, and no other frame is either. */
  ghost predicate Partition(free: set<int>, issued: set<int>, pool: set<int>) {
    free + issued == pool && free !! issued
  }

  /** Handing out a free frame keeps the pool, and so does taking back one that was handed out. */
  lemma {:induction false} PartitionKept(free: set<int>, issued: set<int>, pool: set<int>, i: int)
    requires Partition(free, issued, pool)
    ensures i in free ==> i in pool && i !in issued && Partition(free - {i}, issued + {i}, pool)
    ensures i in issued ==> Partition(free + {i}, issued - {i}, pool)
  {
  }

  /** What releasing a range does to frame `i`, in bytes: a range that starts in the last page frees everything below its end. */
  ghost predicate Frees(r: Range, i: int) {
    && r.kind == AVAILABLE && r.length > 0 && (i + 1) * FRAME <= r.base + r.length && (i + 1) * FRAME < WORD
    && (r.base <= i * FRAME || r.base > 0xFFFF_F000)
  }

  /** What reserving a region does to it: nothing when the region ends in the last page. */
  ghost predicate Holds(g: Region, i: int) {
    g.length > 0 && g.base + g.length <= 0xFFFF_F000 && Touches(i, g.base, g.length)
  }

  /** The frames free at boot, for any ranges and regions whatever. */
  lemma {:induction false} BootFree(ranges: seq<Range>, regions: seq<Region>, highest: int, i: int)
    requires forall r :: r in ranges ==> IsWord(r.base) && IsWord(r.length)
    requires forall g :: g in regions ==> IsWord(g.base) && IsWord(g.length)
    requires IsWord(highest) && 0 <= i < MAX_FRAMES
    ensures AtBoot(ranges, regions, FramesUpTo(highest), i) <==>
            && i < FramesUpTo(highest) && (exists r :: r in ranges && Frees(r, i)) && (forall g :: g in regions ==> !Holds(g, i))
  {
    forall r | r in ranges ensures Releases(r, i) <==> Frees(r, i) {
      ReleaseMeans(r, i);
    }
    forall g | g in regions ensures Reserves(g, i) <==> Holds(g, i) {
      if g.length > 0 {
        ReserveExact(g.base, g.length);
      }
    }
  }

  lemma {:induction false} ReleaseMeans(r: Range, i: int)
    requires IsWord(r.base) && IsWord(r.length) && 0 <= i < MAX_FRAMES
    ensures Releases(r, i) <==> Frees(r, i)
  {
  }

  /**
   With the memory map of the firmware: when no available memory and no reserved region
   reaches the last page, the frames free at boot are those wholly inside one available
   range that share no byte with a reserved region.
   */
  lemma {:induction false} BootFreeExact(es: seq<Entry>, regions: seq<Region>, i: int)
    requires forall e :: e in es ==> IsEntry(e)
    requires forall g :: g in regions ==> IsWord(g.base) && IsWord(g.length)
    requires 0 <= i < MAX_FRAMES
    ensures InMemory(FirstRanges(es))
    ensures var ranges, highest := FirstRanges(es), Highest(FirstRanges(es));
            highest < 0xFFFF_F000 && (forall g :: g in regions ==> g.base + g.length <= 0xFFFF_F000) ==>
              (AtBoot(ranges, regions, FramesUpTo(highest), i) <==>
               && (exists r :: r in ranges && r.kind == AVAILABLE && Inside(i, r.base, r.length))
               && (forall g :: g in regions && g.length > 0 ==> !Touches(i, g.base, g.length)))
  {
    var ranges := FirstRanges(es);
    RangesInMemory(es);
    var highest := Highest(ranges);
    BootFree(ranges, regions, highest, i);
    if highest < 0xFFFF_F000 {
      forall r | r in ranges && r.kind == AVAILABLE
        ensures Frees(r, i) <==> Inside(i, r.base, r.length)
        ensures Frees(r, i) ==> i < FramesUpTo(highest)
      {
        BelowLastPage(r, highest, i);
      }
    }
  }

  lemma {:induction false} BelowLastPage(r: Range, highest: int, i: int)
    requires r.kind == AVAILABLE && 0 < r.length && 0 <= r.base && r.base + r.length - 1 <= highest < 0xFFFF_F000 && 0 <= i < MAX_FRAMES
    ensures Frees(r, i) <==> Inside(i, r.base, r.length)
    ensures Frees(r, i) ==> i < FramesUpTo(highest)
  {
  }

  /** Memory that ends inside the last page, but not at its end, leaves pmm_init without a frame. */
  lemma {:induction false} LastPageUnmanaged(highest: int)
    requires IsWord(highest)
    ensures FramesUpTo(highest) == 0 <==> 0xFFFF_F000 <= highest < WORD - 1
    ensures FramesUpTo(highest) == (highest + 1 + (FRAME - 1)) / FRAME <==> !(0xFFFF_F000 <= highest < WORD - 1)
  {
  }

  /** Such a range as the highest one makes pmm_init manage all frames and release all but the last, though it holds none of them. */
  lemma {:induction false} WrappedRangeFrees(i: int)
    requires 0 <= i < 0xF_FFFF
    ensures var r := Range(0xFFFF_F800, 0x800, AVAILABLE);
            FramesUpTo(r.base + r.length - 1) == MAX_FRAMES && Releases(r, i) && !Inside(i, r.base, r.length)
  {
    ReleaseWraps();
  }

  lemma {:induction false} LowReserved(free: set<int>, ranges: seq<Range>, kernelEnd: int, heap: Region, boot: Region,
                                       bitmapAddr: int, total: nat, i: int)
    requires FreeAtBoot(free, ranges, Reservations(kernelEnd, heap, boot, bitmapAddr, total), total) && 0 <= i < LOAD_ADDRESS / FRAME
    ensures i !in free
  {
    var low := Reservations(kernelEnd, heap, boot, bitmapAddr, total)[0];
    assert low in Reservations(kernelEnd, heap, boot, bitmapAddr, total) && Reserves(low, i);
  }

  lemma {:induction false} PoolPositive(pool: set<int>, ranges: seq<Range>, regions: seq<Region>, total: nat)
    requires FreeAtBoot(pool, ranges, regions, total) && 0 !in pool
    ensures forall i :: i in pool ==> 0 < i < total
  {
  }

  // ----- runs -----

  /** A call of pmm_alloc_frame, or of pmm_free_frame with the address of a frame that the client holds. */
  datatype FrameCall = Alloc | Return(frame: int)

  /** What a run must answer: the lowest free frame each time, 0 when none is free.  Frames not held are not given back. */
  ghost predicate Served(free: set<int>, held: set<int>, calls: seq<FrameCall>, answers: seq<int>)
    decreases |calls|
  {
    if calls == [] then answers == []
    else
      match calls[0]
      case Alloc =>
        && answers != []
        && (if free == {} then answers[0] == 0 && Served(free, held, calls[1..], answers[1..])
            else
              var i := answers[0] / FRAME;
              answers[0] == i * FRAME && Lowest(i, free) && Served(free - {i}, held + {i}, calls[1..], answers[1..]))
      case Return(i) =>
        if i in held then Served(free + {i}, held - {i}, calls[1..], answers) else Served(free, held, calls[1..], answers)
  }

  ghost predicate Lowest(i: int, free: set<int>) {
    i in free && forall j :: j in free ==> i <= j
  }

  /** Each answer is 0 exactly when no frame is free, and otherwise a frame of the pool that is not held. */
  ghost predicate Fresh(free: set<int>, held: set<int>, pool: set<int>, calls: seq<FrameCall>, answers: seq<int>)
    decreases |calls|
  {
    calls == [] ||
    match calls[0]
    case Alloc =>
      && answers != [] && (answers[0] == 0 <==> free == {})
      && (var i := answers[0] / FRAME;
          if answers[0] == 0 then Fresh(free, held, pool, calls[1..], answers[1..])
          else i in pool && i !in held && Fresh(free - {i}, held + {i}, pool, calls[1..], answers[1..]))
    case Return(i) =>
      if i in held then Fresh(free + {i}, held - {i}, pool, calls[1..], answers) else Fresh(free, held, pool, calls[1..], answers)
  }

  /** In every run a frame handed out comes from the boot-time pool and is not already held, and 0 means that none is free. */
  lemma {:induction false} RunIssuesFresh(free: set<int>, held: set<int>, pool: set<int>, calls: seq<FrameCall>, answers: seq<int>)
    requires Partition(free, held, pool) && 0 !in pool && Served(free, held, calls, answers)
    ensures Fresh(free, held, pool, calls, answers)
    decreases |calls|
  {
    if calls != [] {
      match calls[0]
      case Alloc =>
        var i := answers[0] / FRAME;
        PartitionKept(free, held, pool, i);
        if free == {} {
          RunIssuesFresh(free, held, pool, calls[1..], answers[1..]);
        } else {
          RunIssuesFresh(free - {i}, held + {i}, pool, calls[1..], answers[1..]);
        }
      case Return(i) =>
        PartitionKept(free, held, pool, i);
        if i in held {
          RunIssuesFresh(free + {i}, held - {i}, pool, calls[1..], answers);
        } else {
          RunIssuesFresh(free, held, pool, calls[1..], answers);
        }
    }
  }

  /** Any run of the allocator by clients that give back only what they hold: lowest free frame, never one that is held. */
  method RunFrames(pmm: Pmm, calls: seq<FrameCall>, held: set<int>) returns (answers: seq<int>)
    requires pmm.ready && pmm.Sound() && held == pmm.issued
    modifies pmm, pmm.bitmap
    ensures pmm.ready && pmm.Sound() && pmm.pool == old(pmm.pool) && pmm.bitmap == old(pmm.bitmap)
    ensures Served(old(pmm.free), held, calls, answers) && Fresh(old(pmm.free), held, pmm.pool, calls, answers)
  {
    answers := Serve(pmm, calls, held);
    RunIssuesFresh(old(pmm.free), held, pmm.pool, calls, answers);
  }

  method Serve(pmm: Pmm, calls: seq<FrameCall>, held: set<int>) returns (answers: seq<int>)
    requires pmm.ready && pmm.Sound() && held == pmm.issued
    modifies pmm, pmm.bitmap
    ensures pmm.ready && pmm.Sound() && pmm.pool == old(pmm.pool) && pmm.bitmap == old(pmm.bitmap)
    ensures Served(old(pmm.free), held, calls, answers)
    decreases |calls|
  {
    if calls == [] {
      return [];
    }
    if calls[0].Alloc? {
      var addr, _ := pmm.AllocFrame();
      var rest := Serve(pmm, calls[1..], if addr == 0 then held else held + {addr / FRAME});
      answers := [addr] + rest;
    } else if calls[0].frame in held {
      GiveBack(pmm, calls[0].frame);
      answers := Serve(pmm, calls[1..], held - {calls[0].frame});
    } else {
      answers := Serve(pmm, calls[1..], held);
    }
  }

  /** pmm_free_frame of a frame that was handed out. */
  method GiveBack(pmm: Pmm, i: int)
    requires pmm.ready && pmm.Sound() && i in pmm.issued
    modifies pmm, pmm.bitmap
    ensures pmm.ready && pmm.Sound() && pmm.pool == old(pmm.pool) && pmm.bitmap == old(pmm.bitmap)
    ensures pmm.free == old(pmm.free) + {i} && pmm.issued == old(pmm.issued) - {i}
  {
    assert i in pmm.pool;
    FrameAddress(i);
    pmm.FreeFrameAt(i * FRAME);
  }
}
