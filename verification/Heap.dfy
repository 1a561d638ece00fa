/** The kernel heap allocator, updating block headers and the free list in place. */
module KernelHeap {
  import opened Words
  import opened Wrappers
  import opened HeapLayout
  import opened HeapMemory
  import opened HeapRuns
  import opened HeapIntegrity

  datatype Diagnostic = InvalidFree | DoubleFree | Corruption | Integrity | SelfTest

  class Heap {
    var region: Region
    var firstBlock: int
    var freeList: int
    var ready: bool
    var errorCount: int
    var errorFlags: set<Diagnostic>
    var mem: Memory
    var bytes: map<int, int>
    ghost var layout: seq<Block>

    /** The headers in memory are those of `layout`, which tiles the region. */
    ghost predicate Represents()
      reads this
    {
      ready && firstBlock == region.start && Image(region, freeList, mem, layout)
    }

    /** Between operations the layout is also coalesced and the free list complete. */
    ghost predicate Valid()
      reads this
    {
      Represents() && WellFormed(layout, region.start, region.end)
    }

    /** heap_note_error */
    method NoteError(d: Diagnostic)
      modifies `errorCount, `errorFlags
      ensures errorCount == Add32(old(errorCount), 1) && errorFlags == old(errorFlags) + {d}
    {
      errorCount := Add32(errorCount, 1);
      errorFlags := errorFlags + {d};
    }

    /** The header and list writes of heap_remove_free_block. */
    method Unlink(block: int)
      modifies `mem, `freeList
      ensures mem == UnlinkWrites(old(mem), block)
      ensures freeList == UnlinkHead(old(mem), old(freeList), block)
    {
      var prev, next := At(mem, block).prevFree, At(mem, block).nextFree;
      if prev != 0 {
        mem := SetNextFree(mem, prev, next);
      } else if freeList == block {
        freeList := next;
      }
      if next != 0 {
        mem := SetPrevFree(mem, next, prev);
      }
      mem := SetPrevFree(mem, block, 0);
      mem := SetNextFree(mem, block, 0);
    }

    /** heap_remove_free_block */
    method RemoveFreeBlock(block: int, ghost i: nat)
      requires Represents() && i < |layout| && layout[i].linked && block == layout[i].addr
      modifies `mem, `freeList, `layout
      ensures Represents()
      ensures layout == old(layout)[i := old(layout)[i].(linked := false)]
    {
      UnlinkImage(region, freeList, mem, layout, i);
      Unlink(block);
      layout := layout[i := layout[i].(linked := false)];
    }

    /** The walk of heap_insert_free_block to the list neighbours of a block. */
    method FindSlot(block: int, ghost i: nat) returns (prev: int, next: int)
      requires Represents() && i < |layout| && !layout[i].linked && block == layout[i].addr
      ensures prev == PrevFreeAddr(layout, i) && next == NextFreeAddr(layout, i + 1)
    {
      if freeList == 0 || block < freeList {
        SlotAtHead(region, freeList, mem, layout, i);
        return 0, freeList;
      }
      ghost var p: nat := NextLinked(layout, 0);
      HeadBefore(region, freeList, mem, layout, i);
      prev := freeList;
      next := At(mem, prev).nextFree;
      while next != 0 && next < block
        invariant p < i && layout[p].linked && prev == layout[p].addr && next == NextFreeAddr(layout, p + 1)
        decreases i - p
      {
        p := StepBefore(region, freeList, mem, layout, i, p);
        prev := next;
        next := At(mem, prev).nextFree;
      }
      SlotAfter(region, freeList, mem, layout, i, p);
    }

    /** The header and list writes of heap_insert_free_block. */
    method LinkBetween(block: int, prev: int, next: int)
      requires prev == 0 ==> next == freeList
      modifies `mem, `freeList
      ensures mem == LinkWrites(old(mem), block, prev, next)
      ensures freeList == if prev == 0 then block else old(freeList)
    {
      mem := mem[block := MarkFree(At(mem, block))];
      mem := SetPrevFree(mem, block, 0);
      mem := SetNextFree(mem, block, 0);
      if prev == 0 {
        mem := SetNextFree(mem, block, freeList);
        if freeList != 0 {
          mem := SetPrevFree(mem, freeList, block);
        }
        freeList := block;
      } else {
        mem := SetPrevFree(mem, block, prev);
        mem := SetNextFree(mem, block, next);
        mem := SetNextFree(mem, prev, block);
        if next != 0 {
          mem := SetPrevFree(mem, next, block);
        }
      }
    }

    /** heap_insert_free_block: the block becomes free and takes its place in address order. */
    method InsertFreeBlock(block: int, ghost i: nat)
      requires Represents() && i < |layout| && !layout[i].linked && block == layout[i].addr
      modifies `mem, `freeList, `layout
      ensures Represents()
      ensures layout == old(layout)[i := old(layout)[i].(free := true, linked := true)]
    {
      var prev, next := FindSlot(block, i);
      LinkImage(region, freeList, mem, layout, i);
      HeadIsNext(layout, i, region.start, region.end);
      LinkBetween(block, prev, next);
      layout := layout[i := layout[i].(free := true, linked := true)];
    }

    /** The header writes of heap_split_block. */
    method CutBlock(block: int, n: int) returns (split: int)
      modifies `mem
      ensures split == block + HEADER + n && mem == SplitWrites(old(mem), block, n)
    {
      split := block + HEADER + n;
      var next := At(mem, block).nextPhys;
      mem := mem[split := Header(MAGIC, 1, At(mem, block).size - n - HEADER, block, next, 0, 0)];
      if next != 0 {
        mem := SetPrevPhys(mem, next, split);
      }
      mem := SetNextPhys(mem, block, split);
      mem := SetSize(mem, block, n);
    }

    /** heap_split_block: 0 when the rest would be too small. */
    method SplitBlock(block: int, n: int, ghost i: nat) returns (split: int)
      requires Represents() && i < |layout| && block == layout[i].addr
      requires 0 <= n <= layout[i].size && n % ALIGNMENT == 0
      modifies `mem, `layout
      ensures Represents()
      ensures split == 0 <==> !CanSplit(old(layout)[i], n)
      ensures split == 0 ==> layout == old(layout)
      ensures split != 0 ==> layout == SplitAt(old(layout), i, n) && split == layout[i + 1].addr
    {
      SaneBlock(region, freeList, mem, layout, i);
      if At(mem, block).size - n < HEADER + MIN_SPLIT {
        return 0;
      }
      SplitImage(region, freeList, mem, layout, i, n);
      TilesBounds(layout, region.start, region.end);
      split := CutBlock(block, n);
      layout := SplitAt(layout, i, n);
    }

    /** The walk of kmalloc to the first free block that is large enough. */
    method FindFit(n: int) returns (block: int, corrupt: bool, ghost i: nat)
      requires Valid()
      ensures !corrupt && i == FirstFit(layout, n) && block == AddrAt(layout, i)
    {
      corrupt := false;
      block := freeList;
      i := NextLinked(layout, 0);
      while block != 0
        invariant i <= |layout| && block == AddrAt(layout, i) && (i < |layout| ==> layout[i].linked)
        invariant forall j :: 0 <= j < i ==> !(layout[j].free && layout[j].size >= n)
        decreases |layout| - i
      {
        SaneBlock(region, freeList, mem, layout, i);
        if !Sane(mem, region.start, region.end, block) || !IsFree(At(mem, block)) {
          corrupt := true;
          break;
        }
        if At(mem, block).size >= n {
          break;
        }
        block := At(mem, block).nextFree;
        i := NextLinked(layout, i + 1);
      }
      TilesAscending(layout, region.start, region.end);
    }

    method KMalloc(size: int) returns (p: int)
      requires ready ==> Valid()
      requires 0 <= size < WORD
      modifies this
      ensures region == old(region) && ready == old(ready) && bytes == old(bytes)
      ensures errorCount == old(errorCount) && errorFlags == old(errorFlags)
      ensures !ready ==> p == 0 && mem == old(mem) && layout == old(layout)
      ensures ready ==> Valid()
      ensures ready ==> layout == Malloc(old(layout), size).layout && p == Malloc(old(layout), size).ptr
    {
      if !ready || size == 0 {
        return 0;
      }
      var n := Aligned(size);
      AlignedFacts(size);
      MallocKeeps(layout, size, region.start, region.end);
      var block, corrupt, i := FindFit(n);
      errorCount := if corrupt then Add32(errorCount, 1) else errorCount;
      errorFlags := if corrupt then errorFlags + {Corruption} else errorFlags;
      TilesAscending(layout, region.start, region.end);
      if block == 0 {
        return 0;
      }
      AllocBlock(block, n, i);
      p := block + HEADER;
    }

    /** The body of kmalloc's loop at the block it takes. */
    method AllocBlock(block: int, n: int, ghost i: nat)
      requires Valid() && i < |layout| && layout[i].free && block == layout[i].addr
      requires 0 <= n <= layout[i].size && n % ALIGNMENT == 0
      modifies `mem, `freeList, `layout
      ensures Represents() && layout == AllocAt(old(layout), i, n)
    {
      ghost var L := layout;
      RemoveFreeBlock(block, i);
      var split := SplitBlock(block, n, i);
      if split != 0 {
        InsertFreeBlock(split, i + 1);
      }
      UseImage(region, freeList, mem, layout, i);
      mem := mem[block := MarkUsed(At(mem, block))];
      layout := layout[i := layout[i].(free := false)];
      AllocSteps(L, i, n);
    }

    /** heap_init: `kernelEnd` is the linker's end of the kernel image. */
    constructor (kernelEnd: int)
      requires 0 < kernelEnd <= WORD - REGION_BYTES - ALIGNMENT
      ensures Valid()
      ensures layout == Initial(region.start, region.end)
      ensures kernelEnd <= region.start < kernelEnd + ALIGNMENT
      ensures errorCount == 0 && errorFlags == {}
    {
      var lo := Aligned(kernelEnd);
      var hi := Add32(lo, REGION_BYTES);
      AlignedFacts(kernelEnd);
      var payload := Aligned(hi - lo - HEADER);
      if lo + HEADER + payload > hi {
        payload := payload - ALIGNMENT;
      }
      region := Region(lo, hi);
      firstBlock := lo;
      freeList := lo;
      mem := map[lo := Header(MAGIC, 1, payload, 0, 0, 0, 0)];
      bytes := map[];
      errorCount, errorFlags := 0, {};
      ready := true;
      layout := Initial(lo, hi);
      InitialWellFormed(lo);
      InitialHolds(lo, hi);
    }

    /** heap_zero_bytes */
    method ZeroBytes(p: int, count: nat)
      modifies `bytes
      ensures Cleared(old(bytes), bytes, p, count)
    {
      var i := 0;
      while i < count
        invariant 0 <= i <= count
        invariant Cleared(old(bytes), bytes, p, i)
      {
        bytes := bytes[p + i := 0];
        i := i + 1;
      }
    }

    /** kcalloc.  A total above 0xFFFFFFF0 would be cleared far past the block it was given. */
    method KCalloc(count: int, size: int) returns (p: int)
      requires ready ==> Valid()
      requires 0 <= count < WORD && 0 <= size < WORD && CallocBytes(count, size) <= 0xFFFF_FFF0
      modifies this
      ensures region == old(region) && ready == old(ready)
      ensures errorCount == old(errorCount) && errorFlags == old(errorFlags)
      ensures !ready ==> p == 0 && mem == old(mem) && layout == old(layout)
      ensures ready ==> Valid()
      ensures ready ==> layout == Malloc(old(layout), CallocBytes(count, size)).layout
      ensures ready ==> p == Malloc(old(layout), CallocBytes(count, size)).ptr
      ensures p == 0 ==> bytes == old(bytes)
      ensures p != 0 ==> Cleared(old(bytes), bytes, p, count * size)
      ensures p != 0 ==> exists e :: e in Live(layout) && e !in Live(old(layout)) && e.0 + HEADER == p && count * size <= e.1
    {
      if count == 0 || size == 0 {
        return 0;
      }
      ProductFits(count, size);
      if count > (WORD - 1) / size {
        return 0;
      }
      var total := count * size;
      p := KMalloc(total);
      if p == 0 {
        return;
      }
      ghost var e := MallocCovers(old(layout), total, region.start, region.end);
      ZeroBytes(p, total);
    }

    /** heap_find_block_by_payload */
    method FindByPayload(ptr: int) returns (block: int, corrupt: bool, ghost i: nat)
      requires Represents()
      ensures !corrupt && i == IndexOfPayload(layout, ptr) && block == AddrAt(layout, i)
    {
      corrupt := false;
      i := 0;
      block := firstBlock;
      var walks := 0;
      BlocksFit(layout, region);
      assert layout != [];
      while block != 0 && walks < MaxWalks(region)
        invariant walks == i <= |layout| && block == AddrAt(layout, i)
        invariant IndexOfPayload(layout, ptr) >= i
        decreases |layout| - i
      {
        SaneBlock(region, freeList, mem, layout, i);
        if !Sane(mem, region.start, region.end, block) {
          block := 0;
          corrupt := true;
          break;
        }
        if Add32(block, HEADER) == ptr {
          FoundPayload(layout, ptr, i, region.start, region.end);
          return;
        }
        NotPayloadYet(layout, ptr, i);
        block := At(mem, block).nextPhys;
        i := i + 1;
        walks := walks + 1;
      }
      TilesAscending(layout, region.start, region.end);
    }

    /** heap_try_coalesce_with_next */
    method TryCoalesceWithNext(block: int, ghost i: nat)
      requires Represents() && Settled(layout) && i < |layout| && block == layout[i].addr
      modifies `mem, `freeList, `layout, `errorCount, `errorFlags
      ensures Represents() && errorCount == old(errorCount) && errorFlags == old(errorFlags)
      ensures layout == MergeOnce(old(layout), i) && Settled(layout)
    {
      SaneBlock(region, freeList, mem, layout, i);
      if !IsFree(At(mem, block)) {
        return;
      }
      AbutsNext(layout, i, region.start, region.end);
      var next := At(mem, block).nextPhys;
      if next == 0 {
        TilesAscending(layout, region.start, region.end);
        return;
      }
      SaneBlock(region, freeList, mem, layout, i + 1);
      if !IsFree(At(mem, next)) {
        return;
      }
      var corrupt := !Sane(mem, region.start, region.end, next) || block + HEADER + At(mem, block).size != next;
      errorCount := if corrupt then Add32(errorCount, 1) else errorCount;
      errorFlags := if corrupt then errorFlags + {Corruption} else errorFlags;
      if !corrupt {
        MergeNext(block, next, i);
      }
    }

    method MergeNext(block: int, next: int, ghost i: nat)
      requires Represents() && Settled(layout) && i + 1 < |layout| && layout[i].free && layout[i + 1].free
      requires block == layout[i].addr && next == layout[i + 1].addr
      modifies `mem, `freeList, `layout
      ensures Represents() && Settled(layout) && layout == MergeAt(old(layout), i)
    {
      ghost var L := layout;
      RemoveFreeBlock(next, i + 1);
      MergeImage(region, freeList, mem, layout, i);
      MergeHeaders(block, next);
      layout := MergeAt(layout, i);
      MergeSettled(L, i);
      assert layout == MergeAt(L, i);
    }

    /** The header writes of heap_try_coalesce_with_next. */
    method MergeHeaders(block: int, next: int)
      modifies `mem
      ensures mem == MergeWrites(old(mem), block, next)
    {
      mem := SetSize(mem, block, At(mem, block).size + HEADER + At(mem, next).size);
      mem := SetNextPhys(mem, block, At(mem, next).nextPhys);
      if At(mem, next).nextPhys != 0 {
        mem := SetPrevPhys(mem, At(mem, next).nextPhys, block);
      }
    }

    /** The predecessor of a block when that is free, else the block itself. */
    method MergeStart(block: int, ghost i: nat) returns (from: int, ghost s: nat)
      requires Represents() && i < |layout| && block == layout[i].addr
      ensures s == MergeFrom(layout, i) && from == layout[s].addr
    {
      SaneBlock(region, freeList, mem, layout, i);
      TilesAscending(layout, region.start, region.end);
      from, s := block, i;
      if At(mem, block).prevPhys != 0 {
        SaneBlock(region, freeList, mem, layout, i - 1);
        if IsFree(At(mem, At(mem, block).prevPhys)) {
          from, s := At(mem, block).prevPhys, i - 1;
        }
      }
    }

    /** heap_coalesce */
    method Coalesce(block: int, ghost i: nat)
      requires Represents() && Settled(layout) && i < |layout| && block == layout[i].addr
      modifies `mem, `freeList, `layout, `errorCount, `errorFlags
      ensures Represents() && errorCount == old(errorCount) && errorFlags == old(errorFlags)
      ensures layout == MergeOnce(MergeOnce(old(layout), MergeFrom(old(layout), i)), MergeFrom(old(layout), i))
    {
      var from, s := MergeStart(block, i);
      TryCoalesceWithNext(from, s);
      TryCoalesceWithNext(from, s);
    }

    /** The end of kfree: a used block goes back on the list and merges. */
    method Release(block: int, ghost i: nat)
      requires Valid() && i < |layout| && block == layout[i].addr && !layout[i].free
      modifies `mem, `freeList, `layout, `errorCount, `errorFlags
      ensures Represents() && errorCount == old(errorCount) && errorFlags == old(errorFlags)
      ensures layout == FreeAt(old(layout), i)
    {
      FreeSteps(layout, i, region.start, region.end);
      InsertFreeBlock(block, i);
      Coalesce(block, i);
    }

    method KFree(ptr: int)
      requires ready ==> Valid()
      modifies this
      ensures region == old(region) && ready == old(ready) && bytes == old(bytes)
      ensures !ready ==> mem == old(mem) && layout == old(layout) && errorCount == old(errorCount) && errorFlags == old(errorFlags)
      ensures ready ==> Valid() && layout == Free(old(layout), ptr)
      ensures ready ==> errorFlags == old(errorFlags) + FreeFault(old(layout), ptr)
      ensures ready ==> errorCount == if FreeFault(old(layout), ptr) == {} then old(errorCount) else Add32(old(errorCount), 1)
    {
      if !ready {
        return;
      }
      FreePtrKeeps(layout, ptr, region.start, region.end);
      if ptr == 0 {
        NullIsNoPayload(layout, region.start, region.end);
        return;
      }
      FreePayload(ptr);
    }

    method FreePayload(ptr: int)
      requires Valid() && ptr != 0
      modifies `mem, `freeList, `layout, `errorCount, `errorFlags
      ensures Represents() && layout == Free(old(layout), ptr)
      ensures errorFlags == old(errorFlags) + FreeFault(old(layout), ptr)
      ensures errorCount == if FreeFault(old(layout), ptr) == {} then old(errorCount) else Add32(old(errorCount), 1)
    {
      var block, corrupt, i := FindByPayload(ptr);
      errorCount := if corrupt then Add32(errorCount, 1) else errorCount;
      errorFlags := if corrupt then errorFlags + {Corruption} else errorFlags;
      TilesAscending(layout, region.start, region.end);
      FaultCases(layout, ptr, i);
      if block == 0 {
        NoteError(InvalidFree);
        return;
      }
      SaneBlock(region, freeList, mem, layout, i);
      if IsFree(At(mem, block)) {
        NoteError(DoubleFree);
        return;
      }
      Release(block, i);
    }

    // ----- counters -----

    method LargestFreeBlock() returns (largest: int)
      requires ready ==> Valid()
      ensures largest == if ready then LargestFree(layout) else 0
    {
      largest := 0;
      if !ready {
        return;
      }
      assert |layout| < MaxWalks(region) by {
        BlocksFit(layout, region);
      }
      TilesAscending(layout, region.start, region.end);
      var block, walks := freeList, 0;
      ghost var i := NextLinked(layout, 0);
      LargestSkip(layout, 0, i);
      while block != 0 && walks < MaxWalks(region)
        invariant walks <= i <= |layout| && block == AddrAt(layout, i) && (i < |layout| ==> layout[i].linked)
        invariant largest == LargestFree(layout[..i])
        decreases |layout| - i
      {
        SaneBlock(region, freeList, mem, layout, i);
        LargestStep(layout, i);
        if At(mem, block).size > largest {
          largest := At(mem, block).size;
        }
        i := NextLinked(layout, i + 1);
        block := At(mem, block).nextFree;
        walks := walks + 1;
      }
      assert layout[..i] == layout;
    }

    method BytesFree() returns (n: int)
      requires ready ==> Valid()
      ensures n == if ready then FreeBytes(layout) else 0
    {
      n := 0;
      if !ready {
        return;
      }
      assert |layout| < MaxWalks(region) by {
        BlocksFit(layout, region);
      }
      TilesAscending(layout, region.start, region.end);
      var block, walks := freeList, 0;
      ghost var i := NextLinked(layout, 0);
      FreeBytesSkip(layout, 0, i);
      assert layout[0..] == layout;
      while block != 0 && walks < MaxWalks(region)
        invariant walks <= i <= |layout| && block == AddrAt(layout, i) && (i < |layout| ==> layout[i].linked)
        invariant n + FreeBytes(layout[i..]) == FreeBytes(layout)
        decreases |layout| - i
      {
        SaneBlock(region, freeList, mem, layout, i);
        assert layout[i..][1..] == layout[i + 1..];
        n := n + At(mem, block).size;
        FreeBytesSkip(layout, i + 1, NextLinked(layout, i + 1));
        i := NextLinked(layout, i + 1);
        block := At(mem, block).nextFree;
        walks := walks + 1;
      }
      assert layout[i..] == [];
    }

    /** heap_bytes_used: what is not free is live payload, or the header of a block beyond the first. */
    method BytesUsed() returns (n: int)
      requires ready ==> Valid()
      ensures n == if ready then LiveBytes(layout) + HEADER * (|layout| - 1) else 0
    {
      var total := if ready && region.end > region.start + HEADER then region.end - region.start - HEADER else 0;
      var free := BytesFree();
      if ready {
        Accounting(layout, region.start, region.end);
      }
      n := if total >= free then total - free else 0;
    }

    // ----- integrity -----

    /** The first loop of heap_check_integrity_internal: the physical list. */
    method CheckPhysical() returns (ok: bool, freeBlocks: nat, ghost P: seq<int>)
      requires IsRegion(region) && WordMemory(mem) && firstBlock != 0
      ensures ok ==> PhysChain(region, firstBlock, mem, P) && freeBlocks == |FreeOf(mem, P)|
      ensures !ok ==> forall Q :: !PhysChain(region, firstBlock, mem, Q)
    {
      var block, prev, expected, walks := firstBlock, 0, region.start, 0;
      ok, freeBlocks, P := false, 0, [];
      ghost var whole := PhysWalk(region, mem, firstBlock, 0, region.start);
      PhysWalkMeans(region, firstBlock, mem);
      PrefixedNone(whole);
      while block != 0
        invariant walks == |P| && freeBlocks == |FreeOf(mem, P)|
        invariant region.start + HEADER * walks <= expected <= region.end
        invariant whole == Prefixed(P, PhysWalk(region, mem, block, prev, expected))
        decreases region.end - expected
      {
        if walks >= MaxWalks(region) {
          return;
        }
        walks := walks + 1;
        var b := At(mem, block);
        PhysStep(region, mem, block, prev, expected, P);
        if !Sane(mem, region.start, region.end, block) || block != expected || b.prevPhys != prev {
          return;
        }
        if IsFree(b) {
          freeBlocks := freeBlocks + 1;
          if b.nextPhys != 0 && IsFree(At(mem, b.nextPhys)) {
            return;
          }
        }
        FreeOfAppend(mem, P, block);
        P := P + [block];
        prev := block;
        expected := Add32(Add32(block, HEADER), b.size);
        block := b.nextPhys;
      }
      if expected != region.end {
        return;
      }
      assert P + [] == P;
      ok := true;
    }

    /** The second loop: the free list. */
    method CheckFreeList() returns (ok: bool, count: nat, ghost F: seq<int>)
      requires IsRegion(region) && WordMemory(mem)
      ensures ok ==> FreeChain(region, freeList, mem, F) && count == |F| <= REGION_BYTES / ALIGNMENT
      ensures !ok ==> forall G :: !FreeChain(region, freeList, mem, G)
    {
      var block, prev, walks := freeList, 0, 0;
      ok, count, F := false, 0, [];
      ghost var whole := FreeWalk(region, mem, freeList, 0);
      FreeWalkMeans(region, freeList, mem);
      PrefixedNone(whole);
      while block != 0
        invariant walks == count == |F|
        invariant if walks == 0 then prev == 0 else region.start + ALIGNMENT * (walks - 1) <= prev < region.end && prev % ALIGNMENT == 0
        invariant whole == Prefixed(F, FreeWalk(region, mem, block, prev))
        decreases region.end - prev
      {
        if walks >= MaxWalks(region) {
          return;
        }
        walks := walks + 1;
        FreeStep(region, mem, block, prev, F);
        if !Sane(mem, region.start, region.end, block) || !IsFree(At(mem, block)) || At(mem, block).prevFree != prev
           || (prev != 0 && prev >= block) {
          return;
        }
        F := F + [block];
        count := count + 1;
        prev := block;
        block := At(mem, block).nextFree;
      }
      assert F + [] == F;
      ok := true;
    }

    /** heap_free_list_contains */
    method FreeListContains(target: int, ghost F: seq<int>) returns (found: bool)
      requires FreeChain(region, freeList, mem, F) && |F| <= REGION_BYTES / ALIGNMENT
      requires IsRegion(region) && target != 0
      ensures found <==> target in F
    {
      var block, walks := freeList, 0;
      FreeNonNull(region, freeList, mem, F);
      while block != 0
        invariant walks <= |F| && block == Follow(F, walks) && target !in F[..walks]
        decreases |F| - walks
      {
        if walks >= MaxWalks(region) {
          return false;
        }
        assert FreeNode(region, mem, F, walks);
        if block == target {
          return true;
        }
        walks := walks + 1;
        block := At(mem, block).nextFree;
      }
      assert F[..walks] == F;
      return false;
    }

    /** The third loop: every free block is on the free list. */
    method CheckListed(ghost P: seq<int>, ghost F: seq<int>) returns (ok: bool)
      requires IsRegion(region) && WordMemory(mem)
      requires PhysChain(region, firstBlock, mem, P) && FreeChain(region, freeList, mem, F)
      requires |F| <= REGION_BYTES / ALIGNMENT
      ensures ok <==> forall x :: x in FreeOf(mem, P) ==> x in F
    {
      var block, walks := firstBlock, 0;
      PhysBounded(region, firstBlock, mem, P);
      assert P[..0] == [];
      while block != 0
        invariant walks <= |P| && block == Follow(P, walks)
        invariant forall x :: x in FreeOf(mem, P[..walks]) ==> x in F
        decreases |P| - walks
      {
        if walks >= MaxWalks(region) {
          return false;
        }
        assert PhysNode(region, mem, P, walks);
        FreeOfAppend(mem, P[..walks], P[walks]);
        assert P[..walks + 1] == P[..walks] + [P[walks]];
        if IsFree(At(mem, block)) {
          var listed := FreeListContains(block, F);
          if !listed {
            FreeOfPrefix(mem, P, walks + 1, block);
            return false;
          }
        }
        walks := walks + 1;
        block := At(mem, block).nextPhys;
      }
      assert P[..walks] == P;
      return true;
    }

    /** heap_check_integrity_internal decides Intact for any memory contents. */
    method CheckInternal() returns (ok: bool)
      requires IsRegion(region) && WordMemory(mem)
      ensures ok <==> ready && Intact(region, firstBlock, freeList, mem)
    {
      if !ready || firstBlock == 0 {
        return false;
      }
      var physOk, physFree, P := CheckPhysical();
      if !physOk {
        return false;
      }
      var listOk, listed, F := CheckFreeList();
      if !listOk || listed != physFree {
        NotIntact(region, firstBlock, freeList, mem, P, F, listOk);
        return false;
      }
      ok := CheckListed(P, F);
      if ok {
        CountsSuffice(region, firstBlock, freeList, mem, P, F);
      } else {
        NotIntact(region, firstBlock, freeList, mem, P, F, true);
      }
    }

    /** heap_check_integrity: the verdict, noted as an error when it is bad. */
    method CheckIntegrity() returns (ok: bool)
      requires IsRegion(region) && WordMemory(mem)
      modifies `errorCount, `errorFlags
      ensures ok <==> ready && Intact(region, firstBlock, freeList, mem)
      ensures ok || !ready || firstBlock == 0 ==> errorCount == old(errorCount) && errorFlags == old(errorFlags)
      ensures !ok && ready && firstBlock != 0 ==>
                errorCount == Add32(old(errorCount), 1) && errorFlags == old(errorFlags) + {Integrity}
    {
      ok := CheckInternal();
      if !ok && ready && firstBlock != 0 {
        NoteError(Integrity);
      }
    }

    /** kfree on a heap that is up, whatever the address. */
    method Give(p: int)
      requires Valid()
      modifies this
      ensures Valid() && region == old(region) && layout == Free(old(layout), p)
    {
      KFree(p);
    }

    method GiveTwo(p: int, q: int)
      requires Valid()
      modifies this
      ensures Valid() && region == old(region) && layout == Free(Free(old(layout), p), q)
    {
      Give(p);
      Give(q);
    }

    /** Allocate and free at once, as the self-test does with 80 bytes. */
    method TryOut(size: int) returns (ok: bool)
      requires Valid() && 0 <= size < WORD
      modifies this
      ensures Valid() && region == old(region) && layout == old(layout)
      ensures ok <==> Malloc(layout, size).ptr != 0
    {
      TilesBounds(layout, region.start, region.end);
      var d := KMalloc(size);
      if d == 0 {
        return false;
      }
      MallocThenFree(old(layout), size, region.start, region.end);
      Give(d);
      return true;
    }

    /** The first half of the self-test. */
    method TakeThree() returns (a: int, b: int, c: int)
      requires Valid()
      modifies this
      ensures Valid() && region == old(region)
      ensures var x := Malloc(old(layout), 64);
              var y := Malloc(x.layout, 128);
              var z := Malloc(y.layout, 128);
              a == x.ptr && b == y.ptr && c == z.ptr && layout == z.layout
    {
      a := KMalloc(64);
      b := KMalloc(128);
      c := KCalloc(16, 8);
    }

    /** The second half: free the middle block, try 80 bytes in its place, free the rest. */
    method ReuseAndFree(a: int, b: int, c: int) returns (ok: bool)
      requires Valid()
      modifies this
      ensures Valid() && region == old(region)
      ensures ok <==> Malloc(Free(old(layout), b), 80).ptr != 0
      ensures ok ==> layout == Free(Free(Free(old(layout), b), c), a)
      ensures !ok ==> layout == Free(Free(Free(old(layout), b), a), c)
    {
      Give(b);
      ok := TryOut(80);
      if !ok {
        NoteError(SelfTest);
        GiveTwo(a, c);
      } else {
        GiveTwo(c, a);
      }
    }

    /** heap_run_self_test: it passes exactly when its first three allocations do, and always restores the layout. */
    method RunSelfTest() returns (ok: bool)
      requires ready ==> Valid()
      modifies this
      ensures region == old(region) && ready == old(ready)
      ensures !ready ==> !ok
      ensures ready ==> Valid() && layout == old(layout)
      ensures ready ==>
                var a := Malloc(layout, 64);
                var b := Malloc(a.layout, 128);
                var c := Malloc(b.layout, 128);
                ok <==> a.ptr != 0 && b.ptr != 0 && c.ptr != 0
    {
      if !ready {
        return false;
      }
      var freeBefore := BytesFree();
      LayoutIntact(region, freeList, mem, layout);
      ok := CheckIntegrity();
      if !ok {
        return false;
      }
      ok := AllocateReuseFree();
      if !ok {
        return false;
      }
      LayoutIntact(region, freeList, mem, layout);
      ok := CheckIntegrity();
      if !ok {
        return false;
      }
      var freeAfter := BytesFree();
      ok := freeAfter == freeBefore;
    }

    /** The self-test between its two integrity checks. */
    method AllocateReuseFree() returns (ok: bool)
      requires Valid()
      modifies this
      ensures Valid() && region == old(region) && layout == old(layout)
      ensures var a := Malloc(layout, 64);
              var b := Malloc(a.layout, 128);
              var c := Malloc(b.layout, 128);
              ok <==> a.ptr != 0 && b.ptr != 0 && c.ptr != 0
    {
      ghost var L := layout;
      ThreeUndone(L, 64, 128, 128, region.start, region.end);
      var a, b, c := TakeThree();
      FreesThree(layout, a, b, c);
      FreesThree(layout, b, c, a);
      if a == 0 || b == 0 || c == 0 {
        NoteError(SelfTest);
        Give(a);
        GiveTwo(b, c);
        return false;
      }
      SelfTestReuse(L, region.start, region.end);
      ok := ReuseAndFree(a, b, c);
    }
  }

  // ----- the free list is in address order -----

  lemma {:induction false} SlotAtHead(h: Region, freeList: int, mem: Memory, L: seq<Block>, i: nat)
    requires Image(h, freeList, mem, L) && i < |L| && !L[i].linked
    requires freeList == 0 || L[i].addr < freeList
    ensures PrevFreeAddr(L, i) == 0 && NextFreeAddr(L, i + 1) == freeList
  {
    TilesAscending(L, h.start, h.end);
    var k := NextLinked(L, 0);
    assert i < k;
    PrevUnique(L, i, -1);
    NextUnique(L, i + 1, k);
  }

  lemma {:induction false} HeadBefore(h: Region, freeList: int, mem: Memory, L: seq<Block>, i: nat)
    requires Image(h, freeList, mem, L) && i < |L| && !L[i].linked
    requires freeList != 0 && freeList <= L[i].addr
    ensures var p := NextLinked(L, 0);
            p < i && L[p].linked && freeList == L[p].addr && At(mem, freeList).nextFree == NextFreeAddr(L, p + 1)
  {
    TilesAscending(L, h.start, h.end);
    var p := NextLinked(L, 0);
    assert At(mem, L[p].addr) == HeaderOf(L, p);
  }

  lemma {:induction false} StepBefore(h: Region, freeList: int, mem: Memory, L: seq<Block>, i: nat, p: nat) returns (q: nat)
    requires Image(h, freeList, mem, L) && p < i < |L|
    requires 0 != NextFreeAddr(L, p + 1) < L[i].addr
    ensures p < q < i && L[q].linked && L[q].addr == NextFreeAddr(L, p + 1)
    ensures At(mem, L[q].addr).nextFree == NextFreeAddr(L, q + 1)
  {
    TilesAscending(L, h.start, h.end);
    q := NextLinked(L, p + 1);
    assert At(mem, L[q].addr) == HeaderOf(L, q);
  }

  lemma {:induction false} SlotAfter(h: Region, freeList: int, mem: Memory, L: seq<Block>, i: nat, p: nat)
    requires Image(h, freeList, mem, L) && p < i < |L| && L[p].linked && !L[i].linked
    requires NextFreeAddr(L, p + 1) == 0 || L[i].addr <= NextFreeAddr(L, p + 1)
    ensures PrevFreeAddr(L, i) == L[p].addr && NextFreeAddr(L, i + 1) == NextFreeAddr(L, p + 1)
  {
    TilesAscending(L, h.start, h.end);
    var k := NextLinked(L, p + 1);
    assert i < k;
    PrevUnique(L, i, p);
    NextUnique(L, i + 1, k);
  }

  /** With no free block before it, the next free block is the head of the list. */
  lemma {:induction false} HeadIsNext(L: seq<Block>, i: nat, lo: int, hi: int)
    requires Tiles(L, lo, hi) && 0 < lo && i < |L| && !L[i].linked
    ensures PrevFreeAddr(L, i) == 0 ==> NextFreeAddr(L, i + 1) == NextFreeAddr(L, 0)
  {
    TilesAscending(L, lo, hi);
    if PrevLinked(L, i) == -1 {
      NextUnique(L, 0, NextLinked(L, i + 1));
    }
  }

  /** Taking off, splitting, inserting the rest and marking used is AllocAt. */
  lemma {:induction false} AllocSteps(L: seq<Block>, i: nat, n: int)
    requires i < |L| && L[i].free
    ensures var T := L[i := L[i].(linked := false)];
            AllocAt(L, i, n) ==
            if CanSplit(L[i], n) then
              var S := SplitAt(T, i, n);
              var R := S[i + 1 := S[i + 1].(free := true, linked := true)];
              R[i := R[i].(free := false)]
            else T[i := T[i].(free := false)]
  {
  }

  lemma {:induction false} InitialHolds(lo: int, hi: int)
    ensures Holds(map[lo := Header(MAGIC, 1, hi - lo - HEADER, 0, 0, 0, 0)], Initial(lo, hi))
    ensures NextFreeAddr(Initial(lo, hi), 0) == lo
  {
    var L := Initial(lo, hi);
    assert PrevLinked(L, 0) == -1 && NextLinked(L, 1) == 1;
    assert HeaderOf(L, 0) == Header(MAGIC, 1, hi - lo - HEADER, 0, 0, 0, 0);
  }

  /** `after` is `before` with `count` bytes at `p` cleared and nothing else changed. */
  ghost predicate Cleared(before: map<int, int>, after: map<int, int>, p: int, count: int) {
    && (forall a :: p <= a < p + count ==> a in after && after[a] == 0)
    && (forall a :: a in after && !(p <= a < p + count) ==> a in before && after[a] == before[a])
    && (forall a :: a in before ==> a in after)
  }

  lemma {:induction false} NotPayloadYet(L: seq<Block>, ptr: int, i: nat)
    requires i < |L| && IndexOfPayload(L, ptr) >= i && Payload(L[i]) != ptr
    ensures IndexOfPayload(L, ptr) >= i + 1
  {
  }

  lemma {:induction false} FoundPayload(L: seq<Block>, ptr: int, i: nat, lo: int, hi: int)
    requires Tiles(L, lo, hi) && i < |L| && Payload(L[i]) == ptr
    ensures IndexOfPayload(L, ptr) == i
  {
    TilesBounds(L, lo, hi);
    TilesOrdered(L, lo, hi);
  }

  lemma {:induction false} NullIsNoPayload(L: seq<Block>, lo: int, hi: int)
    requires Tiles(L, lo, hi) && 0 < lo
    ensures Free(L, 0) == L
  {
    TilesBounds(L, lo, hi);
  }

  /** What kfree reports about a pointer. */
  function FreeFault(L: seq<Block>, ptr: int): set<Diagnostic> {
    var i := IndexOfPayload(L, ptr);
    if ptr == 0 then {}
    else if i == |L| then {InvalidFree}
    else if L[i].free then {DoubleFree}
    else {}
  }

  lemma {:induction false} FaultCases(L: seq<Block>, ptr: int, i: nat)
    requires ptr != 0 && i == IndexOfPayload(L, ptr)
    ensures FreeFault(L, ptr) == if i == |L| then {InvalidFree} else if L[i].free then {DoubleFree} else {}
    ensures Free(L, ptr) == if i == |L| || L[i].free then L else FreeAt(L, i)
  {
  }

  /** kfree reports exactly the non-null pointers that are not the payload of a live block. */
  lemma {:induction false} FaultsExact(L: seq<Block>, ptr: int, lo: int, hi: int)
    requires WellFormed(L, lo, hi) && 0 < lo
    ensures FreeFault(L, ptr) == {} <==> ptr == 0 || exists e :: e in Live(L) && e.0 + HEADER == ptr
    ensures FreeFault(L, ptr) == {DoubleFree} <==> exists b :: b in L && b.free && Payload(b) == ptr
    ensures FreeFault(L, ptr) != {} ==> Free(L, ptr) == L
  {
    TilesAscending(L, lo, hi);
    var i := IndexOfPayload(L, ptr);
    if i < |L| && !L[i].free {
      LiveHas(L, i);
    }
    forall e | e in Live(L) && e.0 + HEADER == ptr ensures FreeFault(L, ptr) == {} {
      var k := LiveIndex(L, e);
      assert k == i;
    }
    if i < |L| && L[i].free {
      assert L[i] in L;
    }
  }

  /** One attempt to merge block `s` with its successor. */
  function MergeOnce(L: seq<Block>, s: nat): (M: seq<Block>)
    requires s < |L|
    ensures s < |M| && M[s].addr == L[s].addr
  {
    if s + 1 < |L| && L[s].free && L[s + 1].free then MergeAt(L, s) else L
  }

  lemma {:induction false} MergeSettled(L: seq<Block>, s: nat)
    requires Settled(L) && s + 1 < |L|
    ensures Settled(MergeAt(L, s))
  {
    var M := MergeAt(L, s);
    forall k | 0 <= k < |M| ensures M[k].linked == M[k].free {
      assert k > s ==> M[k] == L[k + 1];
    }
  }

  /** Inserting a used block and coalescing around it is FreeAt. */
  lemma {:induction false} FreeSteps(L: seq<Block>, i: nat, lo: int, hi: int)
    requires WellFormed(L, lo, hi) && i < |L| && !L[i].free
    ensures var M := L[i := L[i].(free := true, linked := true)];
            var s := MergeFrom(L, i);
            s == MergeFrom(M, i) && MergeOnce(MergeOnce(M, s), s) == FreeAt(L, i)
  {
    AbutsNext(L, i, lo, hi);
    if MergeTo(L, i) == i + 2 {
      AbutsNext(L, i + 1, lo, hi);
    }
    if MergeFrom(L, i) < i {
      AbutsNext(L, i - 1, lo, hi);
      if MergeTo(L, i) == i + 2 {
        FreeBetween(L, i);
      } else {
        FreeAfter(L, i);
      }
    } else if MergeTo(L, i) == i + 2 {
      FreeBefore(L, i);
    } else {
      FreeAlone(L, i);
    }
  }

  /** Block `i` marked free and put on the list. */
  function Marked(L: seq<Block>, i: nat): seq<Block>
    requires i < |L|
  {
    L[i := L[i].(free := true, linked := true)]
  }

  lemma {:induction false} FreeAlone(L: seq<Block>, i: nat)
    requires i < |L| && MergeFrom(L, i) == i && MergeTo(L, i) == i + 1
    ensures MergeOnce(MergeOnce(Marked(L, i), i), i) == FreeAt(L, i)
  {
    var m, front, back := Marked(L, i)[i], L[..i], L[i + 1..];
    assert Marked(L, i) == front + [m] + back;
    MergeStop(front, m, back);
  }

  lemma {:induction false} FreeBefore(L: seq<Block>, i: nat)
    requires i + 1 < |L| && MergeFrom(L, i) == i && L[i + 1].free && (i + 2 < |L| ==> !L[i + 2].free)
    requires EndOf(L[i]) == L[i + 1].addr
    ensures MergeOnce(MergeOnce(Marked(L, i), i), i) == FreeAt(L, i)
  {
    var m, front, back := Marked(L, i)[i], L[..i], L[i + 2..];
    assert Marked(L, i) == front + [m, L[i + 1]] + back;
    MergePair(front, m, L[i + 1], back);
    MergeStop(front, m.(size := m.size + HEADER + L[i + 1].size), back);
  }

  lemma {:induction false} FreeAfter(L: seq<Block>, i: nat)
    requires 0 < i < |L| && L[i - 1].free && L[i - 1].linked && MergeTo(L, i) == i + 1
    requires EndOf(L[i - 1]) == L[i].addr
    ensures MergeOnce(MergeOnce(Marked(L, i), i - 1), i - 1) == FreeAt(L, i)
  {
    var l, m, front, back := L[i - 1], Marked(L, i)[i], L[..i - 1], L[i + 1..];
    assert Marked(L, i) == front + [l, m] + back;
    MergePair(front, l, m, back);
    MergeStop(front, l.(size := l.size + HEADER + m.size), back);
  }

  lemma {:induction false} FreeBetween(L: seq<Block>, i: nat)
    requires 0 < i && i + 1 < |L| && L[i - 1].free && L[i - 1].linked && L[i + 1].free
    requires EndOf(L[i - 1]) == L[i].addr && EndOf(L[i]) == L[i + 1].addr
    ensures MergeOnce(MergeOnce(Marked(L, i), i - 1), i - 1) == FreeAt(L, i)
  {
    var l, m, r, front, back := L[i - 1], Marked(L, i)[i], L[i + 1], L[..i - 1], L[i + 2..];
    var x := l.(size := l.size + HEADER + m.size);
    assert Marked(L, i) == front + [l, m] + ([r] + back);
    MergePair(front, l, m, [r] + back);
    assert front + [x] + ([r] + back) == front + [x, r] + back;
    MergePair(front, x, r, back);
  }

  lemma {:induction false} MergePair(front: seq<Block>, x: Block, y: Block, back: seq<Block>)
    requires x.free && y.free
    ensures MergeOnce(front + [x, y] + back, |front|) == front + [x.(size := x.size + HEADER + y.size)] + back
  {
    var L := front + [x, y] + back;
    assert L[..|front|] == front && L[|front| + 2..] == back && L[|front|] == x && L[|front| + 1] == y;
  }

  lemma {:induction false} MergeStop(front: seq<Block>, x: Block, back: seq<Block>)
    requires back == [] || !back[0].free
    ensures MergeOnce(front + [x] + back, |front|) == front + [x] + back
  {
    var L := front + [x] + back;
    assert back != [] ==> L[|front| + 1] == back[0];
  }

  // ----- walks over the free list see every free block -----

  lemma {:induction false} LargestSkip(L: seq<Block>, k: nat, n: nat)
    requires k <= n <= |L| && forall m :: k <= m < n ==> !L[m].free
    ensures LargestFree(L[..n]) == LargestFree(L[..k])
    decreases n
  {
    if k < n {
      LargestSkip(L, k, n - 1);
      assert L[..n][..n - 1] == L[..n - 1];
    }
  }

  lemma {:induction false} LargestStep(L: seq<Block>, i: nat)
    requires i < |L| && Settled(L) && L[i].free
    ensures var m := LargestFree(L[..i]);
            LargestFree(L[..NextLinked(L, i + 1)]) == if L[i].size > m then L[i].size else m
  {
    LargestSkip(L, i + 1, NextLinked(L, i + 1));
    assert L[..i + 1][..i] == L[..i];
  }

  lemma {:induction false} FreeBytesSkip(L: seq<Block>, k: nat, n: nat)
    requires k <= n <= |L| && forall m :: k <= m < n ==> !L[m].free
    ensures FreeBytes(L[n..]) == FreeBytes(L[k..])
    decreases n - k
  {
    if k < n {
      FreeBytesSkip(L, k + 1, n);
      assert L[k..][1..] == L[k + 1..];
    }
  }

  // ----- the walks of the checker and the chains -----

  lemma {:induction false} PhysWalkMeans(h: Region, first: int, mem: Memory)
    requires IsRegion(h) && WordMemory(mem) && first != 0
    ensures forall P :: PhysWalk(h, mem, first, 0, h.start) == Some(P) <==> PhysChain(h, first, mem, P)
  {
    forall P ensures PhysWalk(h, mem, first, 0, h.start) == Some(P) <==> PhysChain(h, first, mem, P) {
      if first == h.start {
        PhysWalkExact(h, mem, P);
      }
    }
  }

  lemma {:induction false} FreeWalkMeans(h: Region, freeList: int, mem: Memory)
    requires IsRegion(h)
    ensures forall F :: FreeWalk(h, mem, freeList, 0) == Some(F) <==> FreeChain(h, freeList, mem, F)
  {
    forall F ensures FreeWalk(h, mem, freeList, 0) == Some(F) <==> FreeChain(h, freeList, mem, F) {
      FreeWalkExact(h, freeList, mem, F);
    }
  }

  /** One turn of the first loop. */
  lemma {:induction false} PhysStep(h: Region, mem: Memory, a: int, prev: int, expected: int, P: seq<int>)
    requires IsRegion(h) && WordMemory(mem) && a != 0
    ensures var b, end := At(mem, a), Add32(Add32(a, HEADER), At(mem, a).size);
            if Sane(mem, h.start, h.end, a) && a == expected && b.prevPhys == prev
               && !(IsFree(b) && b.nextPhys != 0 && IsFree(At(mem, b.nextPhys))) then
              && expected + HEADER <= end <= h.end
              && Prefixed(P, PhysWalk(h, mem, a, prev, expected)) == Prefixed(P + [a], PhysWalk(h, mem, b.nextPhys, a, end))
            else PhysWalk(h, mem, a, prev, expected).None?
  {
    var b := At(mem, a);
    SaneMeans(h, mem, a);
    if Sane(mem, h.start, h.end, a) {
      assert Add32(Add32(a, HEADER), b.size) == a + HEADER + b.size;
      PrefixedPush(P, a, PhysWalk(h, mem, b.nextPhys, a, a + HEADER + b.size));
    }
  }

  /** One turn of the second loop. */
  lemma {:induction false} FreeStep(h: Region, mem: Memory, a: int, prev: int, F: seq<int>)
    requires IsRegion(h) && WordMemory(mem) && a != 0 && prev % ALIGNMENT == 0
    ensures if Sane(mem, h.start, h.end, a) && IsFree(At(mem, a)) && At(mem, a).prevFree == prev && (prev == 0 || prev < a) then
              && h.start <= a < h.end && prev < a && prev + ALIGNMENT <= a && a % ALIGNMENT == 0
              && Prefixed(F, FreeWalk(h, mem, a, prev)) == Prefixed(F + [a], FreeWalk(h, mem, At(mem, a).nextFree, a))
            else FreeWalk(h, mem, a, prev).None?
  {
    PrefixedPush(F, a, FreeWalk(h, mem, At(mem, a).nextFree, a));
    if Sane(mem, h.start, h.end, a) && prev < a {
      AlignedGap(prev, a);
    }
  }

  lemma {:induction false} AlignedGap(x: int, y: int)
    requires x % ALIGNMENT == 0 && y % ALIGNMENT == 0 && x < y
    ensures x + ALIGNMENT <= y
  {
  }

  lemma {:induction false} FreeNonNull(h: Region, freeList: int, mem: Memory, F: seq<int>)
    requires FreeChain(h, freeList, mem, F)
    ensures forall k :: 0 <= k < |F| ==> F[k] != 0
  {
    forall k | 0 <= k < |F| ensures F[k] != 0 {
      assert FreeNode(h, mem, F, k);
    }
  }

  lemma {:induction false} PrefixedNone(r: Option<seq<int>>)
    ensures Prefixed([], r) == r
  {
    if r.Some? { assert [] + r.value == r.value; }
  }

  lemma {:induction false} FreeOfAppend(mem: Memory, P: seq<int>, a: int)
    ensures FreeOf(mem, P + [a]) == FreeOf(mem, P) + if IsFree(At(mem, a)) then [a] else []
  {
    if P == [] {
      assert P + [a] == [a] && [a][1..] == [];
    } else {
      FreeOfAppend(mem, P[1..], a);
      assert (P + [a])[1..] == P[1..] + [a];
    }
  }

  /** A free block of a prefix is a free block of the whole. */
  lemma {:induction false} FreeOfPrefix(mem: Memory, P: seq<int>, n: nat, a: int)
    requires n <= |P| && a in FreeOf(mem, P[..n])
    ensures a in FreeOf(mem, P)
    decreases |P| - n
  {
    if n < |P| {
      FreeOfAppend(mem, P[..n], P[n]);
      assert P[..n + 1] == P[..n] + [P[n]];
      FreeOfPrefix(mem, P, n + 1, a);
    } else {
      assert P[..n] == P;
    }
  }

  lemma {:induction false} PhysBounded(h: Region, first: int, mem: Memory, P: seq<int>)
    requires IsRegion(h) && WordMemory(mem) && PhysChain(h, first, mem, P)
    ensures HEADER * |P| <= REGION_BYTES
    ensures forall k :: 0 <= k < |P| ==> P[k] != 0
  {
    forall k | 0 <= k < |P| ensures P[k] != 0 {
      assert PhysNode(h, mem, P, k);
    }
    PhysSpan(h, first, mem, P, |P| - 1);
    assert PhysNode(h, mem, P, |P| - 1);
    SaneMeans(h, mem, P[|P| - 1]);
  }

  lemma {:induction false} PhysSpan(h: Region, first: int, mem: Memory, P: seq<int>, k: nat)
    requires IsRegion(h) && WordMemory(mem) && PhysChain(h, first, mem, P) && k < |P|
    ensures h.start + HEADER * k <= P[k]
  {
    if k > 0 {
      PhysSpan(h, first, mem, P, k - 1);
      assert PhysNode(h, mem, P, k - 1);
      SaneMeans(h, mem, P[k - 1]);
    }
  }

  /** Both lists being determined by their heads, a mismatch between them rules Intact out. */
  lemma {:induction false} NotIntact(h: Region, first: int, freeList: int, mem: Memory, P: seq<int>, F: seq<int>, listOk: bool)
    requires IsRegion(h) && WordMemory(mem) && first != 0 && PhysChain(h, first, mem, P)
    requires if listOk then FreeChain(h, freeList, mem, F) && FreeOf(mem, P) != F
             else forall G :: !FreeChain(h, freeList, mem, G)
    ensures !Intact(h, first, freeList, mem)
  {
    PhysWalkMeans(h, first, mem);
    FreeWalkMeans(h, freeList, mem);
    forall Q | PhysChain(h, first, mem, Q) ensures !FreeChain(h, freeList, mem, FreeOf(mem, Q)) {
      assert Some(Q) == Some(P);
    }
  }

  /** In the self-test the 80 bytes always fit where the 128 were. */
  lemma {:induction false} SelfTestReuse(L: seq<Block>, lo: int, hi: int)
    requires WellFormed(L, lo, hi) && 0 < lo && hi < WORD
    requires var a := Malloc(L, 64); a.ptr != 0 && Malloc(a.layout, 128).ptr != 0
    ensures var a := Malloc(L, 64);
            var b := Malloc(a.layout, 128);
            var c := Malloc(b.layout, 128);
            Malloc(Free(c.layout, b.ptr), 80).ptr != 0
  {
    var a := Malloc(L, 64);
    var b := Malloc(a.layout, 128);
    var c := Malloc(b.layout, 128);
    MallocKeeps(L, 64, lo, hi);
    MallocKeeps(a.layout, 128, lo, hi);
    MallocKeeps(b.layout, 128, lo, hi);
    var e := MallocLive(a.layout, 128, lo, hi);
    MallocAdds(b.layout, 128, lo, hi);
    assert e in Live(b.layout);
    FreedFits(c.layout, e, 80, lo, hi);
  }
}
