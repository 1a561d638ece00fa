/**
 What every run of kmalloc, kcalloc and kfree requests keeps, stated over layouts.
 The class `Heap` refines each step used here.  Requests to kcalloc whose clearing would
 leave the block granted are not steps; `ClearStaysInside` says which they are.
 */
module HeapRuns {
  import opened Words
  import opened HeapLayout

  datatype Request = KMalloc(size: int) | KCalloc(count: int, size: int) | KFree(ptr: int)

  /** Arguments are 32-bit values, and kcalloc clears no more than it is granted. */
  predicate InRange(r: Request) {
    match r
    case KMalloc(size) => 0 <= size < WORD
    case KCalloc(count, size) => 0 <= count < WORD && 0 <= size < WORD && CallocBytes(count, size) <= 0xFFFF_FFF0
    case KFree(_) => true
  }

  /** kcalloc asks for count * size bytes, or for nothing when that overflows. */
  function CallocBytes(count: int, size: int): (n: int)
    requires 0 <= count < WORD && 0 <= size < WORD
    ensures 0 <= n < WORD
    ensures n != 0 ==> n == count * size
    ensures n == 0 <==> count * size == 0 || count * size >= WORD
  {
    if count == 0 || size == 0 then 0
    else
      ProductFits(count, size);
      if count > (WORD - 1) / size then 0 else count * size
  }

  lemma {:induction false} ProductFits(count: int, size: int)
    requires 0 < count && 0 < size
    ensures count > (WORD - 1) / size <==> count * size >= WORD
    ensures 0 < count * size
  {
    var q := (WORD - 1) / size;
    assert q * size <= WORD - 1 < (q + 1) * size;
    if count > q {
      assert count * size >= (q + 1) * size by { MulMonotone(q + 1, count, size); }
    } else {
      MulMonotone(count, q, size);
    }
    MulMonotone(1, count, size);
  }

  lemma {:induction false} MulMonotone(x: int, y: int, z: int)
    requires x <= y && 0 <= z
    ensures x * z <= y * z
  {
  }

  function Step(L: seq<Block>, r: Request): seq<Block>
    requires InRange(r)
  {
    match r
    case KMalloc(size) => Malloc(L, size).layout
    case KCalloc(count, size) => Malloc(L, CallocBytes(count, size)).layout
    case KFree(ptr) => Free(L, ptr)
  }

  function Run(L: seq<Block>, rs: seq<Request>): seq<Block>
    requires forall r :: r in rs ==> InRange(r)
    decreases |rs|
  {
    if rs == [] then L else Run(Step(L, rs[0]), rs[1..])
  }

  /** The heap after heap_init: one free block. */
  function Initial(lo: int, hi: int): seq<Block> {
    [Block(lo, hi - lo - HEADER, true, true)]
  }

  lemma {:induction false} InitialWellFormed(lo: int)
    ensures WellFormed(Initial(lo, lo + REGION_BYTES), lo, lo + REGION_BYTES)
  {
    assert Initial(lo, lo + REGION_BYTES)[1..] == [];
  }

  // ----- safety of runs -----

  lemma {:induction false} AlignedFacts(size: int)
    requires 0 <= size < WORD
    ensures 0 <= Aligned(size) && Aligned(size) % ALIGNMENT == 0
    ensures size <= 0xFFFF_FFF0 ==> size <= Aligned(size) < size + ALIGNMENT
    ensures size > 0xFFFF_FFF0 ==> Aligned(size) == 0
  {
  }

  lemma {:induction false} MallocKeeps(L: seq<Block>, size: int, lo: int, hi: int)
    requires WellFormed(L, lo, hi) && 0 <= size < WORD
    ensures WellFormed(Malloc(L, size).layout, lo, hi)
  {
    AlignedFacts(size);
    var i := FirstFit(L, Aligned(size));
    if size != 0 && i < |L| {
      AllocKeeps(L, i, Aligned(size), lo, hi);
    }
  }

  lemma {:induction false} FreePtrKeeps(L: seq<Block>, p: int, lo: int, hi: int)
    requires WellFormed(L, lo, hi)
    ensures WellFormed(Free(L, p), lo, hi)
  {
    var i := IndexOfPayload(L, p);
    if i < |L| && !L[i].free {
      FreeKeeps(L, i, lo, hi);
    }
  }

  lemma {:induction false} RunKeeps(L: seq<Block>, rs: seq<Request>, lo: int, hi: int)
    requires WellFormed(L, lo, hi) && forall r :: r in rs ==> InRange(r)
    ensures WellFormed(Run(L, rs), lo, hi)
    decreases |rs|
  {
    if rs != [] {
      assert InRange(rs[0]);
      match rs[0] {
        case KMalloc(size) => MallocKeeps(L, size, lo, hi);
        case KCalloc(count, size) => MallocKeeps(L, CallocBytes(count, size), lo, hi);
        case KFree(ptr) => FreePtrKeeps(L, ptr, lo, hi);
      }
      RunKeeps(Step(L, rs[0]), rs[1..], lo, hi);
    }
  }

  /** Payloads are 16-aligned, inside the region and pairwise disjoint, a header apart. */
  ghost predicate PayloadsSafe(L: seq<Block>, lo: int, hi: int) {
    && (forall i :: 0 <= i < |L| ==>
          Payload(L[i]) % ALIGNMENT == 0 && lo + HEADER <= Payload(L[i]) && Payload(L[i]) + L[i].size <= hi)
    && (forall i, j :: 0 <= i < j < |L| ==> Payload(L[i]) + L[i].size + HEADER <= Payload(L[j]))
  }

  /** After any requests in range, from the initial heap: tiling, coalescing, free list and disjoint payloads. */
  lemma {:induction false} RunSafe(rs: seq<Request>, lo: int)
    requires lo % ALIGNMENT == 0 && forall r :: r in rs ==> InRange(r)
    ensures var hi := lo + REGION_BYTES;
            var L := Run(Initial(lo, hi), rs);
            WellFormed(L, lo, hi) && PayloadsSafe(L, lo, hi)
  {
    var hi := lo + REGION_BYTES;
    InitialWellFormed(lo);
    RunKeeps(Initial(lo, hi), rs, lo, hi);
    TilesSafe(Run(Initial(lo, hi), rs), lo, hi);
  }

  lemma {:induction false} TilesSafe(L: seq<Block>, lo: int, hi: int)
    requires Tiles(L, lo, hi) && lo % ALIGNMENT == 0
    ensures PayloadsSafe(L, lo, hi)
  {
    TilesOrdered(L, lo, hi);
    forall i | 0 <= i < |L|
      ensures Payload(L[i]) % ALIGNMENT == 0 && lo + HEADER <= Payload(L[i]) && Payload(L[i]) + L[i].size <= hi
    {
      BlockSafe(L, i, lo, hi);
    }
  }

  lemma {:induction false} BlockSafe(L: seq<Block>, i: nat, lo: int, hi: int)
    requires Tiles(L, lo, hi) && lo % ALIGNMENT == 0 && i < |L|
    ensures Payload(L[i]) % ALIGNMENT == 0 && lo + HEADER <= Payload(L[i]) && Payload(L[i]) + L[i].size <= hi
  {
    TilesBounds(L, lo, hi);
    TilesAligned(L, lo, hi);
  }

  // ----- the layout is a function of the live blocks -----

  ghost function Without(S: set<(int, int)>, p: int): set<(int, int)> {
    set e | e in S && e.0 + HEADER != p
  }

  lemma {:induction false} FreePtrLive(L: seq<Block>, p: int, lo: int, hi: int)
    requires WellFormed(L, lo, hi)
    ensures Live(Free(L, p)) == Without(Live(L), p)
  {
    var i := IndexOfPayload(L, p);
    forall e | e in Live(L) && e.0 + HEADER == p
      ensures i < |L| && !L[i].free && e == (L[i].addr, L[i].size)
    {
      var k := LiveIndex(L, e);
      TilesBounds(L, lo, hi);
      TilesOrdered(L, lo, hi);
      assert k == i;
    }
    if i < |L| && !L[i].free {
      FreeLive(L, i, lo, hi);
    }
  }

  /** Frees commute, whatever the two pointers are. */
  lemma {:induction false} FreesCommute(L: seq<Block>, p: int, q: int, lo: int, hi: int)
    requires WellFormed(L, lo, hi)
    ensures Free(Free(L, p), q) == Free(Free(L, q), p)
  {
    FreePtrKeeps(L, p, lo, hi);
    FreePtrKeeps(L, q, lo, hi);
    FreePtrKeeps(Free(L, p), q, lo, hi);
    FreePtrKeeps(Free(L, q), p, lo, hi);
    FreePtrLive(L, p, lo, hi);
    FreePtrLive(L, q, lo, hi);
    FreePtrLive(Free(L, p), q, lo, hi);
    FreePtrLive(Free(L, q), p, lo, hi);
    assert Without(Without(Live(L), p), q) == Without(Without(Live(L), q), p);
    Canonical(Free(Free(L, p), q), Free(Free(L, q), p), lo, hi);
  }

  lemma {:induction false} MallocLive(L: seq<Block>, size: int, lo: int, hi: int) returns (e: (int, int))
    requires WellFormed(L, lo, hi) && 0 <= size < WORD && Malloc(L, size).ptr != 0
    ensures Live(Malloc(L, size).layout) == Live(L) + {e}
    ensures e.0 + HEADER == Malloc(L, size).ptr && e.1 >= Aligned(size)
    ensures forall x :: x in Live(L) ==> x.0 + HEADER != Malloc(L, size).ptr
  {
    AlignedFacts(size);
    var i := FirstFit(L, Aligned(size));
    AllocLive(L, i, Aligned(size));
    e := (L[i].addr, if CanSplit(L[i], Aligned(size)) then Aligned(size) else L[i].size);
    forall x | x in Live(L) ensures x.0 != L[i].addr {
      var k := LiveIndex(L, x);
      TilesBounds(L, lo, hi);
      TilesOrdered(L, lo, hi);
      assert k != i;
    }
  }

  /** kmalloc followed by kfree of its result restores the layout exactly. */
  lemma {:induction false} MallocThenFree(L: seq<Block>, size: int, lo: int, hi: int)
    requires WellFormed(L, lo, hi) && 0 <= size < WORD && Malloc(L, size).ptr != 0
    ensures Free(Malloc(L, size).layout, Malloc(L, size).ptr) == L
  {
    var o := Malloc(L, size);
    MallocKeeps(L, size, lo, hi);
    var e := MallocLive(L, size, lo, hi);
    FreePtrKeeps(o.layout, o.ptr, lo, hi);
    FreePtrLive(o.layout, o.ptr, lo, hi);
    assert Without(Live(L) + {e}, o.ptr) == Live(L);
    Canonical(Free(o.layout, o.ptr), L, lo, hi);
  }

  function Frees(ptrs: seq<int>): (rs: seq<Request>)
    ensures forall r :: r in rs ==> InRange(r)
  {
    if ptrs == [] then [] else [KFree(ptrs[0])] + Frees(ptrs[1..])
  }

  /**
   Freeing pointers in any order, with any repeats and any bad pointers among them, leads
   to the one layout whose live blocks are those that were not freed.
   */
  lemma {:induction false} FreesLeadTo(M: seq<Block>, ptrs: seq<int>, L: seq<Block>, lo: int, hi: int)
    requires WellFormed(M, lo, hi) && WellFormed(L, lo, hi)
    requires forall e :: e in Live(L) <==> e in Live(M) && e.0 + HEADER !in ptrs
    ensures Run(M, Frees(ptrs)) == L
    decreases |ptrs|
  {
    if ptrs == [] {
      Canonical(M, L, lo, hi);
    } else {
      FreePtrKeeps(M, ptrs[0], lo, hi);
      FreePtrLive(M, ptrs[0], lo, hi);
      assert forall x :: x in ptrs <==> x == ptrs[0] || x in ptrs[1..];
      FreesLeadTo(Free(M, ptrs[0]), ptrs[1..], L, lo, hi);
      FreesFirst(M, ptrs);
    }
  }

  /** Freeing every live pointer in any order brings back the single block of heap_init. */
  lemma {:induction false} FreeEverything(L: seq<Block>, ptrs: seq<int>, lo: int, hi: int)
    requires WellFormed(L, lo, hi) && lo + HEADER <= hi && (hi - lo) % ALIGNMENT == 0
    requires forall e :: e in Live(L) ==> e.0 + HEADER in ptrs
    ensures Run(L, Frees(ptrs)) == Initial(lo, hi)
  {
    assert Initial(lo, hi)[1..] == [];
    LiveOne(Initial(lo, hi)[0]);
    FreesLeadTo(L, ptrs, Initial(lo, hi), lo, hi);
  }

  // ----- first fit -----

  /** Payload size of the largest free block, 0 when there is none. */
  function LargestFree(L: seq<Block>): (m: int)
    ensures m >= 0
    ensures forall i :: 0 <= i < |L| && L[i].free ==> L[i].size <= m
    ensures m > 0 ==> exists i :: 0 <= i < |L| && L[i].free && L[i].size == m
  {
    if L == [] then 0
    else
      var r := LargestFree(L[..|L| - 1]);
      var b := L[|L| - 1];
      if b.free && b.size > r then
        assert L[|L| - 1].free && L[|L| - 1].size == b.size;
        b.size
      else r
  }

  /** kmalloc succeeds exactly when a free block holds the rounded size: the largest one, or any at all when rounding wraps. */
  lemma {:induction false} MallocExact(L: seq<Block>, size: int, lo: int, hi: int)
    requires WellFormed(L, lo, hi) && 0 < lo && 0 < size < WORD
    ensures Malloc(L, size).ptr != 0 <==> exists i :: 0 <= i < |L| && L[i].free && (size <= 0xFFFF_FFF0 ==> Aligned(size) <= L[i].size)
    ensures size <= 0xFFFF_FFF0 ==> (Malloc(L, size).ptr != 0 <==> Aligned(size) <= LargestFree(L))
    ensures Malloc(L, size).ptr == 0 ==> Malloc(L, size).layout == L
    ensures forall i :: 0 <= i < |L| && L[i].free && L[i].size >= Aligned(size) ==>
              0 < Malloc(L, size).ptr <= Payload(L[i])
  {
    AlignedFacts(size);
    TilesBounds(L, lo, hi);
    TilesOrdered(L, lo, hi);
    var f := FirstFit(L, Aligned(size));
    forall i | 0 <= i < |L| && L[i].free && L[i].size >= Aligned(size)
      ensures 0 < Malloc(L, size).ptr <= Payload(L[i])
    {
      assert f <= i;
    }
  }

  /** The block handed out covers the request exactly when the 32-bit round-up did not wrap. */
  lemma {:induction false} MallocCovers(L: seq<Block>, size: int, lo: int, hi: int) returns (e: (int, int))
    requires WellFormed(L, lo, hi) && hi < WORD && 0 < lo
    requires 0 < size < WORD && Malloc(L, size).ptr != 0
    ensures e in Live(Malloc(L, size).layout) && e !in Live(L) && e.0 + HEADER == Malloc(L, size).ptr
    ensures e.1 >= size <==> size <= 0xFFFF_FFF0
  {
    AlignedFacts(size);
    TilesBounds(L, lo, hi);
    e := MallocLive(L, size, lo, hi);
    MallocKeeps(L, size, lo, hi);
    TilesBounds(Malloc(L, size).layout, lo, hi);
    var k := LiveIndex(Malloc(L, size).layout, e);
  }

  /** A request just below 4 GiB on a fresh heap is granted a block of no bytes. */
  lemma {:induction false} MallocWraps(lo: int)
    requires 0 < lo
    ensures var L := Initial(lo, lo + REGION_BYTES);
            Malloc(L, 0xFFFF_FFF8).ptr == lo + HEADER
            && Malloc(L, 0xFFFF_FFF8).layout[0] == Block(lo, 0, false, false)
  {
    AlignedFacts(0xFFFF_FFF8);
  }

  /** Address `a` is one of the `n` bytes from `p` on. */
  predicate Among(a: int, p: int, n: int) {
    p <= a < p + n
  }

  /** The clearing of kcalloc stays inside the block it is granted exactly for totals up to 0xFFFFFFF0. */
  lemma {:induction false} ClearStaysInside(L: seq<Block>, count: int, size: int, lo: int, hi: int) returns (e: (int, int))
    requires WellFormed(L, lo, hi) && hi < WORD && 0 < lo && 0 <= count < WORD && 0 <= size < WORD
    requires Malloc(L, CallocBytes(count, size)).ptr != 0
    ensures var total, p := CallocBytes(count, size), Malloc(L, CallocBytes(count, size)).ptr;
            && e in Live(Malloc(L, total).layout) && e !in Live(L) && e.0 + HEADER == p
            && ((forall a :: Among(a, p, total) ==> Among(a, p, e.1)) <==> total <= 0xFFFF_FFF0)
  {
    var total := CallocBytes(count, size);
    e := MallocCovers(L, total, lo, hi);
    var p := Malloc(L, total).ptr;
    if e.1 < total {
      assert Among(p + total - 1, p, total) && !Among(p + total - 1, p, e.1);
    }
  }

  /** kcalloc(1, 0xFFFFFFF8) on a fresh heap: the first byte it clears is the first byte of the next header. */
  lemma {:induction false} ClearOverruns(lo: int)
    requires 0 < lo
    ensures var L := Initial(lo, lo + REGION_BYTES);
            var r := Malloc(L, CallocBytes(1, 0xFFFF_FFF8));
            CallocBytes(1, 0xFFFF_FFF8) == 0xFFFF_FFF8 && r.ptr == lo + HEADER && |r.layout| == 2 && r.layout[1].addr == r.ptr
  {
    MallocWraps(lo);
    var L := Initial(lo, lo + REGION_BYTES);
    assert Malloc(L, 0xFFFF_FFF8).layout == AllocAt(L, 0, 0);
  }

  // ----- accounting -----

  function FreeBytes(L: seq<Block>): int {
    if L == [] then 0 else FreeBytes(L[1..]) + if L[0].free then L[0].size else 0
  }

  function LiveBytes(L: seq<Block>): int {
    if L == [] then 0 else LiveBytes(L[1..]) + if L[0].free then 0 else L[0].size
  }

  /** Everything outside the free payloads is live payload or header. */
  lemma {:induction false} Accounting(L: seq<Block>, lo: int, hi: int)
    requires Tiles(L, lo, hi)
    ensures hi - lo == FreeBytes(L) + LiveBytes(L) + HEADER * |L|
    ensures 0 <= FreeBytes(L) && 0 <= LiveBytes(L)
  {
    if L != [] {
      Accounting(L[1..], EndOf(L[0]), hi);
    }
  }

  // ----- the self-test -----

  /** A successful or failed kmalloc adds at most the block it returns. */
  lemma {:induction false} MallocAdds(L: seq<Block>, size: int, lo: int, hi: int)
    requires WellFormed(L, lo, hi) && 0 < lo && 0 <= size < WORD
    ensures forall e :: e in Live(L) <==> e in Live(Malloc(L, size).layout) && e.0 + HEADER != Malloc(L, size).ptr
  {
    TilesBounds(L, lo, hi);
    if Malloc(L, size).ptr != 0 {
      var e := MallocLive(L, size, lo, hi);
    } else {
      forall e | e in Live(L) ensures e.0 + HEADER != 0 {
        var k := LiveIndex(L, e);
      }
    }
  }

  /** Three allocations, whatever became of them, are undone by freeing the three results. */
  lemma {:induction false} ThreeUndone(L: seq<Block>, x: int, y: int, z: int, lo: int, hi: int)
    requires WellFormed(L, lo, hi) && 0 < lo && 0 <= x < WORD && 0 <= y < WORD && 0 <= z < WORD
    ensures var a := Malloc(L, x);
            var b := Malloc(a.layout, y);
            var c := Malloc(b.layout, z);
            && Run(c.layout, Frees([a.ptr, b.ptr, c.ptr])) == L
            && Run(c.layout, Frees([b.ptr, c.ptr, a.ptr])) == L
  {
    var a := Malloc(L, x);
    var b := Malloc(a.layout, y);
    var c := Malloc(b.layout, z);
    MallocKeeps(L, x, lo, hi);
    MallocKeeps(a.layout, y, lo, hi);
    MallocKeeps(b.layout, z, lo, hi);
    MallocAdds(L, x, lo, hi);
    MallocAdds(a.layout, y, lo, hi);
    MallocAdds(b.layout, z, lo, hi);
    ThreeAway(L, a.layout, b.layout, c.layout, a.ptr, b.ptr, c.ptr);
    FreesLeadTo(c.layout, [a.ptr, b.ptr, c.ptr], L, lo, hi);
    FreesLeadTo(c.layout, [b.ptr, c.ptr, a.ptr], L, lo, hi);
  }

  lemma {:induction false} ThreeAway(L: seq<Block>, A: seq<Block>, B: seq<Block>, C: seq<Block>, p: int, q: int, r: int)
    requires forall e :: e in Live(L) <==> e in Live(A) && e.0 + HEADER != p
    requires forall e :: e in Live(A) <==> e in Live(B) && e.0 + HEADER != q
    requires forall e :: e in Live(B) <==> e in Live(C) && e.0 + HEADER != r
    ensures forall e :: e in Live(L) <==> e in Live(C) && e.0 + HEADER !in [p, q, r]
    ensures forall e :: e in Live(L) <==> e in Live(C) && e.0 + HEADER !in [q, r, p]
  {
  }

  lemma {:induction false} FreesFirst(L: seq<Block>, ptrs: seq<int>)
    requires ptrs != []
    ensures Run(L, Frees(ptrs)) == Run(Free(L, ptrs[0]), Frees(ptrs[1..]))
  {
    assert Frees(ptrs)[1..] == Frees(ptrs[1..]);
  }

  lemma {:induction false} FreesThree(L: seq<Block>, p: int, q: int, r: int)
    ensures Run(L, Frees([p, q, r])) == Free(Free(Free(L, p), q), r)
  {
    assert [p, q, r][1..] == [q, r] && [q, r][1..] == [r] && [r][1..] == [];
    FreesFirst(L, [p, q, r]);
    FreesFirst(Free(L, p), [q, r]);
    FreesFirst(Free(Free(L, p), q), [r]);
  }

  /** A freed block can be allocated again at once: the hole is at least as large. */
  lemma {:induction false} FreedFits(L: seq<Block>, e: (int, int), n: int, lo: int, hi: int)
    requires WellFormed(L, lo, hi) && e in Live(L) && 0 < lo && 0 < n < WORD && Aligned(n) <= e.1
    ensures Malloc(Free(L, e.0 + HEADER), n).ptr != 0
  {
    var i := LiveIndex(L, e);
    TilesBounds(L, lo, hi);
    TilesOrdered(L, lo, hi);
    var k := IndexOfPayload(L, e.0 + HEADER);
    assert k == i;
    MergedSize(L, i, lo, hi);
    FreeKeeps(L, i, lo, hi);
    TilesBounds(FreeAt(L, i), lo, hi);
    assert FreeAt(L, i)[MergeFrom(L, i)] == Merged(L, i);
    assert FirstFit(FreeAt(L, i), Aligned(n)) <= MergeFrom(L, i);
  }
}
