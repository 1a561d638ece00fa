/**
 Block headers in memory, and when they represent a layout.

 Pointers are addresses and 0 is the null pointer.  Memory maps an address to the
 header stored there; an address that holds none reads as all zeroes.
 */
module HeapMemory {
  import opened Words
  import opened HeapLayout

  const MAGIC: int := 0x4845_4150

  datatype Header = Header(magic: int, flags: int, size: int, prevPhys: int, nextPhys: int, prevFree: int, nextFree: int)

  type Memory = map<int, Header>

  function At(mem: Memory, a: int): Header {
    if a in mem then mem[a] else Header(0, 0, 0, 0, 0, 0, 0)
  }

  // Stores to one header field.

  function SetNextFree(mem: Memory, a: int, v: int): Memory {
    mem[a := At(mem, a).(nextFree := v)]
  }

  function SetPrevFree(mem: Memory, a: int, v: int): Memory {
    mem[a := At(mem, a).(prevFree := v)]
  }

  function SetNextPhys(mem: Memory, a: int, v: int): Memory {
    mem[a := At(mem, a).(nextPhys := v)]
  }

  function SetPrevPhys(mem: Memory, a: int, v: int): Memory {
    mem[a := At(mem, a).(prevPhys := v)]
  }

  function SetSize(mem: Memory, a: int, v: int): Memory {
    mem[a := At(mem, a).(size := v)]
  }

  predicate IsFree(h: Header) {
    h.flags % 2 == 1
  }

  function MarkFree(h: Header): Header {
    if IsFree(h) then h else h.(flags := h.flags + 1)
  }

  function MarkUsed(h: Header): Header {
    if IsFree(h) then h.(flags := h.flags - 1) else h
  }

  function Add32(x: int, y: int): int {
    (x + y) % WORD
  }

  /** heap_block_is_sane, with its 32-bit address arithmetic. */
  predicate Sane(mem: Memory, start: int, end: int, a: int) {
    var payload := Add32(a, HEADER);
    var blockEnd := Add32(payload, At(mem, a).size);
    && a != 0
    && a % ALIGNMENT == 0
    && start <= a < end
    && a <= payload
    && At(mem, a).magic == MAGIC
    && At(mem, a).size % ALIGNMENT == 0
    && payload <= blockEnd <= end
  }

  // ----- the header a layout asks for -----

  /** First block at or after index `k` on the free list, or |L|. */
  function NextLinked(L: seq<Block>, k: nat): (r: nat)
    requires k <= |L|
    ensures k <= r <= |L|
    ensures r < |L| ==> L[r].linked
    ensures forall m :: k <= m < r ==> !L[m].linked
    decreases |L| - k
  {
    if k == |L| || L[k].linked then k else NextLinked(L, k + 1)
  }

  /** Last block before index `k` on the free list, or -1. */
  function PrevLinked(L: seq<Block>, k: nat): (r: int)
    requires k <= |L|
    ensures -1 <= r < k
    ensures 0 <= r ==> L[r].linked
    ensures forall m :: r < m < k ==> !L[m].linked
  {
    if k == 0 then -1 else if L[k - 1].linked then k - 1 else PrevLinked(L, k - 1)
  }

  function AddrAt(L: seq<Block>, i: int): int {
    if 0 <= i < |L| then L[i].addr else 0
  }

  function NextFreeAddr(L: seq<Block>, k: nat): int
    requires k <= |L|
  {
    AddrAt(L, NextLinked(L, k))
  }

  function PrevFreeAddr(L: seq<Block>, k: nat): int
    requires k <= |L|
  {
    AddrAt(L, PrevLinked(L, k))
  }

  function HeaderOf(L: seq<Block>, i: nat): Header
    requires i < |L|
  {
    Header(MAGIC, if L[i].free then 1 else 0, L[i].size,
           AddrAt(L, i - 1), AddrAt(L, i + 1),
           if L[i].linked then PrevFreeAddr(L, i) else 0,
           if L[i].linked then NextFreeAddr(L, i + 1) else 0)
  }

  datatype Region = Region(start: int, end: int)

  /** Bounds of the heap region: 16-aligned, 1 MiB, not at address 0 and not past 32 bits. */
  predicate IsRegion(h: Region) {
    0 < h.start && h.start % ALIGNMENT == 0 && h.end == h.start + REGION_BYTES < WORD
  }

  /** Size fields are 32-bit values, in headers and in stale ones alike. */
  ghost predicate WordMemory(mem: Memory) {
    forall a :: a in mem ==> 0 <= mem[a].size < WORD
  }

  /** Memory and free-list head are those of layout `L`, which tiles the region. */
  ghost predicate Image(h: Region, freeList: int, mem: Memory, L: seq<Block>) {
    && IsRegion(h) && WordMemory(mem)
    && Tiles(L, h.start, h.end) && freeList == NextFreeAddr(L, 0) && Holds(mem, L)
  }

  /** Every block of the layout has its header in memory. */
  ghost predicate Holds(mem: Memory, L: seq<Block>) {
    forall i {:trigger HeaderOf(L, i)} :: 0 <= i < |L| ==> At(mem, L[i].addr) == HeaderOf(L, i)
  }

  // ----- taking a block off the free list, or putting it on -----

  /** `M` is `L` with block `i` off the free list; its flag may change too. */
  ghost predicate Unlinked(L: seq<Block>, i: nat, M: seq<Block>) {
    && i < |L| == |M|
    && L[i].linked && !M[i].linked
    && M[i].addr == L[i].addr && M[i].size == L[i].size
    && forall j :: 0 <= j < |L| && j != i ==> M[j] == L[j]
  }

  lemma {:induction false} NextUnique(L: seq<Block>, k: nat, r: nat)
    requires k <= r <= |L| && (r < |L| ==> L[r].linked) && forall m :: k <= m < r ==> !L[m].linked
    ensures NextLinked(L, k) == r
  {
  }

  lemma {:induction false} PrevUnique(L: seq<Block>, k: nat, r: int)
    requires -1 <= r < k <= |L| && (0 <= r ==> L[r].linked) && forall m :: r < m < k ==> !L[m].linked
    ensures PrevLinked(L, k) == r
  {
  }

  lemma {:induction false} UnlinkNext(L: seq<Block>, i: nat, M: seq<Block>, k: nat)
    requires Unlinked(L, i, M) && k <= |L|
    ensures NextLinked(M, k) == if NextLinked(L, k) == i then NextLinked(L, i + 1) else NextLinked(L, k)
  {
    NextUnique(M, k, if NextLinked(L, k) == i then NextLinked(L, i + 1) else NextLinked(L, k));
  }

  lemma {:induction false} UnlinkPrev(L: seq<Block>, i: nat, M: seq<Block>, k: nat)
    requires Unlinked(L, i, M) && k <= |L|
    ensures PrevLinked(M, k) == if PrevLinked(L, k) == i then PrevLinked(L, i) else PrevLinked(L, k)
  {
    PrevUnique(M, k, if PrevLinked(L, k) == i then PrevLinked(L, i) else PrevLinked(L, k));
  }

  /** Being next to each other on the free list is symmetric. */
  lemma {:induction false} ListNeighbours(L: seq<Block>, i: nat, j: nat)
    requires i < |L| && j < |L| && L[i].linked && L[j].linked
    ensures NextLinked(L, j + 1) == i <==> PrevLinked(L, i) == j
  {
    if NextLinked(L, j + 1) == i {
      PrevUnique(L, i, j);
    }
    if PrevLinked(L, i) == j {
      NextUnique(L, j + 1, i);
    }
  }

  lemma {:induction false} UnlinkNextOf(L: seq<Block>, i: nat, M: seq<Block>, j: nat)
    requires Unlinked(L, i, M) && j < |L| && j != i && L[j].linked
    ensures NextFreeAddr(M, j + 1) == if j == PrevLinked(L, i) then NextFreeAddr(L, i + 1) else NextFreeAddr(L, j + 1)
  {
    UnlinkNext(L, i, M, j + 1);
    ListNeighbours(L, i, j);
  }

  lemma {:induction false} UnlinkPrevOf(L: seq<Block>, i: nat, M: seq<Block>, j: nat)
    requires Unlinked(L, i, M) && j < |L| && j != i && L[j].linked
    ensures PrevFreeAddr(M, j) == if j == NextLinked(L, i + 1) then PrevFreeAddr(L, i) else PrevFreeAddr(L, j)
  {
    UnlinkPrev(L, i, M, j);
    ListNeighbours(L, j, i);
  }

  /** Only block `i` and its two neighbours on the free list see their links change. */
  lemma {:induction false} UnlinkHeader(L: seq<Block>, i: nat, M: seq<Block>, j: nat)
    requires Unlinked(L, i, M) && j < |L|
    ensures j == i ==> HeaderOf(M, j) == HeaderOf(L, j).(flags := if M[i].free then 1 else 0, prevFree := 0, nextFree := 0)
    ensures j != i && j == PrevLinked(L, i) ==> HeaderOf(M, j) == HeaderOf(L, j).(nextFree := NextFreeAddr(L, i + 1))
    ensures j != i && j == NextLinked(L, i + 1) ==> HeaderOf(M, j) == HeaderOf(L, j).(prevFree := PrevFreeAddr(L, i))
    ensures j != i && j != PrevLinked(L, i) && j != NextLinked(L, i + 1) ==> HeaderOf(M, j) == HeaderOf(L, j)
  {
    if j != i && L[j].linked {
      UnlinkNextOf(L, i, M, j);
      UnlinkPrevOf(L, i, M, j);
    }
  }

  /** Block addresses are non-null and increase. */
  ghost predicate Ascending(L: seq<Block>) {
    && (forall i :: 0 <= i < |L| ==> 0 < L[i].addr)
    && (forall i, j :: 0 <= i < j < |L| ==> L[i].addr < L[j].addr)
  }

  lemma {:induction false} TilesAscending(L: seq<Block>, lo: int, hi: int)
    requires Tiles(L, lo, hi) && 0 < lo
    ensures Ascending(L)
  {
    TilesBounds(L, lo, hi);
    TilesOrdered(L, lo, hi);
  }

  /** The header writes of heap_remove_free_block. */
  function UnlinkWrites(mem: Memory, block: int): Memory {
    var h := At(mem, block);
    var m1 := if h.prevFree != 0 then SetNextFree(mem, h.prevFree, h.nextFree) else mem;
    var m2 := if h.nextFree != 0 then SetPrevFree(m1, h.nextFree, h.prevFree) else m1;
    SetNextFree(SetPrevFree(m2, block, 0), block, 0)
  }

  /** The free-list head after heap_remove_free_block. */
  function UnlinkHead(mem: Memory, freeList: int, block: int): int {
    if At(mem, block).prevFree == 0 && freeList == block then At(mem, block).nextFree else freeList
  }

  lemma {:induction false} UnlinkWord(mem: Memory, block: int)
    requires WordMemory(mem)
    ensures WordMemory(UnlinkWrites(mem, block))
  {
  }

  lemma {:induction false} UnlinkImage(h: Region, freeList: int, mem: Memory, L: seq<Block>, i: nat)
    requires Image(h, freeList, mem, L) && i < |L| && L[i].linked
    ensures Image(h, UnlinkHead(mem, freeList, L[i].addr), UnlinkWrites(mem, L[i].addr), L[i := L[i].(linked := false)])
  {
    var M := L[i := L[i].(linked := false)];
    TilesAscending(L, h.start, h.end);
    TilesReflag(L, M, h.start, h.end);
    UnlinkWord(mem, L[i].addr);
    UnlinkNext(L, i, M, 0);
    assert At(mem, L[i].addr) == HeaderOf(L, i);
    LinkHead(L, i);
    UnlinkHolds(mem, L, i, M);
  }

  lemma {:induction false} UnlinkHolds(mem: Memory, L: seq<Block>, i: nat, M: seq<Block>)
    requires Unlinked(L, i, M) && M[i].free == L[i].free && Ascending(L) && Holds(mem, L)
    ensures Holds(UnlinkWrites(mem, L[i].addr), M)
  {
    forall j | 0 <= j < |M| ensures At(UnlinkWrites(mem, L[i].addr), M[j].addr) == HeaderOf(M, j) {
      UnlinkHeader(L, i, M, j);
      UnlinkHoldsAt(mem, L, i, j);
    }
  }

  /** What the three writes leave at an address. */
  lemma {:induction false} UnlinkWritesAt(mem: Memory, block: int, a: int)
    requires a != 0
    requires At(mem, block).prevFree != block && At(mem, block).nextFree != block && block != 0
    requires At(mem, block).prevFree == At(mem, block).nextFree ==> At(mem, block).nextFree == 0
    ensures var h := At(mem, block);
            At(UnlinkWrites(mem, block), a) ==
            if a == block then h.(prevFree := 0, nextFree := 0)
            else if a == h.prevFree then At(mem, a).(nextFree := h.nextFree)
            else if a == h.nextFree then At(mem, a).(prevFree := h.prevFree)
            else At(mem, a)
  {
  }

  lemma {:induction false} UnlinkHoldsAt(mem: Memory, L: seq<Block>, i: nat, j: nat)
    requires i < |L| && j < |L| && L[i].linked && Ascending(L) && Holds(mem, L)
    ensures var h := At(UnlinkWrites(mem, L[i].addr), L[j].addr);
            && (j == i ==> h == HeaderOf(L, j).(prevFree := 0, nextFree := 0))
            && (j != i && j == PrevLinked(L, i) ==> h == HeaderOf(L, j).(nextFree := NextFreeAddr(L, i + 1)))
            && (j != i && j == NextLinked(L, i + 1) ==> h == HeaderOf(L, j).(prevFree := PrevFreeAddr(L, i)))
            && (j != i && j != PrevLinked(L, i) && j != NextLinked(L, i + 1) ==> h == HeaderOf(L, j))
  {
    assert At(mem, L[i].addr) == HeaderOf(L, i);
    assert At(mem, L[j].addr) == HeaderOf(L, j);
    UnlinkWritesAt(mem, L[i].addr, L[j].addr);
  }

  /** The header writes of heap_insert_free_block once the list neighbours are known. */
  function LinkWrites(mem: Memory, block: int, prev: int, next: int): Memory {
    var m0 := SetNextFree(SetPrevFree(mem[block := MarkFree(At(mem, block))], block, 0), block, 0);
    var m1 := if prev != 0 then SetPrevFree(m0, block, prev) else m0;
    var m2 := SetNextFree(m1, block, next);
    var m3 := if prev != 0 then SetNextFree(m2, prev, block) else m2;
    if next != 0 then SetPrevFree(m3, next, block) else m3
  }

  lemma {:induction false} LinkWritesAt(mem: Memory, block: int, prev: int, next: int, a: int)
    requires a != 0 && block != 0 && prev != block && next != block && (prev == next ==> next == 0)
    ensures At(LinkWrites(mem, block, prev, next), a) ==
            if a == block then MarkFree(At(mem, a)).(prevFree := prev, nextFree := next)
            else if a == prev then At(mem, a).(nextFree := block)
            else if a == next then At(mem, a).(prevFree := block)
            else At(mem, a)
  {
  }

  lemma {:induction false} LinkWord(mem: Memory, block: int, prev: int, next: int)
    requires WordMemory(mem)
    ensures WordMemory(LinkWrites(mem, block, prev, next))
  {
  }

  /** Marking block `i` free and linking it between its neighbours. */
  lemma {:induction false} LinkImage(h: Region, freeList: int, mem: Memory, L: seq<Block>, i: nat)
    requires Image(h, freeList, mem, L) && i < |L| && !L[i].linked
    ensures var p, n := PrevFreeAddr(L, i), NextFreeAddr(L, i + 1);
            Image(h, if p == 0 then L[i].addr else freeList, LinkWrites(mem, L[i].addr, p, n), L[i := L[i].(free := true, linked := true)])
  {
    var M := L[i := L[i].(free := true, linked := true)];
    TilesAscending(L, h.start, h.end);
    TilesReflag(L, M, h.start, h.end);
    LinkWord(mem, L[i].addr, PrevFreeAddr(L, i), NextFreeAddr(L, i + 1));
    LinkFreeHead(L, i, M);
    LinkHolds(mem, L, i, M);
  }

  lemma {:induction false} LinkFreeHead(L: seq<Block>, i: nat, M: seq<Block>)
    requires Unlinked(M, i, L) && Ascending(L)
    ensures NextFreeAddr(M, 0) == if PrevFreeAddr(L, i) == 0 then L[i].addr else NextFreeAddr(L, 0)
  {
    UnlinkNext(M, i, L, 0);
    UnlinkPrev(M, i, L, i);
    LinkHead(M, i);
  }

  lemma {:induction false} LinkHolds(mem: Memory, L: seq<Block>, i: nat, M: seq<Block>)
    requires Unlinked(M, i, L) && M[i].free && Ascending(L) && Holds(mem, L)
    ensures Holds(LinkWrites(mem, L[i].addr, PrevFreeAddr(L, i), NextFreeAddr(L, i + 1)), M)
  {
    var m' := LinkWrites(mem, L[i].addr, PrevFreeAddr(L, i), NextFreeAddr(L, i + 1));
    forall j | 0 <= j < |M| ensures At(m', M[j].addr) == HeaderOf(M, j) {
      LinkHoldsAt(mem, L, i, M, j);
    }
  }

  lemma {:induction false} LinkHead(M: seq<Block>, i: nat)
    requires i < |M| && M[i].linked && Ascending(M)
    ensures PrevFreeAddr(M, i) == 0 <==> NextLinked(M, 0) == i
  {
    if PrevLinked(M, i) == -1 {
      NextUnique(M, 0, i);
    }
  }

  /** The converse of UnlinkHeader: what linking block `i` into `L` asks of each header. */
  lemma {:induction false} LinkHeader(M: seq<Block>, i: nat, L: seq<Block>, j: nat)
    requires Unlinked(M, i, L) && j < |L| && M[i].free
    ensures var p, n := PrevLinked(L, i), NextLinked(L, i + 1);
            HeaderOf(M, j) ==
            if j == i then HeaderOf(L, j).(flags := 1, prevFree := AddrAt(L, p), nextFree := AddrAt(L, n))
            else if j == p then HeaderOf(L, j).(nextFree := L[i].addr)
            else if j == n then HeaderOf(L, j).(prevFree := L[i].addr)
            else HeaderOf(L, j)
  {
    UnlinkNext(M, i, L, i + 1);
    UnlinkPrev(M, i, L, i);
    UnlinkHeader(M, i, L, j);
    if j == PrevLinked(M, i) {
      ListNeighbours(M, i, j);
    }
    if j != i && j == NextLinked(M, i + 1) {
      ListNeighbours(M, j, i);
    }
  }

  lemma {:induction false} LinkHoldsAt(mem: Memory, L: seq<Block>, i: nat, M: seq<Block>, j: nat)
    requires Unlinked(M, i, L) && M[i].free && j < |L|
    requires At(mem, L[j].addr) == HeaderOf(L, j)
    requires Ascending(L)
    ensures At(LinkWrites(mem, L[i].addr, PrevFreeAddr(L, i), NextFreeAddr(L, i + 1)), L[j].addr) == HeaderOf(M, j)
  {
    LinkHeader(M, i, L, j);
    LinkWritesAt(mem, L[i].addr, PrevFreeAddr(L, i), NextFreeAddr(L, i + 1), L[j].addr);
  }

  /** Clearing the free flag of a block that is off the list. */
  lemma {:induction false} UseImage(h: Region, freeList: int, mem: Memory, L: seq<Block>, i: nat)
    requires Image(h, freeList, mem, L) && i < |L| && !L[i].linked
    ensures Image(h, freeList, mem[L[i].addr := MarkUsed(At(mem, L[i].addr))], L[i := L[i].(free := false)])
  {
    var M := L[i := L[i].(free := false)];
    TilesAscending(L, h.start, h.end);
    TilesReflag(L, M, h.start, h.end);
    NextUnique(M, 0, NextLinked(L, 0));
    UseHolds(mem, L, i, M);
  }

  lemma {:induction false} UseHolds(mem: Memory, L: seq<Block>, i: nat, M: seq<Block>)
    requires i < |L| && !L[i].linked && M == L[i := L[i].(free := false)] && Ascending(L) && Holds(mem, L)
    ensures Holds(mem[L[i].addr := MarkUsed(At(mem, L[i].addr))], M)
  {
    forall j | 0 <= j < |M| ensures At(mem[L[i].addr := MarkUsed(At(mem, L[i].addr))], M[j].addr) == HeaderOf(M, j) {
      UseHeader(L, i, M, j);
      assert At(mem, L[j].addr) == HeaderOf(L, j);
    }
  }

  lemma {:induction false} UseHeader(L: seq<Block>, i: nat, M: seq<Block>, j: nat)
    requires i < |L| && j < |L| && !L[i].linked && M == L[i := L[i].(free := false)]
    ensures HeaderOf(M, j) == if j == i then HeaderOf(L, j).(flags := 0) else HeaderOf(L, j)
  {
    NextUnique(M, j + 1, NextLinked(L, j + 1));
    PrevUnique(M, j, PrevLinked(L, j));
  }

  // ----- one block cut in two, or two merged into one -----

  /** `B` is `A` with block `i` cut in two, the second piece being off the free list. */
  ghost predicate Cut(A: seq<Block>, i: nat, B: seq<Block>) {
    && i < |A| && |B| == |A| + 1
    && B[i].addr == A[i].addr && B[i].linked == A[i].linked && B[i].free == A[i].free
    && !B[i + 1].linked
    && (forall j :: 0 <= j < i ==> B[j] == A[j])
    && (forall j :: i + 1 < j < |B| ==> B[j] == A[j - 1])
  }

  /** Where index `j` of the layout before the cut sits after it. */
  function Shift(i: nat, j: int): int {
    if j <= i then j else j + 1
  }

  lemma {:induction false} CutNext(A: seq<Block>, i: nat, B: seq<Block>, k: nat)
    requires Cut(A, i, B) && k <= |A|
    ensures NextFreeAddr(A, k) == NextFreeAddr(B, Shift(i, k))
    ensures k == i + 1 ==> NextFreeAddr(A, k) == NextFreeAddr(B, i + 1)
  {
    CutNextAt(A, i, B, k, Shift(i, k));
    if k == i + 1 {
      CutNextAt(A, i, B, k, i + 1);
    }
  }

  lemma {:induction false} CutNextAt(A: seq<Block>, i: nat, B: seq<Block>, k: nat, k': nat)
    requires Cut(A, i, B) && k <= |A|
    requires k' == Shift(i, k) || (k == i + 1 && k' == i + 1)
    ensures NextFreeAddr(A, k) == NextFreeAddr(B, k')
  {
    var r := NextLinked(A, k);
    forall m | k' <= m < Shift(i, r) ensures !B[m].linked {
      assert m > i + 1 ==> !A[m - 1].linked;
    }
    NextUnique(B, k', Shift(i, r));
  }

  lemma {:induction false} CutPrev(A: seq<Block>, i: nat, B: seq<Block>, k: nat)
    requires Cut(A, i, B) && k <= |A|
    ensures PrevFreeAddr(A, k) == PrevFreeAddr(B, Shift(i, k))
  {
    var r := PrevLinked(A, k);
    forall m | Shift(i, r) < m < Shift(i, k) ensures !B[m].linked {
      assert m > i + 1 ==> !A[m - 1].linked;
    }
    PrevUnique(B, Shift(i, k), Shift(i, r));
  }

  /** Only the cut block and the physical successor of the cut see their headers change. */
  lemma {:induction false} CutHeader(A: seq<Block>, i: nat, B: seq<Block>, j: nat)
    requires Cut(A, i, B) && j < |A|
    ensures j == i ==> HeaderOf(B, j) == HeaderOf(A, j).(size := B[i].size, nextPhys := B[i + 1].addr)
    ensures j == i + 1 ==> HeaderOf(B, j + 1) == HeaderOf(A, j).(prevPhys := B[i + 1].addr)
    ensures j < i ==> HeaderOf(B, j) == HeaderOf(A, j)
    ensures j > i + 1 ==> HeaderOf(B, j + 1) == HeaderOf(A, j)
  {
    CutNext(A, i, B, j + 1);
    CutPrev(A, i, B, j);
  }

  /** The header writes of heap_split_block. */
  function SplitWrites(mem: Memory, block: int, n: int): Memory {
    var split := block + HEADER + n;
    var next := At(mem, block).nextPhys;
    var m0 := mem[split := Header(MAGIC, 1, At(mem, block).size - n - HEADER, block, next, 0, 0)];
    var m1 := if next != 0 then SetPrevPhys(m0, next, split) else m0;
    SetSize(SetNextPhys(m1, block, split), block, n)
  }

  lemma {:induction false} SplitWritesAt(mem: Memory, block: int, n: int, a: int)
    requires var next, split := At(mem, block).nextPhys, block + HEADER + n;
             block != split && next != split && next != block && a != 0 && block != 0
    ensures var next, split := At(mem, block).nextPhys, block + HEADER + n;
            At(SplitWrites(mem, block, n), a) ==
            if a == block then At(mem, a).(size := n, nextPhys := split)
            else if a == split then Header(MAGIC, 1, At(mem, block).size - n - HEADER, block, next, 0, 0)
            else if a == next then At(mem, a).(prevPhys := split)
            else At(mem, a)
  {
  }

  /** Block `i` cut after `n` payload bytes. */
  function SplitAt(L: seq<Block>, i: nat, n: int): seq<Block>
    requires i < |L|
  {
    L[..i] + [L[i].(size := n), Block(L[i].addr + HEADER + n, L[i].size - n - HEADER, true, false)] + L[i + 1..]
  }

  lemma {:induction false} SplitTiles(L: seq<Block>, i: nat, n: int, lo: int, hi: int)
    requires Tiles(L, lo, hi) && i < |L| && 0 <= n && n % ALIGNMENT == 0 && CanSplit(L[i], n)
    ensures Tiles(SplitAt(L, i, n), lo, hi)
  {
    var M := [L[i].(size := n), Block(L[i].addr + HEADER + n, L[i].size - n - HEADER, true, false)];
    TilesBounds(L, lo, hi);
    AbutsNext(L, i, lo, hi);
    assert M[1..][1..] == [];
    TilesSplice(L, i, i + 1, M, lo, hi);
  }

  lemma {:induction false} SplitWord(mem: Memory, block: int, n: int)
    requires WordMemory(mem) && 0 <= n && n + HEADER <= At(mem, block).size
    ensures WordMemory(SplitWrites(mem, block, n))
  {
  }

  lemma {:induction false} SplitImage(h: Region, freeList: int, mem: Memory, L: seq<Block>, i: nat, n: int)
    requires Image(h, freeList, mem, L) && i < |L|
    requires 0 <= n && n % ALIGNMENT == 0 && CanSplit(L[i], n)
    ensures Image(h, freeList, SplitWrites(mem, L[i].addr, n), SplitAt(L, i, n))
  {
    var M := SplitAt(L, i, n);
    SplitTiles(L, i, n, h.start, h.end);
    assert At(mem, L[i].addr) == HeaderOf(L, i);
    SplitWord(mem, L[i].addr, n);
    TilesAscending(M, h.start, h.end);
    SplitCut(L, i, n);
    CutNext(L, i, M, 0);
    SplitHolds(mem, L, i, n, M);
  }

  lemma {:induction false} SplitCut(L: seq<Block>, i: nat, n: int)
    requires i < |L|
    ensures Cut(L, i, SplitAt(L, i, n))
  {
    var M := SplitAt(L, i, n);
    forall j | i + 1 < j < |M| ensures M[j] == L[j - 1] {
      assert L[i + 1..][j - (i + 2)] == L[j - 1];
    }
  }

  lemma {:induction false} SplitHolds(mem: Memory, L: seq<Block>, i: nat, n: int, M: seq<Block>)
    requires Cut(L, i, M) && Ascending(M) && Holds(mem, L)
    requires M[i].size == n && M[i + 1] == Block(L[i].addr + HEADER + n, L[i].size - n - HEADER, true, false)
    ensures Holds(SplitWrites(mem, L[i].addr, n), M)
  {
    assert At(mem, L[i].addr) == HeaderOf(L, i);
    forall j | 0 <= j < |M| ensures At(SplitWrites(mem, L[i].addr, n), M[j].addr) == HeaderOf(M, j) {
      var k := if j <= i then j else j - 1;
      assert At(mem, L[k].addr) == HeaderOf(L, k);
      SplitHoldsAt(mem, L, i, n, M, j);
    }
  }

  lemma {:induction false} SplitHoldsAt(mem: Memory, L: seq<Block>, i: nat, n: int, M: seq<Block>, j: nat)
    requires Cut(L, i, M) && j < |M| && Ascending(M)
    requires M[i].size == n && M[i + 1] == Block(L[i].addr + HEADER + n, L[i].size - n - HEADER, true, false)
    requires At(mem, L[i].addr) == HeaderOf(L, i)
    requires var k := if j <= i then j else j - 1; At(mem, L[k].addr) == HeaderOf(L, k)
    ensures At(SplitWrites(mem, L[i].addr, n), M[j].addr) == HeaderOf(M, j)
  {
    var k := if j <= i then j else j - 1;
    assert AddrAt(L, i + 1) == AddrAt(M, i + 2);
    SplitWritesAt(mem, L[i].addr, n, M[j].addr);
    if j != i + 1 {
      CutHeader(L, i, M, k);
    }
  }

  /** The header writes of heap_try_coalesce_with_next once `next` is off the free list. */
  function MergeWrites(mem: Memory, block: int, next: int): Memory {
    var m0 := SetSize(mem, block, At(mem, block).size + HEADER + At(mem, next).size);
    var m1 := SetNextPhys(m0, block, At(m0, next).nextPhys);
    if At(m1, next).nextPhys != 0 then SetPrevPhys(m1, At(m1, next).nextPhys, block) else m1
  }

  lemma {:induction false} MergeWritesAt(mem: Memory, block: int, next: int, a: int)
    requires block != next && a != 0 && block != 0 && next != 0 && a != next
    requires At(mem, next).nextPhys != block && At(mem, next).nextPhys != next
    ensures At(MergeWrites(mem, block, next), a) ==
            if a == block then At(mem, a).(size := At(mem, block).size + HEADER + At(mem, next).size, nextPhys := At(mem, next).nextPhys)
            else if a == At(mem, next).nextPhys then At(mem, a).(prevPhys := block)
            else At(mem, a)
  {
  }

  /** Block `i` takes over its physical successor. */
  function MergeAt(L: seq<Block>, i: nat): seq<Block>
    requires i + 1 < |L|
  {
    L[..i] + [L[i].(size := L[i].size + HEADER + L[i + 1].size)] + L[i + 2..]
  }

  lemma {:induction false} MergeWord(mem: Memory, block: int, next: int)
    requires WordMemory(mem) && At(mem, block).size + HEADER + At(mem, next).size < WORD
    ensures WordMemory(MergeWrites(mem, block, next))
  {
  }

  lemma {:induction false} MergeImage(h: Region, freeList: int, mem: Memory, L: seq<Block>, i: nat)
    requires Image(h, freeList, mem, L) && i + 1 < |L| && !L[i + 1].linked
    ensures Image(h, freeList, MergeWrites(mem, L[i].addr, L[i + 1].addr), MergeAt(L, i))
  {
    var M := MergeAt(L, i);
    TilesAscending(L, h.start, h.end);
    MergeTiles(L, i, h.start, h.end);
    assert At(mem, L[i].addr) == HeaderOf(L, i) && At(mem, L[i + 1].addr) == HeaderOf(L, i + 1);
    assert M[i].size + M[i].addr <= h.end by {
      TilesBounds(M, h.start, h.end);
    }
    MergeWord(mem, L[i].addr, L[i + 1].addr);
    MergeCut(L, i);
    CutNext(M, i, L, 0);
    MergeHolds(mem, L, i, M);
  }

  lemma {:induction false} MergeCut(L: seq<Block>, i: nat)
    requires i + 1 < |L| && !L[i + 1].linked
    ensures Cut(MergeAt(L, i), i, L)
  {
    var M := MergeAt(L, i);
    forall j | i + 1 < j < |L| ensures L[j] == M[j - 1] {
      assert L[i + 2..][j - (i + 2)] == L[j];
    }
  }

  lemma {:induction false} MergeHolds(mem: Memory, L: seq<Block>, i: nat, M: seq<Block>)
    requires Cut(M, i, L) && Ascending(L) && M[i].size == L[i].size + HEADER + L[i + 1].size && Holds(mem, L)
    ensures Holds(MergeWrites(mem, L[i].addr, L[i + 1].addr), M)
  {
    assert At(mem, L[i].addr) == HeaderOf(L, i);
    assert At(mem, L[i + 1].addr) == HeaderOf(L, i + 1);
    forall j | 0 <= j < |M| ensures At(MergeWrites(mem, L[i].addr, L[i + 1].addr), M[j].addr) == HeaderOf(M, j) {
      assert At(mem, L[Shift(i, j)].addr) == HeaderOf(L, Shift(i, j));
      MergeHoldsAt(mem, L, i, M, j);
    }
  }

  lemma {:induction false} MergeTiles(L: seq<Block>, i: nat, lo: int, hi: int)
    requires Tiles(L, lo, hi) && i + 1 < |L|
    ensures Tiles(MergeAt(L, i), lo, hi)
  {
    var m := L[i].(size := L[i].size + HEADER + L[i + 1].size);
    TilesBounds(L, lo, hi);
    AbutsNext(L, i, lo, hi);
    AbutsNext(L, i + 1, lo, hi);
    SumAligned(L[i].size, L[i + 1].size, 0);
    assert [m][1..] == [];
    TilesSplice(L, i, i + 2, [m], lo, hi);
  }

  lemma {:induction false} MergeHoldsAt(mem: Memory, L: seq<Block>, i: nat, M: seq<Block>, j: nat)
    requires Cut(M, i, L) && j < |M| && Ascending(L) && M[i].size == L[i].size + HEADER + L[i + 1].size
    requires At(mem, L[i].addr) == HeaderOf(L, i) && At(mem, L[i + 1].addr) == HeaderOf(L, i + 1)
    requires At(mem, L[Shift(i, j)].addr) == HeaderOf(L, Shift(i, j))
    ensures At(MergeWrites(mem, L[i].addr, L[i + 1].addr), M[j].addr) == HeaderOf(M, j)
  {
    var k := Shift(i, j);
    assert M[j].addr == L[k].addr;
    assert AddrAt(M, i + 1) == AddrAt(L, i + 2);
    MergeWritesAt(mem, L[i].addr, L[i + 1].addr, L[k].addr);
    CutHeader(M, i, L, j);
  }

  // ----- sanity of the blocks of a layout -----

  /** Every block of the layout passes heap_block_is_sane. */
  lemma {:induction false} SaneBlock(h: Region, freeList: int, mem: Memory, L: seq<Block>, i: nat)
    requires Image(h, freeList, mem, L) && i < |L|
    ensures Sane(mem, h.start, h.end, L[i].addr) && IsFree(At(mem, L[i].addr)) == L[i].free
    ensures At(mem, L[i].addr) == HeaderOf(L, i)
    ensures L[i].addr + HEADER < WORD
  {
    TilesBounds(L, h.start, h.end);
    TilesAligned(L, h.start, h.end);
    assert At(mem, L[i].addr) == HeaderOf(L, i);
  }

  /** The cap that heap_max_walks puts on every list walk. */
  function MaxWalks(h: Region): int {
    if h.end == h.start then 0 else (h.end - h.start) / ALIGNMENT + 1
  }

  /** A block takes at least 32 bytes, so no walk over the blocks meets the cap. */
  lemma {:induction false} BlocksFit(L: seq<Block>, h: Region)
    requires Tiles(L, h.start, h.end)
    ensures HEADER * |L| <= h.end - h.start && (L != [] ==> |L| < MaxWalks(h))
  {
    BlocksSpan(L, h.start, h.end);
  }

  lemma {:induction false} BlocksSpan(L: seq<Block>, lo: int, hi: int)
    requires Tiles(L, lo, hi)
    ensures HEADER * |L| <= hi - lo
  {
    if L != [] {
      BlocksSpan(L[1..], EndOf(L[0]), hi);
    }
  }
}
