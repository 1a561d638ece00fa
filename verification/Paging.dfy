/** paging.c: bootstrap page tables and the two-level walk that reads them. */
module Paging {
  import opened Words
  import opened Frames
  import opened KernelPmm
  import BootMemory

  const ENTRIES: int := 1024
  const TABLE_BYTES: int := 0x40_0000
  const MIN_IDENTITY: int := 0x100_0000
  const FLAGS: int := 3

  // ----- the identity limit -----

  function Max(x: int, y: int): int {
    if x > y then x else y
  }

  /** paging_identity_limit_bytes, with its 32-bit sums. */
  function IdentityLimit(heapEnd: int, bootValid: bool, boot: Region): int {
    var floor := Max(heapEnd, MIN_IDENTITY);
    var limit := if bootValid then Max(floor, (boot.base + boot.length) % WORD) else floor;
    (limit + TABLE_BYTES - 1) % WORD / TABLE_BYTES * TABLE_BYTES
  }

  /**
   A limit that is not 0 is a whole number of tables above the heap; the boot
   information lies below it exactly when its end did not wrap.
   */
  lemma {:induction false} LimitCovers(heapEnd: int, boot: Region)
    requires IsWord(heapEnd) && IsWord(boot.base) && IsWord(boot.length)
    requires IdentityLimit(heapEnd, true, boot) != 0
    ensures var limit := IdentityLimit(heapEnd, true, boot);
            && 0 < limit <= WORD - TABLE_BYTES && limit % TABLE_BYTES == 0
            && heapEnd <= limit && MIN_IDENTITY <= limit
            && (boot.base + boot.length <= limit <==> boot.base + boot.length < WORD)
  {
  }

  /** Boot information that ends past 4 GiB is not covered. */
  lemma {:induction false} WrappedBootMissed()
    ensures IdentityLimit(0x30_0000, true, Region(0xFFFF_F000, 0x2000)) == MIN_IDENTITY
  {
  }

  // ----- the walk of the processor (Intel SDM volume 3A, section 4.3) -----

  type Memory = map<int, int>

  function Word(m: Memory, a: int): int {
    if a in m then m[a] else 0
  }

  datatype Translation = Fault | Maps(physical: int, writable: bool)

  predicate Present(entry: int) {
    entry % 2 == 1
  }

  predicate Writable(entry: int) {
    entry / 2 % 2 == 1
  }

  function Walk(m: Memory, directory: int, v: int): Translation
    requires 0 <= v < WORD
  {
    var pde := Word(m, directory + 4 * (v / TABLE_BYTES));
    if !Present(pde) then Fault
    else
      var pte := Word(m, pde / FRAME * FRAME + 4 * (v / FRAME % ENTRIES));
      if !Present(pte) then Fault
      else Maps(pte / FRAME * FRAME + v % FRAME, Writable(pde) && Writable(pte))
  }

  // ----- what the tables must hold -----

  /** The first `n` directory entries point at the tables, the rest are empty. */
  ghost predicate DirectoryHolds(m: Memory, directory: int, tables: seq<int>) {
    forall k :: 0 <= k < ENTRIES ==> Word(m, directory + 4 * k) == if k < |tables| then tables[k] + FLAGS else 0
  }

  /** Table `k` maps its 4 MiB to themselves. */
  ghost predicate TableHolds(m: Memory, table: int, k: int) {
    forall p :: 0 <= p < ENTRIES ==> Word(m, table + 4 * p) == k * TABLE_BYTES + p * FRAME + FLAGS
  }

  ghost predicate TablesHold(m: Memory, tables: seq<int>) {
    forall k :: 0 <= k < |tables| ==> TableHolds(m, tables[k], k)
  }

  ghost predicate PageAligned(fs: seq<int>) {
    forall k :: 0 <= k < |fs| ==> fs[k] % FRAME == 0 && 0 < fs[k]
  }

  /** The walk maps every address below the limit to itself, writable, and nothing above it. */
  lemma {:induction false} IdentityMap(m: Memory, directory: int, tables: seq<int>, v: int)
    requires |tables| <= ENTRIES && PageAligned(tables)
    requires DirectoryHolds(m, directory, tables) && TablesHold(m, tables)
    requires 0 <= v < WORD
    ensures Walk(m, directory, v) == if v < |tables| * TABLE_BYTES then Maps(v, true) else Fault
  {
    var k, p := v / TABLE_BYTES, v / FRAME % ENTRIES;
    assert 0 <= k < ENTRIES;
    assert Word(m, directory + 4 * k) == if k < |tables| then tables[k] + FLAGS else 0;
    if k < |tables| {
      EntryFields(tables[k]);
      assert TableHolds(m, tables[k], k);
      assert Word(m, tables[k] + 4 * p) == k * TABLE_BYTES + p * FRAME + FLAGS;
      Indices(v);
      EntryFields(k * TABLE_BYTES + p * FRAME);
    }
  }

  lemma {:induction false} Indices(v: int)
    requires 0 <= v < WORD
    ensures var base := v / TABLE_BYTES * TABLE_BYTES + v / FRAME % ENTRIES * FRAME;
            base % FRAME == 0 && base + v % FRAME == v
  {
    var q, r := v / 4096, v % 4096;
    var k, p := q / 1024, q % 1024;
    assert v == 4096 * q + r && q == 1024 * k + p;
    TableOf(v, k, 4096 * p + r);
    PageOf(4096 * q, q, 0);
  }

  lemma {:induction false} TableOf(x: int, k: int, r: int)
    requires x == 0x40_0000 * k + r && 0 <= r < 0x40_0000
    ensures x / 0x40_0000 == k
  {
  }

  /** A page address with the two flags reads back as that address, present and writable. */
  lemma {:induction false} EntryFields(page: int)
    requires page % FRAME == 0
    ensures var e := page + FLAGS;
            Present(e) && Writable(e) && e / FRAME * FRAME == page
  {
    var q := page / FRAME;
    PageBits(q);
    assert page + FLAGS == 4096 * q + 3;
  }

  lemma {:induction false} PageBits(q: int)
    ensures (4096 * q + 3) % 2 == 1
    ensures (4096 * q + 3) / 2 == 2048 * q + 1 && (2048 * q + 1) % 2 == 1
    ensures (4096 * q + 3) / 4096 == q
  {
    Halve(4096 * q + 3, 2048 * q + 1, 1);
    Halve(2048 * q + 1, 1024 * q, 1);
    PageOf(4096 * q + 3, q, 3);
  }

  lemma {:induction false} Halve(x: int, q: int, r: int)
    requires x == 2 * q + r && 0 <= r < 2
    ensures x / 2 == q && x % 2 == r
  {
  }

  lemma {:induction false} PageOf(x: int, q: int, r: int)
    requires x == 4096 * q + r && 0 <= r < 4096
    ensures x / 4096 == q && x % 4096 == r
  {
  }

  // ----- writes to one page leave the others alone -----

  ghost predicate SameOutside(m: Memory, n: Memory, page: int) {
    forall a :: !(page <= a < page + FRAME) ==> Word(n, a) == Word(m, a)
  }

  lemma {:induction false} PagesApart(page: int, other: int, a: int)
    requires page % FRAME == 0 && other % FRAME == 0 && page != other && page <= a < page + FRAME
    ensures !(other <= a < other + FRAME)
  {
  }

  lemma {:induction false} TableKept(m: Memory, n: Memory, page: int, table: int, k: int)
    requires SameOutside(m, n, page) && page % FRAME == 0 && table % FRAME == 0 && page != table
    requires TableHolds(m, table, k)
    ensures TableHolds(n, table, k)
  {
    forall p | 0 <= p < ENTRIES ensures Word(n, table + 4 * p) == k * TABLE_BYTES + p * FRAME + FLAGS {
      PagesApart(table, page, table + 4 * p);
    }
  }

  lemma {:induction false} TablesKept(m: Memory, n: Memory, page: int, tables: seq<int>)
    requires SameOutside(m, n, page) && page % FRAME == 0 && PageAligned(tables) && page !in tables
    requires TablesHold(m, tables)
    ensures TablesHold(n, tables)
  {
    forall k | 0 <= k < |tables| ensures TableHolds(n, tables[k], k) {
      TableKept(m, n, page, tables[k], k);
    }
  }

  lemma {:induction false} DirectoryKept(m: Memory, n: Memory, page: int, directory: int, tables: seq<int>)
    requires SameOutside(m, n, page) && page % FRAME == 0 && directory % FRAME == 0 && page != directory
    requires DirectoryHolds(m, directory, tables)
    ensures DirectoryHolds(n, directory, tables)
  {
    forall k | 0 <= k < ENTRIES ensures Word(n, directory + 4 * k) == if k < |tables| then tables[k] + FLAGS else 0 {
      PagesApart(directory, page, directory + 4 * k);
    }
  }

  class PageTables {
    var mem: Memory
    var directory: int
    var identityBytes: int
    var tableCount: int
    var ready: bool

    constructor ()
      ensures !ready
    {
      mem, directory, identityBytes, tableCount, ready := map[], 0, 0, 0, false;
    }

    /** paging_zero_page */
    method ZeroPage(page: int)
      modifies `mem
      ensures SameOutside(old(mem), mem, page)
      ensures forall k :: 0 <= k < ENTRIES ==> Word(mem, page + 4 * k) == 0
    {
      var k := 0;
      while k < ENTRIES
        invariant 0 <= k <= ENTRIES
        invariant SameOutside(old(mem), mem, page)
        invariant forall j :: 0 <= j < k ==> Word(mem, page + 4 * j) == 0
      {
        mem := mem[page + 4 * k := 0];
        k := k + 1;
      }
    }

    /** The inner loop of paging_init: fill one table from physical address `first` on. */
    method FillTable(table: int, first: int) returns (physical: int)
      requires first + TABLE_BYTES <= identityBytes
      modifies `mem
      ensures SameOutside(old(mem), mem, table) && physical == first + TABLE_BYTES
      ensures forall p :: 0 <= p < ENTRIES ==> Word(mem, table + 4 * p) == first + p * FRAME + FLAGS
    {
      physical := first;
      var p := 0;
      while p < ENTRIES
        invariant 0 <= p <= ENTRIES && physical == first + p * FRAME
        invariant SameOutside(old(mem), mem, table)
        invariant forall j :: 0 <= j < p ==> Word(mem, table + 4 * j) == first + j * FRAME + FLAGS
      {
        if physical >= identityBytes {
          break;
        }
        mem := mem[table + 4 * p := physical + FLAGS];
        physical := physical + FRAME;
        p := p + 1;
      }
    }

    /** One turn of the table loop of paging_init, once the table's frame is known. */
    method AddTable(table: int, index: int, first: int, ghost tables: seq<int>) returns (physical: int)
      requires index == |tables| < ENTRIES && first == index * TABLE_BYTES && first + TABLE_BYTES <= identityBytes
      requires directory % FRAME == 0 && table % FRAME == 0 && 0 < table != directory
      requires PageAligned(tables) && table !in tables && directory !in tables
      requires DirectoryHolds(mem, directory, tables) && TablesHold(mem, tables)
      modifies `mem
      ensures physical == first + TABLE_BYTES
      ensures DirectoryHolds(mem, directory, tables + [table]) && TablesHold(mem, tables + [table])
    {
      ghost var m0 := mem;
      ZeroPage(table);
      ghost var m1 := mem;
      physical := FillTable(table, first);
      ghost var m2 := mem;
      TablesKept(m0, m1, table, tables);
      TablesKept(m1, m2, table, tables);
      DirectoryKept(m0, m1, table, directory, tables);
      DirectoryKept(m1, m2, table, directory, tables);
      assert TableHolds(m2, table, index);
      mem := mem[directory + 4 * index := table + FLAGS];
      TablesKept(m2, mem, directory, tables);
      TableKept(m2, mem, directory, table, index);
      DirectoryGrows(m2, mem, directory, tables, table);
    }

    /** The table loop of paging_init; it stops early when no frame is left. */
    method BuildTables(pmm: Pmm) returns (ok: bool, ghost tables: seq<int>)
      requires pmm.ready && pmm.Sound()
      requires 0 <= tableCount <= ENTRIES && identityBytes == tableCount * TABLE_BYTES
      requires Taken([directory], pmm.free) && DirectoryHolds(mem, directory, [])
      modifies `mem, pmm, pmm.bitmap
      ensures ok ==> |tables| == tableCount && PageAligned(tables)
      ensures ok ==> DirectoryHolds(mem, directory, tables) && TablesHold(mem, tables)
      ensures ok <==> |old(pmm.free)| >= tableCount
      ensures pmm.ready && pmm.Sound() && pmm.bitmap == old(pmm.bitmap) && pmm.pool == old(pmm.pool) && pmm.total == old(pmm.total)
      ensures pmm.free <= old(pmm.free)
    {
      tables := [];
      var index, physical := 0, 0;
      while index < tableCount
        invariant pmm.ready && pmm.Sound() && pmm.bitmap == old(pmm.bitmap) && pmm.pool == old(pmm.pool) && pmm.total == old(pmm.total)
        invariant 0 <= index == |tables| <= tableCount && physical == index * TABLE_BYTES
        invariant Taken([directory] + tables, pmm.free) && directory !in tables
        invariant pmm.free <= old(pmm.free) && |pmm.free| == |old(pmm.free)| - index
        invariant DirectoryHolds(mem, directory, tables) && TablesHold(mem, tables)
      {
        var table := NextPage(pmm, [directory] + tables);
        if table == 0 {
          return false, tables;
        }
        NextTable(directory, tables, table, pmm.free, tableCount);
        physical := AddTable(table, index, physical, tables);
        tables := tables + [table];
        index := index + 1;
      }
      TakenTables(directory, tables, pmm.free);
      return true, tables;
    }

    /** paging_init up to the load of the control registers. */
    method Init(pmm: Pmm, heapReady: bool, heapEnd: int, bootValid: bool, boot: Region)
      requires pmm.ready ==> pmm.Sound()
      requires IsWord(heapEnd) && IsWord(boot.base) && IsWord(boot.length)
      modifies this, pmm, pmm.bitmap
      ensures ready ==> identityBytes == IdentityLimit(heapEnd, bootValid, boot) == tableCount * TABLE_BYTES
      ensures ready ==> IdentityMapped(mem, directory, identityBytes)
      ensures !ready ==> directory == identityBytes == tableCount == 0
      ensures var tables := IdentityLimit(heapEnd, bootValid, boot) / TABLE_BYTES;
              ready <==> old(pmm.ready) && heapReady && tables > 0 && |old(pmm.free)| > tables
      ensures pmm.ready == old(pmm.ready) && (pmm.ready ==> pmm.Sound())
      ensures pmm.bitmap == old(pmm.bitmap) && pmm.pool == old(pmm.pool) && pmm.total == old(pmm.total)
    {
      directory, identityBytes, tableCount, ready := 0, 0, 0, false;
      if !pmm.ready || !heapReady {
        return;
      }
      LimitTables(heapEnd, bootValid, boot);
      identityBytes := IdentityLimit(heapEnd, bootValid, boot);
      tableCount := identityBytes / TABLE_BYTES;
      if tableCount == 0 || tableCount > ENTRIES {
        identityBytes, tableCount := 0, 0;
        return;
      }
      var ok := BuildDirectory(pmm);
      if !ok {
        directory, identityBytes, tableCount := 0, 0, 0;
        return;
      }
      ready := true;
    }

    /** The directory and the tables. */
    method BuildDirectory(pmm: Pmm) returns (ok: bool)
      requires pmm.ready && pmm.Sound()
      requires 0 <= tableCount <= ENTRIES && identityBytes == tableCount * TABLE_BYTES
      modifies `mem, `directory, pmm, pmm.bitmap
      ensures ok ==> IdentityMapped(mem, directory, identityBytes)
      ensures ok <==> |old(pmm.free)| > tableCount
      ensures pmm.ready && pmm.Sound() && pmm.bitmap == old(pmm.bitmap) && pmm.pool == old(pmm.pool) && pmm.total == old(pmm.total)
    {
      directory := NextPage(pmm, []);
      if directory == 0 {
        return false;
      }
      assert [] + [directory] == [directory];
      ZeroPage(directory);
      DirectoryEmpty(mem, directory);
      ghost var tables;
      ok, tables := BuildTables(pmm);
      if ok {
        WholeMap(mem, directory, tables);
      }
    }
  }

  /** The frames of these pages are not free. */
  ghost predicate Taken(pages: seq<int>, free: set<int>) {
    PageAligned(pages) && forall k :: 0 <= k < |pages| ==> pages[k] / FRAME !in free
  }

  /** A frame for one more page, 0 when none is left. */
  method NextPage(pmm: Pmm, ghost pages: seq<int>) returns (page: int)
    requires pmm.ready && pmm.Sound() && Taken(pages, pmm.free)
    modifies pmm, pmm.bitmap
    ensures pmm.ready && pmm.Sound() && pmm.bitmap == old(pmm.bitmap) && pmm.pool == old(pmm.pool) && pmm.total == old(pmm.total)
    ensures page == 0 <==> old(pmm.free) == {}
    ensures page == 0 ==> pmm.free == old(pmm.free)
    ensures page != 0 ==> pmm.free <= old(pmm.free) && |pmm.free| == |old(pmm.free)| - 1
    ensures page != 0 ==> page !in pages && Taken(pages + [page], pmm.free)
  {
    var addr, _ := pmm.AllocFrame();
    page := addr;
    if page != 0 {
      TakePage(page, page / FRAME, pages, old(pmm.free));
    }
  }

  lemma {:induction false} TakePage(page: int, i: int, pages: seq<int>, free: set<int>)
    requires Taken(pages, free) && i == page / FRAME && page == i * FRAME && 0 < i && i in free
    ensures page !in pages && Taken(pages + [page], free - {i}) && |free - {i}| == |free| - 1
  {
    FrameAddress(i);
  }

  lemma {:induction false} NextTable(directory: int, tables: seq<int>, table: int, free: set<int>, count: int)
    requires |tables| < count && table !in [directory] + tables && Taken(([directory] + tables) + [table], free)
    ensures directory % FRAME == 0 && table % FRAME == 0 && 0 < table != directory && PageAligned(tables)
    ensures table !in tables && Taken([directory] + (tables + [table]), free)
    ensures |tables| * TABLE_BYTES + TABLE_BYTES == (|tables| + 1) * TABLE_BYTES <= count * TABLE_BYTES
  {
    var pages := [directory] + tables;
    assert pages + [table] == [directory] + (tables + [table]);
    assert (pages + [table])[0] == directory && (pages + [table])[|pages|] == table;
    forall k | 0 <= k < |tables| ensures tables[k] % FRAME == 0 && 0 < tables[k] && tables[k] != table {
      assert (pages + [table])[k + 1] == tables[k] && pages[k + 1] == tables[k];
    }
    assert pages[0] == directory;
  }

  lemma {:induction false} TakenTables(directory: int, tables: seq<int>, free: set<int>)
    requires Taken([directory] + tables, free)
    ensures PageAligned(tables)
  {
    forall k | 0 <= k < |tables| ensures tables[k] % FRAME == 0 && 0 < tables[k] {
      assert ([directory] + tables)[k + 1] == tables[k];
    }
  }

  lemma {:induction false} LimitTables(heapEnd: int, bootValid: bool, boot: Region)
    requires IsWord(heapEnd) && IsWord(boot.base) && IsWord(boot.length)
    ensures var limit := IdentityLimit(heapEnd, bootValid, boot);
            limit == limit / TABLE_BYTES * TABLE_BYTES && 0 <= limit / TABLE_BYTES < ENTRIES
  {
  }

  lemma {:induction false} DirectoryEmpty(m: Memory, directory: int)
    requires forall k :: 0 <= k < ENTRIES ==> Word(m, directory + 4 * k) == 0
    ensures DirectoryHolds(m, directory, [])
  {
  }

  lemma {:induction false} WholeMap(m: Memory, directory: int, tables: seq<int>)
    requires |tables| <= ENTRIES && PageAligned(tables)
    requires DirectoryHolds(m, directory, tables) && TablesHold(m, tables)
    ensures IdentityMapped(m, directory, |tables| * TABLE_BYTES)
  {
    forall v | 0 <= v < WORD
      ensures Walk(m, directory, v) == if v < |tables| * TABLE_BYTES then Maps(v, true) else Fault
    {
      IdentityMap(m, directory, tables, v);
    }
  }

  /** Every address below `bytes` translates to itself, present and writable, and no other address does. */
  ghost predicate IdentityMapped(m: Memory, directory: int, bytes: int) {
    forall v :: 0 <= v < WORD ==> Walk(m, directory, v) == if v < bytes then Maps(v, true) else Fault
  }

  lemma {:induction false} DirectoryGrows(m: Memory, n: Memory, directory: int, tables: seq<int>, table: int)
    requires |tables| < ENTRIES && DirectoryHolds(m, directory, tables)
    requires n == m[directory + 4 * |tables| := table + FLAGS]
    ensures DirectoryHolds(n, directory, tables + [table])
  {
  }

  /**
   pmm_init and then paging_init, as the kernel starts, with the ranges and the highest
   address taken from the memory map.  The pool is what the map leaves free, and whenever
   paging comes up it is the identity map.
   */
  method BringUp(info: BootMemory.BootInfo, bootValid: bool, heapReady: bool, kernelEnd: int, heap: Region, boot: Region, bitmapAddr: int)
    returns (pmm: Pmm, paging: PageTables)
    requires info.Valid() && LOAD_ADDRESS <= kernelEnd < WORD && IsWord(bitmapAddr)
    requires IsWord(heap.base) && IsWord(heap.length) && IsWord(boot.base) && IsWord(boot.length) && heap.base + heap.length < WORD
    ensures fresh(pmm) && fresh(pmm.bitmap) && fresh(paging) && (pmm.ready ==> pmm.Sound())
    ensures pmm.ready ==> FreeAtBoot(pmm.pool, info.ranges, Reservations(kernelEnd, heap, boot, bitmapAddr, pmm.total), pmm.total)
    ensures pmm.ready ==> pmm.total == FramesUpTo(info.highest)
    ensures paging.ready ==> pmm.ready && IdentityMapped(paging.mem, paging.directory, paging.identityBytes)
    ensures paging.ready ==> heap.base + heap.length <= paging.identityBytes
    ensures paging.ready ==> (boot.base + boot.length <= paging.identityBytes <==> boot.base + boot.length < WORD)
  {
    BootMemory.RangesInMemory(info.seen);
    pmm := new Pmm();
    pmm.Init(bootValid, heapReady, info.ranges, info.highest, kernelEnd, heap, boot, bitmapAddr);
    paging := new PageTables();
    paging.Init(pmm, heapReady, heap.base + heap.length, bootValid, boot);
    if paging.ready {
      LimitCovers(heap.base + heap.length, boot);
    }
  }
}
