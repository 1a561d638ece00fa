/**
 The kernel heap seen as the sequence of its physical blocks, in address order.

 A block is a 32-byte header at `addr` followed by `size` payload bytes.  `free` is
 the header's free flag and `linked` says whether the block is on the free list; the
 two differ only inside an operation.  The functions here say what each operation
 does to that sequence, and the lemmas say what every run of operations keeps.
 */
module HeapLayout {
  import opened Words

  const HEADER: int := 32
  const ALIGNMENT: int := 16
  const MIN_SPLIT: int := 16
  const REGION_BYTES: int := 0x10_0000

  datatype Block = Block(addr: int, size: int, free: bool, linked: bool)

  function EndOf(b: Block): int {
    b.addr + HEADER + b.size
  }

  function Payload(b: Block): int {
    b.addr + HEADER
  }

  /** Blocks follow one another without gap or overlap from `lo` to `hi`. */
  ghost predicate Tiles(L: seq<Block>, lo: int, hi: int) {
    if L == [] then lo == hi
    else
      && L[0].addr == lo
      && L[0].size >= 0
      && L[0].size % ALIGNMENT == 0
      && Tiles(L[1..], EndOf(L[0]), hi)
  }

  /** No two neighbours are both free. */
  ghost predicate Coalesced(L: seq<Block>) {
    forall i, j :: 0 <= i < j < |L| && j == i + 1 ==> !(L[i].free && L[j].free)
  }

  /** The free list holds exactly the blocks whose free flag is set. */
  ghost predicate Settled(L: seq<Block>) {
    forall i :: 0 <= i < |L| ==> L[i].linked == L[i].free
  }

  ghost predicate WellFormed(L: seq<Block>, lo: int, hi: int) {
    Tiles(L, lo, hi) && Coalesced(L) && Settled(L)
  }

  /** Live allocations: header address and payload size of every block in use. */
  ghost function Live(L: seq<Block>): set<(int, int)> {
    if L == [] then {} else LiveOf(L[0]) + Live(L[1..])
  }

  ghost function LiveOf(b: Block): set<(int, int)> {
    if b.free then {} else {(b.addr, b.size)}
  }

  lemma {:induction false} LiveHas(L: seq<Block>, i: nat)
    requires i < |L| && !L[i].free
    ensures (L[i].addr, L[i].size) in Live(L)
  {
    if i > 0 {
      LiveHas(L[1..], i - 1);
    }
  }

  lemma {:induction false} LiveIndex(L: seq<Block>, e: (int, int)) returns (i: nat)
    requires e in Live(L)
    ensures i < |L| && !L[i].free && e == (L[i].addr, L[i].size)
  {
    if e in LiveOf(L[0]) {
      i := 0;
    } else {
      i := LiveIndex(L[1..], e);
      i := i + 1;
    }
  }

  // ----- tiling -----

  lemma {:induction false} TilesBounds(L: seq<Block>, lo: int, hi: int)
    requires Tiles(L, lo, hi)
    ensures lo <= hi
    ensures L != [] ==> lo + HEADER <= hi
    ensures forall i :: 0 <= i < |L| ==> lo <= L[i].addr && EndOf(L[i]) <= hi && L[i].size >= 0 && L[i].size % ALIGNMENT == 0
  {
    if L != [] {
      TilesBounds(L[1..], EndOf(L[0]), hi);
      assert forall i :: 0 < i < |L| ==> L[i] == L[1..][i - 1];
    }
  }

  lemma {:induction false} TilesAligned(L: seq<Block>, lo: int, hi: int)
    requires Tiles(L, lo, hi) && lo % ALIGNMENT == 0
    ensures forall i :: 0 <= i < |L| ==> L[i].addr % ALIGNMENT == 0
  {
    if L != [] {
      TilesAligned(L[1..], EndOf(L[0]), hi);
      assert forall i :: 0 < i < |L| ==> L[i] == L[1..][i - 1];
    }
  }

  /** Any two blocks are disjoint and in address order. */
  lemma {:induction false} TilesOrdered(L: seq<Block>, lo: int, hi: int)
    requires Tiles(L, lo, hi)
    ensures forall i, j :: 0 <= i < j < |L| ==> EndOf(L[i]) <= L[j].addr
    ensures forall i, j :: 0 <= i < j < |L| && j == i + 1 ==> EndOf(L[i]) == L[j].addr
  {
    if L != [] {
      TilesOrdered(L[1..], EndOf(L[0]), hi);
      TilesBounds(L[1..], EndOf(L[0]), hi);
      assert forall i :: 0 < i < |L| ==> L[i] == L[1..][i - 1];
    }
  }

  lemma {:induction false} TilesJoin(A: seq<Block>, B: seq<Block>, lo: int, mid: int, hi: int)
    requires Tiles(A, lo, mid) && Tiles(B, mid, hi)
    ensures Tiles(A + B, lo, hi)
  {
    if A == [] {
      assert A + B == B;
    } else {
      TilesJoin(A[1..], B, EndOf(A[0]), mid, hi);
      assert (A + B)[1..] == A[1..] + B;
    }
  }

  /** Flags do not matter to the tiling. */
  lemma {:induction false} TilesReflag(L: seq<Block>, M: seq<Block>, lo: int, hi: int)
    requires Tiles(L, lo, hi) && |L| == |M|
    requires forall i :: 0 <= i < |L| ==> M[i].addr == L[i].addr && M[i].size == L[i].size
    ensures Tiles(M, lo, hi)
  {
    if L != [] {
      TilesReflag(L[1..], M[1..], EndOf(L[0]), hi);
    }
  }

  /** Where the blocks from index `k` on begin. */
  ghost function Boundary(L: seq<Block>, k: nat, hi: int): int
    requires k <= |L|
  {
    if k < |L| then L[k].addr else hi
  }

  lemma {:induction false} TilesCut(L: seq<Block>, k: nat, lo: int, hi: int)
    requires Tiles(L, lo, hi) && k <= |L|
    ensures Tiles(L[..k], lo, Boundary(L, k, hi)) && Tiles(L[k..], Boundary(L, k, hi), hi)
  {
    if k == 0 {
      assert L[..0] == [] && L[0..] == L;
    } else {
      TilesCut(L[1..], k - 1, EndOf(L[0]), hi);
      assert L[..k][1..] == L[1..][..k - 1];
      assert L[k..] == L[1..][k - 1..];
    }
  }

  /** Replacing a stretch of blocks by one that covers the same bytes keeps the tiling. */
  lemma {:induction false} TilesSplice(L: seq<Block>, i: nat, j: nat, M: seq<Block>, lo: int, hi: int)
    requires Tiles(L, lo, hi) && i <= j <= |L|
    requires Tiles(M, Boundary(L, i, hi), Boundary(L, j, hi))
    ensures Tiles(L[..i] + M + L[j..], lo, hi)
  {
    TilesCut(L, i, lo, hi);
    TilesCut(L, j, lo, hi);
    TilesJoin(L[..i], M, lo, Boundary(L, i, hi), Boundary(L, j, hi));
    TilesJoin(L[..i] + M, L[j..], lo, Boundary(L, j, hi), hi);
  }

  // ----- what the live blocks determine -----

  lemma {:induction false} LiveTail(L: seq<Block>, lo: int, hi: int)
    requires Tiles(L, lo, hi) && L != []
    ensures Live(L[1..]) == Live(L) - LiveOf(L[0])
  {
    TilesBounds(L[1..], EndOf(L[0]), hi);
    if (L[0].addr, L[0].size) in Live(L[1..]) {
      var i := LiveIndex(L[1..], (L[0].addr, L[0].size));
      assert false;
    }
  }

  /** The first block of two layouts with the same live blocks is the same. */
  lemma {:induction false} SameHead(A: seq<Block>, B: seq<Block>, lo: int, hi: int)
    requires WellFormed(A, lo, hi) && WellFormed(B, lo, hi) && Live(A) == Live(B)
    requires A != [] && B != []
    ensures A[0] == B[0]
  {
    TilesOrdered(A, lo, hi);
    TilesOrdered(B, lo, hi);
    TilesBounds(A, lo, hi);
    TilesBounds(B, lo, hi);
    if !A[0].free {
      LiveHead(A, B, lo, hi);
    } else if !B[0].free {
      LiveHead(B, A, lo, hi);
      assert false;
    } else {
      FreeHead(A, B, lo, hi);
      FreeHead(B, A, lo, hi);
    }
  }

  lemma {:induction false} LiveHead(A: seq<Block>, B: seq<Block>, lo: int, hi: int)
    requires WellFormed(A, lo, hi) && WellFormed(B, lo, hi) && Live(A) == Live(B)
    requires A != [] && B != [] && !A[0].free
    ensures A[0] == B[0]
  {
    TilesOrdered(B, lo, hi);
    LiveHas(A, 0);
    var i := LiveIndex(B, (A[0].addr, A[0].size));
    assert i == 0;
  }

  lemma {:induction false} FreeHead(A: seq<Block>, B: seq<Block>, lo: int, hi: int)
    requires WellFormed(A, lo, hi) && WellFormed(B, lo, hi) && Live(A) == Live(B)
    requires A != [] && B != [] && A[0].free && B[0].free
    ensures B[0].size <= A[0].size
  {
    TilesOrdered(A, lo, hi);
    TilesOrdered(B, lo, hi);
    TilesBounds(B, lo, hi);
    if |A| == 1 {
      assert Tiles(A[1..], EndOf(A[0]), hi) && A[1..] == [];
    } else {
      assert !A[1].free;
      LiveHas(A, 1);
      var i := LiveIndex(B, (A[1].addr, A[1].size));
      assert 0 < i;
    }
  }

  /** The layout is canonical: the live blocks determine it. */
  lemma {:induction false} Canonical(A: seq<Block>, B: seq<Block>, lo: int, hi: int)
    requires WellFormed(A, lo, hi) && WellFormed(B, lo, hi) && Live(A) == Live(B)
    ensures A == B
    decreases |A|
  {
    TilesBounds(A, lo, hi);
    TilesBounds(B, lo, hi);
    if A != [] && B != [] {
      SameHead(A, B, lo, hi);
      LiveTail(A, lo, hi);
      LiveTail(B, lo, hi);
      Canonical(A[1..], B[1..], EndOf(A[0]), hi);
      assert A == [A[0]] + A[1..] && B == [B[0]] + B[1..];
    }
  }

  // ----- what the operations do -----

  /** The 32-bit round-up to the alignment; it wraps above 0xFFFFFFF0. */
  function Aligned(size: int): int
    requires 0 <= size < WORD
  {
    (size + ALIGNMENT - 1) % WORD / ALIGNMENT * ALIGNMENT
  }

  /** Index of the lowest free block that holds `n` bytes, or |L|. */
  function FirstFit(L: seq<Block>, n: int): (i: nat)
    ensures i <= |L|
    ensures i < |L| ==> L[i].free && L[i].size >= n
    ensures forall j :: 0 <= j < i ==> !(L[j].free && L[j].size >= n)
  {
    if L == [] then 0
    else if L[0].free && L[0].size >= n then 0
    else
      var r := FirstFit(L[1..], n);
      assert forall j :: 0 < j < |L| ==> L[j] == L[1..][j - 1];
      r + 1
  }

  predicate CanSplit(b: Block, n: int) {
    n <= b.size && b.size - n >= HEADER + MIN_SPLIT
  }

  /** Block `i` becomes a used block of `n` bytes; a large enough rest stays free. */
  function AllocAt(L: seq<Block>, i: nat, n: int): seq<Block>
    requires i < |L|
  {
    var b := L[i];
    if CanSplit(b, n) then
      L[..i] + [Block(b.addr, n, false, false), Block(b.addr + HEADER + n, b.size - n - HEADER, true, true)] + L[i + 1..]
    else
      L[..i] + [Block(b.addr, b.size, false, false)] + L[i + 1..]
  }

  /** First and one-past-last index of the stretch that merges when block `i` is freed. */
  function MergeFrom(L: seq<Block>, i: nat): nat
    requires i < |L|
  {
    if i > 0 && L[i - 1].free then i - 1 else i
  }

  function MergeTo(L: seq<Block>, i: nat): nat
    requires i < |L|
  {
    if i + 1 < |L| && L[i + 1].free then i + 2 else i + 1
  }

  /** Block `i` becomes free together with every free neighbour. */
  function FreeAt(L: seq<Block>, i: nat): seq<Block>
    requires i < |L|
  {
    var a, b := MergeFrom(L, i), MergeTo(L, i);
    L[..a] + [Block(L[a].addr, EndOf(L[b - 1]) - L[a].addr - HEADER, true, true)] + L[b..]
  }

  function IndexOfPayload(L: seq<Block>, p: int): (i: nat)
    ensures i <= |L|
    ensures i < |L| ==> Payload(L[i]) == p
    ensures i == |L| ==> forall j :: 0 <= j < |L| ==> Payload(L[j]) != p
  {
    if L == [] then 0
    else if Payload(L[0]) == p then 0
    else
      var r := IndexOfPayload(L[1..], p);
      assert forall j :: 0 < j < |L| ==> L[j] == L[1..][j - 1];
      r + 1
  }

  datatype Outcome = Outcome(layout: seq<Block>, ptr: int)

  /** kmalloc on layouts; pointer 0 is failure. */
  function Malloc(L: seq<Block>, size: int): Outcome
    requires 0 <= size < WORD
  {
    var i := FirstFit(L, Aligned(size));
    if size == 0 || i == |L| then Outcome(L, 0)
    else Outcome(AllocAt(L, i, Aligned(size)), Payload(L[i]))
  }

  /** kfree on layouts: unknown pointers and free blocks leave the layout as it is. */
  function Free(L: seq<Block>, p: int): seq<Block> {
    var i := IndexOfPayload(L, p);
    if i < |L| && !L[i].free then FreeAt(L, i) else L
  }

  // ----- each operation keeps the layout well formed and changes one live block -----

  lemma {:induction false} CoalescedJoin(A: seq<Block>, B: seq<Block>)
    requires Coalesced(A) && Coalesced(B)
    requires A != [] && B != [] ==> !(A[|A| - 1].free && B[0].free)
    ensures Coalesced(A + B)
  {
    forall i, j | 0 <= i < j < |A + B| && j == i + 1
      ensures !((A + B)[i].free && (A + B)[j].free)
    {
      if i >= |A| {
        assert (A + B)[i] == B[i - |A|] && (A + B)[j] == B[j - |A|];
      }
    }
  }

  /** Replacing a stretch of blocks by a well-formed one that fits its neighbours. */
  lemma {:induction false} Splice(L: seq<Block>, i: nat, j: nat, M: seq<Block>, lo: int, hi: int)
    requires WellFormed(L, lo, hi) && i <= j <= |L|
    requires M != [] && WellFormed(M, Boundary(L, i, hi), Boundary(L, j, hi))
    requires i > 0 ==> !(L[i - 1].free && M[0].free)
    requires j < |L| ==> !(M[|M| - 1].free && L[j].free)
    ensures WellFormed(L[..i] + M + L[j..], lo, hi)
  {
    TilesSplice(L, i, j, M, lo, hi);
    CoalescedJoin(L[..i], M);
    CoalescedJoin(L[..i] + M, L[j..]);
  }

  lemma {:induction false} LiveJoin(A: seq<Block>, B: seq<Block>)
    ensures Live(A + B) == Live(A) + Live(B)
  {
    if A == [] {
      assert A + B == B;
    } else {
      LiveJoin(A[1..], B);
      assert (A + B)[1..] == A[1..] + B;
    }
  }

  lemma {:induction false} LiveOne(b: Block)
    ensures Live([b]) == LiveOf(b)
  {
    assert [b][1..] == [];
  }

  lemma {:induction false} LiveJoinThree(A: seq<Block>, B: seq<Block>, C: seq<Block>)
    ensures Live(A + B + C) == Live(A) + Live(B) + Live(C)
  {
    LiveJoin(A, B);
    LiveJoin(A + B, C);
  }

  lemma {:induction false} AbutsNext(L: seq<Block>, i: nat, lo: int, hi: int)
    requires Tiles(L, lo, hi) && i < |L|
    ensures EndOf(L[i]) == Boundary(L, i + 1, hi)
  {
    TilesCut(L, i, lo, hi);
    assert L[i..][0] == L[i] && L[i..][1..] == L[i + 1..];
    TilesCut(L, i + 1, lo, hi);
    if i + 1 == |L| { assert L[i + 1..] == []; }
  }

  lemma {:induction false} AllocKeeps(L: seq<Block>, i: nat, n: int, lo: int, hi: int)
    requires WellFormed(L, lo, hi)
    requires i < |L| && L[i].free && 0 <= n <= L[i].size && n % ALIGNMENT == 0
    ensures WellFormed(AllocAt(L, i, n), lo, hi)
  {
    var b := L[i];
    TilesBounds(L, lo, hi);
    AbutsNext(L, i, lo, hi);
    if CanSplit(b, n) {
      var M := [Block(b.addr, n, false, false), Block(b.addr + HEADER + n, b.size - n - HEADER, true, true)];
      assert M[1..][1..] == [];
      Splice(L, i, i + 1, M, lo, hi);
    } else {
      var M := [Block(b.addr, b.size, false, false)];
      assert M[1..] == [];
      Splice(L, i, i + 1, M, lo, hi);
    }
  }

  lemma {:induction false} LiveUsedThenFree(u: Block, rest: Block)
    requires rest.free
    ensures Live([u, rest]) == LiveOf(u)
  {
    assert [u, rest] == [u] + [rest];
    LiveJoin([u], [rest]);
    LiveOne(u);
    LiveOne(rest);
  }

  lemma {:induction false} AllocLive(L: seq<Block>, i: nat, n: int)
    requires i < |L| && L[i].free
    ensures Live(AllocAt(L, i, n)) == Live(L) + {(L[i].addr, if CanSplit(L[i], n) then n else L[i].size)}
  {
    var u := Block(L[i].addr, if CanSplit(L[i], n) then n else L[i].size, false, false);
    var rest := Block(L[i].addr + HEADER + n, L[i].size - n - HEADER, true, true);
    assert L == L[..i] + [L[i]] + L[i + 1..];
    LiveJoinThree(L[..i], [L[i]], L[i + 1..]);
    LiveOne(L[i]);
    if CanSplit(L[i], n) {
      LiveUsedThenFree(u, rest);
      LiveJoinThree(L[..i], [u, rest], L[i + 1..]);
    } else {
      LiveOne(u);
      LiveJoinThree(L[..i], [u], L[i + 1..]);
    }
  }

  /** The block that freeing `i` leaves behind. */
  function Merged(L: seq<Block>, i: nat): Block
    requires i < |L|
  {
    var a, b := MergeFrom(L, i), MergeTo(L, i);
    Block(L[a].addr, EndOf(L[b - 1]) - L[a].addr - HEADER, true, true)
  }

  lemma {:induction false} SumAligned(x: int, y: int, z: int)
    requires x % ALIGNMENT == 0 && y % ALIGNMENT == 0 && z % ALIGNMENT == 0
    ensures (x + HEADER + y) % ALIGNMENT == 0
    ensures (x + HEADER + y + HEADER + z) % ALIGNMENT == 0
  {
  }

  lemma {:induction false} MergedSize(L: seq<Block>, i: nat, lo: int, hi: int)
    requires Tiles(L, lo, hi) && i < |L|
    ensures Merged(L, i).size >= L[i].size >= 0 && Merged(L, i).size % ALIGNMENT == 0
    ensures EndOf(Merged(L, i)) == Boundary(L, MergeTo(L, i), hi)
  {
    var a, b := MergeFrom(L, i), MergeTo(L, i);
    TilesBounds(L, lo, hi);
    AbutsNext(L, i, lo, hi);
    AbutsNext(L, b - 1, lo, hi);
    if a < i {
      AbutsNext(L, a, lo, hi);
    }
    SumAligned(L[a].size, L[i].size, if i + 1 < b then L[i + 1].size else 0);
    if i + 1 < b {
      SumAligned(L[i].size, L[i + 1].size, 0);
    }
  }

  lemma {:induction false} FreeKeeps(L: seq<Block>, i: nat, lo: int, hi: int)
    requires WellFormed(L, lo, hi) && i < |L| && !L[i].free
    ensures WellFormed(FreeAt(L, i), lo, hi)
  {
    var a, b, m := MergeFrom(L, i), MergeTo(L, i), Merged(L, i);
    MergedSize(L, i, lo, hi);
    assert Tiles([m], m.addr, EndOf(m)) by { assert [m][1..] == []; }
    assert a > 0 ==> !L[a - 1].free;
    assert b < |L| ==> !L[b].free;
    Splice(L, a, b, [m], lo, hi);
  }

  lemma {:induction false} LiveStretch(L: seq<Block>, i: nat)
    requires i < |L| && !L[i].free
    ensures Live(L[MergeFrom(L, i)..MergeTo(L, i)]) == LiveOf(L[i])
  {
    var a, b := MergeFrom(L, i), MergeTo(L, i);
    assert L[a..b] == L[a..i] + [L[i]] + L[i + 1..b];
    LiveJoinThree(L[a..i], [L[i]], L[i + 1..b]);
  }

  lemma {:induction false} LiveBefore(L: seq<Block>, i: nat)
    requires i < |L| && !L[i].free
    ensures Live(L) == Live(L[..MergeFrom(L, i)]) + LiveOf(L[i]) + Live(L[MergeTo(L, i)..])
  {
    var a, b := MergeFrom(L, i), MergeTo(L, i);
    LiveStretch(L, i);
    LiveJoinThree(L[..a], L[a..b], L[b..]);
    assert L == L[..a] + L[a..b] + L[b..];
  }

  lemma {:induction false} LiveAfter(L: seq<Block>, i: nat)
    requires i < |L| && !L[i].free
    ensures Live(FreeAt(L, i)) == Live(L[..MergeFrom(L, i)]) + {} + Live(L[MergeTo(L, i)..])
  {
    LiveOne(Merged(L, i));
    LiveJoinThree(L[..MergeFrom(L, i)], [Merged(L, i)], L[MergeTo(L, i)..]);
  }

  lemma {:induction false} FreeLive(L: seq<Block>, i: nat, lo: int, hi: int)
    requires WellFormed(L, lo, hi) && i < |L| && !L[i].free
    ensures Live(FreeAt(L, i)) == Live(L) - {(L[i].addr, L[i].size)}
  {
    LiveBefore(L, i);
    LiveAfter(L, i);
    LiveElsewhere(L, i, MergeFrom(L, i), MergeTo(L, i), lo, hi);
  }

  lemma {:induction false} LiveElsewhere(L: seq<Block>, i: nat, a: nat, b: nat, lo: int, hi: int)
    requires Tiles(L, lo, hi) && a <= i < b <= |L|
    ensures (L[i].addr, L[i].size) !in Live(L[..a]) + Live(L[b..])
  {
    TilesBounds(L, lo, hi);
    TilesOrdered(L, lo, hi);
    var e := (L[i].addr, L[i].size);
    if e in Live(L[..a]) {
      var k := LiveIndex(L[..a], e);
      assert false;
    }
    if e in Live(L[b..]) {
      var k := LiveIndex(L[b..], e);
      assert false;
    }
  }
}
