/**
 What the heap integrity checker decides, for any memory contents whatever.

 `Intact` is the property; `PhysWalk` and `FreeWalk` follow the two lists as the
 checker does and are shown to find a chain exactly when one exists.
 */
module HeapIntegrity {
  import opened Words
  import opened Wrappers
  import opened HeapLayout
  import opened HeapMemory

  function Follow(P: seq<int>, k: int): int {
    if 0 <= k < |P| then P[k] else 0
  }

  /** Sane, without the wrap-around. */
  lemma {:induction false} SaneMeans(h: Region, mem: Memory, a: int)
    requires IsRegion(h) && WordMemory(mem)
    ensures Sane(mem, h.start, h.end, a) <==>
            && h.start <= a && a % ALIGNMENT == 0 && At(mem, a).magic == MAGIC
            && At(mem, a).size % ALIGNMENT == 0 && a + HEADER + At(mem, a).size <= h.end
    ensures 0 <= At(mem, a).size < WORD
  {
  }

  // ----- the property -----

  /** `P` is the physical list: it tiles the region, its back links agree and no two free blocks touch. */
  ghost predicate PhysChain(h: Region, first: int, mem: Memory, P: seq<int>) {
    && |P| > 0 && P[0] == first == h.start
    && (forall k :: 0 <= k < |P| ==> PhysNode(h, mem, P, k))
  }

  ghost predicate PhysNode(h: Region, mem: Memory, P: seq<int>, k: nat)
    requires k < |P|
  {
    var a := At(mem, P[k]);
    && Sane(mem, h.start, h.end, P[k])
    && a.prevPhys == Follow(P, k - 1)
    && a.nextPhys == Follow(P, k + 1)
    && P[k] + HEADER + a.size == (if k + 1 < |P| then P[k + 1] else h.end)
    && (k + 1 < |P| ==> !(IsFree(a) && IsFree(At(mem, P[k + 1]))))
  }

  /** `F` is the free list: sane free blocks in ascending order whose back links agree. */
  ghost predicate FreeChain(h: Region, freeList: int, mem: Memory, F: seq<int>) {
    && freeList == Follow(F, 0)
    && (forall k :: 0 <= k < |F| ==> FreeNode(h, mem, F, k))
  }

  ghost predicate FreeNode(h: Region, mem: Memory, F: seq<int>, k: nat)
    requires k < |F|
  {
    && Sane(mem, h.start, h.end, F[k]) && IsFree(At(mem, F[k]))
    && At(mem, F[k]).prevFree == Follow(F, k - 1)
    && At(mem, F[k]).nextFree == Follow(F, k + 1)
    && (k > 0 ==> F[k - 1] < F[k])
  }

  /** The free blocks among `P`, in order. */
  function FreeOf(mem: Memory, P: seq<int>): seq<int> {
    if P == [] then []
    else (if IsFree(At(mem, P[0])) then [P[0]] else []) + FreeOf(mem, P[1..])
  }

  /** The heap is intact: some physical list, and the free list is exactly its free blocks in order. */
  ghost predicate Intact(h: Region, first: int, freeList: int, mem: Memory) {
    exists P :: PhysChain(h, first, mem, P) && FreeChain(h, freeList, mem, FreeOf(mem, P))
  }

  // ----- following the physical list -----

  /** The rest of the physical list from block `a`, if all the checker's tests pass. */
  ghost function PhysWalk(h: Region, mem: Memory, a: int, prev: int, expected: int): Option<seq<int>>
    requires IsRegion(h) && WordMemory(mem)
    decreases h.end - expected
  {
    if a == 0 then
      if expected == h.end then Some([]) else None
    else
      SaneMeans(h, mem, a);
      var b := At(mem, a);
      if || !Sane(mem, h.start, h.end, a)
         || a != expected
         || b.prevPhys != prev
         || (IsFree(b) && b.nextPhys != 0 && IsFree(At(mem, b.nextPhys)))
      then None
      else Push(a, PhysWalk(h, mem, b.nextPhys, a, a + HEADER + b.size))
  }

  ghost function Push(a: int, r: Option<seq<int>>): Option<seq<int>> {
    if r.None? then None else Some([a] + r.value)
  }

  ghost function Prefixed(P: seq<int>, r: Option<seq<int>>): Option<seq<int>> {
    if r.None? then None else Some(P + r.value)
  }

  lemma {:induction false} PrefixedPush(P: seq<int>, a: int, r: Option<seq<int>>)
    ensures Prefixed(P, Push(a, r)) == Prefixed(P + [a], r)
  {
    if r.Some? { assert P + ([a] + r.value) == (P + [a]) + r.value; }
  }

  /** A walk that succeeds has found a chain. */
  lemma {:induction false} PhysWalkSound(h: Region, mem: Memory, P: seq<int>, a: int, prev: int, expected: int)
    requires IsRegion(h) && WordMemory(mem) && PhysWalk(h, mem, a, prev, expected) == Some(P)
    ensures a == Follow(P, 0)
    ensures P == [] ==> expected == h.end
    ensures P != [] ==> P[0] == expected && At(mem, P[0]).prevPhys == prev
    ensures forall k :: 0 <= k < |P| ==> (k == 0 || PhysNode(h, mem, P, k)) && PhysNodeFrom(h, mem, P, k)
    decreases |P|
  {
    if a != 0 {
      SaneMeans(h, mem, a);
      var b := At(mem, a);
      var r := PhysWalk(h, mem, b.nextPhys, a, a + HEADER + b.size);
      PhysWalkSound(h, mem, r.value, b.nextPhys, a, a + HEADER + b.size);
      forall k | 0 <= k < |P|
        ensures (k == 0 || PhysNode(h, mem, P, k)) && PhysNodeFrom(h, mem, P, k)
      {
        if k > 0 {
          assert P[k] == r.value[k - 1];
          assert PhysNodeFrom(h, mem, r.value, k - 1);
          assert k > 1 ==> PhysNode(h, mem, r.value, k - 1);
        }
      }
    }
  }

  /** PhysNode without the back link. */
  ghost predicate PhysNodeFrom(h: Region, mem: Memory, P: seq<int>, k: nat)
    requires k < |P|
  {
    var a := At(mem, P[k]);
    && Sane(mem, h.start, h.end, P[k])
    && a.nextPhys == Follow(P, k + 1)
    && P[k] + HEADER + a.size == (if k + 1 < |P| then P[k + 1] else h.end)
    && (k + 1 < |P| ==> !(IsFree(a) && IsFree(At(mem, P[k + 1]))))
  }

  /** One turn of the walk along a chain. */
  lemma {:induction false} PhysWalkTurn(h: Region, mem: Memory, P: seq<int>, k: nat)
    requires IsRegion(h) && WordMemory(mem) && k < |P| && PhysNode(h, mem, P, k)
    ensures PhysWalk(h, mem, Follow(P, k), Follow(P, k - 1), P[k]) ==
            Push(P[k], PhysWalk(h, mem, Follow(P, k + 1), Follow(P, k), if k + 1 < |P| then P[k + 1] else h.end))
  {
    SaneMeans(h, mem, P[k]);
    assert Follow(P, k) == P[k];
  }

  /** A chain is found by the walk. */
  lemma {:induction false} PhysWalkComplete(h: Region, first: int, mem: Memory, P: seq<int>, k: nat)
    requires IsRegion(h) && WordMemory(mem) && PhysChain(h, first, mem, P) && k <= |P|
    ensures PhysWalk(h, mem, Follow(P, k), Follow(P, k - 1), if k < |P| then P[k] else h.end) == Some(P[k..])
    decreases |P| - k
  {
    if k < |P| {
      PhysWalkComplete(h, first, mem, P, k + 1);
      assert PhysNode(h, mem, P, k);
      PhysWalkTurn(h, mem, P, k);
      assert P[k..] == [P[k]] + P[k + 1..];
    } else {
      assert P[k..] == [] && Follow(P, k) == 0;
    }
  }

  lemma {:induction false} PhysWalkExact(h: Region, mem: Memory, P: seq<int>)
    requires IsRegion(h) && WordMemory(mem)
    ensures PhysWalk(h, mem, h.start, 0, h.start) == Some(P) <==> PhysChain(h, h.start, mem, P)
  {
    if PhysWalk(h, mem, h.start, 0, h.start) == Some(P) {
      PhysWalkSound(h, mem, P, h.start, 0, h.start);
      assert PhysNodeFrom(h, mem, P, 0);
    }
    if PhysChain(h, h.start, mem, P) {
      PhysWalkComplete(h, h.start, mem, P, 0);
      assert P[0..] == P;
    }
  }

  // ----- following the free list -----

  ghost function FreeWalk(h: Region, mem: Memory, a: int, prev: int): Option<seq<int>>
    requires IsRegion(h)
    decreases h.end - prev
  {
    if a == 0 then Some([])
    else if || !Sane(mem, h.start, h.end, a)
            || !IsFree(At(mem, a))
            || At(mem, a).prevFree != prev
            || (prev != 0 && prev >= a)
    then None
    else if prev < a then Push(a, FreeWalk(h, mem, At(mem, a).nextFree, a))
    else None
  }

  lemma {:induction false} FreeWalkSound(h: Region, mem: Memory, F: seq<int>, a: int, prev: int)
    requires IsRegion(h) && FreeWalk(h, mem, a, prev) == Some(F)
    ensures a == Follow(F, 0)
    ensures F != [] ==> At(mem, F[0]).prevFree == prev < F[0]
    ensures forall k :: 0 <= k < |F| ==> (k == 0 || FreeNode(h, mem, F, k)) && FreeNodeFrom(h, mem, F, k)
    decreases |F|
  {
    if a != 0 {
      var r := FreeWalk(h, mem, At(mem, a).nextFree, a);
      FreeWalkSound(h, mem, r.value, At(mem, a).nextFree, a);
      forall k | 0 <= k < |F|
        ensures (k == 0 || FreeNode(h, mem, F, k)) && FreeNodeFrom(h, mem, F, k)
      {
        if k > 0 {
          assert F[k] == r.value[k - 1];
          assert FreeNodeFrom(h, mem, r.value, k - 1);
          assert k > 1 ==> FreeNode(h, mem, r.value, k - 1);
        }
      }
    }
  }

  ghost predicate FreeNodeFrom(h: Region, mem: Memory, F: seq<int>, k: nat)
    requires k < |F|
  {
    Sane(mem, h.start, h.end, F[k]) && IsFree(At(mem, F[k])) && At(mem, F[k]).nextFree == Follow(F, k + 1)
  }

  lemma {:induction false} FreeWalkComplete(h: Region, freeList: int, mem: Memory, F: seq<int>, k: nat)
    requires IsRegion(h) && FreeChain(h, freeList, mem, F) && k <= |F|
    ensures FreeWalk(h, mem, Follow(F, k), Follow(F, k - 1)) == Some(F[k..])
    decreases |F| - k
  {
    if k < |F| {
      FreeWalkComplete(h, freeList, mem, F, k + 1);
      assert FreeNode(h, mem, F, k);
      assert k > 0 ==> FreeNode(h, mem, F, k - 1);
      assert F[k..] == [F[k]] + F[k + 1..];
    } else {
      assert F[k..] == [];
    }
  }

  lemma {:induction false} FreeWalkExact(h: Region, freeList: int, mem: Memory, F: seq<int>)
    requires IsRegion(h)
    ensures FreeWalk(h, mem, freeList, 0) == Some(F) <==> FreeChain(h, freeList, mem, F)
  {
    if FreeWalk(h, mem, freeList, 0) == Some(F) {
      FreeWalkSound(h, mem, F, freeList, 0);
      if F != [] { assert FreeNodeFrom(h, mem, F, 0); }
    }
    if FreeChain(h, freeList, mem, F) {
      FreeWalkComplete(h, freeList, mem, F, 0);
      assert F[0..] == F;
    }
  }

  // ----- the free list is complete when the counts agree and every free block is on it -----

  ghost predicate Increasing(s: seq<int>) {
    forall i, j :: 0 <= i < j < |s| ==> s[i] < s[j]
  }

  lemma {:induction false} DropLast(A: seq<int>, B: seq<int>, n: nat)
    requires Increasing(A) && Increasing(B) && |A| == |B| == n + 1 && forall x :: x in A ==> x in B
    ensures forall x :: x in A[..n] ==> x in B[..n]
    ensures A[..n] == B[..n] ==> A[n] == B[n]
  {
    assert A[n] in A;
    var k :| 0 <= k < |B| && B[k] == A[n];
    forall x | x in A[..n] ensures x in B[..n] {
      assert x in A && x < A[n];
      var j :| 0 <= j < |B| && B[j] == x;
      assert j < k;
    }
    if A[..n] == B[..n] {
      assert forall m :: 0 <= m < n ==> B[m] == B[..n][m] == A[m];
    }
  }

  lemma {:induction false} SubsequenceFills(A: seq<int>, B: seq<int>)
    requires Increasing(A) && Increasing(B) && |A| == |B| && forall x :: x in A ==> x in B
    ensures A == B
  {
    if A != [] {
      var n := |A| - 1;
      DropLast(A, B, n);
      SubsequenceFills(A[..n], B[..n]);
      assert A == A[..n] + [A[n]] && B == B[..n] + [B[n]];
    }
  }

  lemma {:induction false} PhysIncreasing(h: Region, first: int, mem: Memory, P: seq<int>, j: nat)
    requires IsRegion(h) && WordMemory(mem) && PhysChain(h, first, mem, P) && j < |P|
    ensures forall i :: 0 <= i < j ==> P[i] + HEADER <= P[j]
  {
    if j > 0 {
      PhysIncreasing(h, first, mem, P, j - 1);
      assert PhysNode(h, mem, P, j - 1);
      SaneMeans(h, mem, P[j - 1]);
    }
  }

  lemma {:induction false} FreeIncreasing(h: Region, freeList: int, mem: Memory, F: seq<int>, j: nat)
    requires FreeChain(h, freeList, mem, F) && j < |F|
    ensures forall i :: 0 <= i < j ==> F[i] < F[j]
  {
    if j > 0 {
      FreeIncreasing(h, freeList, mem, F, j - 1);
      assert FreeNode(h, mem, F, j);
    }
  }

  lemma {:induction false} ConsIncreasing(a: int, T: seq<int>)
    requires Increasing(T) && forall x :: x in T ==> a < x
    ensures Increasing([a] + T)
  {
    var S := [a] + T;
    forall i, j | 0 <= i < j < |S| ensures S[i] < S[j] {
      assert S[j] == T[j - 1] && T[j - 1] in T;
    }
  }

  lemma {:induction false} FreeOfIncreasing(mem: Memory, P: seq<int>)
    requires Increasing(P)
    ensures Increasing(FreeOf(mem, P))
    ensures forall x :: x in FreeOf(mem, P) <==> x in P && IsFree(At(mem, x))
  {
    if P != [] {
      assert forall x :: x in P <==> x == P[0] || x in P[1..];
      FreeOfIncreasing(mem, P[1..]);
      var T := FreeOf(mem, P[1..]);
      forall x | x in T ensures P[0] < x {
        assert x in P[1..];
      }
      ConsIncreasing(P[0], T);
    }
  }

  /** Equal counts and "every free block is on the list" together make the list exact. */
  lemma {:induction false} CountsSuffice(h: Region, first: int, freeList: int, mem: Memory, P: seq<int>, F: seq<int>)
    requires IsRegion(h) && WordMemory(mem) && PhysChain(h, first, mem, P) && FreeChain(h, freeList, mem, F)
    requires |FreeOf(mem, P)| == |F| && forall x :: x in FreeOf(mem, P) ==> x in F
    ensures FreeOf(mem, P) == F
  {
    forall i, j | 0 <= i < j < |P| ensures P[i] < P[j] {
      PhysIncreasing(h, first, mem, P, j);
    }
    forall i, j | 0 <= i < j < |F| ensures F[i] < F[j] {
      FreeIncreasing(h, freeList, mem, F, j);
    }
    FreeOfIncreasing(mem, P);
    SubsequenceFills(FreeOf(mem, P), F);
  }

  // ----- a represented, well-formed layout is intact -----

  function Addresses(L: seq<Block>): (P: seq<int>)
    ensures |P| == |L| && forall k :: 0 <= k < |L| ==> P[k] == L[k].addr
  {
    seq(|L|, k requires 0 <= k < |L| => L[k].addr)
  }

  lemma {:induction false} LayoutPhysChain(h: Region, freeList: int, mem: Memory, L: seq<Block>)
    requires Image(h, freeList, mem, L) && Coalesced(L)
    ensures PhysChain(h, h.start, mem, Addresses(L))
  {
    var P := Addresses(L);
    forall k | 0 <= k < |P| ensures PhysNode(h, mem, P, k) {
      SaneBlock(h, freeList, mem, L, k);
      AbutsNext(L, k, h.start, h.end);
      if k + 1 < |L| {
        SaneBlock(h, freeList, mem, L, k + 1);
      }
    }
  }

  /** The addresses of the linked blocks from index `k` on. */
  ghost function LinkedFrom(L: seq<Block>, k: nat): (F: seq<int>)
    requires k <= |L|
    ensures Follow(F, 0) == NextFreeAddr(L, k)
    ensures F == [] <==> NextLinked(L, k) == |L|
    decreases |L| - k
  {
    var n := NextLinked(L, k);
    if n == |L| then [] else [L[n].addr] + LinkedFrom(L, n + 1)
  }

  lemma {:induction false} LinkedFromWalk(h: Region, freeList: int, mem: Memory, L: seq<Block>, k: nat)
    requires Image(h, freeList, mem, L) && Settled(L) && k <= |L|
    ensures FreeWalk(h, mem, NextFreeAddr(L, k), PrevFreeAddr(L, k)) == Some(LinkedFrom(L, k))
    decreases |L| - k
  {
    var n := NextLinked(L, k);
    if n < |L| {
      SaneBlock(h, freeList, mem, L, n);
      LinkedFromWalk(h, freeList, mem, L, n + 1);
      TilesAscending(L, h.start, h.end);
      PrevUnique(L, n, PrevLinked(L, k));
      PrevUnique(L, n + 1, n);
    }
  }

  lemma {:induction false} LinkedFromStep(L: seq<Block>, k: nat)
    requires k < |L|
    ensures LinkedFrom(L, k) == (if L[k].linked then [L[k].addr] else []) + LinkedFrom(L, k + 1)
  {
    if !L[k].linked {
      NextUnique(L, k, NextLinked(L, k + 1));
    }
  }

  lemma {:induction false} LinkedFromFree(mem: Memory, L: seq<Block>, k: nat)
    requires k <= |L| && forall i :: k <= i < |L| ==> IsFree(At(mem, L[i].addr)) == L[i].linked
    ensures LinkedFrom(L, k) == FreeOf(mem, Addresses(L)[k..])
    decreases |L| - k
  {
    var P := Addresses(L)[k..];
    if k < |L| {
      LinkedFromStep(L, k);
      LinkedFromFree(mem, L, k + 1);
      assert P[1..] == Addresses(L)[k + 1..] && P[0] == L[k].addr;
    }
  }

  /** What the operations keep is what the checker checks. */
  lemma {:induction false} LayoutIntact(h: Region, freeList: int, mem: Memory, L: seq<Block>)
    requires Image(h, freeList, mem, L) && Coalesced(L) && Settled(L)
    ensures Intact(h, h.start, freeList, mem)
  {
    var P := Addresses(L);
    LayoutPhysChain(h, freeList, mem, L);
    LinkedFromWalk(h, freeList, mem, L, 0);
    forall i | 0 <= i < |L| ensures IsFree(At(mem, L[i].addr)) == L[i].linked {
      SaneBlock(h, freeList, mem, L, i);
    }
    LinkedFromFree(mem, L, 0);
    assert P[0..] == P;
    FreeWalkExact(h, freeList, mem, FreeOf(mem, P));
  }
}
