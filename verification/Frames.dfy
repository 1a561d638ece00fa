/** Page frames: the bitmap, and which frames a byte region covers. */
module Frames {
  import opened Words

  const FRAME: int := 4096
  const MAX_FRAMES: int := 0x10_0000

  // ----- bits -----

  /** pmm_bitmap_mask */
  function Mask(k: nat): bv8
    requires k < 8
  {
    if k == 0 then 1 else if k == 1 then 2 else if k == 2 then 4 else if k == 3 then 8
    else if k == 4 then 16 else if k == 5 then 32 else if k == 6 then 64 else 128
  }

  predicate Bit(b: bv8, k: nat)
    requires k < 8
  {
    b & Mask(k) != 0
  }

  lemma {:induction false} BitSet(b: bv8, j: nat, k: nat)
    requires j < 8 && k < 8
    ensures Bit(b | Mask(k), j) <==> j == k || Bit(b, j)
  {
  }

  lemma {:induction false} BitCleared(b: bv8, j: nat, k: nat)
    requires j < 8 && k < 8
    ensures Bit(b & !Mask(k), j) <==> j != k && Bit(b, j)
  {
  }

  lemma {:induction false} AllSet(j: nat)
    requires j < 8
    ensures Bit(0xFF, j)
  {
  }

  /** pmm_frame_is_used on the bitmap bytes. */
  predicate Used(bits: seq<bv8>, i: nat)
    requires i < 8 * |bits|
  {
    Bit(bits[i / 8], i % 8)
  }

  lemma {:induction false} UseFrame(bits: seq<bv8>, i: nat, j: nat)
    requires i < 8 * |bits| && j < 8 * |bits|
    ensures Used(bits[i / 8 := bits[i / 8] | Mask(i % 8)], j) <==> j == i || Used(bits, j)
  {
    BitSet(bits[i / 8], j % 8, i % 8);
  }

  lemma {:induction false} FreeFrame(bits: seq<bv8>, i: nat, j: nat)
    requires i < 8 * |bits| && j < 8 * |bits|
    ensures Used(bits[i / 8 := bits[i / 8] & !Mask(i % 8)], j) <==> j != i && Used(bits, j)
  {
    BitCleared(bits[i / 8], j % 8, i % 8);
  }

  /** `free` is the set of frames below `total` whose bit is clear. */
  ghost predicate Tracks(bits: seq<bv8>, total: nat, free: set<int>) {
    && total <= 8 * |bits|
    && (forall i :: i in free ==> 0 <= i < total)
    && (forall i: nat :: i < total ==> (i in free <==> !Used(bits, i)))
  }

  lemma {:induction false} TracksUse(bits: seq<bv8>, total: nat, free: set<int>, i: nat)
    requires Tracks(bits, total, free) && i < total
    ensures Tracks(bits[i / 8 := bits[i / 8] | Mask(i % 8)], total, free - {i as int})
  {
    var bits' := bits[i / 8 := bits[i / 8] | Mask(i % 8)];
    forall j: nat | j < total ensures j in free - {i as int} <==> !Used(bits', j) {
      UseFrame(bits, i, j);
    }
  }

  lemma {:induction false} TracksFree(bits: seq<bv8>, total: nat, free: set<int>, i: nat)
    requires Tracks(bits, total, free) && i < total
    ensures Tracks(bits[i / 8 := bits[i / 8] & !Mask(i % 8)], total, free + {i as int})
  {
    var bits' := bits[i / 8 := bits[i / 8] & !Mask(i % 8)];
    forall j: nat | j < total ensures j in free + {i as int} <==> !Used(bits', j) {
      FreeFrame(bits, i, j);
    }
  }

  // ----- regions, with the 32-bit arithmetic of the source -----

  function AlignDown(x: int): int {
    x / FRAME * FRAME
  }

  /** Rounds up modulo 2^32: above 0xFFFFF000 it wraps to 0. */
  function AlignUp(x: int): int {
    (x + FRAME - 1) % WORD / FRAME * FRAME
  }

  function EndOf(base: int, length: int): int {
    if base > WORD - 1 - length then WORD - 1 else base + length
  }

  lemma {:induction false} FrameAddress(i: int)
    ensures i * FRAME / FRAME == i && i * FRAME % FRAME == 0 && (0 <= i < MAX_FRAMES ==> 0 <= i * FRAME < WORD)
  {
    Quotient(4096 * i, i);
  }

  lemma {:induction false} Quotient(x: int, i: int)
    requires x == 4096 * i
    ensures x / 4096 == i && x % 4096 == 0
  {
  }

  /** First and one-past-last frame that pmm_release_region frees. */
  function ReleasedFrom(base: int): int {
    AlignUp(base) / FRAME
  }

  function ReleasedTo(base: int, length: int): int {
    AlignDown(EndOf(base, length)) / FRAME
  }

  /** First and one-past-last frame that pmm_reserve_region takes. */
  function ReservedFrom(base: int): int {
    base / FRAME
  }

  function ReservedTo(base: int, length: int): int {
    AlignUp(EndOf(base, length)) / FRAME
  }

  /** Frame `i` lies wholly inside the bytes, as far as 32 bits reach. */
  predicate Inside(i: int, base: int, length: int) {
    base <= i * FRAME && (i + 1) * FRAME <= base + length
  }

  /** Frame `i` shares a byte with the region. */
  predicate Touches(i: int, base: int, length: int) {
    i * FRAME < base + length && base < (i + 1) * FRAME
  }

  predicate IsWord(x: int) {
    0 <= x < WORD
  }

  /** pmm_release_region frees exactly the frames inside, except when the region starts in, or reaches past, the last page. */
  lemma {:induction false} ReleaseExact(base: int, length: int)
    requires IsWord(base) && IsWord(length) && length > 0
    ensures (forall i :: 0 <= i < MAX_FRAMES ==> (ReleasedFrom(base) <= i < ReleasedTo(base, length) <==> Inside(i, base, length)))
            <==> base <= 0xFFFF_F000 && base + length < WORD
  {
    if base <= 0xFFFF_F000 && base + length < WORD {
      forall i | 0 <= i < MAX_FRAMES
        ensures ReleasedFrom(base) <= i < ReleasedTo(base, length) <==> Inside(i, base, length)
      {
      }
    } else if base > 0xFFFF_F000 {
      assert ReleasedFrom(base) <= 0 < ReleasedTo(base, length) && !Inside(0, base, length);
    } else {
      assert !(ReleasedFrom(base) <= MAX_FRAMES - 1 < ReleasedTo(base, length)) && Inside(MAX_FRAMES - 1, base, length);
    }
  }

  /** A region in the last page makes pmm_release_region free every frame below it. */
  lemma {:induction false} ReleaseWraps()
    ensures ReleasedFrom(0xFFFF_F800) == 0 && ReleasedTo(0xFFFF_F800, 0x800) == 0xF_FFFF
  {
  }

  /** A region in the last page makes pmm_reserve_region reserve nothing. */
  lemma {:induction false} ReserveWraps()
    ensures ReservedFrom(0xFFFF_F000) == 0xF_FFFF && ReservedTo(0xFFFF_F000, 0x800) == 0
  {
  }

  /** pmm_reserve_region takes exactly the frames touched, except when the region ends in the last page. */
  lemma {:induction false} ReserveExact(base: int, length: int)
    requires IsWord(base) && IsWord(length) && length > 0
    ensures (forall i :: 0 <= i < MAX_FRAMES ==> (ReservedFrom(base) <= i < ReservedTo(base, length) <==> Touches(i, base, length)))
            <==> base + length <= 0xFFFF_F000
  {
    if base + length <= 0xFFFF_F000 {
      forall i | 0 <= i < MAX_FRAMES
        ensures ReservedFrom(base) <= i < ReservedTo(base, length) <==> Touches(i, base, length)
      {
      }
    } else {
      assert ReservedTo(base, length) == 0 && Touches(base / FRAME, base, length);
    }
  }
}
