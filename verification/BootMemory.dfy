/** bootinfo.c: memory ranges taken from the firmware's memory map. */
module BootMemory {
  const LIMIT: int := 0x1_0000_0000
  const MAX_RANGES: int := 64
  const AVAILABLE: int := 1

  /** A memory-map entry: 64-bit address and length. */
  datatype Entry = Entry(addr: int, len: int, kind: int)

  datatype Range = Range(base: int, length: int, kind: int)

  predicate IsEntry(e: Entry) {
    0 <= e.addr < LIMIT * LIMIT && 0 <= e.len < LIMIT * LIMIT
  }

  /** One-past-last address below 4 GiB that the entry covers, its 64-bit end wrapping or not. */
  function CappedEnd(e: Entry): int
    requires IsEntry(e)
  {
    var end := (e.addr + e.len) % (LIMIT * LIMIT);
    if end < e.addr || end > LIMIT then LIMIT else end
  }

  /** Entries that are stored: not empty, starting below 4 GiB, and not all of it. */
  predicate Kept(e: Entry)
    requires IsEntry(e)
  {
    e.len != 0 && e.addr < LIMIT && CappedEnd(e) - e.addr != LIMIT
  }

  function RangeOf(e: Entry): Range
    requires IsEntry(e)
  {
    Range(e.addr, CappedEnd(e) - e.addr, e.kind)
  }

  /** The ranges of the entries kept, in order. */
  function RangesOf(es: seq<Entry>): seq<Range>
    requires forall e :: e in es ==> IsEntry(e)
  {
    if es == [] then []
    else
      var e := es[|es| - 1];
      RangesOf(es[..|es| - 1]) + if Kept(e) then [RangeOf(e)] else []
  }

  /** A kept range is exactly the part of the entry below 4 GiB, and not empty. */
  lemma {:induction false} RangeMeans(e: Entry, a: int)
    requires IsEntry(e) && Kept(e)
    ensures var r := RangeOf(e);
            && 0 < r.length < LIMIT && 0 <= r.base && r.base + r.length <= LIMIT
            && (r.base <= a < r.base + r.length <==> e.addr <= a < e.addr + e.len && a < LIMIT)
  {
  }

  /** Highest address in an available range, 0 without one. */
  function Highest(rs: seq<Range>): (h: int)
    requires forall r :: r in rs ==> 0 < r.length && 0 <= r.base && r.base + r.length <= LIMIT
    ensures 0 <= h < LIMIT
    ensures forall r :: r in rs && r.kind == AVAILABLE ==> r.base + r.length - 1 <= h
    ensures h > 0 ==> exists r :: r in rs && r.kind == AVAILABLE && r.base + r.length - 1 == h
  {
    if rs == [] then 0
    else
      var r := rs[|rs| - 1];
      var h := Highest(rs[..|rs| - 1]);
      assert rs == rs[..|rs| - 1] + [r];
      if r.kind == AVAILABLE && r.base + r.length - 1 > h then r.base + r.length - 1 else h
  }

  /** Bytes in available ranges. */
  function UsableBytes(rs: seq<Range>): int {
    if rs == [] then 0
    else UsableBytes(rs[..|rs| - 1]) + if rs[|rs| - 1].kind == AVAILABLE then rs[|rs| - 1].length else 0
  }

  function Min(x: int, y: int): int {
    if x < y then x else y
  }

  ghost predicate InMemory(rs: seq<Range>) {
    forall r :: r in rs ==> 0 < r.length && 0 <= r.base && r.base + r.length <= LIMIT
  }

  /** The running maximum and the saturating total of a list of ranges. */
  ghost predicate Summed(rs: seq<Range>, usable: int, highest: int) {
    InMemory(rs) && highest == Highest(rs) && usable == Min(UsableBytes(rs), LIMIT - 1) && UsableBytes(rs) >= 0
  }

  /** The first 64 ranges kept. */
  function FirstRanges(es: seq<Entry>): seq<Range>
    requires forall e :: e in es ==> IsEntry(e)
  {
    RangesOf(es)[..Min(MAX_RANGES, |RangesOf(es)|)]
  }

  lemma {:induction false} RangesInMemory(es: seq<Entry>)
    requires forall e :: e in es ==> IsEntry(e)
    ensures InMemory(RangesOf(es)) && InMemory(FirstRanges(es))
    ensures forall r :: r in FirstRanges(es) ==> r.length < LIMIT && r.base < LIMIT
  {
    if es != [] {
      var e := es[|es| - 1];
      RangesInMemory(es[..|es| - 1]);
      if Kept(e) {
        RangeMeans(e, 0);
      }
    }
  }

  class BootInfo {
    var ranges: seq<Range>
    var usable: int
    var highest: int
    ghost var seen: seq<Entry>

    /** The fields are what the entries seen so far determine; after 64 ranges the rest are ignored. */
    ghost predicate Valid()
      reads this
    {
      && (forall e :: e in seen ==> IsEntry(e))
      && ranges == FirstRanges(seen)
      && Summed(ranges, usable, highest)
    }

    /** bootinfo_reset */
    constructor ()
      ensures Valid() && seen == []
    {
      ranges, usable, highest, seen := [], 0, 0, [];
    }

    /** The end of bootinfo_store_memory_range: one more range. */
    method AddRange(r: Range)
      requires Summed(ranges, usable, highest) && 0 < r.length < LIMIT && 0 <= r.base && r.base + r.length <= LIMIT
      modifies `ranges, `usable, `highest
      ensures ranges == old(ranges) + [r] && Summed(ranges, usable, highest)
    {
      var sum, top := Grow(r);
      SummedMore(ranges, usable, highest, r);
      ranges, usable, highest := ranges + [r], sum, top;
    }

    /** The saturating sum and the running maximum with one more range. */
    method Grow(r: Range) returns (sum: int, top: int)
      requires 0 <= usable < LIMIT && 0 < r.length < LIMIT
      ensures sum == if r.kind == AVAILABLE then Min(usable + r.length, LIMIT - 1) else usable
      ensures top == if r.kind == AVAILABLE && r.base + r.length - 1 > highest then r.base + r.length - 1 else highest
    {
      sum, top := usable, highest;
      if r.kind == AVAILABLE {
        if sum > LIMIT - 1 - r.length {
          sum := LIMIT - 1;
        } else {
          sum := sum + r.length;
        }
        if r.base + r.length - 1 > top {
          top := r.base + r.length - 1;
        }
      }
    }

    /** bootinfo_store_memory_range */
    method StoreMemoryRange(e: Entry)
      requires Valid() && IsEntry(e)
      modifies this
      ensures Valid() && seen == old(seen) + [e]
    {
      SeenMore(seen, e);
      seen := seen + [e];
      if |ranges| >= MAX_RANGES {
        return;
      }
      if e.len == 0 || e.addr >= LIMIT {
        return;
      }
      var length := CappedLength(e);
      if length == 0 {
        return;
      }
      RangeMeans(e, 0);
      AddRange(Range(e.addr, length, e.kind));
    }

    /** The part of the entry below 4 GiB, 0 if there is none. */
    method CappedLength(e: Entry) returns (length: int)
      requires IsEntry(e) && e.len != 0 && e.addr < LIMIT
      ensures length == 0 <==> !Kept(e)
      ensures Kept(e) ==> Range(e.addr, length, e.kind) == RangeOf(e)
    {
      var end := (e.addr + e.len) % (LIMIT * LIMIT);
      var capped := if end < e.addr || end > LIMIT then LIMIT else end;
      length := (capped - e.addr) % LIMIT;
      KeptLength(e);
    }
  }

  lemma {:induction false} SummedMore(rs: seq<Range>, usable: int, highest: int, r: Range)
    requires Summed(rs, usable, highest) && 0 < r.length < LIMIT && 0 <= r.base && r.base + r.length <= LIMIT
    ensures Summed(rs + [r],
                   if r.kind == AVAILABLE then Min(usable + r.length, LIMIT - 1) else usable,
                   if r.kind == AVAILABLE && r.base + r.length - 1 > highest then r.base + r.length - 1 else highest)
  {
    assert (rs + [r])[..|rs|] == rs;
  }

  lemma {:induction false} SeenMore(es: seq<Entry>, e: Entry)
    requires (forall x :: x in es ==> IsEntry(x)) && IsEntry(e)
    ensures forall x :: x in es + [e] ==> IsEntry(x)
    ensures FirstRanges(es + [e]) ==
            if |FirstRanges(es)| < MAX_RANGES && Kept(e) then FirstRanges(es) + [RangeOf(e)] else FirstRanges(es)
  {
    assert (es + [e])[..|es|] == es;
  }

  /** The 32-bit length is 0 exactly for the entries not kept. */
  lemma {:induction false} KeptLength(e: Entry)
    requires IsEntry(e) && e.len != 0 && e.addr < LIMIT
    ensures (CappedEnd(e) - e.addr) % LIMIT == 0 <==> !Kept(e)
    ensures Kept(e) ==> (CappedEnd(e) - e.addr) % LIMIT == CappedEnd(e) - e.addr
  {
  }
}
