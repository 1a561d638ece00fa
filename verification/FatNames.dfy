/**
 Directory entries of fat.c: short names, the checksum that ties a long name to its short
 entry, and the state that assembles a long name from its slots.

 A slot is 32 bytes; characters are their codes; a C string is the codes before its zero.
 */
module FatNames {
  const NAME_MAX: int := 255
  const QUESTION: int := 0x3F
  const UNDERSCORE: int := 0x5F
  const DOT: int := 0x2E
  const SPACE: int := 0x20

  ghost predicate Bytes(s: seq<int>) {
    forall i :: 0 <= i < |s| ==> 0 <= s[i] < 256
  }

  ghost predicate IsSlot(s: seq<int>) {
    |s| == 32 && Bytes(s)
  }

  // ----- the short-name checksum -----

  /** Rotate right by one and add, modulo 256. */
  function Rotated(sum: int, c: int): int {
    ((if sum % 2 == 1 then 128 else 0) + sum / 2 + c) % 256
  }

  /** Section "FAT Long Directory Entries" of the Microsoft FAT32 File System Specification 1.03. */
  function Checksum(name: seq<int>): int {
    if name == [] then 0 else Rotated(Checksum(name[..|name| - 1]), name[|name| - 1])
  }

  /** fat_short_name_checksum */
  method ShortNameChecksum(name: seq<int>) returns (sum: int)
    requires |name| == 11
    ensures sum == Checksum(name)
  {
    sum := 0;
    var i := 0;
    while i < 11
      invariant 0 <= i <= 11 && sum == Checksum(name[..i])
    {
      sum := Rotated(sum, name[i]);
      assert name[..i + 1][..i] == name[..i];
      i := i + 1;
    }
    assert name[..i] == name;
  }

  // ----- short names -----

  function Printable(c: int): int {
    if c < 32 || c > 126 then UNDERSCORE else c
  }

  /** A padded field without the spaces at its end. */
  function Trimmed(s: seq<int>): (t: seq<int>)
    ensures |t| <= |s| && t == s[..|t|]
  {
    if s == [] || s[|s| - 1] != SPACE then s else Trimmed(s[..|s| - 1])
  }

  function AllPrintable(s: seq<int>): (t: seq<int>)
    ensures |t| == |s| && forall i :: 0 <= i < |s| ==> t[i] == Printable(s[i])
  {
    if s == [] then [] else AllPrintable(s[..|s| - 1]) + [Printable(s[|s| - 1])]
  }

  /** NAME.EXT from the eleven bytes of a short name, "?" if both fields are blank. */
  function ShortName(raw: seq<int>): seq<int>
    requires |raw| == 11
  {
    var stem, ext := AllPrintable(Trimmed(raw[..8])), AllPrintable(Trimmed(raw[8..]));
    if stem == [] && ext == [] then [QUESTION] else if ext == [] then stem else stem + [DOT] + ext
  }

  /** The length of a padded field. */
  method FieldEnd(s: seq<int>) returns (end: nat)
    ensures end <= |s| && Trimmed(s) == s[..end]
  {
    end := |s|;
    assert s[..end] == s;
    while end > 0 && s[end - 1] == SPACE
      invariant 0 <= end <= |s| && Trimmed(s) == Trimmed(s[..end])
    {
      assert s[..end][..end - 1] == s[..end - 1];
      end := end - 1;
    }
  }

  method CopyField(s: seq<int>, first: bool) returns (t: seq<int>)
    ensures t == AllPrintable(s)
  {
    t := [];
    var i := 0;
    while i < |s|
      invariant 0 <= i <= |s| && t == AllPrintable(s[..i])
    {
      var c := if first && i == 0 && s[i] == 0x05 then 0xE5 else s[i];
      t := t + [Printable(c)];
      assert s[..i + 1][..i] == s[..i];
      i := i + 1;
    }
    assert s[..i] == s;
  }

  /** fat_copy_83_name */
  method CopyShortName(raw: seq<int>) returns (name: seq<int>)
    requires |raw| == 11
    ensures name == ShortName(raw)
  {
    var stemEnd := FieldEnd(raw[..8]);
    var extEnd := FieldEnd(raw[8..]);
    name := CopyField(raw[..8][..stemEnd], true);
    if extEnd > 0 {
      var ext := CopyField(raw[8..][..extEnd], false);
      name := name + [DOT] + ext;
    }
    if |name| == 0 {
      name := [QUESTION];
    }
  }

  // ----- comparing names -----

  function Upper(c: int): int {
    if 0x61 <= c <= 0x7A then c - 32 else c
  }

  predicate SameName(a: seq<int>, b: seq<int>) {
    |a| == |b| && forall i :: 0 <= i < |a| ==> Upper(a[i]) == Upper(b[i])
  }

  /** fat_name_equals_case_insensitive */
  method NameEquals(a: seq<int>, b: seq<int>) returns (same: bool)
    ensures same <==> SameName(a, b)
  {
    var i := 0;
    while i < |a| && i < |b|
      invariant 0 <= i <= |a| && i <= |b| && forall j :: 0 <= j < i ==> Upper(a[j]) == Upper(b[j])
    {
      if Upper(a[i]) != Upper(b[i]) {
        return false;
      }
      i := i + 1;
    }
    return i == |a| && i == |b|;
  }

  // ----- long names -----

  /** fat_lfn_state_t; `seen` holds the slot numbers whose bit is set. */
  datatype Lfn = Lfn(active: bool, total: int, checksum: int, seen: set<int>, name: seq<int>)

  function Zeros(n: nat): (z: seq<int>)
    ensures |z| == n && forall i :: 0 <= i < n ==> z[i] == 0
  {
    if n == 0 then [] else Zeros(n - 1) + [0]
  }

  function Cleared(): Lfn {
    Lfn(false, 0, 0, {}, Zeros(NAME_MAX + 1))
  }

  /** What storing a code unit leaves in a character of the name. */
  function Stored(old_: int, unit: int): int {
    if unit == 0 then 0 else if unit == 0xFFFF then old_ else if unit <= 0x7E then unit else QUESTION
  }

  /** The name with code units stored from `at` on, as far as it reaches. */
  function Overlay(name: seq<int>, at: int, units: seq<int>): (n: seq<int>)
    ensures |n| == |name|
    ensures forall j :: 0 <= j < |name| ==>
              n[j] == if at <= j < at + |units| && j < NAME_MAX then Stored(name[j], units[j - at]) else name[j]
  {
    seq(|name|, j requires 0 <= j < |name| =>
      if at <= j < at + |units| && j < NAME_MAX then Stored(name[j], units[j - at]) else name[j])
  }

  /** Where code unit `i` of a slot begins. */
  function UnitOffset(i: int): int {
    if i < 5 then 1 + 2 * i else if i < 11 then 14 + 2 * (i - 5) else 28 + 2 * (i - 11)
  }

  function Unit(slot: seq<int>, i: int): int
    requires |slot| == 32 && 0 <= i < 13
  {
    slot[UnitOffset(i)] + 256 * slot[UnitOffset(i) + 1]
  }

  /** The thirteen code units of a slot. */
  function Units(slot: seq<int>): (u: seq<int>)
    requires |slot| == 32
    ensures |u| == 13 && forall i :: 0 <= i < 13 ==> u[i] == Unit(slot, i)
  {
    seq(13, i requires 0 <= i < 13 => Unit(slot, i))
  }

  function Order(slot: seq<int>): int
    requires |slot| == 32
  {
    slot[0] % 32
  }

  predicate IsLast(slot: seq<int>)
    requires |slot| == 32
  {
    slot[0] / 64 % 2 == 1
  }

  /** The slot belongs to the name being assembled, or starts a new one. */
  predicate Accepts(s: Lfn, slot: seq<int>)
    requires |slot| == 32
  {
    && slot[11] == 0x0F && slot[12] == 0 && slot[26] + 256 * slot[27] == 0 && 1 <= Order(slot) <= 20
    && (IsLast(slot) || (s.active && s.total != 0 && Order(slot) <= s.total && slot[13] == s.checksum))
  }

  /** A last slot starts a new name; any other goes on with the one at hand. */
  function Begun(s: Lfn, slot: seq<int>): Lfn
    requires |slot| == 32
  {
    if IsLast(slot) then Cleared().(active := true, total := Order(slot), checksum := slot[13]) else s
  }

  function Filled(s: Lfn, slot: seq<int>): Lfn
    requires |slot| == 32
  {
    s.(seen := s.seen + {Order(slot)}, name := Overlay(s.name, (Order(slot) - 1) * 13, Units(slot)))
  }

  /** fat_lfn_collect */
  function Collected(s: Lfn, slot: seq<int>): Lfn
    requires |slot| == 32
  {
    if Accepts(s, slot) then Filled(Begun(s, slot), slot) else Cleared()
  }

  predicate Complete(s: Lfn) {
    s.active && forall k :: 1 <= k <= s.total ==> k in s.seen
  }

  lemma {:induction false} OverlayNext(name: seq<int>, at: int, units: seq<int>, i: nat)
    requires i < |units| && 0 <= at
    ensures Overlay(name, at, units[..i + 1]) == Overlay(Overlay(name, at, units[..i]), at + i, [units[i]])
  {
    var n, a, b := Overlay(name, at, units[..i]), Overlay(name, at, units[..i + 1]), Overlay(Overlay(name, at, units[..i]), at + i, [units[i]]);
    forall j | 0 <= j < |name| ensures a[j] == b[j] {
    }
  }

  // ----- encoding a long name in slots -----

  /** The names that slots can carry unchanged. */
  ghost predicate IsName(s: seq<int>) {
    1 <= |s| <= NAME_MAX && forall i :: 0 <= i < |s| ==> 0x20 <= s[i] <= 0x7E
  }

  /** Code unit `i` of the name as slots hold it: its end is marked with one zero and padded with ones. */
  function UnitFor(s: seq<int>, i: nat): int {
    if i < |s| then s[i] else if i == |s| then 0 else 0xFFFF
  }

  /** Which code unit of a slot byte `b` belongs to, if it does. */
  function UnitOf(b: int): int {
    if b < 11 then (b - 1) / 2 else if b < 26 then 5 + (b - 14) / 2 else 11 + (b - 28) / 2
  }

  function SlotByte(s: seq<int>, k: nat, sum: int, last: bool, b: int): int
    requires 1 <= k && 0 <= b < 32
  {
    if b == 0 then k + (if last then 64 else 0)
    else if b == 11 then 0x0F
    else if b == 13 then sum
    else if b == 12 || b == 26 || b == 27 then 0
    else
      var u := UnitFor(s, (k - 1) * 13 + UnitOf(b));
      if b == UnitOffset(UnitOf(b)) then u % 256 else u / 256
  }

  /** Slot number `k` of the name. */
  function EncodeSlot(s: seq<int>, k: nat, sum: int, last: bool): (slot: seq<int>)
    requires 1 <= k
    ensures |slot| == 32 && forall b :: 0 <= b < 32 ==> slot[b] == SlotByte(s, k, sum, last, b)
  {
    seq(32, b requires 0 <= b < 32 => SlotByte(s, k, sum, last, b))
  }

  function SlotCount(s: seq<int>): nat {
    (|s| + 12) / 13
  }

  ghost predicate Numbers(ks: seq<nat>, t: nat) {
    forall i :: 0 <= i < |ks| ==> 1 <= ks[i] <= t
  }

  /** The slots of the name with these numbers; the one with the highest is marked as the last. */
  function NameSlots(s: seq<int>, ks: seq<nat>, sum: int): seq<seq<int>>
    requires Numbers(ks, SlotCount(s))
  {
    if ks == [] then [] else [EncodeSlot(s, ks[0], sum, ks[0] == SlotCount(s))] + NameSlots(s, ks[1..], sum)
  }

  /** The order slots are written in: `k` down to 1. */
  function Down(k: nat): (ks: seq<nat>)
    ensures Numbers(ks, k) && (k > 0 ==> ks != [] && ks[0] == k)
  {
    if k == 0 then [] else [k] + Down(k - 1)
  }

  /** The thirteen code units of the name from `at` on. */
  function NameUnits(s: seq<int>, at: nat): (u: seq<int>)
    ensures |u| == 13 && forall i :: 0 <= i < 13 ==> u[i] == UnitFor(s, at + i)
  {
    seq(13, i requires 0 <= i => UnitFor(s, at + i))
  }

  lemma {:induction false} UnitPlaces(i: nat)
    requires i < 13
    ensures UnitOf(UnitOffset(i)) == i && UnitOf(UnitOffset(i) + 1) == i
    ensures UnitOffset(i) !in {0, 11, 12, 13, 26, 27} && UnitOffset(i) + 1 !in {0, 11, 12, 13, 26, 27} && 0 <= UnitOffset(i) < 31
  {
  }

  lemma {:induction false} EncodedUnit(s: seq<int>, k: nat, sum: int, last: bool, i: nat)
    requires 1 <= k && i < 13
    ensures Unit(EncodeSlot(s, k, sum, last), i) == UnitFor(s, (k - 1) * 13 + i)
  {
    var slot, at := EncodeSlot(s, k, sum, last), UnitOffset(i);
    UnitPlaces(i);
    assert slot[at] == SlotByte(s, k, sum, last, at) && slot[at + 1] == SlotByte(s, k, sum, last, at + 1);
  }

  lemma {:induction false} EncodedUnits(s: seq<int>, k: nat, sum: int, last: bool)
    requires 1 <= k
    ensures Units(EncodeSlot(s, k, sum, last)) == NameUnits(s, (k - 1) * 13)
  {
    var u, w := Units(EncodeSlot(s, k, sum, last)), NameUnits(s, (k - 1) * 13);
    forall i | 0 <= i < 13 ensures u[i] == w[i] {
      EncodedUnit(s, k, sum, last, i);
    }
  }

  /** What has been assembled when the slots numbered in `K` have been collected, in any order. */
  function Kept(s: seq<int>, K: set<int>, sum: int): Lfn {
    Lfn(true, SlotCount(s), sum, K, Masked(s, K))
  }

  /** A buffer that holds the characters of the name that those slots carry. */
  function Masked(s: seq<int>, K: set<int>): (n: seq<int>)
    ensures |n| == NAME_MAX + 1 && forall j :: 0 <= j <= NAME_MAX ==> n[j] == if j < |s| && j / 13 + 1 in K then s[j] else 0
  {
    seq(NAME_MAX + 1, j requires 0 <= j => if j < |s| && j / 13 + 1 in K then s[j] else 0)
  }

  /** The state with those slots collected; without the last one nothing is kept. */
  function Held(s: seq<int>, K: set<int>, sum: int): Lfn {
    if K == {} then Cleared() else Kept(s, K, sum)
  }

  /** The slot numbers kept after slot `k` of `t`: the last slot starts afresh, and before it others are dropped. */
  function Gained(K: set<int>, k: nat, t: nat): set<int> {
    if k == t then {t} else if t in K then K + {k} else {}
  }

  /** The same after a run of slots. */
  function Gather(K: set<int>, ks: seq<nat>, t: nat): set<int>
    decreases |ks|
  {
    if ks == [] then K else Gather(Gained(K, ks[0], t), ks[1..], t)
  }

  lemma {:induction false} GatherDown(K: set<int>, k: nat, t: nat)
    requires k <= t && (k == t || t in K)
    ensures forall j :: 1 <= j <= k ==> j in Gather(K, Down(k), t)
    ensures k < t ==> K <= Gather(K, Down(k), t)
    decreases k
  {
    if k > 0 {
      assert Down(k)[1..] == Down(k - 1);
      GatherDown(Gained(K, k, t), k - 1, t);
    }
  }

  lemma {:induction false} MaskGrows(s: seq<int>, K: set<int>, k: nat)
    requires IsName(s) && 1 <= k
    ensures Overlay(Masked(s, K), (k - 1) * 13, NameUnits(s, (k - 1) * 13)) == Masked(s, K + {k})
  {
    var at := (k - 1) * 13;
    var before, units, after := Masked(s, K), NameUnits(s, at), Masked(s, K + {k});
    var name := Overlay(before, at, units);
    forall j | 0 <= j <= NAME_MAX ensures name[j] == after[j] {
      InSlot(j, k);
      if at <= j < at + 13 {
        assert units[j - at] == UnitFor(s, at + (j - at));
      }
    }
  }

  lemma {:induction false} InSlot(j: nat, k: nat)
    requires 1 <= k
    ensures (k - 1) * 13 <= j < (k - 1) * 13 + 13 <==> j / 13 + 1 == k
  {
  }

  lemma {:induction false} FilledAt(l: Lfn, slot: seq<int>, k: int, name: seq<int>)
    requires |slot| == 32 && Order(slot) == k && Overlay(l.name, (k - 1) * 13, Units(slot)) == name
    ensures Filled(l, slot) == l.(seen := l.seen + {k}, name := name)
  {
  }

  lemma {:induction false} FillSlot(s: seq<int>, K: set<int>, k: nat, sum: int, last: bool)
    requires IsName(s) && 1 <= k <= 20
    ensures Filled(Kept(s, K, sum), EncodeSlot(s, k, sum, last)) == Kept(s, K + {k}, sum)
  {
    SlotHeader(s, k, sum, last);
    EncodedUnits(s, k, sum, last);
    MaskGrows(s, K, k);
    FilledAt(Kept(s, K, sum), EncodeSlot(s, k, sum, last), k, Masked(s, K + {k}));
  }

  /** Collecting slot `k` adds it, whatever was there before if it is the last one. */
  lemma {:induction false} CollectSlot(l: Lfn, s: seq<int>, K: set<int>, k: nat, sum: int)
    requires IsName(s) && 1 <= k <= SlotCount(s)
    requires k == SlotCount(s) || (l == Held(s, K, sum) && (K == {} || SlotCount(s) in K))
    ensures Collected(l, EncodeSlot(s, k, sum, k == SlotCount(s))) == Held(s, Gained(K, k, SlotCount(s)), sum)
  {
    var last := k == SlotCount(s);
    SlotHeader(s, k, sum, last);
    if last {
      assert Masked(s, {}) == Zeros(NAME_MAX + 1);
      FillSlot(s, {}, k, sum, last);
      assert {} + {k} == {k};
    } else if K != {} {
      FillSlot(s, K, k, sum, last);
    }
  }

  lemma {:induction false} SlotHeader(s: seq<int>, k: nat, sum: int, last: bool)
    requires 1 <= k <= 20
    ensures var slot := EncodeSlot(s, k, sum, last);
            && slot[11] == 0x0F && slot[12] == 0 && slot[26] + 256 * slot[27] == 0 && slot[13] == sum
            && Order(slot) == k && (IsLast(slot) <==> last) && slot[0] != 0 && slot[0] != 0xE5
  {
  }

  // ----- C strings -----

  /** How many characters from `i` on precede the zero, NAME_MAX in all at most. */
  function NameEnd(name: seq<int>, i: nat): (n: nat)
    requires i <= |name|
    ensures i <= n <= |name|
    decreases |name| - i
  {
    if i == |name| || i >= NAME_MAX || name[i] == 0 then i else NameEnd(name, i + 1)
  }

  function CString(name: seq<int>): seq<int> {
    name[..NameEnd(name, 0)]
  }

  /** The copying loop of fat_visit_sector_entries. */
  method CopyName(name: seq<int>) returns (copy: seq<int>)
    requires |name| == NAME_MAX + 1
    ensures copy == CString(name)
  {
    copy := [];
    var i := 0;
    while i < NAME_MAX
      invariant 0 <= i <= NAME_MAX && copy == name[..i] && NameEnd(name, i) == NameEnd(name, 0)
    {
      if name[i] == 0 {
        break;
      }
      copy := copy + [name[i]];
      i := i + 1;
    }
  }

  lemma {:induction false} NameEndAt(name: seq<int>, i: nat, n: nat)
    requires i <= n < |name| && n <= NAME_MAX && (n == NAME_MAX || name[n] == 0)
    requires forall j :: i <= j < n ==> name[j] != 0
    ensures NameEnd(name, i) == n
    decreases n - i
  {
    if i < n {
      NameEndAt(name, i + 1, n);
    }
  }

  /** The first slot from `k` on that is missing, one past the last when none is. */
  function FirstMissing(K: set<int>, k: nat, t: nat): (m: nat)
    requires 1 <= k <= t + 1
    ensures k <= m <= t + 1 && (m <= t ==> m !in K) && forall j :: k <= j < m ==> j in K
    decreases t + 1 - k
  {
    if k > t || k !in K then k else FirstMissing(K, k + 1, t)
  }

  /** How much of the name precedes the first missing slot. */
  function Cut(s: seq<int>, K: set<int>): (n: nat)
    ensures n <= |s|
  {
    var n := (FirstMissing(K, 1, SlotCount(s)) - 1) * 13;
    if n < |s| then n else |s|
  }

  /** The assembled name is the encoded one up to the first missing slot. */
  lemma {:induction false} AssembledName(s: seq<int>, K: set<int>)
    requires IsName(s)
    ensures CString(Masked(s, K)) == s[..Cut(s, K)]
    ensures (Masked(s, K)[0] != 0 <==> 1 in K) && (1 in K <==> Cut(s, K) > 0)
    ensures Cut(s, K) == |s| <==> forall k :: 1 <= k <= SlotCount(s) ==> k in K
  {
    var name, n := Masked(s, K), Cut(s, K);
    NameEndAt(name, 0, n);
    assert name[..n] == s[..n];
  }

  class NameState {
    var active: bool
    var total: int
    var checksum: int
    var seen: set<int>
    const name: array<int>

    ghost predicate Valid()
      reads this
    {
      name.Length == NAME_MAX + 1
    }

    function State(): Lfn
      reads this, name
    {
      Lfn(active, total, checksum, seen, name[..])
    }

    constructor ()
      ensures Valid() && fresh(name) && State() == Cleared()
    {
      active, total, checksum, seen := false, 0, 0, {};
      name := new int[NAME_MAX + 1](i => 0);
    }

    /** fat_lfn_reset */
    method Reset()
      requires Valid()
      modifies this, name
      ensures Valid() && State() == Cleared()
    {
      active, total, checksum, seen := false, 0, 0, {};
      var i := 0;
      while i < name.Length
        invariant 0 <= i <= name.Length && forall j :: 0 <= j < i ==> name[j] == 0
        invariant !active && total == 0 && checksum == 0 && seen == {}
      {
        name[i] := 0;
        i := i + 1;
      }
    }

    /** fat_lfn_store_name_part */
    method StoreNamePart(order: int, index: nat, unit: int)
      requires Valid() && 1 <= order
      modifies name
      ensures name[..] == Overlay(old(name[..]), (order - 1) * 13 + index, [unit])
    {
      var target := (order - 1) * 13 + index;
      if target >= NAME_MAX {
        return;
      }
      if unit == 0 {
        name[target] := 0;
        return;
      }
      if unit == 0xFFFF {
        return;
      }
      name[target] := if unit <= 0x7E then unit else QUESTION;
    }

    /** Stores units `first` to `last` of a slot. */
    method StorePart(order: int, slot: seq<int>, first: nat, last: nat, ghost was: seq<int>, ghost at: nat)
      requires Valid() && 1 <= order && at == (order - 1) * 13 && |slot| == 32 && first <= last <= 13 && |was| == NAME_MAX + 1
      requires name[..] == Overlay(was, at, Units(slot)[..first])
      modifies name
      ensures name[..] == Overlay(was, at, Units(slot)[..last])
    {
      var i := first;
      while i < last
        invariant first <= i <= last && name[..] == Overlay(was, at, Units(slot)[..i])
      {
        OverlayNext(was, at, Units(slot), i);
        StoreNamePart(order, i, Unit(slot, i));
        i := i + 1;
      }
    }

    method StoreSlot(order: int, slot: seq<int>)
      requires Valid() && 1 <= order && |slot| == 32
      modifies name
      ensures name[..] == Overlay(old(name[..]), (order - 1) * 13, Units(slot))
    {
      ghost var was := name[..];
      assert Overlay(was, (order - 1) * 13, Units(slot)[..0]) == was;
      StorePart(order, slot, 0, 5, was, (order - 1) * 13);
      StorePart(order, slot, 5, 11, was, (order - 1) * 13);
      StorePart(order, slot, 11, 13, was, (order - 1) * 13);
      assert Units(slot)[..13] == Units(slot);
    }

    /** The checks of fat_lfn_collect. */
    method Begin(slot: seq<int>) returns (ok: bool)
      requires Valid() && IsSlot(slot)
      modifies this, name
      ensures Valid() && ok == Accepts(old(State()), slot)
      ensures State() == if ok then Begun(old(State()), slot) else Cleared()
    {
      if slot[11] != 0x0F || slot[12] != 0 || slot[26] + 256 * slot[27] != 0 {
        Reset();
        return false;
      }
      var order := slot[0] % 32;
      if order == 0 || order > 20 {
        Reset();
        return false;
      }
      if slot[0] / 64 % 2 == 1 {
        Reset();
        active, total, checksum := true, order, slot[13];
      } else if !active || total == 0 || order > total || slot[13] != checksum {
        Reset();
        return false;
      }
      return true;
    }

    method Fill(slot: seq<int>)
      requires Valid() && IsSlot(slot) && 1 <= Order(slot)
      modifies `seen, name
      ensures Valid() && State() == Filled(old(State()), slot)
    {
      seen := seen + {slot[0] % 32};
      StoreSlot(slot[0] % 32, slot);
      FilledAt(old(State()), slot, Order(slot), name[..]);
    }

    /** fat_lfn_collect */
    method Collect(slot: seq<int>) returns (complete: bool)
      requires Valid() && IsSlot(slot)
      modifies this, name
      ensures Valid() && State() == Collected(old(State()), slot)
      ensures complete <==> Complete(State())
    {
      var ok := Begin(slot);
      if !ok {
        return false;
      }
      Fill(slot);
      complete := active && forall k :: 1 <= k <= total ==> k in seen;
    }
  }
}
