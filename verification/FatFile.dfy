/** The seekable file handle of fat.c. */
module FatFile {
  import opened Words
  import opened Wrappers
  import opened FatVolume

  const MAX_VISITED: int := 256

  /** The fields of an open file that reading and seeking change. */
  datatype Handle = Handle(position: int, current: int, clusterOffset: int, clustersSeen: int, visited: seq<int>)

  /** fat_file_cluster_size_bytes: sector size times sectors per cluster. */
  function ClusterBytes(v: Volume): int {
    if v.bytesPerSector == 512 then 512 * v.sectorsPerCluster
    else if v.bytesPerSector == 1024 then 1024 * v.sectorsPerCluster
    else if v.bytesPerSector == 2048 then 2048 * v.sectorsPerCluster
    else 4096 * v.sectorsPerCluster
  }

  lemma {:induction false} ClusterSize(v: Volume)
    requires IsVolume(v)
    ensures 512 <= ClusterBytes(v) <= 0x8_0000 && ClusterBytes(v) == v.bytesPerSector * v.sectorsPerCluster
  {
  }

  // ----- places in a file of clusters of d bytes -----

  /** Where cluster `k` begins. */
  function Base(d: int, k: nat): int {
    if k == 0 then 0 else Base(d, k - 1) + d
  }

  /** Which cluster byte `p` lies in. */
  function Index(d: int, p: int): nat
    requires 0 < d
    decreases p
  {
    if p < d then 0 else 1 + Index(d, p - d)
  }

  lemma {:induction false} BaseIsProduct(d: int, k: nat)
    ensures Base(d, k) == k * d
  {
    if k > 0 {
      BaseIsProduct(d, k - 1);
      assert k * d == (k - 1) * d + d;
    }
  }

  lemma {:induction false} BaseShift(d: int, k: nat)
    ensures Base(d, k + 1) == d + Base(d, k)
  {
    if k > 0 {
      BaseShift(d, k - 1);
    }
  }

  lemma {:induction false} BaseGrows(d: int, j: nat, k: nat)
    requires 0 < d && j <= k
    ensures Base(d, j) + (k - j) <= Base(d, k)
    decreases k - j
  {
    if j < k {
      BaseGrows(d, j, k - 1);
    }
  }

  lemma {:induction false} BaseBound(d: int, k: nat)
    requires 0 < d <= 0x8_0000
    ensures 0 <= Base(d, k) <= 0x8_0000 * k
  {
    if k > 0 {
      BaseBound(d, k - 1);
    }
  }

  lemma {:induction false} IndexPlace(d: int, p: nat)
    requires 0 < d
    ensures Base(d, Index(d, p)) <= p < Base(d, Index(d, p)) + d
    decreases p
  {
    if p >= d {
      IndexPlace(d, p - d);
      BaseShift(d, Index(d, p - d));
    }
  }

  lemma {:induction false} IndexUnique(d: int, p: nat, k: nat)
    requires 0 < d && Base(d, k) <= p < Base(d, k) + d
    ensures Index(d, p) == k
  {
    IndexPlace(d, p);
    var i := Index(d, p);
    if i < k {
      BaseGrows(d, i + 1, k);
    } else if k < i {
      BaseGrows(d, k + 1, i);
    }
  }

  lemma {:induction false} IndexIsQuotient(d: int, p: nat)
    requires 0 < d
    ensures Index(d, p) == p / d && Base(d, Index(d, p)) == p - p % d
  {
    var k := p / d;
    assert p == k * d + p % d && 0 <= k;
    BaseIsProduct(d, k);
    IndexUnique(d, p, k);
  }

  // ----- advancing to the next cluster -----

  /** fat_file_max_clusters */
  function MaxClusters(v: Volume, size: int): int
    requires IsVolume(v)
  {
    ClusterSize(v);
    if size == 0 then 0 else Index(ClusterBytes(v), (size + ClusterBytes(v) - 1) % WORD)
  }

  /** fat_file_advance_cluster, on values. */
  function Advanced(v: Volume, disk: Disk, size: int, h: Handle): (Status, Handle)
    requires IsVolume(v) && IsDisk(v, disk) && 0 <= h.current < WORD
  {
    AdvancedBy(v, MaxClusters(v, size), FatEntry(v, disk, h.current), h)
  }

  /** The same, given the most clusters a file of this size has and the entry of the current cluster. */
  function AdvancedBy(v: Volume, most: int, e: Option<int>, h: Handle): (Status, Handle) {
    if h.current == 0 || !ClusterValid(v, h.current) || h.clustersSeen >= most then (Corrupt, h)
    else if e.None? then (IoError, h)
    else if !EntryLinks(v, e.value) || e.value in h.visited || |h.visited| >= MAX_VISITED then (Corrupt, h)
    else (Ok, Handle(h.position, e.value, (h.clusterOffset + ClusterBytes(v)) % WORD, (h.clustersSeen + 1) % WORD, h.visited + [e.value]))
  }

  // ----- healthy files -----

  ghost predicate LinkOk(v: Volume, disk: Disk, c: int, next: int)
    requires IsVolume(v) && IsDisk(v, disk)
  {
    0 <= c < WORD && EntryLinks(v, next) && FatEntry(v, disk, c) == Some(next)
  }

  /** Every sector of the cluster can be read. */
  ghost predicate Readable(v: Volume, disk: Disk, c: int) {
    forall k :: 0 <= k < v.sectorsPerCluster ==> SectorLba(v, c, k) in disk
  }

  /** Valid, readable, distinct clusters, each linked to the next. */
  ghost predicate Chain(v: Volume, disk: Disk, chain: seq<int>)
    requires IsVolume(v) && IsDisk(v, disk)
  {
    && Distinct(chain)
    && (forall i :: 0 <= i < |chain| ==> ClusterValid(v, chain[i]) && 0 <= chain[i] < WORD && Readable(v, disk, chain[i]))
    && (forall i :: 0 < i < |chain| ==> LinkOk(v, disk, chain[i - 1], chain[i]))
  }

  /** Just enough clusters for `size` bytes. */
  predicate Fits(v: Volume, size: int, n: nat) {
    && 0 <= size < WORD
    && if size == 0 then n == 0 else n > 0 && Base(ClusterBytes(v), n - 1) < size <= Base(ClusterBytes(v), n)
  }

  /** `chain` is a loop-free, readable chain of just enough clusters for `size` bytes. */
  ghost predicate Sound(v: Volume, disk: Disk, size: int, chain: seq<int>) {
    IsVolume(v) && IsDisk(v, disk) && Fits(v, size, |chain|) && Chain(v, disk, chain)
  }

  /** A sound file within the limit of the visited table. */
  ghost predicate Healthy(v: Volume, disk: Disk, size: int, chain: seq<int>) {
    Sound(v, disk, size, chain) && |chain| <= MAX_VISITED
  }

  /** How many of the `n` clusters of a sound file the code can enter: 256, or one when rounding the size up overflows. */
  function Reach(v: Volume, size: int, n: nat): nat {
    var most := if size + ClusterBytes(v) - 1 >= WORD then 1 else MAX_VISITED;
    if n < most then n else most
  }

  /** Byte `r` of a cluster. */
  function ClusterByte(v: Volume, disk: Disk, c: int, r: int): int
    requires IsVolume(v) && IsDisk(v, disk)
  {
    var lba := SectorLba(v, c, SectorOf(v, r));
    if lba in disk then disk[lba][InSector(v, r)] else 0
  }

  /** Byte `p` of the file. */
  function ByteAt(v: Volume, disk: Disk, chain: seq<int>, p: nat): int
    requires IsVolume(v) && IsDisk(v, disk)
  {
    ClusterSize(v);
    var k := Index(ClusterBytes(v), p);
    if k < |chain| then ClusterByte(v, disk, chain[k], p - Base(ClusterBytes(v), k)) else 0
  }

  /** The bytes of the chain, cut to the size of the file. */
  function Contents(v: Volume, disk: Disk, chain: seq<int>, size: nat): (b: seq<int>)
    requires IsVolume(v) && IsDisk(v, disk)
    ensures |b| == size && forall p :: 0 <= p < size ==> b[p] == ByteAt(v, disk, chain, p)
  {
    seq(size, p requires 0 <= p => ByteAt(v, disk, chain, p))
  }

  /** Chain index of the cluster a handle at position `p` is in; at the end it stays in the last one. */
  function IndexAt(v: Volume, size: int, p: int): nat
    requires IsVolume(v)
  {
    ClusterSize(v);
    Index(ClusterBytes(v), if p < size then p else size - 1)
  }

  /** A handle at position `p` that has reached cluster `k` of the chain. */
  function HandleIn(v: Volume, chain: seq<int>, k: nat, p: int): Handle
    requires k < |chain|
  {
    Handle(p, chain[k], Base(ClusterBytes(v), k), k + 1, chain[..k + 1])
  }

  /** The handle that sequential reading leaves at position `p`. */
  function HandleAt(v: Volume, size: int, chain: seq<int>, p: int): Handle
    requires IsVolume(v)
  {
    var k := IndexAt(v, size, p);
    if size == 0 || k >= |chain| then Handle(p, 0, 0, 0, []) else HandleIn(v, chain, k, p)
  }

  lemma {:induction false} ChainCovers(v: Volume, size: int, n: nat, p: int)
    requires IsVolume(v) && Fits(v, size, n) && 0 <= p < size
    ensures Index(ClusterBytes(v), p) < n
  {
    var d := ClusterBytes(v);
    IndexPlace(d, p);
    if Index(d, p) >= n {
      BaseGrows(d, n, Index(d, p));
    }
  }

  lemma {:induction false} ChainEnds(v: Volume, size: int, n: nat)
    requires IsVolume(v) && Fits(v, size, n) && size > 0
    ensures Index(ClusterBytes(v), size - 1) == n - 1
    ensures MaxClusters(v, size) == if size + ClusterBytes(v) - 1 >= WORD then 0 else n
  {
    var d := ClusterBytes(v);
    ClusterSize(v);
    IndexUnique(d, size - 1, n - 1);
    if size + d - 1 < WORD {
      BaseShift(d, n - 1);
      IndexUnique(d, size + d - 1, n);
    }
  }

  /** Within the limit every cluster can be entered. */
  lemma {:induction false} HealthyReach(v: Volume, size: int, n: nat)
    requires IsVolume(v) && Fits(v, size, n) && n <= MAX_VISITED
    ensures Reach(v, size, n) == n
  {
    ClusterSize(v);
    BaseBound(ClusterBytes(v), n);
  }

  // ----- advancing through a chain -----

  lemma {:induction false} AdvanceTo(v: Volume, chain: seq<int>, k: nat, p: int, at: int, most: int)
    requires IsVolume(v) && k + 1 < |chain| && k + 1 < MAX_VISITED && k + 1 < most
    requires ClusterValid(v, chain[k]) && EntryLinks(v, chain[k + 1]) && Distinct(chain) && 0 <= at < WORD - ClusterBytes(v)
    ensures AdvancedBy(v, most, Some(chain[k + 1]), Handle(p, chain[k], at, k + 1, chain[..k + 1])) ==
            (Ok, Handle(p, chain[k + 1], at + ClusterBytes(v), k + 2, chain[..k + 2]))
  {
    ClusterSize(v);
    assert chain[k + 1] !in chain[..k + 1];
    assert chain[..k + 1] + [chain[k + 1]] == chain[..k + 2];
  }

  lemma {:induction false} AdvanceSound(v: Volume, disk: Disk, size: int, chain: seq<int>, k: nat, p: int)
    requires Sound(v, disk, size, chain) && k + 1 < Reach(v, size, |chain|)
    ensures 0 <= chain[k] < WORD && Advanced(v, disk, size, HandleIn(v, chain, k, p)) == (Ok, HandleIn(v, chain, k + 1, p))
  {
    assert LinkOk(v, disk, chain[k + 1 - 1], chain[k + 1]);
    ClusterSize(v);
    BaseBound(ClusterBytes(v), k);
    ChainEnds(v, size, |chain|);
    AdvanceTo(v, chain, k, p, Base(ClusterBytes(v), k), |chain|);
  }

  /** A chain is never walked past its last cluster, nor past the last one that can be entered. */
  lemma {:induction false} AdvanceStops(v: Volume, disk: Disk, size: int, chain: seq<int>, p: int)
    requires Sound(v, disk, size, chain) && size > 0
    ensures var k := Reach(v, size, |chain|) - 1;
            && 0 <= k < |chain| && 0 <= chain[k] < WORD
            && Advanced(v, disk, size, HandleIn(v, chain, k, p)) == (Corrupt, HandleIn(v, chain, k, p))
  {
    var k := Reach(v, size, |chain|) - 1;
    ChainEnds(v, size, |chain|);
    if k + 1 < |chain| {
      assert LinkOk(v, disk, chain[k + 1 - 1], chain[k + 1]);
    }
  }

  // ----- one round of a read -----

  lemma {:induction false} SectorInside(v: Volume, r: int)
    requires IsVolume(v) && 0 <= r < ClusterBytes(v)
    ensures 0 <= SectorOf(v, r) < v.sectorsPerCluster && r - InSector(v, r) + v.bytesPerSector <= ClusterBytes(v)
  {
  }

  /** A byte of the same sector as byte `r` of a cluster. */
  lemma {:induction false} SectorByte(v: Volume, disk: Disk, c: int, r: nat, i: nat)
    requires IsVolume(v) && IsDisk(v, disk) && InSector(v, r) + i < v.bytesPerSector && SectorLba(v, c, SectorOf(v, r)) in disk
    ensures ClusterByte(v, disk, c, r + i) == disk[SectorLba(v, c, SectorOf(v, r))][InSector(v, r) + i]
  {
    SameSector(v, r, i);
  }

  /** A byte of cluster `k`. */
  lemma {:induction false} InCluster(v: Volume, disk: Disk, chain: seq<int>, k: nat, r: nat)
    requires IsVolume(v) && IsDisk(v, disk) && k < |chain| && r < ClusterBytes(v)
    ensures 0 <= Base(ClusterBytes(v), k)
    ensures ByteAt(v, disk, chain, Base(ClusterBytes(v), k) + r) == ClusterByte(v, disk, chain[k], r)
  {
    var d := ClusterBytes(v);
    ClusterSize(v);
    BaseBound(d, k);
    IndexUnique(d, Base(d, k) + r, k);
  }

  lemma {:induction false} RoundReadable(v: Volume, disk: Disk, chain: seq<int>, k: nat, r: nat)
    requires IsVolume(v) && IsDisk(v, disk) && Chain(v, disk, chain) && k < |chain| && r < ClusterBytes(v)
    ensures SectorLba(v, chain[k], SectorOf(v, r)) in disk
    ensures r - InSector(v, r) + v.bytesPerSector <= ClusterBytes(v)
  {
    SectorInside(v, r);
    assert Readable(v, disk, chain[k]);
  }

  lemma {:induction false} RoundByte(v: Volume, disk: Disk, chain: seq<int>, k: nat, r: nat, i: nat, lba: int)
    requires IsVolume(v) && IsDisk(v, disk) && k < |chain| && r + i < ClusterBytes(v)
    requires InSector(v, r) + i < v.bytesPerSector && lba == SectorLba(v, chain[k], SectorOf(v, r)) && lba in disk
    ensures 0 <= Base(ClusterBytes(v), k) && ByteAt(v, disk, chain, Base(ClusterBytes(v), k) + r + i) == disk[lba][InSector(v, r) + i]
  {
    InCluster(v, disk, chain, k, r + i);
    SectorByte(v, disk, chain[k], r, i);
    assert Base(ClusterBytes(v), k) + (r + i) == Base(ClusterBytes(v), k) + r + i;
  }

  /** `n` bytes copied out of a sector of cluster `k` are the file's bytes there. */
  lemma {:induction false} RoundBytes(v: Volume, disk: Disk, size: nat, chain: seq<int>, k: nat, r: nat, n: nat, p: nat, o: nat, lba: int)
    requires IsVolume(v) && IsDisk(v, disk) && k < |chain| && p == Base(ClusterBytes(v), k) + r && p + n <= size
    requires o == InSector(v, r) && o + n <= v.bytesPerSector && r - o + v.bytesPerSector <= ClusterBytes(v)
    requires lba == SectorLba(v, chain[k], SectorOf(v, r)) && lba in disk
    ensures Contents(v, disk, chain, size)[p..p + n] == disk[lba][o..o + n]
  {
    var from, into := Contents(v, disk, chain, size)[p..p + n], disk[lba][o..o + n];
    forall i | 0 <= i < n ensures from[i] == into[i] {
      RoundByte(v, disk, chain, k, r, i, lba);
    }
  }

  /** Reading on to `q` inside cluster `k` leaves the handle where it should be. */
  lemma {:induction false} StaysIn(v: Volume, size: int, chain: seq<int>, k: nat, q: int)
    requires IsVolume(v) && Fits(v, size, |chain|) && k < |chain| && Base(ClusterBytes(v), k) < q <= size
    requires q < Base(ClusterBytes(v), k) + ClusterBytes(v) || (q == size && q == Base(ClusterBytes(v), k) + ClusterBytes(v))
    ensures HandleIn(v, chain, k, q) == HandleAt(v, size, chain, q) && IndexAt(v, size, q) == k
  {
    ClusterSize(v);
    BaseBound(ClusterBytes(v), k);
    IndexUnique(ClusterBytes(v), if q == size then q - 1 else q, k);
  }

  /** Reading up to the end of cluster `k` leaves the handle one advance away, if the next cluster can be entered. */
  lemma {:induction false} MovesOn(v: Volume, disk: Disk, size: int, chain: seq<int>, k: nat, q: int)
    requires Sound(v, disk, size, chain) && k < Reach(v, size, |chain|) && q == Base(ClusterBytes(v), k) + ClusterBytes(v) < size
    ensures k < |chain| && 0 <= chain[k] < WORD
    ensures Advanced(v, disk, size, HandleIn(v, chain, k, q)) ==
            if k + 1 < Reach(v, size, |chain|) then (Ok, HandleAt(v, size, chain, q)) else (Corrupt, HandleIn(v, chain, k, q))
    ensures IndexAt(v, size, q) == k + 1
  {
    ClusterSize(v);
    BaseBound(ClusterBytes(v), k + 1);
    IndexUnique(ClusterBytes(v), q, k + 1);
    if k + 1 < Reach(v, size, |chain|) {
      AdvanceSound(v, disk, size, chain, k, q);
    } else {
      AdvanceStops(v, disk, size, chain, q);
    }
  }

  // ----- seeking, on values -----

  /** fat_file_reset_state */
  function Start(size: int, first: int): Handle {
    if size == 0 then Handle(0, 0, 0, 0, []) else Handle(0, first, 0, 1, [first])
  }

  /** `n` advances in a row, stopping at the first that fails. */
  function Advances(v: Volume, disk: Disk, size: int, n: nat, h: Handle): (r: (Status, Handle))
    requires IsVolume(v) && IsDisk(v, disk) && 0 <= h.current < WORD
    ensures 0 <= r.1.current < WORD
  {
    if n == 0 then (Ok, h)
    else
      var r := Advances(v, disk, size, n - 1, h);
      if r.0 != Ok then r else Advanced(v, disk, size, r.1)
  }

  /** fat_seek_file */
  function Seeked(v: Volume, disk: Disk, size: int, first: int, h: Handle, offset: nat): (Status, Handle)
    requires IsVolume(v) && IsDisk(v, disk) && 0 <= first < WORD
  {
    if offset > size then (InvalidArgument, h)
    else if offset == 0 || size == 0 then (Ok, Start(size, first))
    else
      ClusterSize(v);
      var n := Index(ClusterBytes(v), offset);
      var r := Advances(v, disk, size, n, Start(size, first));
      if r.0 != Ok then r else (Ok, r.1.(position := offset, clusterOffset := Base(ClusterBytes(v), n)))
  }

  lemma {:induction false} AdvancesFail(v: Volume, disk: Disk, size: int, m: nat, n: nat, h: Handle)
    requires IsVolume(v) && IsDisk(v, disk) && 0 <= h.current < WORD && m <= n && Advances(v, disk, size, m, h).0 != Ok
    ensures Advances(v, disk, size, n, h) == Advances(v, disk, size, m, h)
  {
    if m < n {
      AdvancesFail(v, disk, size, m, n - 1, h);
    }
  }

  /** From the start of a sound file `n` advances reach cluster `n`, if it can be entered. */
  lemma {:induction false} AdvancesSound(v: Volume, disk: Disk, size: int, chain: seq<int>, n: nat)
    requires Sound(v, disk, size, chain) && n < Reach(v, size, |chain|)
    ensures 0 <= chain[0] < WORD && Advances(v, disk, size, n, Start(size, chain[0])) == (Ok, HandleIn(v, chain, n, 0))
  {
    if n == 0 {
      assert chain[..1] == [chain[0]];
    } else {
      AdvancesSound(v, disk, size, chain, n - 1);
      AdvanceSound(v, disk, size, chain, n - 1, 0);
    }
  }

  lemma {:induction false} AdvancesStop(v: Volume, disk: Disk, size: int, chain: seq<int>, n: nat)
    requires Sound(v, disk, size, chain) && size > 0 && n >= Reach(v, size, |chain|)
    ensures 0 < Reach(v, size, |chain|) && 0 <= chain[0] < WORD
    ensures Advances(v, disk, size, n, Start(size, chain[0])) == (Corrupt, HandleIn(v, chain, Reach(v, size, |chain|) - 1, 0))
  {
    var m := Reach(v, size, |chain|);
    AdvancesSound(v, disk, size, chain, m - 1);
    AdvanceStops(v, disk, size, chain, 0);
    AdvancesFail(v, disk, size, m, n, Start(size, chain[0]));
  }

  /** Seeking in a sound file succeeds exactly into clusters that can be entered, and leaves the handle that reading leaves there. */
  lemma {:induction false} SeekSound(v: Volume, disk: Disk, size: int, chain: seq<int>, h: Handle, first: int, offset: nat)
    requires Sound(v, disk, size, chain) && size > 0 && 0 <= first < WORD && first == chain[0]
    ensures ClusterBytes(v) > 0 && 0 < Reach(v, size, |chain|) <= |chain|
    ensures Seeked(v, disk, size, first, h, offset) ==
            if offset > size then (InvalidArgument, h)
            else if Index(ClusterBytes(v), offset) < Reach(v, size, |chain|) then (Ok, HandleAt(v, size, chain, offset))
            else (Corrupt, HandleIn(v, chain, Reach(v, size, |chain|) - 1, 0))
  {
    var d, m := ClusterBytes(v), Reach(v, size, |chain|);
    ClusterSize(v);
    if offset == 0 {
      StartIsZero(v, disk, size, chain);
    } else if offset <= size {
      if Index(d, offset) < m {
        AdvancesSound(v, disk, size, chain, Index(d, offset));
        SeekIndex(v, size, |chain|, offset);
      } else {
        AdvancesStop(v, disk, size, chain, Index(d, offset));
      }
    }
  }

  /** The offsets of a file to which fat_seek_file can go: all up to the end, but not the end of a file that fills its clusters. */
  predicate Seekable(v: Volume, size: int, offset: nat)
    requires IsVolume(v)
  {
    ClusterSize(v);
    offset <= size && !(offset == size && size > 0 && Base(ClusterBytes(v), Index(ClusterBytes(v), size)) == size)
  }

  lemma {:induction false} SeekableMeans(v: Volume, size: nat, offset: nat)
    requires IsVolume(v)
    ensures Seekable(v, size, offset) <==>
            offset <= size && !(offset == size && size > 0 && size % (v.bytesPerSector * v.sectorsPerCluster) == 0)
  {
    ClusterSize(v);
    IndexIsQuotient(ClusterBytes(v), size);
  }

  /** Where a seek into a healthy file leads, in clusters. */
  lemma {:induction false} SeekIndex(v: Volume, size: int, n: nat, offset: nat)
    requires IsVolume(v) && Fits(v, size, n) && 0 < offset <= size
    ensures ClusterBytes(v) > 0
    ensures Seekable(v, size, offset) ==> Index(ClusterBytes(v), offset) < n && Index(ClusterBytes(v), offset) == IndexAt(v, size, offset)
    ensures !Seekable(v, size, offset) ==> Index(ClusterBytes(v), offset) == n
  {
    var d := ClusterBytes(v);
    ClusterSize(v);
    if offset < size {
      ChainCovers(v, size, n, offset);
    } else {
      ChainEnds(v, size, n);
      BaseBound(d, n);
      if size < Base(d, n) {
        IndexUnique(d, size, n - 1);
        BaseGrows(d, n - 1, n);
      } else {
        IndexUnique(d, size, n);
      }
    }
  }

  /** Seeking in a healthy file succeeds exactly at the seekable offsets, and leaves the handle that sequential reading leaves there. */
  lemma {:induction false} SeekHealthy(v: Volume, disk: Disk, size: int, chain: seq<int>, h: Handle, first: int, offset: nat)
    requires Healthy(v, disk, size, chain) && 0 <= first < WORD && (size > 0 ==> first == chain[0])
    ensures var r := Seeked(v, disk, size, first, h, offset);
            && (r.0 == Ok <==> Seekable(v, size, offset))
            && (r.0 == Ok ==> r.1 == HandleAt(v, size, chain, offset))
            && (offset > size ==> r == (InvalidArgument, h))
            && (offset <= size && r.0 != Ok ==> r == (Corrupt, HandleIn(v, chain, |chain| - 1, 0)))
  {
    if offset > size || size == 0 {
    } else if offset == 0 {
      StartIsZero(v, disk, size, chain);
    } else {
      HealthyReach(v, size, |chain|);
      SeekIndex(v, size, |chain|, offset);
      SeekSound(v, disk, size, chain, h, first, offset);
    }
  }

  /** A freshly opened sound file is at position 0. */
  lemma {:induction false} StartIsZero(v: Volume, disk: Disk, size: int, chain: seq<int>)
    requires Sound(v, disk, size, chain) && size > 0
    ensures Start(size, chain[0]) == HandleAt(v, size, chain, 0) && Seekable(v, size, 0) && IndexAt(v, size, 0) == 0
    ensures ClusterBytes(v) > 0 && Index(ClusterBytes(v), 0) == 0
  {
    ClusterSize(v);
    IndexUnique(ClusterBytes(v), 0, 0);
    assert chain[..1] == [chain[0]];
  }

  // ----- reading, on values -----

  /** What a read delivers and the handle it leaves. */
  datatype Delivery = Delivery(status: Status, handle: Handle, bytes: seq<int>)

  /** The copying of one round of fat_read_file: what is left of a sector, at most `left` bytes. */
  function Fetched(v: Volume, disk: Disk, h: Handle, left: nat): (f: (Status, seq<int>))
    requires IsVolume(v) && IsDisk(v, disk)
    ensures |f.1| <= left && (f.0 == Ok && left > 0 ==> |f.1| > 0)
  {
    var r := (h.position - h.clusterOffset) % WORD;
    var lba, o := SectorLba(v, h.current, SectorOf(v, r)), InSector(v, r);
    if h.current == 0 || !ClusterValid(v, h.current) || r >= ClusterBytes(v) then (Corrupt, [])
    else if lba !in disk then (IoError, [])
    else (Ok, disk[lba][o..if v.bytesPerSector - o < left then v.bytesPerSector else o + left])
  }

  /** The end of a round: on to the next cluster if this one is used up. */
  function Entered(v: Volume, disk: Disk, size: int, h: Handle): (e: (Status, Handle))
    requires IsVolume(v) && IsDisk(v, disk) && 0 <= h.current < WORD
    ensures 0 <= e.1.current < WORD && e.1.position == h.position
  {
    if h.position >= size || (h.position - h.clusterOffset) % WORD < ClusterBytes(v) then (Ok, h)
    else Advanced(v, disk, size, h)
  }

  /** One round of fat_read_file. */
  function Round(v: Volume, disk: Disk, size: int, h: Handle, left: nat): (d: Delivery)
    requires IsVolume(v) && IsDisk(v, disk) && 0 <= h.current < WORD
    ensures |d.bytes| <= left && d.handle.position == h.position + |d.bytes| && 0 <= d.handle.current < WORD
    ensures d.status == Ok && left > 0 ==> |d.bytes| > 0
  {
    var f := Fetched(v, disk, h, left);
    if f.0 != Ok then Delivery(f.0, h, [])
    else
      var e := Entered(v, disk, size, h.(position := h.position + |f.1|));
      Delivery(e.0, e.1, f.1)
  }

  type Stepper = (Handle, nat) -> Delivery

  /** Steps until `left` bytes are delivered or one of them fails. */
  function Repeat(step: Stepper, h: Handle, left: nat): (d: Delivery)
    decreases left
  {
    if left == 0 then Delivery(Ok, h, [])
    else
      var r := step(h, left);
      if r.status != Ok || r.bytes == [] || |r.bytes| > left then r else Joined(r.bytes, Repeat(step, r.handle, left - |r.bytes|))
  }

  function Rounding(v: Volume, disk: Disk, size: int): Stepper
    requires IsVolume(v) && IsDisk(v, disk)
  {
    (h: Handle, left: nat) => if 0 <= h.current < WORD then Round(v, disk, size, h, left) else Delivery(Corrupt, h, [])
  }

  /** `step` is a round. */
  ghost predicate Steps(step: Stepper, v: Volume, disk: Disk, size: int)
    requires IsVolume(v) && IsDisk(v, disk)
  {
    forall h: Handle, left: nat {:trigger Round(v, disk, size, h, left)} ::
      0 <= h.current < WORD ==> step(h, left) == Round(v, disk, size, h, left)
  }

  /** A delivery that follows bytes already delivered. */
  function Joined(done: seq<int>, rest: Delivery): Delivery {
    rest.(bytes := done + rest.bytes)
  }

  lemma {:induction false} RoundingSteps(v: Volume, disk: Disk, size: int)
    requires IsVolume(v) && IsDisk(v, disk)
    ensures Steps(Rounding(v, disk, size), v, disk, size)
  {
  }

  /** A read of `count` bytes by steps, cut to the size of the file. */
  function ReadingBy(step: Stepper, size: int, h: Handle, count: nat): Delivery {
    if count == 0 || h.position >= size then Delivery(Ok, h, []) else Repeat(step, h, Least(count, size - h.position))
  }

  /** fat_read_file */
  function Reading(v: Volume, disk: Disk, size: int, h: Handle, count: nat): Delivery
    requires IsVolume(v) && IsDisk(v, disk)
  {
    ReadingBy(Rounding(v, disk, size), size, h, count)
  }

  function Least(x: int, y: int): int {
    if x < y then x else y
  }

  // ----- reading a sound file -----

  /** Position `p` lies in a cluster that can be entered. */
  predicate InReach(v: Volume, size: int, n: nat, p: int)
    requires IsVolume(v)
  {
    0 <= p <= size && (size > 0 ==> IndexAt(v, size, p) < Reach(v, size, n))
  }

  /** Where a handle below the end of a sound file is. */
  lemma {:induction false} PlaceOf(v: Volume, disk: Disk, size: int, chain: seq<int>, p: int)
    requires Sound(v, disk, size, chain) && 0 <= p < size
    ensures var d := ClusterBytes(v);
            && d > 0 && Index(d, p) < |chain| && HandleAt(v, size, chain, p) == HandleIn(v, chain, Index(d, p), p)
            && 0 <= Base(d, Index(d, p)) <= p < Base(d, Index(d, p)) + d && ClusterValid(v, chain[Index(d, p)])
  {
    ClusterSize(v);
    IndexPlace(ClusterBytes(v), p);
    ChainCovers(v, size, |chain|, p);
    BaseGrows(ClusterBytes(v), 0, Index(ClusterBytes(v), p));
  }

  /** What a round copies when it finds its sector. */
  lemma {:induction false} FetchAt(v: Volume, disk: Disk, h: Handle, left: nat, r: int, o: int, lba: int)
    requires IsVolume(v) && IsDisk(v, disk) && r == (h.position - h.clusterOffset) % WORD < ClusterBytes(v)
    requires h.current != 0 && ClusterValid(v, h.current) && o == InSector(v, r)
    requires lba == SectorLba(v, h.current, SectorOf(v, r)) && lba in disk
    ensures 0 <= o < v.bytesPerSector && Fetched(v, disk, h, left) == (Ok, disk[lba][o..o + Least(v.bytesPerSector - o, left)])
  {
  }

  /** Where a round finds its sector. */
  lemma {:induction false} FetchPlace(v: Volume, disk: Disk, size: int, chain: seq<int>, p: int, h: Handle, k: nat, r: int)
    requires Sound(v, disk, size, chain) && 0 <= p < size && h == HandleAt(v, size, chain, p) && ClusterBytes(v) > 0
    requires k == Index(ClusterBytes(v), p) && r == p - Base(ClusterBytes(v), k)
    ensures k < |chain| && h == HandleIn(v, chain, k, p) && h.current != 0 && ClusterValid(v, h.current)
    ensures 0 <= r < ClusterBytes(v) && r == (p - h.clusterOffset) % WORD
    ensures SectorLba(v, h.current, SectorOf(v, r)) in disk && r - InSector(v, r) + v.bytesPerSector <= ClusterBytes(v)
  {
    PlaceOf(v, disk, size, chain, p);
    RoundReadable(v, disk, chain, k, r);
  }

  /** One round copies the file's next bytes, and stays inside the cluster. */
  lemma {:induction false} FetchSound(v: Volume, disk: Disk, size: int, chain: seq<int>, p: int, h: Handle, left: nat, k: nat)
    requires Sound(v, disk, size, chain) && 0 <= p < size && 0 < left <= size - p && h == HandleAt(v, size, chain, p)
    requires ClusterBytes(v) > 0 && k == Index(ClusterBytes(v), p)
    ensures k < |chain| && h == HandleIn(v, chain, k, p) && h.clusterOffset <= p
    ensures var f := Fetched(v, disk, h, left);
            && f.0 == Ok && 0 < |f.1| <= left && f.1 == Contents(v, disk, chain, size)[p..p + |f.1|]
            && p + |f.1| <= h.clusterOffset + ClusterBytes(v)
  {
    var r := p - Base(ClusterBytes(v), k);
    FetchPlace(v, disk, size, chain, p, h, k, r);
    var lba, o := SectorLba(v, h.current, SectorOf(v, r)), InSector(v, r);
    FetchAt(v, disk, h, left, r, o, lba);
    RoundBytes(v, disk, size, chain, k, r, Least(v.bytesPerSector - o, left), p, o, lba);
  }

  /** The end of a round, as the code tells the cases apart. */
  lemma {:induction false} EnterSound(v: Volume, disk: Disk, size: int, chain: seq<int>, k: nat, q: int, h: Handle)
    requires Sound(v, disk, size, chain) && k < Reach(v, size, |chain|) && h == HandleIn(v, chain, k, q)
    requires h.clusterOffset < q <= size && q <= h.clusterOffset + ClusterBytes(v)
    ensures 0 <= h.current < WORD
    ensures var e := Entered(v, disk, size, h);
            if e.0 == Ok then e.1 == HandleAt(v, size, chain, q) && InReach(v, size, |chain|, q)
            else e == (Corrupt, h) && k + 1 == Reach(v, size, |chain|) && q == Base(ClusterBytes(v), k + 1) < size
  {
    ClusterSize(v);
    BaseBound(ClusterBytes(v), k);
    if q == size || q < h.clusterOffset + ClusterBytes(v) {
      StaysIn(v, size, chain, k, q);
      EnteredStays(v, disk, size, h);
    } else {
      MovesOn(v, disk, size, chain, k, q);
      EnteredMoves(v, disk, size, h);
    }
  }

  lemma {:induction false} EnteredStays(v: Volume, disk: Disk, size: int, h: Handle)
    requires IsVolume(v) && IsDisk(v, disk) && 0 <= h.current < WORD
    requires h.position >= size || 0 <= h.position - h.clusterOffset < ClusterBytes(v)
    ensures Entered(v, disk, size, h) == (Ok, h)
  {
    ClusterSize(v);
  }

  lemma {:induction false} EnteredMoves(v: Volume, disk: Disk, size: int, h: Handle)
    requires IsVolume(v) && IsDisk(v, disk) && 0 <= h.current < WORD
    requires h.position < size && h.position - h.clusterOffset == ClusterBytes(v)
    ensures Entered(v, disk, size, h) == Advanced(v, disk, size, h)
  {
    ClusterSize(v);
  }

  /** `d` delivers the file's bytes from `p` on, and lands where a read should. */
  ghost predicate Delivers(v: Volume, disk: Disk, size: int, chain: seq<int>, p: int, d: Delivery)
    requires IsVolume(v) && IsDisk(v, disk)
  {
    && 0 <= p && p + |d.bytes| == d.handle.position <= size
    && d.bytes == Contents(v, disk, chain, size)[p..p + |d.bytes|] && Lands(v, size, chain, d)
  }

  /** One round from a position in reach. */
  lemma {:induction false} RoundSound(v: Volume, disk: Disk, size: int, chain: seq<int>, p: int, h: Handle, left: nat)
    requires Sound(v, disk, size, chain) && InReach(v, size, |chain|, p) && 0 < left <= size - p && h == HandleAt(v, size, chain, p)
    ensures 0 <= h.current < WORD && Delivers(v, disk, size, chain, p, Round(v, disk, size, h, left))
  {
    ClusterSize(v);
    var k := Index(ClusterBytes(v), p);
    FetchSound(v, disk, size, chain, p, h, left, k);
    var f := Fetched(v, disk, h, left);
    var q := p + |f.1|;
    EnterSound(v, disk, size, chain, k, q, h.(position := q));
    RoundDelivers(v, disk, size, chain, p, k, f.1, h.(position := q), Entered(v, disk, size, h.(position := q)));
  }

  lemma {:induction false} RoundDelivers(v: Volume, disk: Disk, size: int, chain: seq<int>, p: int, k: nat, bytes: seq<int>, h: Handle, e: (Status, Handle))
    requires IsVolume(v) && IsDisk(v, disk) && 0 <= p && p + |bytes| <= size && bytes == Contents(v, disk, chain, size)[p..p + |bytes|]
    requires k < |chain| && h == HandleIn(v, chain, k, p + |bytes|)
    requires var q := p + |bytes|;
             if e.0 == Ok then e.1 == HandleAt(v, size, chain, q) && InReach(v, size, |chain|, q)
             else e == (Corrupt, h) && k + 1 == Reach(v, size, |chain|) && q == Base(ClusterBytes(v), k + 1) < size
    ensures Delivers(v, disk, size, chain, p, Delivery(e.0, e.1, bytes))
  {
  }

  lemma {:induction false} DeliversAfter(v: Volume, disk: Disk, size: int, chain: seq<int>, p: int, d: Delivery, rest: Delivery)
    requires IsVolume(v) && IsDisk(v, disk) && Delivers(v, disk, size, chain, p, d)
    requires Delivers(v, disk, size, chain, d.handle.position, rest)
    ensures Delivers(v, disk, size, chain, p, Joined(d.bytes, rest))
  {
    Abut(Contents(v, disk, chain, size), p, d.handle.position, rest.handle.position);
  }

  /** A step from any position in reach delivers the file's bytes. */
  ghost predicate GoodStep(step: Stepper, v: Volume, disk: Disk, size: int, chain: seq<int>)
    requires IsVolume(v) && IsDisk(v, disk)
  {
    forall p: int, left: nat {:trigger Asked(p, left)} ::
      Asked(p, left) && InReach(v, size, |chain|, p) && 0 < left <= size - p ==>
        var r := step(HandleAt(v, size, chain, p), left);
        Delivers(v, disk, size, chain, p, r) && |r.bytes| <= left && (r.status == Ok ==> |r.bytes| > 0)
  }

  /** A step of `left` bytes at `p` is looked at. */
  ghost predicate Asked(p: int, left: nat) {
    true
  }

  lemma {:induction false} RoundIsGood(v: Volume, disk: Disk, size: int, chain: seq<int>)
    requires Sound(v, disk, size, chain)
    ensures GoodStep(Rounding(v, disk, size), v, disk, size, chain)
  {
    var step := Rounding(v, disk, size);
    forall p: int, left: nat | Asked(p, left) && InReach(v, size, |chain|, p) && 0 < left <= size - p
      ensures var r := step(HandleAt(v, size, chain, p), left);
              Delivers(v, disk, size, chain, p, r) && |r.bytes| <= left && (r.status == Ok ==> |r.bytes| > 0)
    {
      RoundSound(v, disk, size, chain, p, HandleAt(v, size, chain, p), left);
    }
  }

  /** Good steps deliver the file's bytes, up to the end of the last cluster that can be entered. */
  lemma {:induction false} RepeatSound(step: Stepper, v: Volume, disk: Disk, size: int, chain: seq<int>, p: int, h: Handle, left: nat)
    requires IsVolume(v) && IsDisk(v, disk) && GoodStep(step, v, disk, size, chain)
    requires InReach(v, size, |chain|, p) && left <= size - p && h == HandleAt(v, size, chain, p)
    ensures var d := Repeat(step, h, left);
            Delivers(v, disk, size, chain, p, d) && |d.bytes| <= left && (d.status == Ok ==> |d.bytes| == left)
    decreases left
  {
    if left > 0 {
      assert Asked(p, left);
      var r := step(h, left);
      if r.status == Ok {
        RepeatSound(step, v, disk, size, chain, r.handle.position, r.handle, left - |r.bytes|);
        DeliversAfter(v, disk, size, chain, p, r, Repeat(step, r.handle, left - |r.bytes|));
      }
    }
  }

  /** A read of a sound file succeeds at a position in reach, or is refused at the end of the last cluster that can be entered. */
  ghost predicate Lands(v: Volume, size: int, chain: seq<int>, d: Delivery)
    requires IsVolume(v)
  {
    var q, m := d.handle.position, Reach(v, size, |chain|);
    if d.status == Ok then InReach(v, size, |chain|, q) && d.handle == HandleAt(v, size, chain, q)
    else d.status == Corrupt && 0 < m <= |chain| && q == Base(ClusterBytes(v), m) < size && d.handle == HandleIn(v, chain, m - 1, q)
  }

  lemma {:induction false} Abut(c: seq<int>, from: nat, at: nat, to: nat)
    requires from <= at <= to <= |c|
    ensures c[from..at] + c[at..to] == c[from..to]
  {
  }

  /** Which way a read lands decides between success and refusal. */
  lemma {:induction false} LandsWhere(v: Volume, size: int, chain: seq<int>, q: int)
    requires IsVolume(v) && Fits(v, size, |chain|) && 0 <= q <= size
    ensures InReach(v, size, |chain|, q) <==>
            q < Base(ClusterBytes(v), Reach(v, size, |chain|)) || Reach(v, size, |chain|) == |chain|
    ensures Base(ClusterBytes(v), Reach(v, size, |chain|)) < size <==> Reach(v, size, |chain|) < |chain|
  {
    var d, m, n := ClusterBytes(v), Reach(v, size, |chain|), |chain|;
    ClusterSize(v);
    if size > 0 {
      ChainEnds(v, size, n);
      if m < n {
        BaseGrows(d, m, n - 1);
      }
      if q < size {
        IndexPlace(d, q);
        ChainCovers(v, size, n, q);
        if Index(d, q) < m {
          BaseGrows(d, Index(d, q) + 1, m);
        } else {
          BaseGrows(d, m, Index(d, q));
        }
      }
    }
  }

  /**
   fat_read_file on any sound file, from any position that can be reached: the bytes asked for, cut to the
   size, or those up to the end of the last cluster that can be entered and then CORRUPT.
   */
  lemma {:induction false} ReadSound(v: Volume, disk: Disk, size: int, chain: seq<int>, p: int, h: Handle, count: nat)
    requires Sound(v, disk, size, chain) && InReach(v, size, |chain|, p) && h == HandleAt(v, size, chain, p)
    ensures 0 <= h.current < WORD && ReadsAs(v, disk, size, chain, p, count, Reading(v, disk, size, h, count))
  {
    CurrentIsWord(v, disk, size, chain, p);
    RoundIsGood(v, disk, size, chain);
    ReadGood(Rounding(v, disk, size), v, disk, size, chain, p, h, count);
  }

  lemma {:induction false} ReadGood(step: Stepper, v: Volume, disk: Disk, size: int, chain: seq<int>, p: int, h: Handle, count: nat)
    requires IsVolume(v) && IsDisk(v, disk) && Fits(v, size, |chain|) && GoodStep(step, v, disk, size, chain)
    requires InReach(v, size, |chain|, p) && h == HandleAt(v, size, chain, p)
    ensures ReadsAs(v, disk, size, chain, p, count, ReadingBy(step, size, h, count))
  {
    if count > 0 && p < size {
      RepeatSound(step, v, disk, size, chain, p, h, Least(count, size - p));
    }
    Landed(v, disk, size, chain, p, count, ReadingBy(step, size, h, count));
  }

  /** The outcome that a read of `count` bytes at `p` must have. */
  ghost predicate ReadsAs(v: Volume, disk: Disk, size: int, chain: seq<int>, p: int, count: nat, d: Delivery)
    requires IsVolume(v) && IsDisk(v, disk)
  {
    var m := Reach(v, size, |chain|);
    var end, limit := Least(p + count, size), Base(ClusterBytes(v), m);
    && 0 <= p && p + |d.bytes| <= size && d.bytes == Contents(v, disk, chain, size)[p..p + |d.bytes|]
    && if end < limit || m == |chain| then d.status == Ok && p + |d.bytes| == end && d.handle == HandleAt(v, size, chain, end)
       else 0 < m < |chain| && d.status == Corrupt && p + |d.bytes| == limit && d.handle == HandleIn(v, chain, m - 1, limit)
  }

  lemma {:induction false} Landed(v: Volume, disk: Disk, size: int, chain: seq<int>, p: int, count: nat, d: Delivery)
    requires IsVolume(v) && IsDisk(v, disk) && Fits(v, size, |chain|) && 0 <= p <= size && Delivers(v, disk, size, chain, p, d)
    requires |d.bytes| <= count && (d.status == Ok ==> d.handle.position == Least(p + count, size))
    ensures ReadsAs(v, disk, size, chain, p, count, d)
  {
    LandsWhere(v, size, chain, Least(p + count, size));
    LandsWhere(v, size, chain, d.handle.position);
  }

  lemma {:induction false} CurrentIsWord(v: Volume, disk: Disk, size: int, chain: seq<int>, p: int)
    requires Sound(v, disk, size, chain)
    ensures 0 <= HandleAt(v, size, chain, p).current < WORD
  {
  }

  /** After such a refusal every further read is refused without a byte. */
  lemma {:induction false} ReadStuck(v: Volume, disk: Disk, size: int, chain: seq<int>, count: nat)
    requires Sound(v, disk, size, chain) && 0 < Reach(v, size, |chain|) < |chain| && count > 0
    ensures var m := Reach(v, size, |chain|);
            var h := HandleIn(v, chain, m - 1, Base(ClusterBytes(v), m));
            0 <= h.current < WORD && Reading(v, disk, size, h, count) == Delivery(Corrupt, h, [])
  {
    var d, m := ClusterBytes(v), Reach(v, size, |chain|);
    ClusterSize(v);
    BaseBound(d, m - 1);
    BaseGrows(d, m, |chain| - 1);
    var h := HandleIn(v, chain, m - 1, Base(d, m));
    RoundStuck(v, disk, size, h, Least(count, size - h.position));
    RepeatFails(Rounding(v, disk, size), h, Least(count, size - h.position));
  }

  lemma {:induction false} RoundStuck(v: Volume, disk: Disk, size: int, h: Handle, left: nat)
    requires IsVolume(v) && IsDisk(v, disk) && 0 <= h.current < WORD && h.position - h.clusterOffset == ClusterBytes(v)
    ensures Rounding(v, disk, size)(h, left) == Delivery(Corrupt, h, [])
  {
    ClusterSize(v);
    SmallWord(ClusterBytes(v));
    FetchStuck(v, disk, h, left, ClusterBytes(v));
    RoundFails(v, disk, size, h, left);
  }

  lemma {:induction false} SmallWord(x: int)
    requires 0 <= x < 0x1_0000_0000
    ensures x % WORD == x
  {
  }

  lemma {:induction false} FetchStuck(v: Volume, disk: Disk, h: Handle, left: nat, r: int)
    requires IsVolume(v) && IsDisk(v, disk) && r == (h.position - h.clusterOffset) % WORD && r >= ClusterBytes(v)
    ensures Fetched(v, disk, h, left) == (Corrupt, [])
  {
  }

  lemma {:induction false} RoundFails(v: Volume, disk: Disk, size: int, h: Handle, left: nat)
    requires IsVolume(v) && IsDisk(v, disk) && 0 <= h.current < WORD && Fetched(v, disk, h, left) == (Corrupt, [])
    ensures Rounding(v, disk, size)(h, left) == Delivery(Corrupt, h, [])
  {
  }

  lemma {:induction false} RepeatFails(step: Stepper, h: Handle, left: nat)
    requires left > 0 && step(h, left) == Delivery(Corrupt, h, [])
    ensures Repeat(step, h, left) == Delivery(Corrupt, h, [])
  {
  }

  /** A file that the 32-bit round-up of its size wraps is cut after its first cluster, however short the chain. */
  lemma {:induction false} HugeFileCut(v: Volume, size: int, n: nat)
    requires IsVolume(v) && Fits(v, size, n) && size > 0
    ensures Reach(v, size, n) == 1 < n <==> size > WORD - ClusterBytes(v)
    ensures Reach(v, size, n) == n <==> size <= WORD - ClusterBytes(v) && n <= MAX_VISITED
  {
    var d := ClusterBytes(v);
    ClusterSize(v);
    BaseBound(d, n);
    if size <= WORD - d && n >= MAX_VISITED {
      BaseGrows(d, 1, n);
    }
  }

  /** fat_copy_bytes */
  method CopyBytes(target: array<int>, at: nat, source: seq<int>, from: nat, count: nat)
    requires at + count <= target.Length && from + count <= |source|
    modifies target
    ensures target[..at] == old(target[..at]) && target[at + count..] == old(target[at + count..])
    ensures target[at..at + count] == source[from..from + count]
  {
    var i := 0;
    while i < count
      invariant 0 <= i <= count
      invariant target[..at] == old(target[..at]) && target[at + i..] == old(target[at + i..])
      invariant target[at..at + i] == source[from..from + i]
    {
      target[at + i] := source[from + i];
      i := i + 1;
    }
  }

  // ----- the open file -----

  /** termob_fat_file_t */
  class OpenFile {
    const v: Volume
    const disk: Disk
    const size: int
    const first: int
    var position: int
    var current: int
    var clusterOffset: int
    var clustersSeen: int
    var visited: seq<int>

    ghost predicate Valid()
      reads this
    {
      && IsVolume(v) && IsDisk(v, disk) && 0 <= size < WORD && 0 <= first < WORD
      && 0 <= position <= size && 0 <= current < WORD && 0 <= clusterOffset < WORD
    }

    function State(): Handle
      reads this
    {
      Handle(position, current, clusterOffset, clustersSeen, visited)
    }

    /** The part of fat_open_file after the lookup. */
    constructor (v: Volume, disk: Disk, size: int, first: int)
      requires IsVolume(v) && IsDisk(v, disk) && 0 <= size < WORD && 0 <= first < WORD
      ensures this.v == v && this.disk == disk && this.size == size && this.first == first
      ensures Valid() && State() == Start(size, first)
    {
      this.v, this.disk, this.size, this.first := v, disk, size, first;
      position, clusterOffset := 0, 0;
      current := if size == 0 then 0 else first;
      clustersSeen := if size == 0 then 0 else 1;
      visited := if size == 0 then [] else [first];
    }

    method ResetState()
      requires Valid()
      modifies this
      ensures Valid() && State() == Start(size, first)
    {
      position, clusterOffset := 0, 0;
      current := if size == 0 then 0 else first;
      clustersSeen := if size == 0 then 0 else 1;
      visited := if size == 0 then [] else [first];
    }

    method ClusterSizeBytes() returns (d: int)
      requires IsVolume(v)
      ensures d == ClusterBytes(v) > 0
    {
      ClusterSize(v);
      return v.bytesPerSector * v.sectorsPerCluster;
    }

    method FileMaxClusters() returns (n: int)
      requires IsVolume(v) && 0 <= size
      ensures n == MaxClusters(v, size)
    {
      if size == 0 {
        return 0;
      }
      var d := ClusterSizeBytes();
      IndexIsQuotient(d, (size + d - 1) % WORD);
      return (size + d - 1) % WORD / d;
    }

    method Seen(c: int) returns (found: bool)
      ensures found <==> c in visited
    {
      var i := 0;
      while i < |visited|
        invariant 0 <= i <= |visited| && c !in visited[..i]
      {
        if visited[i] == c {
          return true;
        }
        i := i + 1;
      }
      return false;
    }

    method AdvanceCluster() returns (status: Status)
      requires Valid()
      modifies `current, `clusterOffset, `clustersSeen, `visited
      ensures Valid() && (status, State()) == old(Advanced(v, disk, size, State()))
    {
      if current == 0 || !ClusterValid(v, current) {
        return Corrupt;
      }
      var most := FileMaxClusters();
      if clustersSeen >= most {
        return Corrupt;
      }
      var next := ReadFatEntry(v, disk, current);
      if next.None? {
        return IoError;
      }
      var e := next.value;
      if EntryEnds(v.kind, e) {
        return Corrupt;
      }
      if e == 0 || EntryBad(v.kind, e) || EntryReserved(v.kind, e) || !ClusterValid(v, e) {
        return Corrupt;
      }
      var seen := Seen(e);
      if seen {
        return Corrupt;
      }
      if |visited| >= MAX_VISITED {
        return Corrupt;
      }
      var d := ClusterSizeBytes();
      current := e;
      clusterOffset := (clusterOffset + d) % WORD;
      clustersSeen := (clustersSeen + 1) % WORD;
      visited := visited + [e];
      return Ok;
    }

    method Seek(offset: nat) returns (status: Status)
      requires Valid()
      modifies this
      ensures Valid() && (status, State()) == old(Seeked(v, disk, size, first, State(), offset))
    {
      if offset > size {
        return InvalidArgument;
      }
      ResetState();
      if offset == 0 || size == 0 {
        return Ok;
      }
      var d := ClusterSizeBytes();
      var n := offset / d;
      IndexIsQuotient(d, offset);
      status := SkipClusters(n);
      if status != Ok {
        return;
      }
      position := offset;
      clusterOffset := n * d;
      BaseIsProduct(d, n);
      IndexPlace(d, offset);
      BaseGrows(d, 0, n);
    }

    /** The loop of fat_seek_file. */
    method SkipClusters(n: nat) returns (status: Status)
      requires Valid()
      modifies `current, `clusterOffset, `clustersSeen, `visited
      ensures Valid() && (status, State()) == old(Advances(v, disk, size, n, State()))
    {
      var i := 0;
      while i < n
        invariant 0 <= i <= n && Valid() && (Ok, State()) == old(Advances(v, disk, size, i, State()))
      {
        status := AdvanceCluster();
        if status != Ok {
          AdvancesFail(v, disk, size, i + 1, n, old(State()));
          return;
        }
        i := i + 1;
      }
      return Ok;
    }

    /** The handle is where sequential reading of a sound file leaves it. */
    ghost predicate Placed(chain: seq<int>)
      reads this
    {
      Sound(v, disk, size, chain) && InReach(v, size, |chain|, position) && State() == HandleAt(v, size, chain, position)
    }

    /** The sector at the position and the place in it, as one round of fat_read_file finds them. */
    method Locate() returns (status: Status, lba: int, o: nat)
      requires Valid()
      ensures status == Ok ==> lba in disk && o < v.bytesPerSector
      ensures var r := (position - clusterOffset) % WORD;
              if current == 0 || !ClusterValid(v, current) || r >= ClusterBytes(v) then status == Corrupt
              else lba == SectorLba(v, current, SectorOf(v, r)) && o == InSector(v, r) && status == if lba in disk then Ok else IoError
    {
      lba, o := 0, 0;
      if current == 0 || !ClusterValid(v, current) {
        return Corrupt, lba, o;
      }
      var d := ClusterSizeBytes();
      var r := (position - clusterOffset) % WORD;
      if r >= d {
        return Corrupt, lba, o;
      }
      SectorMeans(v, r);
      lba, o := SectorLba(v, current, r / v.bytesPerSector), r % v.bytesPerSector;
      return if lba in disk then Ok else IoError, lba, o;
    }

    /** The copying of one round: what is left of a sector, at most `left` bytes, to the buffer at `at`. */
    method CopySector(buffer: array<int>, at: nat, left: nat) returns (status: Status, n: nat)
      requires Valid() && at + left <= buffer.Length
      modifies buffer
      ensures n <= left && (status, buffer[at..at + n]) == old(Fetched(v, disk, State(), left))
      ensures buffer[..at] == old(buffer[..at]) && buffer[at + n..] == old(buffer[at + n..])
    {
      var lba, o;
      status, lba, o := Locate();
      n := 0;
      if status != Ok {
        assert buffer[at..at + n] == [];
        return;
      }
      n := if v.bytesPerSector - o < left then v.bytesPerSector - o else left;
      CopyBytes(buffer, at, disk[lba], o, n);
    }

    method EnterCluster() returns (status: Status)
      requires Valid()
      modifies `current, `clusterOffset, `clustersSeen, `visited
      ensures Valid() && (status, State()) == old(Entered(v, disk, size, State()))
    {
      if position >= size {
        return Ok;
      }
      var d := ClusterSizeBytes();
      status := Ok;
      if (position - clusterOffset) % WORD >= d {
        status := AdvanceCluster();
      }
    }

    /** With `done` delivered, `left` bytes more lead to `all`. */
    ghost predicate Toward(step: Stepper, all: Delivery, done: seq<int>, left: nat)
      reads this
    {
      all == Joined(done, Repeat(step, State(), left))
    }

    /** The loop of fat_read_file. */
    method ReadLoop(buffer: array<int>, total: nat, ghost step: Stepper) returns (status: Status, copied: nat)
      requires Valid() && total <= buffer.Length && total <= size - position && Steps(step, v, disk, size)
      modifies this, buffer
      ensures Valid() && copied <= total && buffer[copied..] == old(buffer[copied..])
      ensures Delivery(status, State(), buffer[..copied]) == Repeat(step, old(State()), total)
    {
      ghost var all := Repeat(step, State(), total);
      JoinNothing(all);
      assert buffer[..0] == [];
      status, copied := Ok, 0;
      while copied < total
        invariant 0 <= copied <= total && Valid() && total - copied <= size - position
        invariant buffer[copied..] == old(buffer[copied..])
        invariant Toward(step, all, buffer[..copied], total - copied)
      {
        var n;
        status, n := ReadRound(buffer, copied, total, old(buffer[..]), all, step);
        copied := copied + n;
        if status != Ok {
          return;
        }
      }
      status := Ok;
      JoinedAll(step, State(), buffer[..copied]);
    }

    /** One turn of the loop; what is left to read stays on the way to `all`. */
    method ReadRound(buffer: array<int>, at: nat, total: nat, ghost was: seq<int>, ghost all: Delivery, ghost step: Stepper)
      returns (status: Status, n: nat)
      requires Valid() && at < total <= buffer.Length && total - at <= size - position && Steps(step, v, disk, size)
      requires |was| == buffer.Length && buffer[at..] == was[at..] && Toward(step, all, buffer[..at], total - at)
      modifies this, buffer
      ensures Valid() && at + n <= total && buffer[at + n..] == was[at + n..]
      ensures status != Ok ==> all == Delivery(status, State(), buffer[..at + n])
      ensures status == Ok ==> n > 0 && total - (at + n) <= size - position && Toward(step, all, buffer[..at + n], total - (at + n))
    {
      ghost var h := State();
      status, n := StepRound(buffer, at, total - at, step);
      TailKept(old(buffer[..]), buffer[..], was, at, n);
      RoundJoined(step, h, total - at, Delivery(status, State(), buffer[at..at + n]), buffer[..], at);
    }

    method StepRound(buffer: array<int>, at: nat, left: nat, ghost step: Stepper) returns (status: Status, n: nat)
      requires Valid() && 0 < left <= size - position && at + left <= buffer.Length && Steps(step, v, disk, size)
      modifies this, buffer
      ensures Valid() && n <= left && position == old(position) + n && (status == Ok ==> n > 0)
      ensures Delivery(status, State(), buffer[at..at + n]) == step(old(State()), left)
      ensures buffer[..at] == old(buffer[..at]) && buffer[at + n..] == old(buffer[at + n..])
    {
      status, n := CopyRound(buffer, at, left);
    }

    /** One round of fat_read_file. */
    method CopyRound(buffer: array<int>, at: nat, left: nat) returns (status: Status, n: nat)
      requires Valid() && 0 < left <= size - position && at + left <= buffer.Length
      modifies this, buffer
      ensures Valid() && n <= left && Delivery(status, State(), buffer[at..at + n]) == old(Round(v, disk, size, State(), left))
      ensures buffer[..at] == old(buffer[..at]) && buffer[at + n..] == old(buffer[at + n..])
    {
      status, n := CopySector(buffer, at, left);
      if status != Ok {
        return;
      }
      position := position + n;
      status := EnterCluster();
    }

    /** fat_read_file: whatever the disk holds, status, handle and delivered bytes are those of the rounds, and the rest of the buffer is kept. */
    method Read(buffer: array<int>, count: nat) returns (status: Status, copied: nat)
      requires Valid() && count <= buffer.Length
      modifies this, buffer
      ensures Valid() && copied <= count && buffer[copied..] == old(buffer[copied..])
      ensures Delivery(status, State(), buffer[..copied]) == old(Reading(v, disk, size, State(), count))
    {
      RoundingSteps(v, disk, size);
      status, copied := ReadBy(buffer, count, Rounding(v, disk, size));
    }

    method ReadBy(buffer: array<int>, count: nat, ghost step: Stepper) returns (status: Status, copied: nat)
      requires Valid() && count <= buffer.Length && Steps(step, v, disk, size)
      modifies this, buffer
      ensures Valid() && copied <= count && buffer[copied..] == old(buffer[copied..])
      ensures Delivery(status, State(), buffer[..copied]) == ReadingBy(step, size, old(State()), count)
    {
      if count == 0 || position >= size {
        return Ok, 0;
      }
      var total := if count < size - position then count else size - position;
      status, copied := ReadLoop(buffer, total, step);
    }

    /** The reading loop of the shell: any number of reads of any sizes deliver the file from the position on. */
    method ReadPieces(counts: seq<nat>, ghost chain: seq<int>) returns (bytes: seq<int>)
      requires Valid() && Placed(chain) && Healthy(v, disk, size, chain)
      modifies this
      ensures Valid() && Placed(chain) && old(position) <= position
      ensures bytes == Contents(v, disk, chain, size)[old(position)..position]
      ensures position == Reached(old(position), size, counts)
    {
      bytes := [];
      var i := 0;
      assert counts[..0] == [];
      while i < |counts|
        invariant 0 <= i <= |counts| && Valid() && Placed(chain) && old(position) <= position
        invariant bytes == Contents(v, disk, chain, size)[old(position)..position]
        invariant position == Reached(old(position), size, counts[..i])
      {
        ghost var at := position;
        var piece := ReadPiece(counts[i], chain);
        bytes := bytes + piece;
        Abut(Contents(v, disk, chain, size), old(position), at, position);
        assert counts[..i + 1][..i] == counts[..i];
        i := i + 1;
      }
      assert counts[..i] == counts;
    }

    method ReadPiece(count: nat, ghost chain: seq<int>) returns (piece: seq<int>)
      requires Valid() && Placed(chain) && Healthy(v, disk, size, chain)
      modifies this
      ensures Valid() && Placed(chain) && position == Least(old(position) + count, size)
      ensures old(position) <= position && piece == Contents(v, disk, chain, size)[old(position)..position]
    {
      ReadHealthy(v, disk, size, chain, position, State(), count);
      var buffer := new int[count];
      var status, copied := Read(buffer, count);
      piece := buffer[..copied];
    }
  }

  lemma {:induction false} TailKept(before: seq<int>, after: seq<int>, was: seq<int>, at: nat, n: nat)
    requires at + n <= |was| && |before| == |was| && |after| == |was| && before[at..] == was[at..] && after[at + n..] == before[at + n..]
    ensures after[at + n..] == was[at + n..]
  {
    assert before[at + n..] == before[at..][n..] && was[at + n..] == was[at..][n..];
  }

  lemma {:induction false} JoinNothing(d: Delivery)
    ensures Joined([], d) == d
  {
    assert [] + d.bytes == d.bytes;
  }

  lemma {:induction false} JoinedAll(step: Stepper, h: Handle, done: seq<int>)
    ensures Joined(done, Repeat(step, h, 0)) == Delivery(Ok, h, done)
  {
    assert done + [] == done;
  }

  /** One step after the bytes before `at`. */
  lemma {:induction false} RoundJoined(step: Stepper, h: Handle, left: nat, r: Delivery, b: seq<int>, at: nat)
    requires left > 0 && r == step(h, left) && at + |r.bytes| <= |b| && b[at..at + |r.bytes|] == r.bytes && |r.bytes| <= left
    requires r.status == Ok ==> |r.bytes| > 0
    ensures Joined(b[..at], Repeat(step, h, left)) ==
            if r.status != Ok then Delivery(r.status, r.handle, b[..at + |r.bytes|])
            else Joined(b[..at + |r.bytes|], Repeat(step, r.handle, left - |r.bytes|))
  {
    JoinMore(b, at, |r.bytes|);
    if r.status == Ok {
      JoinTwice(b[..at], r.bytes, Repeat(step, r.handle, left - |r.bytes|));
    }
  }

  lemma {:induction false} JoinMore(b: seq<int>, at: nat, n: nat)
    requires at + n <= |b|
    ensures b[..at] + b[at..at + n] == b[..at + n]
  {
  }

  lemma {:induction false} JoinTwice(done: seq<int>, more: seq<int>, rest: Delivery)
    ensures Joined(done, Joined(more, rest)) == Joined(done + more, rest)
  {
    assert done + (more + rest.bytes) == done + more + rest.bytes;
  }

  /** fat_read_file on a healthy file: exactly the bytes asked for, cut to the size. */
  lemma {:induction false} ReadHealthy(v: Volume, disk: Disk, size: int, chain: seq<int>, p: int, h: Handle, count: nat)
    requires Healthy(v, disk, size, chain) && 0 <= p <= size && h == HandleAt(v, size, chain, p)
    ensures 0 <= h.current < WORD && InReach(v, size, |chain|, p) && InReach(v, size, |chain|, Least(p + count, size))
    ensures var end := Least(p + count, size);
            Reading(v, disk, size, h, count) == Delivery(Ok, HandleAt(v, size, chain, end), Contents(v, disk, chain, size)[p..end])
  {
    HealthyReach(v, size, |chain|);
    LandsWhere(v, size, chain, p);
    LandsWhere(v, size, chain, Least(p + count, size));
    ReadSound(v, disk, size, chain, p, h, count);
  }

  /** fat_open_file after the lookup: the handle, and the refusal of a file without a valid first cluster. */
  method Open(v: Volume, disk: Disk, size: int, first: int) returns (status: Status, file: OpenFile)
    requires IsVolume(v) && IsDisk(v, disk) && 0 <= size < WORD && 0 <= first < WORD
    ensures fresh(file) && file.v == v && file.disk == disk && file.size == size && file.first == first
    ensures file.Valid() && file.State() == Start(size, first)
    ensures status == if size != 0 && !ClusterValid(v, first) then Corrupt else Ok
  {
    file := new OpenFile(v, disk, size, first);
    if size != 0 && !ClusterValid(v, first) {
      return Corrupt, file;
    }
    status := Ok;
  }

  /** fat_read_file_range after the lookup: open, seek and read. */
  function Ranged(v: Volume, disk: Disk, size: int, first: int, offset: nat, count: nat): (Status, seq<int>)
    requires IsVolume(v) && IsDisk(v, disk) && 0 <= first < WORD
  {
    if size != 0 && !ClusterValid(v, first) then (Corrupt, [])
    else if offset >= size then (Ok, [])
    else
      var r := Seeked(v, disk, size, first, Start(size, first), offset);
      if r.0 != Ok then (r.0, [])
      else
        var d := Reading(v, disk, size, r.1, count);
        (d.status, d.bytes)
  }

  method ReadRange(v: Volume, disk: Disk, size: int, first: int, offset: nat, buffer: array<int>, count: nat)
    returns (status: Status, copied: nat)
    requires IsVolume(v) && IsDisk(v, disk) && 0 <= size < WORD && 0 <= first < WORD && count <= buffer.Length
    modifies buffer
    ensures copied <= count && buffer[copied..] == old(buffer[copied..])
    ensures (status, buffer[..copied]) == Ranged(v, disk, size, first, offset, count)
  {
    var file;
    status, file := Open(v, disk, size, first);
    copied := 0;
    if status != Ok || offset >= size {
      return;
    }
    status := file.Seek(offset);
    if status != Ok {
      return;
    }
    status, copied := file.Read(buffer, count);
  }

  /** Any range of a healthy file is read exactly, offsets at or past the end giving no bytes. */
  lemma {:induction false} RangeHealthy(v: Volume, disk: Disk, size: int, chain: seq<int>, first: int, offset: nat, count: nat)
    requires Healthy(v, disk, size, chain) && 0 <= first < WORD && (size > 0 ==> first == chain[0])
    ensures Ranged(v, disk, size, first, offset, count) ==
            if offset >= size then (Ok, []) else (Ok, Contents(v, disk, chain, size)[offset..Least(offset + count, size)])
  {
    if offset < size {
      assert ClusterValid(v, chain[0]);
      SeekHealthy(v, disk, size, chain, Start(size, first), first, offset);
      ReadHealthy(v, disk, size, chain, offset, HandleAt(v, size, chain, offset), count);
    }
  }

  /** The position after reads of the given sizes. */
  function Reached(p: int, size: int, counts: seq<nat>): int {
    if counts == [] then p
    else
      var q := Reached(p, size, counts[..|counts| - 1]);
      if counts[|counts| - 1] < size - q then q + counts[|counts| - 1] else size
  }
}
