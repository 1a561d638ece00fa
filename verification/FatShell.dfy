/** The reading loop of the shell's fatcat command. */
module FatShell {
  import opened FatVolume
  import opened FatFile

  /** What fatcat has shown, the handle it leaves, and whether it refused a chunk. */
  datatype Showing = Showing(status: Status, handle: Handle, shown: seq<int>, refused: bool)

  /** Reads of at most `chunk` bytes until `left` bytes are shown, the file ends, a read fails or a chunk does not look like text. */
  function Catted(read: Stepper, h: Handle, left: nat, chunk: nat, looksText: seq<int> -> bool): Showing
    requires chunk > 0
    decreases left
  {
    if left == 0 then Showing(Ok, h, [], false)
    else
      var d := read(h, Least(left, chunk));
      if d.bytes != [] && !looksText(d.bytes) then Showing(d.status, d.handle, [], true)
      else if d.status != Ok || d.bytes == [] || |d.bytes| > left then Showing(d.status, d.handle, d.bytes, false)
      else
        var rest := Catted(read, d.handle, left - |d.bytes|, chunk, looksText);
        rest.(shown := d.bytes + rest.shown)
  }

  function Reads(v: Volume, disk: Disk, size: int): Stepper
    requires IsVolume(v) && IsDisk(v, disk)
  {
    (h: Handle, count: nat) => Reading(v, disk, size, h, count)
  }

  /** A reader of the bytes `file`: `at(p)` is the handle at position `p`. */
  ghost predicate Exact(read: Stepper, at: int -> Handle, file: seq<int>) {
    && (forall p: int :: at(p).position == p)
    && (forall p: int, count: nat {:trigger Asked(p, count)} :: Asked(p, count) && 0 <= p <= |file| ==>
          read(at(p), count) == Delivery(Ok, at(Least(p + count, |file|)), file[p..Least(p + count, |file|)]))
  }

  /** What fatcat shows of such a file from `p` on. */
  ghost predicate ShowsFile(at: int -> Handle, file: seq<int>, p: int, limit: nat, looksText: seq<int> -> bool, c: Showing)
    requires 0 <= p <= |file|
  {
    var end, q := p + |c.shown|, c.handle.position;
    && c.status == Ok && end <= q <= |file| && c.handle == at(q) && c.shown == file[p..end]
    && if c.refused then !looksText(file[end..q]) else end == q == Least(p + limit, |file|)
  }

  function Places(v: Volume, size: int, chain: seq<int>): int -> Handle
    requires IsVolume(v)
  {
    (p: int) => HandleAt(v, size, chain, p)
  }

  /** fatcat shows the beginning of a healthy file: all of it up to the limit, or up to a chunk that does not look like text. */
  lemma {:induction false} CatHealthy(v: Volume, disk: Disk, size: int, chain: seq<int>, p: int, limit: nat, chunk: nat, looksText: seq<int> -> bool)
    requires Healthy(v, disk, size, chain) && 0 <= p <= size && chunk > 0
    ensures ShowsFile(Places(v, size, chain), Contents(v, disk, chain, size), p, limit, looksText,
                      Catted(Reads(v, disk, size), HandleAt(v, size, chain, p), limit, chunk, looksText))
  {
    ReadsExact(v, disk, size, chain);
    CatExact(Reads(v, disk, size), Places(v, size, chain), Contents(v, disk, chain, size), p, limit, chunk, looksText);
  }

  lemma {:induction false} ReadsExact(v: Volume, disk: Disk, size: int, chain: seq<int>)
    requires Healthy(v, disk, size, chain)
    ensures Exact(Reads(v, disk, size), Places(v, size, chain), Contents(v, disk, chain, size))
  {
    var read, at, file := Reads(v, disk, size), Places(v, size, chain), Contents(v, disk, chain, size);
    forall p: int, count: nat | Asked(p, count) && 0 <= p <= |file|
      ensures read(at(p), count) == Delivery(Ok, at(Least(p + count, |file|)), file[p..Least(p + count, |file|)])
    {
      ReadHealthy(v, disk, size, chain, p, HandleAt(v, size, chain, p), count);
    }
  }

  lemma {:induction false} CatExact(read: Stepper, at: int -> Handle, file: seq<int>, p: int, left: nat, chunk: nat, looksText: seq<int> -> bool)
    requires Exact(read, at, file) && 0 <= p <= |file| && chunk > 0
    ensures ShowsFile(at, file, p, left, looksText, Catted(read, at(p), left, chunk, looksText))
    decreases left
  {
    if left > 0 {
      var n := Least(left, chunk);
      var end := Least(p + n, |file|);
      assert Asked(p, n);
      CatTurn(read, at(p), left, chunk, looksText, Delivery(Ok, at(end), file[p..end]));
      if end > p && looksText(file[p..end]) {
        CatExact(read, at, file, end, left - (end - p), chunk, looksText);
        ShowsMore(at, file, p, end, left, looksText, Catted(read, at(end), left - (end - p), chunk, looksText));
      }
    }
  }

  lemma {:induction false} CatTurn(read: Stepper, h: Handle, left: nat, chunk: nat, looksText: seq<int> -> bool, d: Delivery)
    requires left > 0 && chunk > 0 && d == read(h, Least(left, chunk)) && d.status == Ok && |d.bytes| <= left
    ensures Catted(read, h, left, chunk, looksText) ==
            if d.bytes == [] then Showing(Ok, d.handle, [], false)
            else if !looksText(d.bytes) then Showing(Ok, d.handle, [], true)
            else
              var rest := Catted(read, d.handle, left - |d.bytes|, chunk, looksText);
              rest.(shown := d.bytes + rest.shown)
  {
  }

  lemma {:induction false} ShowsMore(at: int -> Handle, file: seq<int>, p: int, end: int, left: nat, looksText: seq<int> -> bool, rest: Showing)
    requires 0 <= p <= end <= |file| && end - p <= left && ShowsFile(at, file, end, left - (end - p), looksText, rest)
    ensures ShowsFile(at, file, p, left, looksText, rest.(shown := file[p..end] + rest.shown))
  {
    Abut(file, p, end, end + |rest.shown|);
  }

  /** The loop of keyboard_fat_cat_command, on any disk. */
  method Cat(file: OpenFile, limit: nat, chunk: nat, looksText: seq<int> -> bool) returns (status: Status, shown: seq<int>, refused: bool)
    requires file.Valid() && chunk > 0
    modifies file
    ensures file.Valid()
    ensures Showing(status, file.State(), shown, refused) ==
            Catted(Reads(file.v, file.disk, file.size), old(file.State()), limit, chunk, looksText)
  {
    status, shown, refused := CatBy(file, limit, chunk, looksText, Reads(file.v, file.disk, file.size));
  }

  /** `read` is fat_read_file. */
  ghost predicate Reader(read: Stepper, v: Volume, disk: Disk, size: int)
    requires IsVolume(v) && IsDisk(v, disk)
  {
    forall h: Handle, count: nat {:trigger Reading(v, disk, size, h, count)} :: read(h, count) == Reading(v, disk, size, h, count)
  }

  method CatBy(file: OpenFile, limit: nat, chunk: nat, looksText: seq<int> -> bool, ghost read: Stepper)
    returns (status: Status, shown: seq<int>, refused: bool)
    requires file.Valid() && chunk > 0 && Reader(read, file.v, file.disk, file.size)
    modifies file
    ensures file.Valid()
    ensures Showing(status, file.State(), shown, refused) == Catted(read, old(file.State()), limit, chunk, looksText)
  {
    ghost var all := Catted(read, file.State(), limit, chunk, looksText);
    status, shown, refused := Ok, [], false;
    var left := limit;
    while left > 0
      invariant 0 <= left && status == Ok && !refused
      invariant file.Valid() && Ahead(all, shown, Catted(read, file.State(), left, chunk, looksText))
      decreases left
    {
      ghost var h := file.State();
      var piece;
      status, piece := ReadChunk(file, if left < chunk then left else chunk, read);
      ChunkShown(read, h, left, chunk, looksText, Delivery(status, file.State(), piece), all, shown);
      if |piece| > 0 {
        if !looksText(piece) {
          refused := true;
          return;
        }
        shown := shown + piece;
        left := left - |piece|;
      }
      if status != Ok || |piece| == 0 {
        return;
      }
    }
  }

  lemma {:induction false} ChunkShown(read: Stepper, h: Handle, left: nat, chunk: nat, looksText: seq<int> -> bool, d: Delivery,
                                      all: Showing, shown: seq<int>)
    requires left > 0 && chunk > 0 && d == read(h, Least(left, chunk)) && |d.bytes| <= left
    requires Ahead(all, shown, Catted(read, h, left, chunk, looksText))
    ensures if d.bytes != [] && !looksText(d.bytes) then all == Showing(d.status, d.handle, shown, true)
            else if d.status != Ok || d.bytes == [] then all == Showing(d.status, d.handle, shown + d.bytes, false)
            else Ahead(all, shown + d.bytes, Catted(read, d.handle, left - |d.bytes|, chunk, looksText))
  {
    if d.bytes != [] && d.status == Ok {
      var rest := Catted(read, d.handle, left - |d.bytes|, chunk, looksText);
      assert shown + (d.bytes + rest.shown) == shown + d.bytes + rest.shown;
    }
    assert shown + [] == shown;
  }

  /** With `shown` shown, the rest leads to `all`. */
  ghost predicate Ahead(all: Showing, shown: seq<int>, rest: Showing) {
    all == rest.(shown := shown + rest.shown)
  }

  method ReadChunk(file: OpenFile, count: nat, ghost read: Stepper) returns (status: Status, piece: seq<int>)
    requires file.Valid() && Reader(read, file.v, file.disk, file.size)
    modifies file
    ensures file.Valid() && |piece| <= count
    ensures Delivery(status, file.State(), piece) == read(old(file.State()), count)
  {
    var buffer := new int[count];
    var copied;
    status, copied := file.Read(buffer, count);
    piece := buffer[..copied];
  }
}
