/**
 terminal.c: the VGA text screen and its scrollback.

 The screen is 25 rows of 80 cells.  A region of rows scrolls over a history kept in a
 ring of 1024 lines; `log` is the unbounded history the ring holds the end of.
 */
module Terminal {
  const WIDTH: int := 80
  const HEIGHT: int := 25
  const RING: int := 1024

  type Line = seq<int>

  function Min(x: int, y: int): int {
    if x < y then x else y
  }

  /** vga_entry */
  function Entry(c: int, color: int): int {
    c + color * 256
  }

  function BlankLine(color: int): (line: Line)
    ensures |line| == WIDTH
  {
    seq(WIDTH, _ => Entry(32, color))
  }

  // ----- the ring -----

  function Slot(head: nat, i: nat): nat {
    (head + i) % RING
  }

  /** The ring holds the last min(|log|, 1024) lines of the log. */
  ghost predicate RingHolds(ring: seq<Line>, head: nat, count: nat, log: seq<Line>) {
    && |ring| == RING && head < RING && count == Min(|log|, RING)
    && forall i: nat :: i < count ==> ring[Slot(head, i)] == log[|log| - count + i]
  }

  lemma {:induction false} SlotsDiffer(head: nat, i: nat, j: nat)
    requires head < RING && i < RING && j < RING && i != j
    ensures Slot(head, i) != Slot(head, j)
  {
  }

  /** A line appended while there is room. */
  lemma {:induction false} RingGrows(ring: seq<Line>, head: nat, count: nat, log: seq<Line>, line: Line)
    requires RingHolds(ring, head, count, log) && count < RING
    ensures RingHolds(ring[Slot(head, count) := line], head, count + 1, log + [line])
  {
    forall i: nat | i < count + 1
      ensures ring[Slot(head, count) := line][Slot(head, i)] == (log + [line])[i]
    {
      if i < count {
        SlotsDiffer(head, i, count);
      }
    }
  }

  lemma {:induction false} SlotTurns(head: nat, i: nat)
    requires head < RING && i < RING
    ensures Slot(Slot(head, 1), i) == if i < RING - 1 then Slot(head, i + 1) else head
  {
  }

  /** A line appended to a full ring takes the place of the oldest. */
  lemma {:induction false} RingTurns(ring: seq<Line>, head: nat, log: seq<Line>, line: Line)
    requires RingHolds(ring, head, RING, log)
    ensures var h := Slot(head, 1);
            Slot(h, RING - 1) == head && RingHolds(ring[head := line], h, RING, log + [line])
  {
    var h := Slot(head, 1);
    SlotTurns(head, RING - 1);
    forall i: nat | i < RING
      ensures ring[head := line][Slot(h, i)] == (log + [line])[|log| + 1 - RING + i]
    {
      if i < RING - 1 {
        SlotTurns(head, i);
        SlotsDiffer(head, 0, i + 1);
      }
    }
  }

  /** A line changed in the ring and in the log. */
  lemma {:induction false} RingSet(ring: seq<Line>, head: nat, count: nat, log: seq<Line>, i: nat, line: Line)
    requires RingHolds(ring, head, count, log) && i < count
    ensures RingHolds(ring[Slot(head, i) := line], head, count, log[|log| - count + i := line])
  {
    forall j: nat | j < count
      ensures ring[Slot(head, i) := line][Slot(head, j)] == log[|log| - count + i := line][|log| - count + j]
    {
      if j != i {
        SlotsDiffer(head, i, j);
      }
    }
  }

  // ----- the screen as a window on the log -----

  /** Log index that row `y` of the region shows. */
  function Shown(logLength: int, bottom: int, offset: int, y: int): int {
    logLength - 1 - offset - (bottom - y)
  }

  /** Each row of the region shows its line of the log. */
  ghost predicate Window(screen: seq<Line>, top: int, bottom: int, log: seq<Line>, offset: int) {
    && |screen| == HEIGHT && 0 <= top <= bottom < HEIGHT && 0 <= offset && bottom - top + 1 + offset <= |log|
    && forall y :: top <= y <= bottom ==> screen[y] == log[Shown(|log|, bottom, offset, y)]
  }

  ghost predicate SameOutside(a: seq<Line>, b: seq<Line>, top: int, bottom: int) {
    |a| == |b| && forall y :: 0 <= y < |a| && !(top <= y <= bottom) ==> b[y] == a[y]
  }

  /** Log, region, offset and the other rows determine the screen. */
  lemma {:induction false} ScreenDetermined(a: seq<Line>, b: seq<Line>, top: int, bottom: int, log: seq<Line>, offset: int)
    requires Window(a, top, bottom, log, offset) && Window(b, top, bottom, log, offset) && SameOutside(a, b, top, bottom)
    ensures a == b
  {
  }

  /** Writing one cell of a row that follows the end of the log. */
  lemma {:induction false} WindowSet(screen: seq<Line>, top: int, bottom: int, log: seq<Line>, y: int, line: Line)
    requires Window(screen, top, bottom, log, 0) && top <= y <= bottom
    ensures Window(screen[y := line], top, bottom, log[Shown(|log|, bottom, 0, y) := line], 0)
  {
  }

  predicate Rows(s: seq<Line>) {
    forall y :: 0 <= y < |s| ==> |s[y]| == WIDTH
  }

  datatype ScrollOp = LineUp | LineDown | PageUp | PageDown

  /** The view offset after a scroll key, within 0 and `max`. */
  function Moved(op: ScrollOp, offset: int, max: int, step: int): int {
    match op
    case LineUp => Min(offset + 1, max)
    case LineDown => if offset > 0 then offset - 1 else 0
    case PageUp => Min(offset + step, max)
    case PageDown => if offset > step then offset - step else 0
  }

  /** Whether one of the keys moves the view. */
  predicate Travels(ops: seq<ScrollOp>, offset: int, max: int, step: int) {
    ops != [] && (Moved(ops[0], offset, max, step) != offset || Travels(ops[1..], offset, max, step))
  }

  /** A key moves the view when it points to a side that has lines left. */
  lemma {:induction false} TravelsExact(ops: seq<ScrollOp>, offset: int, max: int, step: int)
    requires 0 <= offset <= max && step >= 1
    ensures Travels(ops, offset, max, step) <==>
            || (offset < max && exists i :: 0 <= i < |ops| && (ops[i] == LineUp || ops[i] == PageUp))
            || (offset > 0 && exists i :: 0 <= i < |ops| && (ops[i] == LineDown || ops[i] == PageDown))
  {
    if ops != [] {
      TravelsExact(ops[1..], offset, max, step);
      assert forall i :: 0 < i < |ops| ==> ops[i] == ops[1..][i - 1];
    }
  }

  lemma {:induction false} TravelsMore(ops: seq<ScrollOp>, op: ScrollOp, offset: int, max: int, step: int)
    ensures Travels(ops + [op], offset, max, step) <==> Travels(ops, offset, max, step) || Moved(op, offset, max, step) != offset
  {
    if ops != [] {
      assert (ops + [op])[1..] == ops[1..] + [op];
      TravelsMore(ops[1..], op, offset, max, step);
    }
  }

  class Console {
    var screen: array<Line>
    var ring: array<Line>
    var head: nat
    var count: nat
    var offset: nat
    var top: nat
    var bottom: nat
    var row: nat
    var column: nat
    var color: int
    ghost var log: seq<Line>

    /** Enough for every operation to be safe. */
    ghost predicate Sound()
      reads this, screen, ring
    {
      && screen.Length == HEIGHT && ring.Length == RING && screen != ring
      && Rows(screen[..]) && Rows(ring[..])
      && top <= bottom < HEIGHT && head < RING && count <= RING
    }

    /** What holds after every public operation: ring and screen agree with the log. */
    ghost predicate Valid()
      reads this, screen, ring
    {
      && Sound() && RingHolds(ring[..], head, count, log)
      && Window(screen[..], top, bottom, log, offset)
      && Height() + offset <= count && Rows(log)
    }

    function Height(): int
      reads this
    {
      bottom - top + 1
    }

    /** terminal_scrollback_max_offset */
    function MaxOffset(): int
      reads this
    {
      if count <= Height() then 0 else count - Height()
    }

    /** terminal_scrollback_append_blank_line; returns the slot of the new line. */
    method AppendBlankLine() returns (slot: nat)
      requires Sound()
      modifies `head, `count, `log, ring
      ensures Sound() && slot < RING && ring[slot] == BlankLine(color) && log == old(log) + [BlankLine(color)]
      ensures count == Min(old(count) + 1, RING)
      ensures old(RingHolds(ring[..], head, count, log)) ==> RingHolds(ring[..], head, count, log) && slot == Slot(head, count - 1)
    {
      ghost var was := ring[..];
      if RingHolds(ring[..], head, count, log) {
        if count < RING {
          RingGrows(was, head, count, log, BlankLine(color));
        } else {
          RingTurns(was, head, log, BlankLine(color));
        }
      }
      if count < RING {
        slot := Slot(head, count);
        count := count + 1;
      } else {
        head := Slot(head, 1);
        slot := Slot(head, count - 1);
      }
      ring[slot] := BlankLine(color);
      log := log + [BlankLine(color)];
      assert ring[..] == was[slot := BlankLine(color)];
    }

    /** terminal_scrollback_visible_top_logical; it also brings an offset that is too large back in range. */
    method VisibleTop() returns (logical: nat)
      requires Sound()
      modifies `offset
      ensures logical <= count && logical + Min(Height(), count) <= count
      ensures Height() + old(offset) <= count ==> offset == old(offset) && logical == count - Height() - offset
      ensures old(offset) == 0 ==> offset == 0
    {
      if count <= Height() {
        return 0;
      }
      if offset > MaxOffset() {
        offset := MaxOffset();
      }
      logical := count - Height() - offset;
    }

    /** terminal_scrollback_sync_region_from_history */
    method SyncRegion()
      requires Sound()
      modifies `offset, screen
      ensures Sound() && SameOutside(old(screen[..]), screen[..], top, bottom) && (old(offset) == 0 ==> offset == 0)
      ensures RingHolds(ring[..], head, count, log) && Height() + old(offset) <= count ==>
                offset == old(offset) && Window(screen[..], top, bottom, log, offset)
    {
      var first := VisibleTop();
      CopyRows(first);
      if RingHolds(ring[..], head, count, log) && Height() + old(offset) <= count {
        WindowFromRing(screen[..], ring[..], head, count, top, bottom, log, offset);
      }
    }

    /** The copy loop of terminal_scrollback_sync_region_from_history. */
    method CopyRows(first: nat)
      requires Sound()
      modifies screen
      ensures Sound() && SameOutside(old(screen[..]), screen[..], top, bottom)
      ensures forall k :: top <= k <= bottom && first + (k - top) < count ==> screen[k] == ring[Slot(head, first + (k - top))]
    {
      var y := 0;
      while y < Height()
        invariant 0 <= y <= Height() && Rows(screen[..]) && SameOutside(old(screen[..]), screen[..], top, bottom)
        invariant forall k :: top <= k < top + y && first + (k - top) < count ==> screen[k] == ring[Slot(head, first + (k - top))]
      {
        if first + y < count {
          screen[top + y] := ring[Slot(head, first + y)];
        } else {
          screen[top + y] := BlankLine(color);
        }
        y := y + 1;
      }
    }

    /** terminal_scrollback_update_cell */
    method UpdateCell(x: nat, y: nat, e: int)
      requires Sound() && x < WIDTH && (top <= y <= bottom ==> offset == 0)
      modifies `offset, `log, ring
      ensures Sound() && offset == old(offset)
      ensures !(top <= y <= bottom) ==> log == old(log) && ring[..] == old(ring[..])
      ensures top <= y <= bottom && Height() <= count && old(RingHolds(ring[..], head, count, log)) && old(Rows(log)) ==>
                && RingHolds(ring[..], head, count, log)
                && log == CellSet(old(log), Shown(|old(log)|, bottom, 0, y), x, e)
    {
      if y < top || y > bottom || count == 0 {
        return;
      }
      var logical := VisibleTop();
      logical := logical + (y - top);
      if logical >= count {
        return;
      }
      var slot := Slot(head, logical);
      ghost var was := ring[..];
      if Height() <= count && RingHolds(ring[..], head, count, log) && Rows(log) {
        RingCell(was, head, count, log, logical, x, e);
        log := CellSet(log, Shown(|log|, bottom, 0, y), x, e);
      }
      ring[slot] := ring[slot][x := e];
      assert ring[..] == was[slot := was[slot][x := e]];
    }

    /** The two writes of terminal_putentryat once the view follows the end of the log. */
    method WriteCell(x: nat, y: nat, e: int)
      requires Sound() && x < WIDTH && y < HEIGHT && (top <= y <= bottom ==> offset == 0)
      modifies `offset, `log, screen, ring
      ensures Sound() && offset == old(offset) && screen[..] == old(screen[..])[y := old(screen[y])[x := e]]
      ensures old(Valid()) ==> Valid()
      ensures old(Valid()) ==> log == if top <= y <= bottom then CellSet(old(log), Shown(|old(log)|, bottom, 0, y), x, e) else old(log)
    {
      ghost var valid, was := Valid(), screen[..];
      if valid && top <= y <= bottom {
        WindowSet(was, top, bottom, log, y, was[y][x := e]);
      }
      screen[y] := screen[y][x := e];
      assert screen[..] == was[y := was[y][x := e]];
      UpdateCell(x, y, e);
    }

    /** terminal_putentryat: a write into the region first brings the view back to the end of the log. */
    method PutEntryAt(c: int, attribute: int, x: nat, y: nat)
      requires Sound()
      modifies `offset, `log, screen, ring
      ensures Sound() && (old(offset) == 0 ==> offset == 0)
      ensures x >= WIDTH || y >= HEIGHT ==> screen[..] == old(screen[..]) && log == old(log) && offset == old(offset)
      ensures x < WIDTH && y < HEIGHT ==> screen[y][x] == Entry(c, attribute) && (top <= y <= bottom ==> offset == 0)
      ensures x < WIDTH && y < HEIGHT && (old(offset) == 0 || !(top <= y <= bottom)) ==>
                offset == old(offset) && screen[..] == old(screen[..])[y := old(screen[y])[x := Entry(c, attribute)]]
      ensures x < WIDTH && top <= y <= bottom ==> SameOutside(old(screen[..]), screen[..], top, bottom)
      ensures old(Valid()) ==> Valid()
      ensures old(Valid()) && x < WIDTH && top <= y <= bottom ==>
                log == CellSet(old(log), Shown(|old(log)|, bottom, 0, y), x, Entry(c, attribute))
      ensures old(Valid()) && !(top <= y <= bottom) ==> log == old(log)
    {
      if x >= WIDTH || y >= HEIGHT {
        return;
      }
      if top <= y <= bottom && offset != 0 {
        offset := 0;
        SyncRegion();
      }
      WriteCell(x, y, Entry(c, attribute));
    }

    /** Power-on state: nothing is known of the screen contents. */
    constructor ()
      ensures Sound() && fresh(screen) && fresh(ring)
    {
      screen := new Line[HEIGHT](_ => BlankLine(0));
      ring := new Line[RING](_ => BlankLine(0));
      head, count, offset, top, bottom, row, column, color := 0, 0, 0, 0, HEIGHT - 1, 0, 0, 0;
      log := [];
    }

    /** terminal_scrollback_reset_history: the log restarts with the rows of the region. */
    method ResetHistory()
      requires Sound()
      modifies `head, `count, `offset, `log, ring
      ensures Valid() && offset == 0 && log == screen[top..bottom + 1] && count == Height()
    {
      head, count, offset, log := 0, 0, 0, [];
      var y := 0;
      while y < Height()
        invariant 0 <= y <= Height() && Sound() && offset == 0 && count == y
        invariant log == screen[top..top + y] && RingHolds(ring[..], head, count, log)
      {
        AppendRow(top + y);
        y := y + 1;
      }
      assert Window(screen[..], top, bottom, log, 0);
    }

    /** A new line of the history, copied from a row of the screen. */
    method AppendRow(y: nat)
      requires Sound() && y < HEIGHT && RingHolds(ring[..], head, count, log) && count < RING
      modifies `head, `count, `log, ring
      ensures Sound() && RingHolds(ring[..], head, count, log) && count == old(count) + 1
      ensures log == old(log) + [screen[y]]
    {
      var slot := AppendBlankLine();
      ghost var was := ring[..];
      RingSet(was, head, count, log, count - 1, screen[y]);
      ring[slot] := screen[y];
      log := log[|log| - 1 := screen[y]];
      assert ring[..] == was[slot := screen[y]];
    }

    /** terminal_scrollback_sync_view_after_scroll */
    method SyncViewAfterScroll()
      requires Sound()
      modifies `offset, `row, `column, screen
      ensures Sound() && SameOutside(old(screen[..]), screen[..], top, bottom)
      ensures row == bottom && column == 0
      ensures RingHolds(ring[..], head, count, log) && Height() + old(offset) <= count ==>
                offset == old(offset) && Window(screen[..], top, bottom, log, offset)
    {
      SyncRegion();
      row := bottom;
      column := 0;
    }

    /** terminal_scroll: one blank line more, seen at the bottom of the region. */
    method ScrollOne()
      requires Valid()
      modifies `head, `count, `offset, `log, `row, `column, screen, ring
      ensures Valid() && offset == 0 && log == old(log) + [BlankLine(color)]
      ensures SameOutside(old(screen[..]), screen[..], top, bottom) && row == bottom && column == 0
    {
      offset := 0;
      var _ := AppendBlankLine();
      SyncViewAfterScroll();
    }

    ghost function Shows(): Text
      reads this
    {
      Text(log, row, column)
    }

    /** terminal_putchar */
    method PutChar(c: int)
      requires Valid()
      modifies `head, `count, `offset, `log, `row, `column, screen, ring
      ensures Valid() && Shows() == Typed(old(Shows()), c, top, bottom, color)
      ensures c == 10 || top <= old(row) <= bottom ==> SameOutside(old(screen[..]), screen[..], top, bottom)
    {
      if c == 10 {
        NextRow();
        return;
      }
      TypeCell(c);
      column := column + 1;
      if column >= WIDTH {
        NextRow();
      }
    }

    method TypeCell(c: int)
      requires Valid()
      modifies `offset, `log, screen, ring
      ensures Valid() && log == Inked(old(Shows()), c, top, bottom, color)
      ensures top <= row <= bottom ==> SameOutside(old(screen[..]), screen[..], top, bottom)
    {
      PutEntryAt(c, color, column, row);
    }

    /** The cursor moves to the start of the next row, scrolling when that leaves the region. */
    method NextRow()
      requires Valid()
      modifies `head, `count, `offset, `log, `row, `column, screen, ring
      ensures Valid() && Shows() == NewRow(old(Shows()), bottom, color)
      ensures SameOutside(old(screen[..]), screen[..], top, bottom)
    {
      column := 0;
      row := row + 1;
      if row > bottom {
        ScrollOne();
      }
    }

    /** terminal_write */
    method Write(data: seq<int>)
      requires Valid()
      modifies `head, `count, `offset, `log, `row, `column, screen, ring
      ensures Valid() && Shows() == TypedAll(old(Shows()), data, top, bottom, color)
    {
      var i := 0;
      assert data[..0] == [];
      while i < |data|
        invariant 0 <= i <= |data| && Valid() && Shows() == TypedAll(old(Shows()), data[..i], top, bottom, color)
      {
        PutChar(data[i]);
        assert data[..i + 1][..i] == data[..i];
        i := i + 1;
      }
      assert data[..i] == data;
    }

    /** terminal_scrollback_follow */
    method Follow()
      requires Valid()
      modifies `offset, screen
      ensures Valid() && offset == 0 && SameOutside(old(screen[..]), screen[..], top, bottom)
      ensures old(offset) == 0 ==> screen[..] == old(screen[..])
    {
      if offset == 0 {
        return;
      }
      offset := 0;
      SyncRegion();
    }

    /** Rows that a page step moves: all but one of the region. */
    function PageStep(): int
      reads this
    {
      if Height() > 1 then Height() - 1 else Height()
    }

    /** terminal_scrollback_line_up, _line_down, _page_up and _page_down */
    method ScrollView(op: ScrollOp)
      requires Valid()
      modifies `offset, `row, `column, screen
      ensures Valid() && SameOutside(old(screen[..]), screen[..], top, bottom)
      ensures offset == Moved(op, old(offset), MaxOffset(), PageStep())
      ensures (row, column) == if offset == old(offset) then old((row, column)) else (bottom, 0)
    {
      match op {
        case LineUp =>
          if MaxOffset() == 0 || offset >= MaxOffset() {
            return;
          }
          offset := offset + 1;
        case LineDown =>
          if offset == 0 {
            return;
          }
          offset := offset - 1;
        case PageUp =>
          if MaxOffset() == 0 || offset >= MaxOffset() {
            return;
          }
          offset := offset + PageStep();
          if offset > MaxOffset() {
            offset := MaxOffset();
          }
        case PageDown =>
          if offset == 0 {
            return;
          }
          offset := if offset > PageStep() then offset - PageStep() else 0;
      }
      SyncViewAfterScroll();
    }

    /**
     Scrolling about as one likes and then following shows the screen as it was.  The cursor
     is where it was if no key moved the view, and otherwise at the bottom left of the region.
     */
    method ScrollTrip(ops: seq<ScrollOp>)
      requires Valid()
      modifies `offset, `row, `column, screen
      ensures Valid() && offset == 0
      ensures old(offset) == 0 ==> screen[..] == old(screen[..])
      ensures (row, column) == if Travels(ops, old(offset), MaxOffset(), PageStep()) then (bottom, 0) else old((row, column))
    {
      ghost var from, max, step := offset, MaxOffset(), PageStep();
      var i := 0;
      while i < |ops|
        invariant 0 <= i <= |ops| && Valid() && SameOutside(old(screen[..]), screen[..], top, bottom)
        invariant !Travels(ops[..i], from, max, step) ==> offset == from
        invariant (row, column) == if Travels(ops[..i], from, max, step) then (bottom, 0) else old((row, column))
      {
        TravelsMore(ops[..i], ops[i], from, max, step);
        assert ops[..i + 1] == ops[..i] + [ops[i]];
        ScrollView(ops[i]);
        i := i + 1;
      }
      assert ops[..i] == ops;
      Follow();
      if old(offset) == 0 {
        ScreenDetermined(old(screen[..]), screen[..], top, bottom, log, 0);
      }
    }

    /** terminal_set_cursor */
    method SetCursor(x: nat, y: nat)
      requires Valid()
      modifies `row, `column
      ensures Valid()
      ensures column == (if x < WIDTH then x else old(column)) && row == (if y < HEIGHT then y else old(row))
    {
      if x < WIDTH {
        column := x;
      }
      if y < HEIGHT {
        row := y;
      }
    }

    /** terminal_set_region: rows out of range are clamped, an inverted pair means the whole screen. */
    method SetRegion(first: nat, last: nat)
      requires Sound()
      modifies `head, `count, `offset, `log, `top, `bottom, `row, `column, ring
      ensures Valid() && offset == 0 && log == screen[top..bottom + 1]
      ensures var t, b := Min(first, HEIGHT - 1), Min(last, HEIGHT - 1);
              if t <= b then top == t && bottom == b else top == 0 && bottom == HEIGHT - 1
      ensures top <= row <= bottom
    {
      var t, b := first, last;
      if t >= HEIGHT {
        t := HEIGHT - 1;
      }
      if b >= HEIGHT {
        b := HEIGHT - 1;
      }
      if t > b {
        t, b := 0, HEIGHT - 1;
      }
      top, bottom := t, b;
      if row < top || row > bottom {
        row, column := top, 0;
      }
      ResetHistory();
    }

    /** terminal_reset_region: the whole screen, with a fresh log and the cursor where it was. */
    method ResetRegion()
      requires Sound()
      modifies `head, `count, `offset, `log, `top, `bottom, ring
      ensures Valid() && offset == 0 && log == screen[..] && top == 0 && bottom == HEIGHT - 1
    {
      top, bottom := 0, HEIGHT - 1;
      ResetHistory();
      assert screen[0..HEIGHT] == screen[..];
    }

    /** terminal_fill_rect over the whole screen, as terminal_clear calls it. */
    method FillScreen()
      requires Sound()
      modifies `offset, `log, screen, ring
      ensures Sound() && forall y :: 0 <= y < HEIGHT ==> screen[y] == BlankLine(color)
    {
      var y := 0;
      while y < HEIGHT
        invariant 0 <= y <= HEIGHT && Sound() && (offset != 0 ==> y <= top)
        invariant forall k :: 0 <= k < y ==> screen[k] == BlankLine(color)
      {
        FillRow(y);
        y := y + 1;
      }
    }

    /** One row of terminal_fill_rect. */
    method FillRow(y: nat)
      requires Sound() && y < HEIGHT && (offset != 0 ==> y <= top)
      modifies `offset, `log, screen, ring
      ensures Sound() && screen[y] == BlankLine(color) && (offset != 0 ==> y < top)
      ensures forall k :: 0 <= k < y ==> screen[k] == old(screen[k])
    {
      var x := 0;
      while x < WIDTH
        invariant 0 <= x <= WIDTH && Sound()
        invariant offset != 0 ==> (if x == 0 then y <= top else y < top)
        invariant forall k :: 0 <= k < x ==> screen[y][k] == Entry(32, color)
        invariant forall k :: 0 <= k < y ==> screen[k] == old(screen[k])
      {
        PutEntryAt(32, color, x, y);
        x := x + 1;
      }
    }

    /** terminal_clear */
    method Clear()
      requires Sound()
      modifies `head, `count, `offset, `log, `row, `column, screen, ring
      ensures Valid() && offset == 0 && row == column == 0
      ensures (forall y :: 0 <= y < HEIGHT ==> screen[y] == BlankLine(color)) && log == screen[top..bottom + 1]
    {
      FillScreen();
      row, column := 0, 0;
      ResetHistory();
    }

    /** terminal_initialize */
    method Initialize(attribute: int)
      requires Sound()
      modifies this, screen, ring
      ensures Valid() && screen == old(screen) && ring == old(ring)
      ensures offset == 0 && row == column == 0 && top == 0 && bottom == HEIGHT - 1 && color == attribute
      ensures forall y :: 0 <= y < HEIGHT ==> screen[y] == BlankLine(color)
    {
      color := attribute;
      top, bottom := 0, HEIGHT - 1;
      Clear();
    }
  }

  /** The log and the cursor. */
  datatype Text = Text(log: seq<Line>, row: nat, column: nat)

  /** The start of the next row, which is a new line of the log past the end of the region. */
  function NewRow(t: Text, bottom: int, color: int): Text {
    if t.row < bottom then Text(t.log, t.row + 1, 0)
    else if bottom < 0 then t
    else Text(t.log + [BlankLine(color)], bottom, 0)
  }

  /** The log with a character at the cursor, if that lies in the region. */
  function Inked(t: Text, c: int, top: int, bottom: int, color: int): seq<Line> {
    if t.column < WIDTH && top <= t.row <= bottom
    then CellSet(t.log, Shown(|t.log|, bottom, 0, t.row), t.column, Entry(c, color)) else t.log
  }

  /** One character: into the line of the log that the cursor's row shows, or onto the screen only when the row is outside the region. */
  function Typed(t: Text, c: int, top: int, bottom: int, color: int): Text {
    if c == 10 then NewRow(t, bottom, color)
    else
      var log := Inked(t, c, top, bottom, color);
      if t.column + 1 < WIDTH then Text(log, t.row, t.column + 1) else NewRow(Text(log, t.row, t.column), bottom, color)
  }

  function TypedAll(t: Text, data: seq<int>, top: int, bottom: int, color: int): Text {
    if data == [] then t
    else Typed(TypedAll(t, data[..|data| - 1], top, bottom, color), data[|data| - 1], top, bottom, color)
  }

  /** The log with one cell of line `i` changed. */
  function CellSet(log: seq<Line>, i: int, x: nat, e: int): seq<Line> {
    if 0 <= i < |log| && x < |log[i]| then log[i := log[i][x := e]] else log
  }

  lemma {:induction false} RingCell(ring: seq<Line>, head: nat, count: nat, log: seq<Line>, i: nat, x: nat, e: int)
    requires RingHolds(ring, head, count, log) && Rows(log) && i < count && x < WIDTH
    ensures x < |ring[Slot(head, i)]|
    ensures RingHolds(ring[Slot(head, i) := ring[Slot(head, i)][x := e]], head, count, CellSet(log, |log| - count + i, x, e))
  {
    RingSet(ring, head, count, log, i, ring[Slot(head, i)][x := e]);
  }

  lemma {:induction false} WindowFromRing(screen: seq<Line>, ring: seq<Line>, head: nat, count: nat, top: nat, bottom: nat, log: seq<Line>, offset: nat)
    requires RingHolds(ring, head, count, log) && |screen| == HEIGHT && top <= bottom < HEIGHT
    requires bottom - top + 1 + offset <= count
    requires var first := count - (bottom - top + 1) - offset;
             forall k :: top <= k <= bottom ==> screen[k] == ring[Slot(head, first + (k - top))]
    ensures Window(screen, top, bottom, log, offset)
  {
    var first := count - (bottom - top + 1) - offset;
    forall y | top <= y <= bottom ensures screen[y] == log[Shown(|log|, bottom, offset, y)] {
      var i: nat := first + (y - top);
      assert ring[Slot(head, i)] == log[|log| - count + i];
    }
  }
}
