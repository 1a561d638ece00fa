/**
 mouse.c: a byte queue filled by the interrupt handler and emptied by a loop that the
 handler may interrupt before each of its accesses to the queue and before each packet byte
 is stored.
 */
module Mouse {
  import opened Words

  const QUEUE: int := 128

  // ----- framing a byte stream into packets -----

  datatype Framing = Framing(losses: nat, packets: seq<seq<int>>, partial: seq<int>)

  const Unframed := Framing(0, [], [])

  /** A packet must start with a byte whose bit 3 is set; others are skipped. */
  function Frame(f: Framing, b: int, size: nat): Framing {
    if f.partial == [] && b / 8 % 2 == 0 then f.(losses := f.losses + 1)
    else if |f.partial| + 1 >= size then Framing(f.losses, f.packets + [f.partial + [b]], [])
    else f.(partial := f.partial + [b])
  }

  function FrameAll(bytes: seq<int>, size: nat): Framing {
    if bytes == [] then Unframed
    else Frame(FrameAll(bytes[..|bytes| - 1], size), bytes[|bytes| - 1], size)
  }

  /** Every byte is lost, in a whole packet or in the partial one. */
  lemma {:induction false} FramingAccounts(bytes: seq<int>, size: nat)
    requires size > 0
    ensures var f := FrameAll(bytes, size);
            && |f.partial| < size && (forall p :: p in f.packets ==> |p| == size)
            && |bytes| == f.losses + size * |f.packets| + |f.partial|
  {
    if bytes != [] {
      var front := bytes[..|bytes| - 1];
      FramingAccounts(front, size);
      var f := FrameAll(front, size);
      assert size * (|f.packets| + 1) == size * |f.packets| + size;
    }
  }

  // ----- wheel movements -----

  /** Conversion to a signed 8-bit integer. */
  function Int8(x: int): int {
    (x + 128) % 256 - 128
  }

  /** How many turns a loop takes that runs while its variable is positive and decrements it. */
  function Turns(n: int): nat {
    if n > 0 then 1 + Turns(n - 1) else 0
  }

  /** What mouse_process_packet makes of the wheel byte: counter increments, scroll calls and the movement kept. */
  datatype Wheel = Wheel(upCount: int, downCount: int, lineUps: nat, lineDowns: nat, last: int)

  function WheelOf(b: int): Wheel {
    var delta := Int8(b);
    var steps := Int8(-delta);
    if delta > 0 then Wheel(delta % WORD, 0, Turns(delta), 0, Int8(b))
    else if delta < 0 then Wheel(0, steps % WORD, 0, Turns(steps), Int8(b))
    else Wheel(0, 0, 0, 0, 0)
  }

  lemma {:induction false} TurnsCount(n: int)
    ensures Turns(n) == if n > 0 then n else 0
  {
    if n > 0 {
      TurnsCount(n - 1);
    }
  }

  /**
   The counters match the scroll calls except for a movement of -128: its 8-bit negation
   is -128 again, so nothing scrolls while the counter moves back by 128.
   */
  lemma {:induction false} WheelExact(b: int)
    requires 0 <= b < 256
    ensures var w := WheelOf(b);
            && w.upCount == w.lineUps && w.last == (if b < 128 then b else b - 256)
            && (w.downCount == w.lineDowns <==> b != 128)
            && w.lineUps - w.lineDowns == (if b == 128 then 0 else w.last)
            && (b == 128 ==> w.downCount == WORD - 128 && w.lineDowns == 0)
  {
    Int8Values(b);
    TurnsCount(Int8(b));
    TurnsCount(Int8(-Int8(b)));
  }

  lemma {:induction false} Int8Values(b: int)
    requires 0 <= b < 256
    ensures Int8(b) == if b < 128 then b else b - 256
    ensures Int8(-Int8(b)) == if b == 128 then -128 else -Int8(b)
  {
  }

  /** Buttons, wheel counters, the last movement, and the scroll calls made. */
  datatype Tally = Tally(buttons: int, up: int, down: int, last: int, lineUps: nat, lineDowns: nat)

  function Bump(x: int, d: int): int {
    if d == 0 then x else (x + d) % WORD
  }

  predicate Turned(p: seq<int>, wheel: bool) {
    wheel && |p| >= 4 && 0 <= p[3] < 256
  }

  /** What one packet makes of them. */
  function Tallied(t: Tally, p: seq<int>, wheel: bool): Tally {
    if p == [] then t
    else if !Turned(p, wheel) then t.(buttons := p[0] % 8)
    else
      var w := WheelOf(p[3]);
      Tally(p[0] % 8, Bump(t.up, w.upCount), Bump(t.down, w.downCount), w.last, t.lineUps + w.lineUps, t.lineDowns + w.lineDowns)
  }

  function TallyAll(packets: seq<seq<int>>, wheel: bool): Tally {
    if packets == [] then Tally(0, 0, 0, 0, 0, 0)
    else Tallied(TallyAll(packets[..|packets| - 1], wheel), packets[|packets| - 1], wheel)
  }

  /** How many packets move the wheel by -128. */
  function Dips(packets: seq<seq<int>>, wheel: bool): nat {
    if packets == [] then 0
    else
      var p := packets[|packets| - 1];
      Dips(packets[..|packets| - 1], wheel) + if Turned(p, wheel) && p[3] == 128 then 1 else 0
  }

  /**
   Over any packets the upward counter is the number of upward scroll calls modulo 2^32;
   the downward one is short by 128 for each movement of -128, so it agrees exactly when
   their number is a multiple of 2^25.
   */
  lemma {:induction false} WheelRun(packets: seq<seq<int>>, wheel: bool)
    ensures var t := TallyAll(packets, wheel);
            && t.up == t.lineUps % WORD
            && t.down == (t.lineDowns - 128 * Dips(packets, wheel)) % WORD
            && (t.down == t.lineDowns % WORD <==> Dips(packets, wheel) % 0x200_0000 == 0)
  {
    WheelCounts(packets, wheel);
    DipsAgree(TallyAll(packets, wheel).lineDowns, Dips(packets, wheel));
  }

  /** The counters follow the calls, short by 128 for each dip. */
  ghost predicate Counts(t: Tally, dips: nat) {
    t.up == t.lineUps % WORD && t.down == (t.lineDowns - 128 * dips) % WORD
  }

  lemma {:induction false} WheelCounts(packets: seq<seq<int>>, wheel: bool)
    ensures Counts(TallyAll(packets, wheel), Dips(packets, wheel))
  {
    if packets != [] {
      var front, p := packets[..|packets| - 1], packets[|packets| - 1];
      WheelCounts(front, wheel);
      TalliedCounts(TallyAll(front, wheel), p, wheel, Dips(front, wheel));
    }
  }

  lemma {:induction false} TalliedCounts(t: Tally, p: seq<int>, wheel: bool, dips: nat)
    requires Counts(t, dips)
    ensures Counts(Tallied(t, p, wheel), dips + if Turned(p, wheel) && p[3] == 128 then 1 else 0)
  {
    if Turned(p, wheel) {
      WheelStep(t, p[3], dips);
    }
  }

  lemma {:induction false} WheelStep(t: Tally, b: int, dips: nat)
    requires 0 <= b < 256 && Counts(t, dips)
    ensures Bump(t.up, WheelOf(b).upCount) == (t.lineUps + WheelOf(b).lineUps) % WORD
    ensures Bump(t.down, WheelOf(b).downCount) ==
            (t.lineDowns + WheelOf(b).lineDowns - 128 * (dips + if b == 128 then 1 else 0)) % WORD
  {
    WheelExact(b);
    BumpWraps(t.lineUps, WheelOf(b).upCount);
    BumpWraps(t.lineDowns - 128 * dips, WheelOf(b).downCount);
    AddMultiple(t.lineDowns - 128 * dips - 128, 1);
  }

  lemma {:induction false} BumpWraps(x: int, d: int)
    ensures Bump(x % WORD, d) == (x + d) % WORD
  {
    AddMultiple(x % WORD + d, x / WORD);
  }

  /** Adding a signed value and adding its conversion to an unsigned word are the same. */
  lemma {:induction false} BumpSigned(x: int, d: int)
    requires -128 <= d < 128 && d != 0
    ensures (x + d) % WORD == Bump(x, d % WORD)
  {
    if d < 0 {
      AddMultiple(x + d, 1);
    }
  }

  lemma {:induction false} DipsAgree(calls: int, dips: nat)
    ensures (calls - 128 * dips) % WORD == calls % WORD <==> dips % 0x200_0000 == 0
  {
    if dips % 0x200_0000 == 0 {
      AddMultiple(calls, -(dips / 0x200_0000));
    }
  }

  lemma {:induction false} TallyMore(packets: seq<seq<int>>, p: seq<int>, wheel: bool)
    ensures TallyAll(packets + [p], wheel) == Tallied(TallyAll(packets, wheel), p, wheel)
  {
    assert (packets + [p])[..|packets|] == packets;
  }

  /** The points of one turn of the drain loop at which the handler may run. */
  datatype Point = AtTest | AtLoad | AtAdvance(value: int) | AtFrame(value: int)

  /** One interrupt: the status port and the data port. */
  datatype Irq = Irq(outputFull: bool, auxData: bool, data: int)

  /** What interrupts have brought: their count, the bytes dropped and the bytes accepted. */
  datatype Intake = Intake(events: int, dropped: int, accepted: seq<int>)

  /** One interrupt: a byte for the mouse is counted and accepted, or dropped when 127 are waiting. */
  ghost function Arrive(i: Intake, irq: Irq, consumed: nat): Intake {
    if !irq.outputFull || !irq.auxData then i
    else if |i.accepted| - consumed == QUEUE - 1 then Intake(Inc(i.events), Inc(i.dropped), i.accepted)
    else Intake(Inc(i.events), i.dropped, i.accepted + [irq.data])
  }

  ghost function ArriveAll(i: Intake, irqs: seq<Irq>, consumed: nat): Intake
    decreases |irqs|
  {
    if irqs == [] then i else ArriveAll(Arrive(i, irqs[0], consumed), irqs[1..], consumed)
  }

  /** The queued bytes, oldest first. */
  ghost function Queued(q: seq<int>, head: nat, tail: nat): seq<int>
    requires head < |q| && tail < |q|
  {
    if tail <= head then q[tail..head] else q[tail..] + q[..head]
  }

  /** First in, first out: what was accepted is what was consumed followed by what is queued. */
  ghost predicate Fifo(q: seq<int>, head: nat, tail: nat, accepted: seq<int>, consumed: seq<int>)
    requires head < |q| && tail < |q|
  {
    accepted == consumed + Queued(q, head, tail) && forall i :: 0 <= i < |accepted| ==> 0 <= accepted[i] < 256
  }

  /** The packet buffer with its index, and the counters that framing changes. */
  datatype Assembly = Assembly(packet: seq<int>, index: nat, losses: int, seen: int, tally: Tally)

  /** What the loop body does with a byte. */
  function Fed(s: Assembly, b: int, size: nat, wheel: bool): Assembly {
    if s.index == 0 && b / 8 % 2 == 0 then s.(losses := Inc(s.losses))
    else if s.index >= |s.packet| then s
    else
      var p := s.packet[s.index := b];
      if s.index + 1 < size || size > |p| then s.(packet := p, index := s.index + 1)
      else Assembly(p, 0, s.losses, Inc(s.seen), Tallied(s.tally, p[..size], wheel))
  }

  /** The buffer and counters are those of framing `bytes`. */
  ghost predicate Holds(s: Assembly, size: nat, wheel: bool, bytes: seq<int>) {
    Assembles(s, size, FrameAll(bytes, size), TallyAll(FrameAll(bytes, size).packets, wheel))
  }

  /** The buffer and counters are those of a framing and a tally. */
  ghost predicate Assembles(s: Assembly, size: nat, f: Framing, t: Tally) {
    && |s.packet| == 4 && s.index == |f.partial| < size && s.index < 4 && s.packet[..s.index] == f.partial
    && Same32(s.losses, f.losses) && Same32(s.seen, |f.packets|) && s.tally == t
  }

  lemma {:induction false} QueueGrows(q: seq<int>, head: nat, tail: nat, b: int)
    requires |q| == QUEUE && head < QUEUE && tail < QUEUE && (head + 1) % QUEUE != tail
    ensures Queued(q[head := b], (head + 1) % QUEUE, tail) == Queued(q, head, tail) + [b]
    ensures |Queued(q, head, tail)| < QUEUE - 1
  {
    Wraps(head);
  }

  lemma {:induction false} QueueShrinks(q: seq<int>, head: nat, tail: nat)
    requires |q| == QUEUE && head < QUEUE && tail < QUEUE && head != tail
    ensures Queued(q, head, tail) == [q[tail]] + Queued(q, head, (tail + 1) % QUEUE)
  {
    Wraps(tail);
    QueueSteps(q, head, tail, (tail + 1) % QUEUE);
  }

  lemma {:induction false} Wraps(i: nat)
    requires i < QUEUE
    ensures (i + 1) % QUEUE == if i == QUEUE - 1 then 0 else i + 1
  {
  }

  lemma {:induction false} QueueSteps(q: seq<int>, head: nat, tail: nat, next: nat)
    requires |q| == QUEUE && head < QUEUE && tail < QUEUE && head != tail && next == if tail == QUEUE - 1 then 0 else tail + 1
    ensures Queued(q, head, tail) == [q[tail]] + Queued(q, head, next)
  {
    if tail == QUEUE - 1 {
      LastSlot(q, head);
    } else if tail < head {
      FirstSlot(q, head, tail);
    } else {
      AroundSlot(q, head, tail);
    }
  }

  lemma {:induction false} FirstSlot(q: seq<int>, head: nat, tail: nat)
    requires tail < head <= |q|
    ensures q[tail..head] == [q[tail]] + q[tail + 1..head]
  {
  }

  lemma {:induction false} LastSlot(q: seq<int>, head: nat)
    requires |q| == QUEUE && head < QUEUE - 1
    ensures q[QUEUE - 1..] + q[..head] == [q[QUEUE - 1]] + q[0..head]
  {
  }

  lemma {:induction false} AroundSlot(q: seq<int>, head: nat, tail: nat)
    requires head < tail < |q|
    ensures q[tail..] + q[..head] == [q[tail]] + (q[tail + 1..] + q[..head])
  {
  }

  lemma {:induction false} LastIsByte(q: seq<int>, head: nat, tail: nat, accepted: seq<int>, consumed: seq<int>)
    requires head < |q| && tail < |q| && consumed != [] && Fifo(q, head, tail, accepted, consumed)
    ensures var last := consumed[|consumed| - 1];
            0 <= last < 256 && consumed == consumed[..|consumed| - 1] + [last]
  {
    assert accepted[|consumed| - 1] == consumed[|consumed| - 1];
  }

  lemma {:induction false} FifoShifts(q: seq<int>, head: nat, tail: nat, accepted: seq<int>, consumed: seq<int>)
    requires |q| == QUEUE && head < QUEUE && tail < QUEUE && head != tail && Fifo(q, head, tail, accepted, consumed)
    ensures Fifo(q, head, (tail + 1) % QUEUE, accepted, consumed + [q[tail]])
    ensures |consumed| < |accepted| && accepted[|consumed|] == q[tail]
  {
    QueueShrinks(q, head, tail);
    var rest := Queued(q, head, (tail + 1) % QUEUE);
    assert consumed + ([q[tail]] + rest) == (consumed + [q[tail]]) + rest;
  }

  /** Which packets one more byte completes, and what they make of the counters. */
  lemma {:induction false} PacketsStep(bytes: seq<int>, b: int, size: nat, wheel: bool)
    ensures var f, g := FrameAll(bytes, size), FrameAll(bytes + [b], size);
            if Completes(f, b, size)
            then TallyAll(g.packets, wheel) == Tallied(TallyAll(f.packets, wheel), f.partial + [b], wheel)
            else TallyAll(g.packets, wheel) == TallyAll(f.packets, wheel)
  {
    var f := FrameAll(bytes, size);
    FrameLast(bytes, b, size);
    TallyMore(f.packets, f.partial + [b], wheel);
  }

  /** Feeding one more byte frames one more byte. */
  lemma {:induction false} FedHolds(s: Assembly, size: nat, wheel: bool, bytes: seq<int>, b: int)
    requires 3 <= size <= 4 && Holds(s, size, wheel, bytes)
    ensures Holds(Fed(s, b, size, wheel), size, wheel, bytes + [b])
  {
    var f := FrameAll(bytes, size);
    FrameLast(bytes, b, size);
    PacketsStep(bytes, b, size, wheel);
    FedAssembles(s, size, wheel, f, TallyAll(f.packets, wheel), b);
  }

  /** The byte completes a packet. */
  predicate Completes(f: Framing, b: int, size: nat) {
    |f.partial| + 1 >= size && !(f.partial == [] && b / 8 % 2 == 0)
  }

  lemma {:induction false} FedAssembles(s: Assembly, size: nat, wheel: bool, f: Framing, t: Tally, b: int)
    requires 3 <= size <= 4 && Assembles(s, size, f, t)
    ensures Assembles(Fed(s, b, size, wheel), size, Frame(f, b, size), if Completes(f, b, size) then Tallied(t, f.partial + [b], wheel) else t)
  {
    if f.partial == [] && b / 8 % 2 == 0 {
      SameInc(s.losses, f.losses);
    } else {
      assert s.packet[s.index := b][..s.index + 1] == f.partial + [b];
      SameInc(s.seen, |f.packets|);
    }
  }

  class MouseDriver {
    const queue: array<int>
    var head: nat
    var tail: nat
    var dropped: int
    const packet: array<int>
    var packetIndex: nat
    var packetSize: nat
    var wheelReady: bool
    var buttons: int
    var irqEvents: int
    var packetsSeen: int
    var syncLosses: int
    var scrollUp: int
    var scrollDown: int
    var lastWheel: int
    // calls made to terminal_scrollback_line_up and terminal_scrollback_line_down
    var lineUps: nat
    var lineDowns: nat
    ghost var accepted: seq<int>
    ghost var consumed: seq<int>

    ghost predicate Shape()
      reads this
    {
      queue.Length == QUEUE && packet.Length == 4 && queue != packet && 3 <= packetSize <= 4
    }

    /** The queue and its counters, in the state `Fifo` describes. */
    ghost predicate QueueOk()
      reads `head, `tail, `irqEvents, `dropped, `accepted, `consumed, queue
    {
      && queue.Length == QUEUE && head < QUEUE && tail < QUEUE
      && Fifo(queue[..], head, tail, accepted, consumed) && Same32(irqEvents, dropped + |accepted|)
    }

    /** The packet buffer and counters are those of framing `bytes`. */
    ghost predicate Framed(bytes: seq<int>)
      reads `packetIndex, `packetSize, `syncLosses, `packetsSeen, `wheelReady, `buttons, `scrollUp, `scrollDown, `lastWheel, `lineUps, `lineDowns, packet
    {
      Holds(Assembled(), packetSize, wheelReady, bytes)
    }

    function Counters(): Tally
      reads `buttons, `scrollUp, `scrollDown, `lastWheel, `lineUps, `lineDowns
    {
      Tally(buttons, scrollUp, scrollDown, lastWheel, lineUps, lineDowns)
    }

    function Assembled(): Assembly
      reads `packetIndex, `syncLosses, `packetsSeen, `buttons, `scrollUp, `scrollDown, `lastWheel, `lineUps, `lineDowns, packet
    {
      Assembly(packet[..], packetIndex, syncLosses, packetsSeen, Counters())
    }

    /** State at each point of the drain loop. */
    ghost predicate Valid(at: Point)
      reads this, queue, packet
    {
      && Shape() && QueueOk()
      && match at
         case AtTest => Framed(consumed)
         case AtLoad => Framed(consumed) && head != tail
         case AtAdvance(v) => Framed(consumed) && head != tail && v == queue[tail]
         case AtFrame(v) => consumed != [] && v == consumed[|consumed| - 1] && Framed(consumed[..|consumed| - 1])
    }

    /** mouse_enqueue_byte */
    method EnqueueByte(value: int)
      requires queue.Length == QUEUE && head < QUEUE && tail < QUEUE && 0 <= value < 256
      requires Fifo(queue[..], head, tail, accepted, consumed)
      modifies `head, `dropped, `accepted, queue
      ensures head < QUEUE && Fifo(queue[..], head, tail, accepted, consumed)
      ensures if |Queued(old(queue[..]), old(head), tail)| == QUEUE - 1
              then dropped == Inc(old(dropped)) && accepted == old(accepted)
              else dropped == old(dropped) && accepted == old(accepted) + [value]
      ensures old(head) != tail ==> head != tail && queue[tail] == old(queue[tail])
    {
      var next := (head + 1) % QUEUE;
      if next == tail {
        dropped := Inc(dropped);
        return;
      }
      ghost var was := queue[..];
      QueueGrows(was, head, tail, value);
      queue[head] := value;
      assert queue[..] == was[head := value];
      head := next;
      accepted := accepted + [value];
    }

    /** mouse_init after the device has been identified. */
    constructor (wheel: bool)
      ensures Valid(AtTest) && accepted == [] && packetSize == (if wheel then 4 else 3)
      ensures wheelReady == wheel && fresh(queue) && fresh(packet)
    {
      queue := new int[QUEUE];
      packet := new int[4];
      head, tail, dropped := 0, 0, 0;
      packetIndex, packetSize := 0, if wheel then 4 else 3;
      wheelReady := wheel;
      buttons, irqEvents, packetsSeen, syncLosses, scrollUp, scrollDown := 0, 0, 0, 0, 0, 0;
      lastWheel, lineUps, lineDowns := 0, 0, 0;
      accepted, consumed := [], [];
    }

    ghost function Taken(): Intake
      reads this
    {
      Intake(irqEvents, dropped, accepted)
    }

    /** mouse_handle_irq, wherever in the drain loop it strikes. */
    method HandleIrq(irq: Irq, ghost at: Point)
      requires Valid(at) && 0 <= irq.data < 256
      modifies `irqEvents, `head, `dropped, `accepted, queue
      ensures Valid(at) && consumed == old(consumed) && tail == old(tail) && packetSize == old(packetSize)
      ensures old(accepted) <= accepted
      ensures Taken() == Arrive(old(Taken()), irq, |consumed|)
    {
      Receive(irq);
    }

    /** The same, as far as the queue goes. */
    method Receive(irq: Irq)
      requires QueueOk() && 0 <= irq.data < 256
      modifies `irqEvents, `head, `dropped, `accepted, queue
      ensures QueueOk() && Taken() == Arrive(old(Taken()), irq, |consumed|) && old(accepted) <= accepted
      ensures old(head) != tail ==> head != tail && queue[tail] == old(queue[tail])
    {
      if !irq.outputFull || !irq.auxData {
        return;
      }
      EventCounted(irqEvents, dropped, |accepted|);
      irqEvents := Inc(irqEvents);
      EnqueueByte(irq.data);
    }

    /** A burst of interrupts at one point. */
    method HandleIrqs(irqs: seq<Irq>, ghost at: Point)
      requires Valid(at) && forall q :: q in irqs ==> 0 <= q.data < 256
      modifies `irqEvents, `head, `dropped, `accepted, queue
      ensures Valid(at) && consumed == old(consumed) && tail == old(tail) && packetSize == old(packetSize)
      ensures old(accepted) <= accepted && Taken() == ArriveAll(old(Taken()), irqs, |consumed|)
    {
      if irqs != [] {
        HandleIrq(irqs[0], at);
        HandleIrqs(irqs[1..], at);
      }
    }

    /** The loop test reads tail and head. */
    method TestQueue() returns (more: bool)
      requires Valid(AtTest)
      ensures Valid(if more then AtLoad else AtTest) && (more <==> accepted != consumed)
    {
      more := tail != head;
      if !more {
        assert accepted == consumed;
      } else {
        assert |Queued(queue[..], head, tail)| > 0;
      }
    }

    method LoadByte() returns (value: int)
      requires Valid(AtLoad)
      ensures Valid(AtAdvance(value))
    {
      value := queue[tail];
    }

    /** The byte leaves the queue: it is the oldest one accepted and not yet consumed. */
    method AdvanceTail(value: int)
      requires Valid(AtAdvance(value))
      modifies `tail, `consumed
      ensures Valid(AtFrame(value)) && consumed == old(consumed) + [value] && accepted == old(accepted)
      ensures |old(consumed)| < |accepted| && value == accepted[|old(consumed)|]
    {
      Consume(value);
      assert consumed[..|consumed| - 1] == old(consumed);
    }

    method Consume(value: int)
      requires QueueOk() && head != tail && value == queue[tail]
      modifies `tail, `consumed
      ensures QueueOk() && consumed == old(consumed) + [value]
      ensures |old(consumed)| < |accepted| && value == accepted[|old(consumed)|]
    {
      FifoShifts(queue[..], head, tail, accepted, consumed);
      tail := (tail + 1) % QUEUE;
      consumed := consumed + [value];
    }

    /** The rest of the loop body: skip the byte, or store it and process a full packet. */
    method FrameByte(value: int)
      requires packet.Length == 4 && 3 <= packetSize <= 4 && packetIndex < packetSize && 0 <= value < 256
      modifies `syncLosses, `packetIndex, `packetsSeen, `buttons, `scrollUp, `scrollDown, `lastWheel, `lineUps, `lineDowns, packet
      ensures Assembled() == Fed(old(Assembled()), value, packetSize, wheelReady)
    {
      if packetIndex == 0 && value / 8 % 2 == 0 {
        syncLosses := Inc(syncLosses);
        return;
      }
      StoreByte(value);
      if packetIndex >= packetSize {
        packetIndex := 0;
        ProcessPacket();
      }
    }

    method StoreByte(value: int)
      requires packetIndex < packet.Length
      modifies `packetIndex, packet
      ensures packet[..] == old(packet[..])[old(packetIndex) := value] && packetIndex == old(packetIndex) + 1
    {
      packet[packetIndex] := value;
      packetIndex := packetIndex + 1;
    }

    /** mouse_process_packet */
    method ProcessPacket()
      requires packet.Length == 4 && 3 <= packetSize <= 4 && (packetSize == 4 ==> 0 <= packet[3] < 256)
      modifies `packetsSeen, `buttons, `scrollUp, `scrollDown, `lastWheel, `lineUps, `lineDowns
      ensures packetsSeen == Inc(old(packetsSeen)) && Counters() == Tallied(old(Counters()), packet[..packetSize], wheelReady)
    {
      packetsSeen := Inc(packetsSeen);
      buttons := packet[0] % 8;
      if !wheelReady || packetSize < 4 {
        return;
      }
      TurnWheel();
    }

    /** The part for mice with a wheel. */
    method TurnWheel()
      requires packet.Length == 4 && 0 <= packet[3] < 256
      modifies `scrollUp, `scrollDown, `lastWheel, `lineUps, `lineDowns
      ensures var w := WheelOf(packet[3]);
              && scrollUp == Bump(old(scrollUp), w.upCount) && scrollDown == Bump(old(scrollDown), w.downCount)
              && lastWheel == w.last && lineUps == old(lineUps) + w.lineUps && lineDowns == old(lineDowns) + w.lineDowns
    {
      var delta := Int8(packet[3]);
      if delta > 0 {
        BumpSigned(scrollUp, delta);
        scrollUp := (scrollUp + delta) % WORD;
        ScrollUp(delta);
        lastWheel := Int8(packet[3]);
      } else if delta < 0 {
        var steps := Int8(-delta);
        Int8Values(packet[3]);
        BumpSigned(scrollDown, steps);
        scrollDown := (scrollDown + steps) % WORD;
        ScrollDown(steps);
        lastWheel := Int8(packet[3]);
      } else {
        lastWheel := 0;
      }
    }

    method ScrollUp(delta: int)
      modifies `lineUps
      ensures lineUps == old(lineUps) + Turns(delta)
    {
      var left := delta;
      while left > 0
        invariant lineUps + Turns(left) == old(lineUps) + Turns(delta)
      {
        lineUps := lineUps + 1;
        left := left - 1;
      }
    }

    method ScrollDown(steps: int)
      modifies `lineDowns
      ensures lineDowns == old(lineDowns) + Turns(steps)
    {
      var left := steps;
      while left > 0
        invariant lineDowns + Turns(left) == old(lineDowns) + Turns(steps)
      {
        lineDowns := lineDowns + 1;
        left := left - 1;
      }
    }

    method FrameStep(value: int)
      requires Valid(AtFrame(value))
      modifies `syncLosses, `packetIndex, `packetsSeen, `buttons, `scrollUp, `scrollDown, `lastWheel, `lineUps, `lineDowns, packet
      ensures Valid(AtTest)
    {
      ghost var bytes := consumed[..|consumed| - 1];
      assert 0 <= value < 256 && consumed == bytes + [value] by {
        LastIsByte(queue[..], head, tail, accepted, consumed);
      }
      Feed(value, bytes, consumed);
    }

    method Feed(value: int, ghost bytes: seq<int>, ghost more: seq<int>)
      requires 3 <= packetSize <= 4 && Framed(bytes) && 0 <= value < 256 && more == bytes + [value]
      modifies `syncLosses, `packetIndex, `packetsSeen, `buttons, `scrollUp, `scrollDown, `lastWheel, `lineUps, `lineDowns, packet
      ensures Framed(more)
    {
      FedHolds(Assembled(), packetSize, wheelReady, bytes, value);
      FrameByte(value);
    }

    /**
     At the loop test, modulo 2^32: interrupts are dropped, queued, lost to framing,
     in whole packets or in the partial one.
     */
    lemma {:induction false} Conservation()
      requires Valid(AtTest)
      ensures Same32(irqEvents, dropped + |Queued(queue[..], head, tail)| + syncLosses + packetSize * packetsSeen + packetIndex)
    {
      var f := FrameAll(consumed, packetSize);
      FramingAccounts(consumed, packetSize);
      assert |accepted| == f.losses + packetSize * |f.packets| + packetIndex + |Queued(queue[..], head, tail)|;
      SameSum(irqEvents, dropped + packetIndex + |Queued(queue[..], head, tail)|, f.losses, syncLosses, packetSize, |f.packets|, packetsSeen);
    }

    /**
     mouse_drain_pending with interrupts: `storm[k]` strikes at the k-th point reached.
     It ends with the queue empty, every accepted byte consumed in order and framed.
     */
    method DrainPending(storm: seq<seq<Irq>>)
      requires Valid(AtTest) && Calm(storm)
      modifies `irqEvents, `head, `dropped, `accepted, queue
      modifies `tail, `consumed
      modifies `syncLosses, `packetIndex, `packetsSeen, `buttons, `scrollUp, `scrollDown, `lastWheel, `lineUps, `lineDowns, packet
      ensures Valid(AtTest) && consumed == accepted && old(accepted) <= accepted
    {
      var rest := storm;
      var more := Poll(rest);
      while more
        invariant Valid(if more then AtLoad else AtTest) && (!more ==> consumed == accepted)
        invariant Calm(rest) && old(accepted) <= accepted
        decreases |rest|, Waiting()
      {
        more := Turn(rest);
        rest := Later(rest);
      }
    }

    /** How many bytes are queued. */
    ghost function Waiting(): int
      reads this
    {
      |accepted| - |consumed|
    }

    /** One turn of the loop and the next loop test; without further interrupts one byte fewer is waiting. */
    method Turn(storm: seq<seq<Irq>>) returns (more: bool)
      requires Valid(AtLoad) && Calm(storm)
      modifies `irqEvents, `head, `dropped, `accepted, queue
      modifies `tail, `consumed
      modifies `syncLosses, `packetIndex, `packetsSeen, `buttons, `scrollUp, `scrollDown, `lastWheel, `lineUps, `lineDowns, packet
      ensures Valid(if more then AtLoad else AtTest) && (!more ==> consumed == accepted)
      ensures old(accepted) <= accepted && (storm == [] ==> 0 <= Waiting() < old(Waiting()))
    {
      DrainTurn(storm);
      more := Poll(Later(storm));
    }

    /** The loop test, with the interrupts before it. */
    method Poll(storm: seq<seq<Irq>>) returns (more: bool)
      requires Valid(AtTest) && Calm(storm)
      modifies `irqEvents, `head, `dropped, `accepted, queue
      ensures Valid(if more then AtLoad else AtTest) && (!more ==> consumed == accepted)
      ensures old(accepted) <= accepted && (storm == [] ==> accepted == old(accepted))
    {
      HandleIrqs(At(storm, 0), AtTest);
      more := TestQueue();
    }

    /** One turn of the loop, with the interrupts that strike during it. */
    method DrainTurn(storm: seq<seq<Irq>>)
      requires Valid(AtLoad) && Calm(storm)
      modifies `irqEvents, `head, `dropped, `accepted, queue
      modifies `tail, `consumed
      modifies `syncLosses, `packetIndex, `packetsSeen, `buttons, `scrollUp, `scrollDown, `lastWheel, `lineUps, `lineDowns, packet
      ensures Valid(AtTest) && old(accepted) <= accepted
      ensures |consumed| == |old(consumed)| + 1 && old(consumed) <= consumed
      ensures storm == [] ==> accepted == old(accepted)
    {
      var value := FetchByte(storm);
      RetireByte(storm, value);
    }

    /** The load, with the interrupts before and after it. */
    method FetchByte(storm: seq<seq<Irq>>) returns (value: int)
      requires Valid(AtLoad) && Calm(storm)
      modifies `irqEvents, `head, `dropped, `accepted, queue
      ensures Valid(AtAdvance(value)) && old(accepted) <= accepted && (storm == [] ==> accepted == old(accepted))
    {
      HandleIrqs(At(storm, 1), AtLoad);
      value := LoadByte();
      HandleIrqs(At(storm, 2), AtAdvance(value));
    }

    /** The advance of the tail and the framing, with the interrupts between them. */
    method RetireByte(storm: seq<seq<Irq>>, value: int)
      requires Valid(AtAdvance(value)) && Calm(storm)
      modifies `irqEvents, `head, `dropped, `accepted, queue
      modifies `tail, `consumed
      modifies `syncLosses, `packetIndex, `packetsSeen, `buttons, `scrollUp, `scrollDown, `lastWheel, `lineUps, `lineDowns, packet
      ensures Valid(AtTest) && old(accepted) <= accepted && (storm == [] ==> accepted == old(accepted))
      ensures consumed == old(consumed) + [value]
    {
      AdvanceTail(value);
      HandleIrqs(At(storm, 3), AtFrame(value));
      FrameStep(value);
    }
  }

  ghost predicate Calm(storm: seq<seq<Irq>>) {
    forall k, j :: 0 <= k < |storm| && 0 <= j < |storm[k]| ==> 0 <= storm[k][j].data < 256
  }

  /** The interrupts at the k-th point; none once the storm is over. */
  function At(storm: seq<seq<Irq>>, k: nat): seq<Irq> {
    if k < |storm| then storm[k] else []
  }

  function Later(storm: seq<seq<Irq>>): seq<seq<Irq>> {
    if |storm| <= 4 then [] else storm[4..]
  }

  lemma {:induction false} FrameLast(bytes: seq<int>, b: int, size: nat)
    ensures FrameAll(bytes + [b], size) == Frame(FrameAll(bytes, size), b, size)
  {
    assert (bytes + [b])[..|bytes|] == bytes;
  }

  /** One more event is one more byte dropped or one more accepted. */
  lemma {:induction false} EventCounted(x: int, d: int, n: int)
    requires Same32(x, d + n)
    ensures Same32(Inc(x), Inc(d) + n) && Same32(Inc(x), d + (n + 1))
  {
    var k := (d + 1) / WORD;
    assert Inc(d) == d + 1 - WORD * k;
    SameInc(x, d + n);
    AddMultiple(Inc(x) - (d + n + 1), k);
  }

  /** Replacing two summands by values equal modulo 2^32. */
  lemma {:induction false} SameSum(x: int, rest: int, l: int, l': int, size: int, n: int, n': int)
    requires Same32(x, rest + l + size * n) && Same32(l', l) && Same32(n', n)
    ensures Same32(x, rest + l' + size * n')
  {
    var a, b := (l' - l) / WORD, (n' - n) / WORD;
    assert l' == l + WORD * a && n' == n + WORD * b;
    assert size * n' == size * n + WORD * (size * b) by {
      Distribute(size, n, b);
    }
    AddMultiple(x - (rest + l + size * n), -a - size * b);
  }

  lemma {:induction false} Distribute(size: int, n: int, b: int)
    ensures size * (n + WORD * b) == size * n + WORD * (size * b)
  {
  }
}
