/** Hardware interrupts: two cascaded 8259A controllers, the driver that programs and acknowledges them, and
    the priority queue that both together amount to. */
module Interrupts {
  import opened Words
  import opened Bits

  // ----- one controller, after the Intel 8259A data sheet

  datatype Phase = READY | WAIT_ICW2 | WAIT_ICW3 | WAIT_ICW4

  // The four initialisation words as they were written. Requests and services are sets of input lines 0 to 7;
  // line 0 has the highest priority.
  datatype Chip = Chip(
    phase: Phase,
    icw1: Byte,
    icw2: Byte,
    icw3: Byte,
    icw4: Byte,
    mask: Byte,
    requests: set<nat>,
    inService: set<nat>,
    readsService: bool)
  {
    predicate NeedsIcw4() {
      icw1 % 2 == 1
    }

    predicate Single() {
      icw1 / 2 % 2 == 1
    }

    predicate IsFor8086() {
      icw4 % 2 == 1
    }

    predicate EndsByItself() {
      icw4 / 2 % 2 == 1
    }

    /** The command port: ICW1 if bit 4 is set, else OCW3 if bit 3 is set, else OCW2. */
    function Command(data: Byte): Chip {
      if data / 0x10 % 2 == 1 then Chip(WAIT_ICW2, data, icw2, 7, if data % 2 == 1 then icw4 else 0, 0, {}, {}, false)
      else if data / 8 % 2 == 1 then
        if data / 2 % 2 == 1 then this.(readsService := data % 2 == 1) else this
      else if data / 0x20 == 1 then EndOfInterrupt()
      else this
    }

    /** The data port: the words that ICW1 announced, in order, and the mask afterwards. */
    function Data(data: Byte): Chip {
      match phase
      case WAIT_ICW2 =>
        this.(icw2 := data, phase := if !Single() then WAIT_ICW3 else if NeedsIcw4() then WAIT_ICW4 else READY)
      case WAIT_ICW3 => this.(icw3 := data, phase := if NeedsIcw4() then WAIT_ICW4 else READY)
      case WAIT_ICW4 => this.(icw4 := data, phase := READY)
      case READY => this.(mask := data)
    }

    /** The non-specific end of interrupt: the highest priority in service is done. */
    function EndOfInterrupt(): Chip {
      if inService == {} then this else this.(inService := inService - {Highest(inService)})
    }

    /** Those of the lines that may interrupt: not masked, and ahead of everything in service. */
    function Eligible(seen: set<nat>): set<nat> {
      set l | l in seen && !Bit(mask, l) && forall s | s in inService :: l < s
    }

    /** The line answered for: the first that may interrupt, or the last line if the request is gone. */
    function Answer(seen: set<nat>): nat {
      if Eligible(seen) == {} then 7 else Highest(Eligible(seen))
    }

    /** The first line that may interrupt is no longer requested and, unless that ends by itself, in service. */
    function Answered(seen: set<nat>): Chip {
      if Eligible(seen) == {} then this
      else
        var l := Highest(Eligible(seen));
        this.(requests := requests - {l}, inService := if EndsByItself() then inService else inService + {l})
    }

    /** The vector put on the bus. For an 8080 it would be a call instruction. */
    function Vector(l: nat): Option<int> {
      if phase == READY && IsFor8086() then Some(icw2 - icw2 % 8 + l) else None
    }
  }

  /** The command words, told by the bits of the byte that is written. */
  lemma CommandWords(c: Chip, data: Byte)
    ensures Bit(data, 4) ==>
              c.Command(data) == Chip(WAIT_ICW2, data, c.icw2, 7, if Bit(data, 0) then c.icw4 else 0, 0, {}, {}, false)
    ensures !Bit(data, 4) && Bit(data, 3) ==>
              c.Command(data) == if Bit(data, 1) then c.(readsService := Bit(data, 0)) else c
    ensures !Bit(data, 4) && !Bit(data, 3) ==>
              c.Command(data) == if 0x20 <= data < 0x28 then c.EndOfInterrupt() else c
    ensures c.NeedsIcw4() <==> Bit(c.icw1, 0)
    ensures c.Single() <==> Bit(c.icw1, 1)
    ensures c.IsFor8086() <==> Bit(c.icw4, 0)
    ensures c.EndsByItself() <==> Bit(c.icw4, 1)
  {
    LowBits(data);
    LowBits(c.icw1);
    LowBits(c.icw4);
  }

  lemma LowBits(data: Byte)
    ensures Bit(data, 0) <==> data % 2 == 1
    ensures Bit(data, 1) <==> data / 2 % 2 == 1
    ensures Bit(data, 3) <==> data / 8 % 2 == 1
    ensures Bit(data, 4) <==> data / 0x10 % 2 == 1
  {
    assert Shr(data, 1) == data / 2;
    assert Shr(data, 3) == Shr(data / 2, 2) == Shr(data / 4, 1) == data / 8;
    assert Shr(data, 4) == Shr(data / 2, 3) == Shr(data / 4, 2) == Shr(data / 8, 1) == data / 16;
  }

  // What a processor that accepts an interrupt finds on the bus, and the controllers afterwards.
  datatype Cycle = Cycle(master: Chip, slave: Chip, vector: Option<int>)

  /** The slave's output is wired to line 2 of the master. A line that ICW3 declares a slave's is left to the
      slave whose ICW3 has its number. In a glitch the slave's request is gone when the slave is asked. */
  function Accept(master: Chip, slave: Chip, glitch: bool): Cycle {
    var asking := slave.Eligible(slave.requests) != {};
    var seen := master.requests + if glitch || asking then {CASCADE_LINE} else {};
    var l := master.Answer(seen);
    if master.Single() || !Bit(master.icw3, l) then Cycle(master.Answered(seen), slave, master.Vector(l))
    else if slave.Single() || slave.icw3 % 8 != l then Cycle(master.Answered(seen), slave, None)
    else Cycle(master.Answered(seen), slave.Answered(slave.requests), slave.Vector(slave.Answer(slave.requests)))
  }

  predicate IsLeast(l: nat, lines: set<nat>) {
    l in lines && forall j | j in lines :: l <= j
  }

  function Highest(lines: set<nat>): (l: nat)
    requires lines != {}
    ensures IsLeast(l, lines)
  {
    SomeLeast(lines);
    var l :| l in lines && IsLeast(l, lines);
    l
  }

  lemma SomeLeast(lines: set<nat>)
    requires lines != {}
    ensures exists l :: l in lines && IsLeast(l, lines)
  {
    var l := HasLeast(lines);
  }

  lemma {:induction false} HasLeast(lines: set<nat>) returns (l: nat)
    requires lines != {}
    ensures IsLeast(l, lines)
  {
    l :| l in lines;
    var rest := lines - {l};
    assert forall j | j in lines :: j == l || j in rest;
    if rest != {} {
      var m := HasLeast(rest);
      l := if l < m then l else m;
    }
  }

  /** The slave's lines under their numbers in the whole. */
  function Lifted(lines: set<nat>): (lifted: set<nat>)
    ensures forall x :: x in lifted <==> x >= 8 && x - 8 in lines
  {
    set l | l in lines :: l + 8
  }

  // ----- the queue

  // A line is raised, masked or unmasked, or the processor accepts an interrupt. The request may be gone by then,
  // and the slave's may be gone although the master has seen it.
  datatype Event = Raise(line: nat) | Mask(line: nat) | Unmask(line: nat) | Interrupt(glitch: bool)

  const CASCADE_LINE := 2
  const PIC_OFFSET: Byte := 0x20

  predicate IsLine(i: nat) {
    i < 16 && i != CASCADE_LINE
  }

  /** The place of a line in the order of priority: the slave's lines come in where its cascade line is. */
  function Rank(line: nat): nat {
    if line < 2 then line else if line >= 8 then line - 6 else line + 8
  }

  /** The order of all lines but the cascade. */
  lemma RankOrder(j: nat, k: nat)
    requires j < k < 15
    ensures var order: seq<nat> := [0, 1, 8, 9, 10, 11, 12, 13, 14, 15, 3, 4, 5, 6, 7];
            Rank(order[j]) < Rank(order[k])
  {
  }

  ghost predicate IsFirst(line: nat, lines: set<nat>) {
    line in lines && forall j | j in lines :: Rank(line) <= Rank(j)
  }

  // The lines that wait, those that are masked, and those that have been served, in order.
  datatype Queue = Queue(waiting: set<nat>, masked: set<nat>, served: seq<nat>) {
    /** The lines that may be served. Masking the cascade line masks all of the slave's. */
    function Open(): set<nat> {
      set x | x in waiting && x !in masked && (x >= 8 ==> CASCADE_LINE !in masked)
    }

    /** The line that a spurious interrupt is taken for: the last one of its controller. */
    function Phantom(glitch: bool): nat {
      if glitch && CASCADE_LINE !in masked then 15 else 7
    }

    ghost predicate IsNext(line: nat, glitch: bool) {
      IsFirst(line, Open() + {Phantom(glitch)})
    }

    /** The line has been served. A spurious interrupt that is taken for a masked line leaves it waiting. */
    function Serving(line: nat): Queue {
      Queue(waiting - ({line} * Open()), masked, served + [line])
    }

    /** One event takes the queue to the next: an interrupt serves the first of the lines that may be served,
        among which a spurious request counts as its line. */
    ghost predicate Next(event: Event, q: Queue) {
      match event
      case Raise(line) => q == this.(waiting := waiting + {line})
      case Mask(line) => q == this.(masked := masked + {line})
      case Unmask(line) => q == this.(masked := masked - {line})
      case Interrupt(glitch) => exists line | IsNext(line, glitch) :: q == Serving(line)
    }
  }

  /** Every event sequence is a run of the queue through the given states. */
  ghost predicate IsRun(events: seq<Event>, states: seq<Queue>) {
    && |states| == |events| + 1
    && forall i | 0 <= i < |events| :: states[i].Next(events[i], states[i + 1])
  }

  lemma NextKeeps(q: Queue, event: Event, q': Queue, from: nat)
    requires q.Next(event, q') && from <= |q.served|
    ensures q.served <= q'.served
    ensures forall x | x in q.served[from..] :: x in q'.served[from..]
    ensures forall x | x in q.waiting :: x in q'.waiting || x in q'.served[from..]
  {
    var more := q'.served[|q.served|..];
    assert q'.served == q.served + more;
    assert q'.served[from..] == q.served[from..] + more;
  }

  /** No request is lost: a line that was raised still waits or has been served since. */
  lemma {:induction false} NoRequestLost(events: seq<Event>, states: seq<Queue>, i: nat, k: nat)
    requires IsRun(events, states) && i < k <= |events| && events[i].Raise?
    ensures states[i].served <= states[k].served
    ensures events[i].line in states[k].waiting || events[i].line in states[k].served[|states[i].served|..]
  {
    hide Queue.Next;
    assert states[k - 1].Next(events[k - 1], states[k]);
    if i < k - 1 {
      NoRequestLost(events, states, i, k - 1);
      NextKeeps(states[k - 1], events[k - 1], states[k], |states[i].served|);
    } else {
      RaisedWaits(states[i], events[i].line, states[k]);
    }
  }

  lemma RaisedWaits(q: Queue, line: nat, q': Queue)
    requires q.Next(Raise(line), q')
    ensures line in q'.waiting && q.served == q'.served
  {
  }

  lemma NextLineIsUnique(q: Queue, glitch: bool, l: nat, k: nat)
    requires forall i | i in q.waiting :: IsLine(i)
    requires q.IsNext(l, glitch) && q.IsNext(k, glitch)
    ensures l == k
  {
    assert IsLine(l) && IsLine(k) && Rank(l) == Rank(k);
  }

  /** The queue leaves no choice. */
  lemma NextIsUnique(q: Queue, event: Event, a: Queue, b: Queue)
    requires forall i | i in q.waiting :: IsLine(i)
    requires q.Next(event, a) && q.Next(event, b)
    ensures a == b
  {
    hide Queue.IsNext, Queue.Serving;
    if event.Interrupt? {
      var l :| q.IsNext(l, event.glitch) && a == q.Serving(l);
      var k :| q.IsNext(k, event.glitch) && b == q.Serving(k);
      NextLineIsUnique(q, event.glitch, l, k);
    }
  }

  /** A line that nobody raised, or that is masked, is served only when no line that may be served comes before
      it: never, without a glitch, as long as there is such a line. A masked line that waits keeps waiting. */
  lemma SpuriousComesLast(q: Queue, glitch: bool, q': Queue)
    requires forall i | i in q.waiting :: IsLine(i)
    requires q.Next(Interrupt(glitch), q')
    ensures |q'.served| == |q.served| + 1 && q'.served[..|q.served|] == q.served
    ensures var line := q'.served[|q.served|];
            && (line !in q.Open() ==> line == q.Phantom(glitch) && forall i | i in q.Open() :: Rank(line) < Rank(i))
            && (!glitch && q.Open() != {} ==> line in q.Open())
    ensures forall i | i in q.waiting && i !in q.Open() :: i in q'.waiting
  {
    var line :| q.IsNext(line, glitch) && q' == q.Serving(line);
    if !glitch && q.Open() != {} {
      var w :| w in q.Open();
      assert IsLine(w) && Rank(line) <= Rank(w);
    }
  }

  /** A line that waits behind its mask is the next one served when it is unmasked, if no line that may be served
      comes before it. */
  lemma UnmaskedIsServed(q: Queue, line: nat, q': Queue, q'': Queue)
    requires forall i | i in q.waiting :: IsLine(i)
    requires line in q.waiting && line in q.masked && (line >= 8 ==> CASCADE_LINE !in q.masked)
    requires forall i | i in q.Open() :: Rank(line) < Rank(i)
    requires q.Next(Unmask(line), q') && q'.Next(Interrupt(false), q'')
    ensures q''.served == q.served + [line] && q''.waiting == q.waiting - {line}
  {
    assert q'.Open() == q.Open() + {line};
    assert IsLine(line) && q'.IsNext(line, false);
    var l :| q'.IsNext(l, false) && q'' == q'.Serving(l);
    NextLineIsUnique(q', false, l, line);
  }

  // ----- the machine

  const PIC1_CMD := 0x20
  const PIC1_DAT := 0x21
  const PIC2_CMD := 0xA0
  const PIC2_DAT := 0xA1
  const END_OF_INTERRUPT: Byte := 0x20
  const READ_IRR: Byte := 0x0A
  const READ_ISR: Byte := 0x0B

  /** What the driver's bytes are, and what they do at the command port. */
  lemma DriverBytes(c: Chip)
    ensures END_OF_INTERRUPT == 0x20 && c.Command(0x20) == c.EndOfInterrupt()
    ensures READ_IRR == 0x0A && c.Command(0x0A) == c.(readsService := false)
    ensures READ_ISR == 0x0B && c.Command(0x0B) == c.(readsService := true)
  {
  }

  /** Ready for an 8086, as one of two, with nothing in service. */
  ghost predicate Configured(c: Chip, offset: Byte, icw3: Byte) {
    && c.phase == READY
    && c.icw1 == 0x11 && c.icw2 == offset && c.icw3 == icw3 && c.icw4 == 1
    && c.inService == {}
  }

  lemma {:induction false} ShrZero(k: nat)
    ensures Shr(0, k) == 0
  {
    if k > 0 {
      ShrZero(k - 1);
    }
  }

  /** Bit 2 is the only one of the number 4. */
  lemma OnlyCascadeBit(l: nat)
    ensures !Bit(0, l) && (Bit(4, l) <==> l == CASCADE_LINE)
  {
    ShrZero(l);
    assert Shr(4, 0) == 4 && Shr(4, 1) == 2 && Shr(4, 2) == 1;
    if l > 2 {
      assert Shr(4, l) == Shr(2, l - 1) == Shr(1, l - 2) == Shr(0, l - 3);
      ShrZero(l - 3);
    }
  }

  function MaskedIn(mask: Byte): (lines: set<nat>)
    ensures forall l :: l in lines <==> l < 8 && Bit(mask, l)
  {
    set l: nat | l < 8 && Bit(mask, l)
  }

  lemma NothingMasked()
    ensures MaskedIn(0) == {}
  {
    hide Bit;
    forall l: nat
      ensures !Bit(0, l)
    {
      OnlyCascadeBit(l);
    }
  }

  /** With nothing in service, the mask alone decides. */
  lemma UnmaskedEligible(c: Chip, offset: Byte, icw3: Byte, seen: set<nat>)
    requires Configured(c, offset, icw3) && forall l | l in seen :: l < 8
    ensures c.Eligible(seen) == seen - MaskedIn(c.mask)
  {
    hide Bit;
  }

  /** The lines of a controller that may be served. */
  function Ready(c: Chip): set<nat> {
    c.requests - MaskedIn(c.mask)
  }

  /** The line has gone from the requests into service, if it was among those that may be served. */
  function Taken(c: Chip, line: nat): Chip {
    c.(requests := c.requests - ({line} * Ready(c)), inService := {line} * Ready(c))
  }

  /** The requests and masks of two chips, as one queue. */
  ghost predicate ShowsChips(q: Queue, master: Chip, slave: Chip) {
    && q.waiting == master.requests + Lifted(slave.requests)
    && q.masked == MaskedIn(master.mask) + Lifted(MaskedIn(slave.mask))
    && (forall i | i in master.requests :: i < 8 && i != CASCADE_LINE)
    && (forall i | i in slave.requests :: i < 8)
  }

  lemma OpenLines(q: Queue, master: Chip, slave: Chip)
    requires ShowsChips(q, master, slave)
    ensures CASCADE_LINE in q.masked <==> CASCADE_LINE in MaskedIn(master.mask)
    ensures q.Open() == Ready(master) + if CASCADE_LINE in q.masked then {} else Lifted(Ready(slave))
  {
    hide Lifted, MaskedIn, Bit;
  }

  /** The order of the lines across the cascade. */
  lemma FirstAcross(low: set<nat>, high: set<nat>, cascade: bool, glitch: bool, l: nat, line: nat)
    requires forall i | i in low :: i < 8 && i != CASCADE_LINE
    requires forall i | i in high :: i < 8
    requires var seen := low + if cascade && (glitch || high != {}) then {CASCADE_LINE} else {};
             if seen == {} then l == 7 else IsLeast(l, seen)
    requires if l != CASCADE_LINE then line == l
             else line >= 8 && if high == {} then line == 15 else IsLeast(line - 8, high)
    ensures IsFirst(line, low + (if cascade then Lifted(high) else {}) + {if glitch && cascade then 15 else 7})
  {
  }

  /** What configured controllers do: the first line that may be served, across the cascade, is answered for on
      its own vector, and goes into service if it was indeed raised. */
  lemma ConfiguredAccept(master: Chip, slave: Chip, glitch: bool, q: Queue) returns (line: nat)
    requires Configured(master, PIC_OFFSET, 4) && Configured(slave, PIC_OFFSET + 8, CASCADE_LINE)
    requires ShowsChips(q, master, slave)
    ensures line < 16 && Accept(master, slave, glitch).vector == Some(0x20 + line)
    ensures q.IsNext(line, glitch)
    ensures line >= 8 ==> CASCADE_LINE !in q.masked
    ensures var c := Accept(master, slave, glitch);
            if line < 8 then c.master == Taken(master, line) && c.slave == slave
            else c.master == master.(inService := {CASCADE_LINE}) && c.slave == Taken(slave, line - 8)
  {
    hide Accept, LineSeen, Taken, Configured, Lifted, MaskedIn, Queue.IsNext;
    var l;
    l, line := AcceptedLine(master, slave, glitch);
    RankedLine(master, slave, glitch, q, l, line);
  }

  /** The line that the master answers for, and the one that the processor learns of. */
  lemma AcceptedLine(master: Chip, slave: Chip, glitch: bool) returns (l: nat, line: nat)
    requires Configured(master, PIC_OFFSET, 4) && Configured(slave, PIC_OFFSET + 8, CASCADE_LINE)
    requires forall i | i in master.requests :: i < 8 && i != CASCADE_LINE
    requires forall i | i in slave.requests :: i < 8
    ensures LineSeen(master, slave, glitch, l, line) && line < 16
    ensures Accept(master, slave, glitch).vector == Some(PIC_OFFSET + line)
    ensures var c := Accept(master, slave, glitch);
            if line < 8 then c.master == Taken(master, line) && c.slave == slave
            else c.master == master.(inService := {CASCADE_LINE}) && c.slave == Taken(slave, line - 8)
  {
    hide Bit, Highest, MaskedIn, Chip.Eligible;
    UnmaskedEligible(slave, PIC_OFFSET + 8, CASCADE_LINE, slave.requests);
    var seen := master.requests + if glitch || Ready(slave) != {} then {CASCADE_LINE} else {};
    UnmaskedEligible(master, PIC_OFFSET, 4, seen);
    assert seen - MaskedIn(master.mask) == SeenByMaster(master, slave, glitch);
    l := master.Answer(seen);
    OnlyCascadeBit(l);
    line := if l == CASCADE_LINE then 8 + slave.Answer(slave.requests) else l;
  }

  function SeenByMaster(master: Chip, slave: Chip, glitch: bool): set<nat> {
    Ready(master)
    + if CASCADE_LINE !in MaskedIn(master.mask) && (glitch || Ready(slave) != {}) then {CASCADE_LINE} else {}
  }

  ghost predicate LineSeen(master: Chip, slave: Chip, glitch: bool, l: nat, line: nat) {
    && (if SeenByMaster(master, slave, glitch) == {} then l == 7 else IsLeast(l, SeenByMaster(master, slave, glitch)))
    && if l != CASCADE_LINE then line == l
       else line >= 8 && if Ready(slave) == {} then line == 15 else IsLeast(line - 8, Ready(slave))
  }

  lemma RankedLine(master: Chip, slave: Chip, glitch: bool, q: Queue, l: nat, line: nat)
    requires ShowsChips(q, master, slave) && LineSeen(master, slave, glitch, l, line)
    ensures q.IsNext(line, glitch) && (8 <= line < 16 ==> CASCADE_LINE !in q.masked)
  {
    hide Bit, MaskedIn, Lifted, IsFirst, Queue.Open;
    OpenLines(q, master, slave);
    FirstAcross(Ready(master), Ready(slave), CASCADE_LINE !in MaskedIn(master.mask), glitch, l, line);
  }

  /** The words of ICW3 matter: a line of the slave arrives on its vector exactly if the master takes line 2 for
      a slave's, and the slave takes it for its own. */
  lemma CascadeNeeded(master: Chip, slave: Chip, masterIcw3: Byte, slaveIcw3: Byte)
    requires Configured(master, PIC_OFFSET, masterIcw3) && Configured(slave, PIC_OFFSET + 8, slaveIcw3)
    requires master.requests == {} && slave.requests != {} && forall l | l in slave.requests :: l < 8
    requires master.mask == slave.mask == 0
    ensures Accept(master, slave, false).vector == Some(PIC_OFFSET + 8 + Highest(slave.requests))
       <==> Bit(masterIcw3, CASCADE_LINE) && slaveIcw3 % 8 == CASCADE_LINE
  {
    hide Bit, Highest, MaskedIn, Chip.Eligible;
    NothingMasked();
    var seen := master.requests + {CASCADE_LINE};
    UnmaskedEligible(master, PIC_OFFSET, masterIcw3, seen);
    assert master.Answer(seen) in seen;
    UnmaskedEligible(slave, PIC_OFFSET + 8, slaveIcw3, slave.requests);
    assert slave.requests - MaskedIn(0) == slave.requests;
  }

  /** `1 << l`, for one of the eight lines. */
  function LineBit(l: nat): Byte
    requires l < 8
  {
    PowMonotone(2, l, 7);
    SevenBits();
    Pow(2, l)
  }

  lemma SevenBits()
    ensures Pow(2, 7) == 0x80
  {
    assert Pow(2, 3) == 8;
    PowSum(2, 3, 4);
    assert Pow(2, 4) == 16;
  }

  lemma MaskInRange(mask: Byte, l: nat)
    requires l < 8
    ensures Or(mask, LineBit(l)) < 0x100
  {
    hide Or;
    SevenBits();
    assert Pow(2, 8) == Pow(2, 7) * 2;
    OrBound(mask, LineBit(l), 8);
  }

  function Masked(mask: Byte, l: nat): Byte
    requires l < 8
  {
    MaskInRange(mask, l);
    Or(mask, LineBit(l))
  }

  function Unmasked(mask: Byte, l: nat): Byte
    requires l < 8
  {
    AndNot(mask, LineBit(l))
  }

  /** The lines of both controllers together, with one more or one less. */
  lemma LineSets(low: set<nat>, high: set<nat>, line: nat)
    requires forall i | i in low :: i < 8
    ensures line < 8 ==>
              && (low + {line}) + Lifted(high) == low + Lifted(high) + {line}
              && (low - {line}) + Lifted(high) == low + Lifted(high) - {line}
    ensures line >= 8 ==>
              && low + Lifted(high + {line - 8}) == low + Lifted(high) + {line}
              && low + Lifted(high - {line - 8}) == low + Lifted(high) - {line}
  {
  }

  lemma BitMasked(mask: Byte, l: nat, k: nat)
    requires l < 8
    ensures Bit(Masked(mask, l), k) <==> Bit(mask, k) || k == l
    ensures Bit(Unmasked(mask, l), k) <==> Bit(mask, k) && k != l
  {
    hide Or, AndNot, Bit;
    BitOfOr(mask, LineBit(l), k);
    BitOfAndNot(mask, LineBit(l), k);
    BitOfPower(l, k);
  }

  lemma MaskedInMasked(mask: Byte, l: nat)
    requires l < 8
    ensures MaskedIn(Masked(mask, l)) == MaskedIn(mask) + {l} && MaskedIn(Unmasked(mask, l)) == MaskedIn(mask) - {l}
  {
    hide Bit, Masked, Unmasked;
    forall k: nat
      ensures Bit(Masked(mask, l), k) <==> Bit(mask, k) || k == l
      ensures Bit(Unmasked(mask, l), k) <==> Bit(mask, k) && k != l
    {
      BitMasked(mask, l, k);
    }
  }

  /** Masking a line keeps exactly it from interrupting, whatever is in service. Unmasking it lets exactly it
      interrupt again, if it is ahead of what is in service, and undoes the masking. */
  lemma MaskedLine(c: Chip, l: nat, seen: set<nat>)
    requires l < 8
    ensures c.(mask := Masked(c.mask, l)).Eligible(seen) == c.Eligible(seen) - {l}
    ensures c.(mask := Unmasked(c.mask, l)).Eligible(seen)
         == c.Eligible(seen) + if l in seen && forall s | s in c.inService :: l < s then {l} else {}
    ensures !Bit(c.mask, l) ==> Unmasked(Masked(c.mask, l), l) == c.mask
  {
    hide Bit, Masked, Unmasked;
    forall k: nat
      ensures Bit(Masked(c.mask, l), k) <==> Bit(c.mask, k) || k == l
      ensures Bit(Unmasked(c.mask, l), k) <==> Bit(c.mask, k) && k != l
    {
      BitMasked(c.mask, l, k);
    }
    if !Bit(c.mask, l) {
      MaskUndone(c.mask, l);
    }
  }

  lemma MaskUndone(mask: Byte, l: nat)
    requires l < 8 && !Bit(mask, l)
    ensures Unmasked(Masked(mask, l), l) == mask
  {
    hide Or, AndNot, Bit;
    BitUndone(mask, l);
  }

  class Machine {
    var master: Chip
    var slave: Chip
    // Which of the sixteen handlers are set, and the calls of them in order.
    var handlers: seq<bool>
    var called: seq<nat>
    ghost var served: seq<nat>

    constructor (master: Chip, slave: Chip)
      ensures this.master == master && this.slave == slave
      ensures |handlers| == 16 && called == [] && served == []
    {
      this.master, this.slave := master, slave;
      handlers := seq(16, _ => false);
      called, served := [], [];
    }

    /** Between interrupts: both controllers are set up, and nothing is in service. */
    ghost predicate Idle()
      reads this
    {
      && |handlers| == 16
      && Configured(master, PIC_OFFSET, 4)
      && Configured(slave, PIC_OFFSET + 8, CASCADE_LINE)
      && (forall i | i in master.requests :: i < 8 && i != CASCADE_LINE)
      && (forall i | i in slave.requests :: i < 8)
    }

    function Waiting(): set<nat>
      reads this
    {
      master.requests + Lifted(slave.requests)
    }

    function MaskedLines(): set<nat>
      reads this
    {
      MaskedIn(master.mask) + Lifted(MaskedIn(slave.mask))
    }

    ghost function State(): Queue
      reads this
    {
      Queue(Waiting(), MaskedLines(), served)
    }

    method OutB(port: nat, data: Byte)
      modifies this`master, this`slave
      ensures master == if port == 0x20 then old(master).Command(data)
                        else if port == 0x21 then old(master).Data(data) else old(master)
      ensures slave == if port == 0xA0 then old(slave).Command(data)
                       else if port == 0xA1 then old(slave).Data(data) else old(slave)
    {
      if port == PIC1_CMD {
        master := master.Command(data);
      } else if port == PIC1_DAT {
        master := master.Data(data);
      } else if port == PIC2_CMD {
        slave := slave.Command(data);
      } else if port == PIC2_DAT {
        slave := slave.Data(data);
      }
    }

    /** From any state of the controllers, the four words leave both ready, with their offsets, their cascade
        connection and all lines open. */
    method Configure(offset1: Byte, offset2: Byte)
      modifies this`master, this`slave
      ensures master == Chip(READY, 0x11, offset1, 4, 1, 0, {}, {}, false)
      ensures slave == Chip(READY, 0x11, offset2, 2, 1, 0, {}, {}, false)
    {
      hide Chip.EndOfInterrupt;
      OutB(PIC1_CMD, 0x11);
      OutB(PIC2_CMD, 0x11);
      assert master.phase == slave.phase == WAIT_ICW2;
      OutB(PIC1_DAT, offset1);
      OutB(PIC2_DAT, offset2);
      assert master.phase == slave.phase == WAIT_ICW3;
      OutB(PIC1_DAT, 4);
      OutB(PIC2_DAT, 2);
      assert master.phase == slave.phase == WAIT_ICW4;
      OutB(PIC1_DAT, 1);
      OutB(PIC2_DAT, 1);
      assert master.phase == slave.phase == READY;
      OutB(PIC1_DAT, 0);
      OutB(PIC2_DAT, 0);
    }

    method Initialize()
      requires |handlers| == 16
      modifies this`master, this`slave
      ensures Idle() && Waiting() == {} && MaskedLines() == {}
    {
      hide MaskedIn;
      NothingMasked();
      Configure(PIC_OFFSET, PIC_OFFSET + 8);
    }

    /** The data ports show the masks. */
    function InB(port: nat): Byte
      reads this
    {
      if port == PIC1_DAT then master.mask else slave.mask
    }

    method MaskLine(irq: nat)
      requires irq < 16 && master.phase == READY && slave.phase == READY
      modifies this`master, this`slave
      ensures master == if irq < 8 then old(master).(mask := Masked(old(master).mask, irq)) else old(master)
      ensures slave == if irq < 8 then old(slave) else old(slave).(mask := Masked(old(slave).mask, irq - 8))
      ensures MaskedLines() == old(MaskedLines()) + {irq}
    {
      hide Or, Bit, MaskedIn, Lifted;
      MaskedInMasked(if irq < 8 then master.mask else slave.mask, irq % 8);
      LineSets(MaskedIn(master.mask), MaskedIn(slave.mask), irq);
      var port, line := PIC1_DAT, irq;
      if irq >= 8 {
        line := irq - 8;
        port := PIC2_DAT;
      }
      MaskInRange(InB(port), line);
      OutB(port, Or(InB(port), LineBit(line)));
    }

    method UnmaskLine(irq: nat)
      requires irq < 16 && master.phase == READY && slave.phase == READY
      modifies this`master, this`slave
      ensures master == if irq < 8 then old(master).(mask := Unmasked(old(master).mask, irq)) else old(master)
      ensures slave == if irq < 8 then old(slave) else old(slave).(mask := Unmasked(old(slave).mask, irq - 8))
      ensures MaskedLines() == old(MaskedLines()) - {irq}
    {
      hide AndNot, Bit, MaskedIn, Lifted;
      MaskedInMasked(if irq < 8 then master.mask else slave.mask, irq % 8);
      LineSets(MaskedIn(master.mask), MaskedIn(slave.mask), irq);
      var port, line := PIC1_DAT, irq;
      if irq >= 8 {
        line := irq - 8;
        port := PIC2_DAT;
      }
      OutB(port, AndNot(InB(port), LineBit(line)));
    }

    method EndInterrupt(irq: int)
      modifies this`master, this`slave
      ensures master == old(master).EndOfInterrupt()
      ensures slave == if irq >= 8 then old(slave).EndOfInterrupt() else old(slave)
    {
      if irq >= 8 {
        OutB(PIC2_CMD, END_OF_INTERRUPT);
      }
      OutB(PIC1_CMD, END_OF_INTERRUPT);
    }

    /** The handler of a vector is called if there is one, and the interrupt is acknowledged in any case. The
        reads of the status registers only switch what the command ports show. */
    method HandleIRQ(vector: int)
      requires |handlers| == 16 && PIC_OFFSET <= vector < PIC_OFFSET + 16
      modifies this`master, this`slave, this`called
      ensures var irq := vector - PIC_OFFSET;
              && called == old(called) + (if handlers[irq] then [irq] else [])
              && master == old(master).(readsService := false).EndOfInterrupt()
              && slave == if irq >= 8 then old(slave).(readsService := false).EndOfInterrupt()
                          else old(slave).(readsService := false)
    {
      var irq := vector - PIC_OFFSET;
      OutB(PIC1_CMD, READ_ISR);
      OutB(PIC2_CMD, READ_ISR);
      OutB(PIC1_CMD, READ_IRR);
      OutB(PIC2_CMD, READ_IRR);
      if handlers[irq] {
        called := called + [irq];
      }
      EndInterrupt(irq);
    }

    /** An interrupt that the processor accepts, handled. */
    method Serve(glitch: bool) returns (ghost line: nat)
      requires Idle()
      modifies this`master, this`slave, this`called, this`served
      ensures Idle() && old(State()).IsNext(line, glitch) && State() == old(State()).Serving(line)
      ensures called == old(called) + if line < 16 && handlers[line] then [line] else []
    {
      hide Accept, IsFirst, Queue.IsNext, Chip.Eligible, Highest, Lifted, MaskedIn, Bit;
      ghost var q := State();
      var cycle := Accept(master, slave, glitch);
      line := ConfiguredAccept(master, slave, glitch, q);
      ServedLine(q, master, slave, line);
      master, slave := cycle.master, cycle.slave;
      HandleIRQ(cycle.vector.value);
      served := served + [line];
    }

    /** A device raises its line. */
    method RaiseLine(line: nat)
      requires Idle() && IsLine(line)
      modifies this`master, this`slave
      ensures Idle() && Waiting() == old(Waiting()) + {line} && MaskedLines() == old(MaskedLines())
    {
      hide Lifted, MaskedIn;
      LineSets(master.requests, slave.requests, line);
      if line < 8 {
        master := master.(requests := master.requests + {line});
      } else {
        slave := slave.(requests := slave.requests + {line - 8});
      }
    }

    /** An event, with the handling of the interrupt. Handlers do not enable interrupts, so the next one finds
        the machine idle again. */
    method React(event: Event)
      requires Idle() && (event.Raise? ==> IsLine(event.line)) && (event.Mask? || event.Unmask? ==> event.line < 16)
      modifies this`master, this`slave, this`called, this`served
      ensures Idle() && old(State()).Next(event, State()) && old(served) <= served
      ensures called == old(called) + Handled(handlers, served[|old(served)|..])
    {
      hide MaskedIn, Masked, Unmasked, Queue.IsNext, Queue.Serving, Lifted, Bit;
      match event {
        case Raise(line) =>
          RaiseLine(line);
        case Mask(line) =>
          MaskLine(line);
        case Unmask(line) =>
          UnmaskLine(line);
        case Interrupt(glitch) =>
          ghost var line := Serve(glitch);
          ServedGrows(old(State()), line);
      }
    }
  }

  /** Taking a line from its controller is serving it in the queue. */
  lemma ServedLine(q: Queue, master: Chip, slave: Chip, line: nat)
    requires ShowsChips(q, master, slave) && line < 16 && (line >= 8 ==> CASCADE_LINE !in q.masked)
    ensures q.Serving(line).waiting
         == if line < 8 then Taken(master, line).requests + Lifted(slave.requests)
            else master.requests + Lifted(Taken(slave, line - 8).requests)
  {
    hide MaskedIn, Lifted, Bit, Queue.Open;
    OpenLines(q, master, slave);
  }

  lemma ServedGrows(q: Queue, line: nat)
    ensures q.served <= q.Serving(line).served && q.Serving(line).served[|q.served|..] == [line]
  {
  }

  lemma RunGrows(events: seq<Event>, i: nat, states: seq<Queue>, q: Queue)
    requires i < |events| && IsRun(events[..i], states) && states[i].Next(events[i], q)
    ensures IsRun(events[..i + 1], states + [q])
  {
    hide Queue.Next;
    var grown := states + [q];
    forall j | 0 <= j < i + 1
      ensures grown[j].Next(events[..i + 1][j], grown[j + 1])
    {
      if j < i {
        assert states[j].Next(events[..i][j], states[j + 1]);
      }
    }
  }

  /** Since the first `n` services, exactly the handlers of the served lines have been called. */
  ghost predicate CallsMatch(handlers: seq<bool>, before: seq<nat>, called: seq<nat>, n: nat, served: seq<nat>) {
    n <= |served| && called == before + Handled(handlers, served[n..])
  }

  lemma CallsGrow(handlers: seq<bool>, before: seq<nat>, called: seq<nat>, n: nat, served: seq<nat>,
                  called': seq<nat>, served': seq<nat>)
    requires CallsMatch(handlers, before, called, n, served)
    requires served <= served' && called' == called + Handled(handlers, served'[|served|..])
    ensures CallsMatch(handlers, before, called', n, served')
  {
    hide Handled;
    var more := served'[|served|..];
    assert served'[n..] == served[n..] + more;
    HandledAppends(handlers, served[n..], more);
    assert before + (Handled(handlers, served[n..]) + Handled(handlers, more))
        == before + Handled(handlers, served[n..]) + Handled(handlers, more);
  }

  /** Every sequence of events is a run of the queue, and after each of them nothing is in service. */
  method ReactAll(m: Machine, events: seq<Event>) returns (ghost states: seq<Queue>)
    requires m.Idle()
    requires forall e | e in events :: (e.Raise? ==> IsLine(e.line)) && (e.Mask? || e.Unmask? ==> e.line < 16)
    modifies m`master, m`slave, m`called, m`served
    ensures m.Idle() && IsRun(events, states)
    ensures states[0] == old(m.State()) && states[|events|] == m.State()
    ensures CallsMatch(m.handlers, old(m.called), m.called, |old(m.served)|, m.served)
  {
    hide Machine.Idle, Queue.Next, IsRun, CallsMatch;
    states := [m.State()];
    RunStarts(m.State());
    CallsStart(m.handlers, m.called, m.served);
    for i := 0 to |events|
      invariant m.Idle() && IsRun(events[..i], states) && |states| == i + 1
      invariant states[0] == old(m.State()) && states[i] == m.State()
      invariant CallsMatch(m.handlers, old(m.called), m.called, |old(m.served)|, m.served)
    {
      ghost var called, served := m.called, m.served;
      m.React(events[i]);
      RunGrows(events, i, states, m.State());
      CallsGrow(m.handlers, old(m.called), called, |old(m.served)|, served, m.called, m.served);
      states := states + [m.State()];
    }
    assert events[..|events|] == events;
  }

  lemma RunStarts(q: Queue)
    ensures IsRun([], [q])
  {
  }

  lemma CallsStart(handlers: seq<bool>, called: seq<nat>, served: seq<nat>)
    ensures CallsMatch(handlers, called, called, |served|, served)
  {
  }

  lemma {:induction false} HandledAppends(handlers: seq<bool>, a: seq<nat>, b: seq<nat>)
    ensures Handled(handlers, a + b) == Handled(handlers, a) + Handled(handlers, b)
  {
    if b != [] {
      assert (a + b)[..|a + b| - 1] == a + b[..|b| - 1];
      HandledAppends(handlers, a, b[..|b| - 1]);
    } else {
      assert a + b == a;
    }
  }

  /** Of the lines served, exactly those with a handler have been handled. */
  lemma {:induction false} HandledLines(handlers: seq<bool>, lines: seq<nat>, line: nat)
    ensures line in Handled(handlers, lines) <==> line in lines && line < |handlers| && handlers[line]
    ensures (forall l | l in lines :: l < |handlers| && handlers[l]) ==> Handled(handlers, lines) == lines
  {
    if lines != [] {
      var front, last := lines[..|lines| - 1], lines[|lines| - 1];
      assert lines == front + [last];
      assert last in lines && forall l | l in front :: l in lines;
      HandledLines(handlers, front, line);
    }
  }

  /** Those of the lines that have a handler. */
  function Handled(handlers: seq<bool>, lines: seq<nat>): seq<nat> {
    if lines == [] then []
    else Handled(handlers, lines[..|lines| - 1])
         + if lines[|lines| - 1] < |handlers| && handlers[lines[|lines| - 1]] then [lines[|lines| - 1]] else []
  }
}
