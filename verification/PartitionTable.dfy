/** The partition table of the disk tool: four entries, changed by its commands. */
module PartitionTable {
  import opened Words
  import opened Geometry

  const FIRST_SECTOR := 63

  datatype Entry = Entry(
    active: Byte,
    startChs: PackedChs,
    systemType: Byte,
    endChs: PackedChs,
    startLba: Word,
    sectors: Word)
  {
    /** One past the last sector. */
    function End(): nat {
      startLba + sectors
    }

    /** Bit 7 of `active`. */
    predicate IsActive() {
      active >= 0x80
    }

    function Activated(): Entry {
      this.(active := active % 0x80 + 0x80)
    }

    function Deactivated(): Entry {
      this.(active := active % 0x80)
    }
  }

  const ZERO_ENTRY := Entry(0, PackedChs(0, 0), 0, PackedChs(0, 0), 0, 0)

  type Table = t: seq<Entry> | |t| == 4 witness [ZERO_ENTRY, ZERO_ENTRY, ZERO_ENTRY, ZERO_ENTRY]

  const EMPTY_TABLE: Table := [ZERO_ENTRY, ZERO_ENTRY, ZERO_ENTRY, ZERO_ENTRY]

  // ----- the commands, as functions

  datatype Command =
    | Create(size: Word, offset: Word, systemType: Byte)
    | SetActive(number: int, deactivate: bool, keepOthers: bool)
    | Delete(number: int)
    | Install(erase: bool)

  datatype Outcome = Outcome(code: int, table: Table)

  /** The first empty entry, from number `i` on. */
  function FirstEmpty(t: Table, i: nat): (e: nat)
    requires i <= 4
    ensures i <= e <= 4 && (e < 4 ==> t[e] == ZERO_ENTRY) && forall j | i <= j < e :: t[j] != ZERO_ENTRY
    decreases 4 - i
  {
    if i == 4 || t[i] == ZERO_ENTRY then i else FirstEmpty(t, i + 1)
  }

  /** The first sector behind the first `n` entries, in the signed comparison of the code. */
  function FreeFrom(t: Table, n: nat): Word
    requires n <= 4
  {
    if n == 0 then FIRST_SECTOR
    else if t[n - 1] == ZERO_ENTRY then FreeFrom(t, n - 1)
    else SignedMax(FreeFrom(t, n - 1), Wrap(t[n - 1].End()))
  }

  /** Where `create-partition` puts a partition, and how long it makes it: 32-bit sums, and the rest of the disk
      if no size is given. */
  function Start(t: Table, offset: Word): Word {
    Wrap(FreeFrom(t, 4) + offset)
  }

  function Length(t: Table, size: Word, offset: Word, diskSectors: Word): Word {
    if size == 0 then Wrap(diskSectors - Start(t, offset)) else size
  }

  function NewEntry(first: Word, sectors: Word, systemType: Byte): Entry {
    Entry(0, TableChs(first), systemType, TableChs(Wrap(first + sectors - 1)), first, sectors)
  }

  function Step(t: Table, command: Command, diskSectors: Word): Outcome {
    match command
    case Create(size, offset, systemType) =>
      var e := FirstEmpty(t, 0);
      var first, sectors := Start(t, offset), Length(t, size, offset, diskSectors);
      if e == 4 || Wrap(first + sectors) > diskSectors then Outcome(2, t)
      else Outcome(0, t[e := NewEntry(first, sectors, systemType)])
    case SetActive(number, deactivate, keepOthers) =>
      if !(1 <= number <= 4) then Outcome(1, t)
      else if t[number - 1] == ZERO_ENTRY then Outcome(2, t)
      else if deactivate then Outcome(0, t[number - 1 := t[number - 1].Deactivated()])
      else Outcome(0, seq(4, i requires 0 <= i < 4 =>
        if i == number - 1 then t[i].Activated() else if keepOthers then t[i] else t[i].Deactivated()))
    case Delete(number) =>
      if !(1 <= number <= 4) then Outcome(1, t)
      else if t[number - 1] == ZERO_ENTRY then Outcome(2, t)
      else Outcome(0, t[number - 1 := ZERO_ENTRY])
    case Install(erase) =>
      Outcome(0, if erase then EMPTY_TABLE else t)
  }

  function Run(t: Table, commands: seq<Command>, diskSectors: Word): Table
    decreases |commands|
  {
    if commands == [] then t else Run(Step(t, commands[0], diskSectors).table, commands[1..], diskSectors)
  }

  // ----- what the commands do to each entry

  /** Putting a new MBR on the disk keeps every entry, or empties all four. */
  lemma InstallLaw(t: Table, erase: bool, diskSectors: Word)
    ensures var o := Step(t, Install(erase), diskSectors);
            && o.code == 0
            && forall i | 0 <= i < 4 ::
                 o.table[i] == if erase then Entry(0, PackedChs(0, 0), 0, PackedChs(0, 0), 0, 0) else t[i]
  {
  }

  /** Deleting empties the entry with the number, if there is one and it is in use, and no other. */
  lemma DeleteLaw(t: Table, number: int, diskSectors: Word)
    ensures var o, zero := Step(t, Delete(number), diskSectors), Entry(0, PackedChs(0, 0), 0, PackedChs(0, 0), 0, 0);
            && (o.code == 1 <==> number < 1 || number > 4)
            && (o.code == 2 <==> 1 <= number <= 4 && t[number - 1] == zero)
            && (o.code == 0 <==> 1 <= number <= 4 && t[number - 1] != zero)
            && forall i | 0 <= i < 4 :: o.table[i] == if o.code == 0 && i == number - 1 then zero else t[i]
  {
  }

  /** The entry with bit 7 of its first byte set or cleared. */
  function WithBit(e: Entry, active: bool): Entry {
    if active && e.active < 128 then e.(active := e.active + 128)
    else if !active && e.active >= 128 then e.(active := e.active - 128)
    else e
  }

  /** Activating and deactivating change that bit alone, of the entry with the number, and unless told otherwise
      clear it in the others. */
  lemma SetActiveLaw(t: Table, number: int, deactivate: bool, keepOthers: bool, diskSectors: Word)
    ensures var o, zero := Step(t, SetActive(number, deactivate, keepOthers), diskSectors),
                           Entry(0, PackedChs(0, 0), 0, PackedChs(0, 0), 0, 0);
            && (o.code == 1 <==> number < 1 || number > 4)
            && (o.code == 2 <==> 1 <= number <= 4 && t[number - 1] == zero)
            && (o.code != 0 ==> o.table == t)
            && (o.code == 0 ==> forall i | 0 <= i < 4 ::
                  o.table[i] == if i == number - 1 then WithBit(t[i], !deactivate)
                                else if deactivate || keepOthers then t[i] else WithBit(t[i], false))
  {
  }

  /** Creating fills the first empty entry, with the type asked for and not active, and leaves the others. */
  lemma CreateLaw(t: Table, size: Word, offset: Word, systemType: Byte, diskSectors: Word)
    ensures var o := Step(t, Create(size, offset, systemType), diskSectors);
            && (o.code == 0 || (o.code == 2 && o.table == t))
            && (o.code == 0 ==>
                  && var e := FirstEmpty(t, 0);
                     && e < 4 && t[e] == Entry(0, PackedChs(0, 0), 0, PackedChs(0, 0), 0, 0)
                     && o.table[e].systemType == systemType && o.table[e].active == 0
                     && forall i | 0 <= i < 4 && i != e :: o.table[i] == t[i])
  {
    hide TableChs, Start, Length, Wrap;
  }

  /** The same partition, whether active or not. */
  predicate SamePartition(a: Entry, b: Entry) {
    a.(active := 0) == b.(active := 0)
  }

  lemma StepKeepsPartition(t: Table, command: Command, diskSectors: Word, i: nat)
    requires i < 4 && t[i].(active := 0) != ZERO_ENTRY
    requires command != Delete(i + 1) && command != Install(true)
    ensures SamePartition(Step(t, command, diskSectors).table[i], t[i])
  {
    hide Step;
    match command
    case Create(size, offset, systemType) => CreateLaw(t, size, offset, systemType, diskSectors);
    case SetActive(number, deactivate, keepOthers) => SetActiveLaw(t, number, deactivate, keepOthers, diskSectors);
    case Delete(number) => DeleteLaw(t, number, diskSectors);
    case Install(erase) => InstallLaw(t, erase, diskSectors);
  }

  /** Over every run that neither deletes it nor empties the table, a partition stays in its entry, with its
      place, length and type. */
  lemma {:induction false} RunKeepsPartition(t: Table, commands: seq<Command>, diskSectors: Word, i: nat)
    requires i < 4 && t[i].(active := 0) != ZERO_ENTRY
    requires Delete(i + 1) !in commands && Install(true) !in commands
    ensures SamePartition(Run(t, commands, diskSectors)[i], t[i]) && Run(t, commands, diskSectors)[i] != ZERO_ENTRY
    decreases |commands|
  {
    hide Step;
    if commands != [] {
      assert commands[0] in commands && forall c | c in commands[1..] :: c in commands;
      StepKeepsPartition(t, commands[0], diskSectors, i);
      RunKeepsPartition(Step(t, commands[0], diskSectors).table, commands[1..], diskSectors, i);
    }
  }

  // ----- allocation is safe

  predicate Within(e: Entry, diskSectors: Word) {
    FIRST_SECTOR <= e.startLba && e.End() <= diskSectors
  }

  predicate Disjoint(a: Entry, b: Entry) {
    a.End() <= b.startLba || b.End() <= a.startLba
  }

  predicate Safe(t: Table, diskSectors: Word) {
    && (forall i | 0 <= i < 4 && t[i] != ZERO_ENTRY :: Within(t[i], diskSectors))
    && (forall i, j | 0 <= i < j < 4 && t[i] != ZERO_ENTRY && t[j] != ZERO_ENTRY :: Disjoint(t[i], t[j]))
  }

  /** The sectors lie behind the first track, on the disk, and clear of every entry in use. */
  predicate Fits(t: Table, first: nat, sectors: nat, diskSectors: Word) {
    && FIRST_SECTOR <= first
    && first + sectors <= diskSectors
    && forall i | 0 <= i < 4 && t[i] != ZERO_ENTRY :: t[i].End() <= first || first + sectors <= t[i].startLba
  }

  /** A creation whose offset does not carry the 32-bit sum past 2^32: for the rest of the disk there has to be a
      rest; a given size must not carry the end past 2^32, unless so far that the creation is rejected. */
  predicate InBounds(free: nat, size: Word, offset: Word, diskSectors: Word) {
    var goal := free + offset;
    if size == 0 then goal <= diskSectors else goal + size < TWO32 || goal + size - TWO32 > diskSectors
  }

  /** A creation whose offset does carry: it leads back into the sectors from the first on, where nothing but
      looking at every entry tells whether there is room. */
  predicate FitsBelow(t: Table, first: nat, size: Word, diskSectors: Word) {
    if size == 0 then first <= diskSectors && Fits(t, first, diskSectors - first, diskSectors)
    else Fits(t, first, size, diskSectors) || Wrap(first + size) > diskSectors
  }

  /** The commands that do no harm, told from the table and the arguments. */
  predicate Allowed(t: Table, command: Command, diskSectors: Word) {
    command.Create? && FirstEmpty(t, 0) < 4 ==>
      var goal := FreeFrom(t, 4) + command.offset;
      if goal < TWO32 then InBounds(FreeFrom(t, 4), command.size, command.offset, diskSectors)
      else FitsBelow(t, goal - TWO32, command.size, diskSectors)
  }

  lemma {:induction false} FreeBehindAll(t: Table, n: nat, diskSectors: Word)
    requires n <= 4 && Safe(t, diskSectors) && diskSectors < TWO31
    ensures FIRST_SECTOR <= FreeFrom(t, n)
    ensures FreeFrom(t, n) == FIRST_SECTOR || FreeFrom(t, n) <= diskSectors
    ensures FreeFrom(t, n) == 63 || exists i | 0 <= i < n && t[i] != ZERO_ENTRY :: t[i].End() == FreeFrom(t, n)
    ensures forall i | 0 <= i < n && t[i] != ZERO_ENTRY :: t[i].End() <= FreeFrom(t, n)
  {
    hide SignedMax, Wrap, Disjoint;
    if n > 0 {
      FreeBehindAll(t, n - 1, diskSectors);
      if t[n - 1] != ZERO_ENTRY {
        assert Within(t[n - 1], diskSectors);
        MaxOfSmall(FreeFrom(t, n - 1), t[n - 1].End());
      }
    }
  }

  lemma MaxOfSmall(a: Word, b: nat)
    requires a < TWO31 && b < TWO31
    ensures SignedMax(a, Wrap(b)) == if a > b then a else b
  {
  }

  lemma NewEntryIsUsed(first: Word, sectors: Word, systemType: Byte)
    ensures NewEntry(first, sectors, systemType) != ZERO_ENTRY
  {
    hide TableChs, TableLba;
    TableChsRoundTrip(first);
    ZeroChs();
  }

  /** Sector numbers start at one, so that no sector has the form that an empty entry holds. */
  lemma ZeroChs()
    ensures TableLba(PackedChs(0, 0)) < 0
  {
  }

  /** A partition that is created keeps the table safe exactly if its sectors fit. It goes into the first empty
      entry, nothing else moves, and its CHS fields give its first and last sector. */
  lemma CreateIsSafe(t: Table, size: Word, offset: Word, systemType: Byte, diskSectors: Word)
    requires Safe(t, diskSectors)
    ensures var o, first, n := Step(t, Create(size, offset, systemType), diskSectors), Start(t, offset),
                               Length(t, size, offset, diskSectors);
            o.code == 0 ==>
              && (Safe(o.table, diskSectors) <==> Fits(t, first, n, diskSectors))
              && var e := FirstEmpty(t, 0);
                 && e < 4
                 && o.table[e] != ZERO_ENTRY && !o.table[e].IsActive()
                 && (forall i | 0 <= i < 4 && i != e :: o.table[i] == t[i])
                 && o.table[e].startLba == first
                 && o.table[e].sectors == n
                 && TableLba(o.table[e].startChs) == first % 1_032_192
                 && (0 < first + n <= diskSectors ==> TableLba(o.table[e].endChs) == (first + n - 1) % 1_032_192)
  {
    hide TableChs, TableLba, Safe, FirstEmpty, Start, Length, Fits, NewEntry, Wrap;
    var first, n := Start(t, offset), Length(t, size, offset, diskSectors);
    if Step(t, Create(size, offset, systemType), diskSectors).code == 0 {
      NewEntryIs(first, n, systemType, diskSectors);
      SafeWith(t, FirstEmpty(t, 0), NewEntry(first, n, systemType), diskSectors);
    }
  }

  lemma NewEntryIs(first: Word, n: Word, systemType: Byte, diskSectors: Word)
    ensures var entry := NewEntry(first, n, systemType);
            && entry != ZERO_ENTRY && !entry.IsActive()
            && entry.startLba == first && entry.sectors == n
            && TableLba(entry.startChs) == first % 1_032_192
            && (0 < first + n <= diskSectors ==> TableLba(entry.endChs) == (first + n - 1) % 1_032_192)
  {
    hide TableChs, TableLba;
    NewEntryIsUsed(first, n, systemType);
    TableChsRoundTrip(first);
    TableChsRoundTrip(Wrap(NewEntry(first, n, systemType).End() - 1));
  }

  lemma SafeWith(t: Table, e: nat, entry: Entry, diskSectors: Word)
    requires Safe(t, diskSectors) && e < 4 && t[e] == ZERO_ENTRY && entry != ZERO_ENTRY
    ensures Safe(t[e := entry], diskSectors) <==> Fits(t, entry.startLba, entry.sectors, diskSectors)
  {
    var u: Table := t[e := entry];
    if Safe(u, diskSectors) {
      assert Within(u[e], diskSectors);
      forall i | 0 <= i < 4 && t[i] != ZERO_ENTRY
        ensures Disjoint(t[i], entry)
      {
        assert u[i] == t[i] && Disjoint(u[if i < e then i else e], u[if i < e then e else i]);
      }
    }
    if Fits(t, entry.startLba, entry.sectors, diskSectors) {
      forall i, j | 0 <= i < j < 4 && u[i] != ZERO_ENTRY && u[j] != ZERO_ENTRY
        ensures Disjoint(u[i], u[j])
      {
        assert i != e && j != e ==> Disjoint(t[i], t[j]);
      }
    }
  }

  /** When that is: as long as the offset does not carry the 32-bit sum past 2^32, the partition lies behind
      everything in use, and fits exactly if a given size does not carry past 2^32 either, or, for the rest of
      the disk, there is a rest. An offset that does carry leads back in front of the first free sector. */
  lemma WhenCreateFits(t: Table, size: Word, offset: Word, systemType: Byte, diskSectors: Word)
    requires Safe(t, diskSectors) && diskSectors < TWO31
    requires Step(t, Create(size, offset, systemType), diskSectors).code == 0
    ensures var first, n := Start(t, offset), Length(t, size, offset, diskSectors);
            var goal := FreeFrom(t, 4) + offset;
            if goal < TWO32 then
              && first == goal
              && (forall i | 0 <= i < 4 && t[i] != ZERO_ENTRY :: t[i].End() <= first)
              && (Fits(t, first, n, diskSectors) <==> if size == 0 then goal <= diskSectors else goal + size < TWO32)
              && (size == 0 && goal <= diskSectors ==> first + n == diskSectors)
            else
              first == goal - TWO32 < FreeFrom(t, 4)
  {
    hide Safe, FreeFrom, FirstEmpty, NewEntry;
    FreeBehindAll(t, 4, diskSectors);
    WrapOnce(FreeFrom(t, 4) + offset);
  }

  lemma WrapOnce(i: nat)
    requires i < 2 * TWO32
    ensures Wrap(i) == if i < TWO32 then i else i - TWO32
  {
  }

  lemma {:induction false} EmptyIsFree(n: nat)
    requires n <= 4
    ensures FreeFrom(EMPTY_TABLE, n) == FIRST_SECTOR
  {
    if n > 0 {
      EmptyIsFree(n - 1);
    }
  }

  lemma EmptyIsSafe(diskSectors: Word)
    ensures Safe(EMPTY_TABLE, diskSectors) && FirstEmpty(EMPTY_TABLE, 0) == 0
  {
  }

  /** On a disk of 1000 sectors an offset of 2000 is accepted, and the "rest of the disk" wraps. */
  lemma OffsetBeyondDisk()
    ensures var o := Step(EMPTY_TABLE, Create(0, 2000, 1), 1000);
            o.code == 0 && o.table[0].startLba == 2063 && o.table[0].sectors == TWO32 - 1063 && !Safe(o.table, 1000)
  {
    hide Safe, FreeFrom, FirstEmpty, Step, Fits, TableChs;
    EmptyIsFree(4);
    EmptyIsSafe(1000);
    Created(EMPTY_TABLE, 0, 2000, 1000, 63, 0, 2063, TWO32 - 1063);
    DoesNotFit(EMPTY_TABLE, 2063, TWO32 - 1063, 1000);
  }

  /** What an accepted creation does, from the first free sector and the first empty entry. */
  lemma Created(t: Table, size: Word, offset: Word, diskSectors: Word, free: nat, e: nat, first: Word, n: Word)
    requires Safe(t, diskSectors) && FreeFrom(t, 4) == free && FirstEmpty(t, 0) == e < 4
    requires first == Wrap(free + offset) && n == (if size == 0 then Wrap(diskSectors - first) else size)
    requires Wrap(first as int + n) <= diskSectors
    ensures var o := Step(t, Create(size, offset, 1), diskSectors);
            && o.code == 0
            && (Safe(o.table, diskSectors) <==> Fits(t, first, n, diskSectors))
            && o.table[e] != ZERO_ENTRY && o.table[e].startLba == first && o.table[e].sectors == n
            && forall i | 0 <= i < 4 && i != e :: o.table[i] == t[i]
  {
    hide TableChs, FreeFrom, FirstEmpty, Safe, Fits, Wrap;
    CreateIsSafe(t, size, offset, 1, diskSectors);
  }

  lemma DoesNotFit(t: Table, first: Word, n: Word, diskSectors: Word)
    requires first as int + n > diskSectors
    ensures !Fits(t, first, n, diskSectors)
  {
  }

  /** On a disk of 2000 sectors with one partition of 1000, an offset just below 2^32 leads back into it. */
  lemma OffsetWraps()
    ensures var o := Step(EMPTY_TABLE, Create(1000, 0, 1), 2000);
            && o.code == 0 && Safe(o.table, 2000)
            && var p := Step(o.table, Create(10, TWO32 - 100, 1), 2000);
               && p.code == 0
               && p.table[0].startLba == 63 && p.table[0].sectors == 1000
               && p.table[1].startLba == 963 && p.table[1].sectors == 10
               && !Safe(p.table, 2000)
  {
    hide Safe, FreeFrom, FirstEmpty, Step, Fits, TableChs;
    EmptyIsFree(4);
    EmptyIsSafe(2000);
    Created(EMPTY_TABLE, 1000, 0, 2000, 63, 0, 63, 1000);
    FitsInEmpty(63, 1000, 2000);
    var t := Step(EMPTY_TABLE, Create(1000, 0, 1), 2000).table;
    OneEntry(t, 63, 1000);
    Created(t, 10, TWO32 - 100, 2000, 1063, 1, 963, 10);
    Overlaps(t, 963, 10, 2000);
  }

  lemma FitsInEmpty(first: Word, n: Word, diskSectors: Word)
    requires FIRST_SECTOR <= first && first as int + n <= diskSectors
    ensures Fits(EMPTY_TABLE, first, n, diskSectors)
  {
  }

  lemma Overlaps(t: Table, first: Word, n: Word, diskSectors: Word)
    requires t[0] != ZERO_ENTRY && t[0].startLba < first as int + n && first < t[0].startLba as int + t[0].sectors
    ensures !Fits(t, first, n, diskSectors)
  {
    assert t[0].End() == t[0].startLba as int + t[0].sectors;
  }

  lemma OneEntry(t: Table, first: Word, n: Word)
    requires t[0] != ZERO_ENTRY && (forall i | 0 <= i < 4 && i != 0 :: t[i] == EMPTY_TABLE[i])
    requires t[0].startLba == first && t[0].sectors == n && FIRST_SECTOR <= first && first as int + n < TWO31
    ensures FirstEmpty(t, 0) == 1 && FreeFrom(t, 4) == first as int + n
  {
    assert t[1] == ZERO_ENTRY && t[2] == ZERO_ENTRY && t[3] == ZERO_ENTRY;
    assert FreeFrom(t, 1) == t[0].End();
    assert FreeFrom(t, 2) == FreeFrom(t, 1);
    assert FreeFrom(t, 3) == FreeFrom(t, 2);
  }

  /** The allocator keeps a safe table safe exactly within its bounds: an accepted creation whose offset does
      not carry does no harm if, and only if, its size does not carry either or there is a rest of the disk. */
  lemma CreateInBounds(t: Table, size: Word, offset: Word, systemType: Byte, diskSectors: Word)
    requires Safe(t, diskSectors) && diskSectors < TWO31 && FreeFrom(t, 4) + offset < TWO32
    ensures var o, goal := Step(t, Create(size, offset, systemType), diskSectors), FreeFrom(t, 4) + offset;
            o.code == 0 ==>
              (Safe(o.table, diskSectors) <==> if size == 0 then goal <= diskSectors else goal + size < TWO32)
  {
    hide Safe, FreeFrom, FirstEmpty, Start, Length, Fits, NewEntry;
    if Step(t, Create(size, offset, systemType), diskSectors).code == 0 {
      CreateIsSafe(t, size, offset, systemType, diskSectors);
      WhenCreateFits(t, size, offset, systemType, diskSectors);
    }
  }

  /** When a creation is accepted, in plain arithmetic. */
  lemma WhenAccepted(t: Table, size: Word, offset: Word, systemType: Byte, diskSectors: Word)
    ensures var o, goal := Step(t, Create(size, offset, systemType), diskSectors), FreeFrom(t, 4) + offset;
            var first := if goal < TWO32 then goal else goal - TWO32;
            && (o.code != 0 ==> o.table == t)
            && (o.code == 0 <==>
                  && FirstEmpty(t, 0) < 4
                  && (size == 0 || Wrap(first + size) <= diskSectors))
            && Start(t, offset) == first
            && (size == 0 && first <= diskSectors ==> Length(t, size, offset, diskSectors) == diskSectors - first)
            && (size == 0 && first > diskSectors ==> first + Length(t, size, offset, diskSectors) > diskSectors)
            && (size != 0 ==> Length(t, size, offset, diskSectors) == size)
  {
    hide FreeFrom, FirstEmpty, NewEntry, Wrap;
    var goal: int := FreeFrom(t, 4) + offset;
    WrapOnce(goal);
    var first: int := Start(t, offset);
    RestOfDisk(first, diskSectors);
  }

  lemma RestOfDisk(first: Word, diskSectors: Word)
    ensures Wrap(diskSectors - first)
         == diskSectors - first + if first <= diskSectors then 0 else TWO32
    ensures Wrap(first as int + Wrap(diskSectors - first)) == diskSectors
  {
  }

  /** A command keeps a safe table safe exactly if it is one of those that do no harm. */
  lemma StepIsSafe(t: Table, command: Command, diskSectors: Word)
    requires Safe(t, diskSectors) && diskSectors < TWO31
    ensures Safe(Step(t, command, diskSectors).table, diskSectors) <==> Allowed(t, command, diskSectors)
  {
    hide Step, Safe, Allowed;
    if command.Create? {
      CreateStepIsSafe(t, command.size, command.offset, command.systemType, diskSectors);
    } else {
      OthersAllowed(t, command, diskSectors);
      SamePlaces(t, Step(t, command, diskSectors).table, diskSectors);
    }
  }

  lemma OthersAllowed(t: Table, command: Command, diskSectors: Word)
    requires !command.Create?
    ensures Allowed(t, command, diskSectors)
    ensures var u := Step(t, command, diskSectors).table;
            forall i | 0 <= i < 4 && u[i] != ZERO_ENTRY ::
              t[i] != ZERO_ENTRY && u[i].startLba == t[i].startLba && u[i].sectors == t[i].sectors
  {
  }

  lemma CreateStepIsSafe(t: Table, size: Word, offset: Word, systemType: Byte, diskSectors: Word)
    requires Safe(t, diskSectors) && diskSectors < TWO31
    ensures var command := Create(size, offset, systemType);
            Safe(Step(t, command, diskSectors).table, diskSectors) <==> Allowed(t, command, diskSectors)
  {
    hide Step, FreeFrom, FirstEmpty, NewEntry, Safe, Fits, Start, Length, Wrap, FitsBelow;
    WhenAccepted(t, size, offset, systemType, diskSectors);
    if FreeFrom(t, 4) + offset < TWO32 {
      WrapOnce(FreeFrom(t, 4) as int + offset + size);
      CreateInBounds(t, size, offset, systemType, diskSectors);
    } else {
      CreateBelow(t, size, offset, systemType, diskSectors);
    }
  }

  /** Where the offset carries. */
  lemma CreateBelow(t: Table, size: Word, offset: Word, systemType: Byte, diskSectors: Word)
    requires Safe(t, diskSectors) && FreeFrom(t, 4) + offset >= TWO32
    ensures var u := Step(t, Create(size, offset, systemType), diskSectors).table;
            Safe(u, diskSectors) <==>
              (FirstEmpty(t, 0) < 4 ==> FitsBelow(t, FreeFrom(t, 4) + offset - TWO32, size, diskSectors))
  {
    hide Step, FreeFrom, FirstEmpty, NewEntry, Safe, Fits, FitsBelow, Start, Length, Wrap, TableLba;
    WhenAccepted(t, size, offset, systemType, diskSectors);
    var first := FreeFrom(t, 4) + offset - TWO32;
    if Step(t, Create(size, offset, systemType), diskSectors).code == 0 {
      CreateIsSafe(t, size, offset, systemType, diskSectors);
      AcceptedBelow(t, first, size, Length(t, size, offset, diskSectors), diskSectors);
    } else if FirstEmpty(t, 0) < 4 {
      RejectedBelow(t, first, size, diskSectors);
    }
  }

  lemma AcceptedBelow(t: Table, first: nat, size: Word, n: Word, diskSectors: Word)
    requires size == 0 && first <= diskSectors ==> n == diskSectors - first
    requires size == 0 && first > diskSectors ==> first + n > diskSectors
    requires size != 0 ==> n == size && Wrap(first + size) <= diskSectors
    ensures FitsBelow(t, first, size, diskSectors) <==> Fits(t, first, n, diskSectors)
  {
    hide Fits, Wrap;
    FitsOnDisk(t, first, n, diskSectors);
  }

  lemma RejectedBelow(t: Table, first: nat, size: Word, diskSectors: Word)
    requires size != 0 && Wrap(first + size) > diskSectors
    ensures FitsBelow(t, first, size, diskSectors)
  {
    hide Fits, Wrap;
  }

  lemma FitsOnDisk(t: Table, first: nat, sectors: nat, diskSectors: Word)
    ensures Fits(t, first, sectors, diskSectors) ==> first + sectors <= diskSectors
  {
  }

  /** Entries that stay where they are, or disappear, stay safe. */
  lemma SamePlaces(t: Table, u: Table, diskSectors: Word)
    requires Safe(t, diskSectors)
    requires forall i | 0 <= i < 4 && u[i] != ZERO_ENTRY ::
               t[i] != ZERO_ENTRY && u[i].startLba == t[i].startLba && u[i].sectors == t[i].sectors
    ensures Safe(u, diskSectors)
  {
    forall i, j | 0 <= i < j < 4 && u[i] != ZERO_ENTRY && u[j] != ZERO_ENTRY
      ensures Disjoint(u[i], u[j])
    {
      assert Disjoint(t[i], t[j]);
    }
    forall i | 0 <= i < 4 && u[i] != ZERO_ENTRY
      ensures Within(u[i], diskSectors)
    {
      assert Within(t[i], diskSectors);
    }
  }

  ghost predicate AllowedRun(t: Table, commands: seq<Command>, diskSectors: Word)
    decreases |commands|
  {
    commands != [] ==>
      && Allowed(t, commands[0], diskSectors)
      && AllowedRun(Step(t, commands[0], diskSectors).table, commands[1..], diskSectors)
  }

  /** The table is safe in the beginning and after each of the commands. */
  ghost predicate AlwaysSafe(t: Table, commands: seq<Command>, diskSectors: Word)
    decreases |commands|
  {
    && Safe(t, diskSectors)
    && (commands != [] ==> AlwaysSafe(Step(t, commands[0], diskSectors).table, commands[1..], diskSectors))
  }

  /** Over every run, the entries in use stay apart, behind the first track, and on the disk, exactly as long as
      each creation is within its bounds. */
  lemma {:induction false} RunIsSafe(t: Table, commands: seq<Command>, diskSectors: Word)
    requires Safe(t, diskSectors) && diskSectors < TWO31
    ensures AlwaysSafe(t, commands, diskSectors) <==> AllowedRun(t, commands, diskSectors)
    ensures AllowedRun(t, commands, diskSectors) ==> Safe(Run(t, commands, diskSectors), diskSectors)
    decreases |commands|
  {
    hide Safe, Step, Allowed;
    if commands != [] {
      StepIsSafe(t, commands[0], diskSectors);
      var u := Step(t, commands[0], diskSectors).table;
      if Safe(u, diskSectors) {
        RunIsSafe(u, commands[1..], diskSectors);
      } else {
        assert !AlwaysSafe(u, commands[1..], diskSectors);
      }
    }
  }

  /** Each creation begins on the disk, at the time it is made, and asks for less than 2^31 sectors. */
  ghost predicate StartsOnDisk(t: Table, commands: seq<Command>, diskSectors: Word)
    decreases |commands|
  {
    commands != [] ==>
      && (commands[0].Create? ==> FreeFrom(t, 4) + commands[0].offset <= diskSectors && commands[0].size < TWO31)
      && StartsOnDisk(Step(t, commands[0], diskSectors).table, commands[1..], diskSectors)
  }

  /** That is enough for the table to stay safe. */
  lemma {:induction false} RunOnDiskIsSafe(t: Table, commands: seq<Command>, diskSectors: Word)
    requires Safe(t, diskSectors) && diskSectors < TWO31 && StartsOnDisk(t, commands, diskSectors)
    ensures AlwaysSafe(t, commands, diskSectors)
    decreases |commands|
  {
    hide Safe, Step, FreeFrom, FirstEmpty, FitsBelow;
    if commands != [] {
      StepIsSafe(t, commands[0], diskSectors);
      RunOnDiskIsSafe(Step(t, commands[0], diskSectors).table, commands[1..], diskSectors);
    }
  }

  /** What a command can be seen to respect without knowing the table: disk, offset and size together stay below
      2^32, and only a creation at the first free sector takes the rest of the disk. */
  predicate Modest(command: Command, diskSectors: Word) {
    command.Create? ==>
      && diskSectors + command.offset + command.size < TWO32
      && (command.size == 0 ==> command.offset == 0)
  }

  /** Every run of such commands, whatever they are, keeps the table safe; in particular every run that uses no
      offsets and sizes below 2^31. */
  lemma {:induction false} ModestRunIsSafe(t: Table, commands: seq<Command>, diskSectors: Word)
    requires Safe(t, diskSectors) && FIRST_SECTOR <= diskSectors < TWO31
    requires forall c | c in commands :: Modest(c, diskSectors)
    ensures AlwaysSafe(t, commands, diskSectors)
    decreases |commands|
  {
    hide Safe, Step, FreeFrom, FirstEmpty, FitsBelow;
    if commands != [] {
      assert commands[0] in commands;
      FreeBehindAll(t, 4, diskSectors);
      StepIsSafe(t, commands[0], diskSectors);
      assert forall c | c in commands[1..] :: c in commands;
      ModestRunIsSafe(Step(t, commands[0], diskSectors).table, commands[1..], diskSectors);
    }
  }

  // ----- at most one partition is active

  predicate AtMostOneActive(t: Table) {
    forall i, j | 0 <= i < j < 4 :: !(t[i].IsActive() && t[j].IsActive())
  }

  /** That is, the set of active entries is empty or holds one. */
  lemma ActiveEntries(t: Table)
    ensures AtMostOneActive(t) <==> |set i | 0 <= i < 4 && t[i].IsActive()| <= 1
  {
    var active := set i | 0 <= i < 4 && t[i].IsActive();
    if AtMostOneActive(t) {
      if i :| i in active {
        assert active == {i};
      }
    }
    forall i, j | 0 <= i < j < 4 && t[i].IsActive() && t[j].IsActive()
      ensures |active| >= 2
    {
      assert j in active - {i};
      assert |active - {i}| == |active| - 1;
    }
  }

  /** Activating a partition leaves it the only active one. */
  lemma ActivateLeavesOne(t: Table, number: int, diskSectors: Word)
    ensures var o := Step(t, SetActive(number, false, false), diskSectors);
            && (o.code == 0 <==> 1 <= number <= 4 && t[number - 1] != ZERO_ENTRY)
            && (o.code == 0 ==> forall i | 0 <= i < 4 :: o.table[i].IsActive() <==> i == number - 1)
  {
  }

  /** Over every run in which no activation keeps the others, at most one partition is active. */
  lemma {:induction false} RunKeepsOneActive(t: Table, commands: seq<Command>, diskSectors: Word)
    requires AtMostOneActive(t)
    requires forall c | c in commands :: c.SetActive? ==> !c.keepOthers || c.deactivate
    ensures AtMostOneActive(Run(t, commands, diskSectors))
    decreases |commands|
  {
    if commands != [] {
      var u := Step(t, commands[0], diskSectors).table;
      assert commands[0] in commands;
      if commands[0].SetActive? && !commands[0].deactivate {
        ActivateLeavesOne(t, commands[0].number, diskSectors);
      } else {
        assert forall i | 0 <= i < 4 :: u[i].IsActive() ==> t[i].IsActive();
      }
      assert forall c | c in commands[1..] :: c in commands;
      RunKeepsOneActive(u, commands[1..], diskSectors);
    }
  }

  // ----- the commands, in place

  class Mbr {
    const entries: array<Entry>

    constructor ()
      ensures fresh(entries) && entries.Length == 4
    {
      entries := new Entry[4](_ => ZERO_ENTRY);
    }

    ghost function Contents(): Table
      requires entries.Length == 4
      reads entries
    {
      entries[..]
    }

    method CreatePartition(size: Word, offset: Word, systemType: Byte, diskSectors: Word) returns (code: int)
      requires entries.Length == 4
      modifies entries
      ensures Outcome(code, Contents()) == Step(old(Contents()), Create(size, offset, systemType), diskSectors)
    {
      hide NewEntry, SignedMax, Wrap;
      ghost var t := Contents();
      var e := 4;
      var first: Word := FIRST_SECTOR;
      for i := 0 to 4
        invariant first == FreeFrom(t, i) && Contents() == t
        invariant if e == 4 then FirstEmpty(t, 0) == FirstEmpty(t, i) else FirstEmpty(t, 0) == e < 4
      {
        if entries[i] == ZERO_ENTRY {
          if e == 4 {
            e := i;
          }
        } else {
          first := SignedMax(first, Wrap(entries[i].End()));
        }
      }

      if e == 4 {
        return 2;
      }
      first := Wrap(first + offset);
      var sectors := size;
      if sectors == 0 {
        sectors := Wrap(diskSectors - first);
      }
      if Wrap(first + sectors) > diskSectors {
        return 2;
      }

      entries[e] := NewEntry(first, sectors, systemType);
      code := 0;
    }

    method SetActivePartition(number: int, deactivate: bool, keepOthers: bool) returns (code: int)
      requires entries.Length == 4
      modifies entries
      ensures forall diskSectors ::
                Outcome(code, Contents()) ==
                Step(old(Contents()), SetActive(number, deactivate, keepOthers), diskSectors)
    {
      ghost var t := Contents();
      var p := number - 1;
      if p < 0 || p > 3 {
        return 1;
      }
      if entries[p] == ZERO_ENTRY {
        return 2;
      }
      if deactivate {
        entries[p] := entries[p].Deactivated();
      } else {
        for i := 0 to 4
          invariant forall j | 0 <= j < i :: entries[j] ==
                      if j == p then t[j].Activated() else if keepOthers then t[j] else t[j].Deactivated()
          invariant forall j | i <= j < 4 :: entries[j] == t[j]
        {
          if i == p {
            entries[i] := entries[i].Activated();
          } else if !keepOthers {
            entries[i] := entries[i].Deactivated();
          }
        }
      }
      code := 0;
    }

    method DeletePartition(number: int) returns (code: int)
      requires entries.Length == 4
      modifies entries
      ensures forall diskSectors :: Outcome(code, Contents()) == Step(old(Contents()), Delete(number), diskSectors)
    {
      var p := number - 1;
      if p < 0 || p > 3 {
        return 1;
      }
      if entries[p] == ZERO_ENTRY {
        return 2;
      }
      entries[p] := ZERO_ENTRY;
      code := 0;
    }

    /** The table that goes into a new MBR: the old one, unless it is to be deleted. */
    method InstallMbr(image: array<Entry>, erase: bool)
      requires entries.Length == 4 && image.Length == 4 && image != entries
      modifies image
      ensures forall diskSectors :: image[..] == Step(Contents(), Install(erase), diskSectors).table
      ensures !erase ==> image[..] == entries[..]
    {
      for i := 0 to 4
        invariant forall j | 0 <= j < i :: image[j] == if erase then ZERO_ENTRY else entries[j]
      {
        image[i] := if erase then ZERO_ENTRY else entries[i];
      }
      assert image[..] == if erase then EMPTY_TABLE else Contents();
    }
  }
}
