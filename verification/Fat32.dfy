/** The file system of the loader: the table of open files, directory scans and path lookup. */
module Fat32 {
  import opened Words
  import opened Bits
  import opened Fat32Volume
  import opened Fat32Names
  import opened Fat32File

  const MAX_FILE_HANDLES := 12
  const MAX_PATH := 256
  const ENTRY_SIZE := 32
  const MEMORY_FAT_SIZE := 0x1_0000
  const FAT_DATA_SIZE := SECTOR_SIZE + MAX_FILE_HANDLES * 544

  const BOOT_UNREADABLE := 0x0501
  const FAT_TOO_LARGE := 0x0502
  const FAT_UNREADABLE := 0x0503
  const NO_HANDLE := 0x0511
  const OPEN_FAILED := 0x0512
  const NOT_A_DIRECTORY := 0x0531
  const NOT_FOUND := 0x0532

  // ----- directory records

  // The fields of a 32-byte directory record that the loader uses.
  datatype DirEntry = DirEntry(name: seq<Byte>, attributes: Byte, clusterHigh: Half, clusterLow: Half, size: Word) {
    function Ref(): FileRef {
      var high: int := clusterHigh;
      FileRef(0x1_0000 * high + clusterLow, IsDirectory(attributes), size)
    }
  }

  /** Bit 4 of the attributes. */
  predicate IsDirectory(attributes: Byte) {
    attributes / 0x10 % 2 == 1
  }

  function ParseEntry(record: seq<Byte>): DirEntry
    requires |record| == ENTRY_SIZE
  {
    DirEntry(record[..11], record[11], Le16(record, 20), Le16(record, 26), Le32(record, 28))
  }

  /** Reading a record is the inverse of laying its fields out, 32 bytes in all: name, attributes, eight bytes of
      times, the high half of the cluster, four bytes of times, the low half, the size. */
  lemma EntryRoundTrip(name: seq<Byte>, attributes: Byte, created: seq<Byte>, cluster: Word, modified: seq<Byte>,
                       size: Word)
    requires |name| == 11 && |created| == 8 && |modified| == 4
    ensures var record := name + [attributes] + created + Bytes16(cluster / 0x1_0000) + modified
                          + Bytes16(cluster % 0x1_0000) + Bytes32(size);
            && |record| == ENTRY_SIZE
            && ParseEntry(record).name == name
            && ParseEntry(record).Ref() == FileRef(cluster, Bit(attributes, 4), size)
  {
    hide Bytes16, Bytes32, Le16, Le32;
    var high: Half, low: Half := cluster / 0x1_0000, cluster % 0x1_0000;
    var record := name + [attributes] + created + Bytes16(high) + modified + Bytes16(low) + Bytes32(size);
    assert record[..11] == name && record[11] == attributes;
    assert record[20..22] == Bytes16(high) && record[26..28] == Bytes16(low) && record[28..32] == Bytes32(size);
    Le16Reads(record, 20, high);
    Le16Reads(record, 26, low);
    Le32Reads(record, 28, size);
    DirectoryBit(attributes);
  }

  lemma DirectoryBit(attributes: Byte)
    ensures IsDirectory(attributes) <==> Bit(attributes, 4)
  {
    var a: nat := attributes;
    assert Shr(a, 4) == Shr(a / 2, 3) == Shr(a / 2 / 2, 2) == Shr(a / 2 / 2 / 2, 1) == a / 2 / 2 / 2 / 2;
  }

  /** The record number `i` of a directory. */
  function Record(bytes: seq<Byte>, i: nat): seq<Byte>
    requires ENTRY_SIZE * (i + 1) <= |bytes|
  {
    bytes[ENTRY_SIZE * i..ENTRY_SIZE * (i + 1)]
  }

  /** Record number `i` is there in full and carries the name. */
  predicate Matches(bytes: seq<Byte>, i: nat, short: seq<Byte>) {
    ENTRY_SIZE * (i + 1) <= |bytes| && Record(bytes, i)[..11] == short
  }

  /** The first record, from number `i` on, that carries the name. A partial record at the end is none. */
  function FirstMatch(bytes: seq<Byte>, i: nat, short: seq<Byte>): Option<DirEntry>
    decreases |bytes| - ENTRY_SIZE * i
  {
    if ENTRY_SIZE * (i + 1) > |bytes| then None
    else if Matches(bytes, i, short) then Some(ParseEntry(Record(bytes, i)))
    else FirstMatch(bytes, i + 1, short)
  }

  /** A scan finds a record exactly if one carries the name, and then the one with the least number. */
  lemma FirstMatchIsFirst(bytes: seq<Byte>, i: nat, short: seq<Byte>)
    ensures FirstMatch(bytes, i, short) == None <==> forall j | i <= j :: !Matches(bytes, j, short)
    ensures FirstMatch(bytes, i, short).Some? ==>
              exists j | i <= j :: Matches(bytes, j, short)
                                   && FirstMatch(bytes, i, short).value == ParseEntry(Record(bytes, j))
                                   && forall k | i <= k < j :: !Matches(bytes, k, short)
  {
    hide ParseEntry, Record, Matches, FirstMatch;
    if FirstMatch(bytes, i, short) == None {
      NoneMatches(bytes, i, short);
    } else {
      var j := FoundMatch(bytes, i, short);
    }
  }

  lemma {:induction false} NoneMatches(bytes: seq<Byte>, i: nat, short: seq<Byte>)
    requires FirstMatch(bytes, i, short) == None
    ensures forall j: nat | i <= j :: !Matches(bytes, j, short)
    decreases |bytes| - ENTRY_SIZE * i
  {
    hide ParseEntry, Record, Matches, FirstMatch;
    FirstMatchStep(bytes, i, short);
    if ENTRY_SIZE * (i + 1) <= |bytes| {
      NoneMatches(bytes, i + 1, short);
    }
  }

  lemma {:induction false} FoundMatch(bytes: seq<Byte>, i: nat, short: seq<Byte>) returns (j: nat)
    requires FirstMatch(bytes, i, short).Some?
    ensures i <= j && Matches(bytes, j, short) && ENTRY_SIZE * (j + 1) <= |bytes|
    ensures FirstMatch(bytes, i, short).value == ParseEntry(Record(bytes, j))
    ensures forall k | i <= k < j :: !Matches(bytes, k, short)
    decreases |bytes| - ENTRY_SIZE * i
  {
    hide ParseEntry, Record, Matches, FirstMatch;
    FirstMatchStep(bytes, i, short);
    if Matches(bytes, i, short) {
      j := i;
    } else {
      j := FoundMatch(bytes, i + 1, short);
    }
  }

  lemma FirstMatchStep(bytes: seq<Byte>, i: nat, short: seq<Byte>)
    ensures forall j: nat | Matches(bytes, j, short) :: ENTRY_SIZE * (j + 1) <= |bytes|
    ensures FirstMatch(bytes, i, short)
         == if ENTRY_SIZE * (i + 1) > |bytes| then None
            else if Matches(bytes, i, short) then Some(ParseEntry(Record(bytes, i)))
            else FirstMatch(bytes, i + 1, short)
  {
  }

  /** A record that stands for a file or directory: in use, and neither a volume label nor part of a long name. */
  predicate IsLive(record: seq<Byte>)
    requires |record| == ENTRY_SIZE
  {
    record[0] != 0 && record[0] != 0xE5 && record[11] / 8 % 2 == 0
  }

  /** The lookup of the FAT32 specification: nothing but live records counts, and a record that begins with a
      zero ends the directory. */
  function SpecMatch(bytes: seq<Byte>, i: nat, short: seq<Byte>): (found: Option<DirEntry>)
    ensures found.Some? ==> found.value.name == short && short != [] && short[0] != 0xE5
    ensures found.Some? ==> found.value.attributes / 8 % 2 == 0
    decreases |bytes| - ENTRY_SIZE * i
  {
    if ENTRY_SIZE * (i + 1) > |bytes| || Record(bytes, i)[0] == 0 then None
    else if Matches(bytes, i, short) && IsLive(Record(bytes, i)) then Some(ParseEntry(Record(bytes, i)))
    else SpecMatch(bytes, i + 1, short)
  }

  /** Record number `j` is the first with the name, from number `i` on. */
  predicate IsFirstMatch(bytes: seq<Byte>, i: nat, short: seq<Byte>, j: nat) {
    i <= j && Matches(bytes, j, short) && forall k | i <= k < j :: !Matches(bytes, k, short)
  }

  /** Record number `j` is live, and no record from number `i` on ends the directory in front of it. */
  predicate IsSeen(bytes: seq<Byte>, i: nat, j: nat) {
    && ENTRY_SIZE * (j + 1) <= |bytes|
    && IsLive(Record(bytes, j))
    && forall k: nat | i <= k < j :: bytes[ENTRY_SIZE * k] != 0
  }

  /** The first record with the name, if there is one, is live and not behind the end of the directory. */
  ghost predicate FirstIsLive(bytes: seq<Byte>, i: nat, short: seq<Byte>) {
    forall j: nat | IsFirstMatch(bytes, i, short, j) :: IsSeen(bytes, i, j)
  }

  lemma SkipOne(bytes: seq<Byte>, i: nat, short: seq<Byte>, j: nat)
    requires ENTRY_SIZE * (i + 1) <= |bytes| && !Matches(bytes, i, short)
    ensures IsFirstMatch(bytes, i, short, j) <==> IsFirstMatch(bytes, i + 1, short, j)
    ensures i < j ==> (IsSeen(bytes, i, j) <==> bytes[ENTRY_SIZE * i] != 0 && IsSeen(bytes, i + 1, j))
    ensures IsFirstMatch(bytes, i + 1, short, j) ==> i < j && FirstMatch(bytes, i + 1, short) != None
  {
    hide IsLive;
    FirstMatchIsFirst(bytes, i + 1, short);
  }

  lemma FirstMatchSkips(bytes: seq<Byte>, i: nat, short: seq<Byte>)
    requires ENTRY_SIZE * (i + 1) <= |bytes| && !Matches(bytes, i, short)
    ensures FirstMatch(bytes, i + 1, short) == None ==> FirstIsLive(bytes, i + 1, short)
    ensures FirstIsLive(bytes, i, short) <==>
              && FirstIsLive(bytes, i + 1, short)
              && (bytes[ENTRY_SIZE * i] != 0 || FirstMatch(bytes, i + 1, short) == None)
  {
    hide Matches, IsFirstMatch, IsSeen, FirstMatch;
    var n := i + 1;
    if FirstIsLive(bytes, i, short) {
      forall j: nat | IsFirstMatch(bytes, n, short, j)
        ensures IsSeen(bytes, n, j) && bytes[ENTRY_SIZE * i] != 0
      {
        SkipOne(bytes, i, short, j);
      }
    }
    if FirstMatch(bytes, n, short) != None {
      var j := FirstMatchExists(bytes, n, short);
    }
    forall j: nat | IsFirstMatch(bytes, n, short, j)
      ensures FirstMatch(bytes, n, short) != None
    {
      SkipOne(bytes, i, short, j);
    }
    forall j: nat | IsFirstMatch(bytes, i, short, j)
      ensures IsFirstMatch(bytes, n, short, j)
      ensures bytes[ENTRY_SIZE * i] != 0 && IsSeen(bytes, n, j) ==> IsSeen(bytes, i, j)
    {
      SkipOne(bytes, i, short, j);
    }
  }

  lemma FirstMatchExists(bytes: seq<Byte>, i: nat, short: seq<Byte>) returns (j: nat)
    requires FirstMatch(bytes, i, short) != None
    ensures IsFirstMatch(bytes, i, short, j)
  {
    hide Matches, FirstMatch;
    j := FoundMatch(bytes, i, short);
  }

  /** The scan of the loader also sees deleted records, labels, parts of long names, and what lies behind the
      end mark. It finds what the specification says exactly if the first record with the name is live. */
  lemma {:induction false} ScanMeetsSpecification(bytes: seq<Byte>, i: nat, short: seq<Byte>)
    requires |short| == 11
    ensures FirstMatch(bytes, i, short) == SpecMatch(bytes, i, short) <==> FirstIsLive(bytes, i, short)
    decreases |bytes| - ENTRY_SIZE * i
  {
    hide Matches, IsLive, ParseEntry, Record, FirstIsLive, FirstMatch, SpecMatch;
    if ENTRY_SIZE * (i + 1) > |bytes| {
      NothingFound(bytes, i, short);
    } else if Matches(bytes, i, short) {
      OnlyFirst(bytes, i, short);
      FoundFirst(bytes, i, short);
    } else {
      ScanMeetsSpecification(bytes, i + 1, short);
      FirstMatchSkips(bytes, i, short);
      NotFoundHere(bytes, i, short);
    }
  }

  lemma NothingFound(bytes: seq<Byte>, i: nat, short: seq<Byte>)
    requires ENTRY_SIZE * (i + 1) > |bytes|
    ensures FirstMatch(bytes, i, short) == SpecMatch(bytes, i, short) == None && FirstIsLive(bytes, i, short)
  {
    assert forall j: nat | i <= j :: !Matches(bytes, j, short);
  }

  lemma NotFoundHere(bytes: seq<Byte>, i: nat, short: seq<Byte>)
    requires ENTRY_SIZE * (i + 1) <= |bytes| && !Matches(bytes, i, short)
    ensures FirstMatch(bytes, i, short) == FirstMatch(bytes, i + 1, short)
    ensures SpecMatch(bytes, i, short) == if bytes[ENTRY_SIZE * i] == 0 then None else SpecMatch(bytes, i + 1, short)
  {
    hide Matches, IsLive, ParseEntry;
    assert Record(bytes, i)[0] == bytes[ENTRY_SIZE * i];
  }

  lemma OnlyFirst(bytes: seq<Byte>, i: nat, short: seq<Byte>)
    requires Matches(bytes, i, short)
    ensures FirstIsLive(bytes, i, short) <==> IsLive(Record(bytes, i))
  {
    hide Matches, IsLive;
    assert IsFirstMatch(bytes, i, short, i);
    assert forall j: nat | IsFirstMatch(bytes, i, short, j) :: j == i;
    assert Matches(bytes, i, short) ==> ENTRY_SIZE * (i + 1) <= |bytes| by {
      MatchInRange(bytes, i, short);
    }
  }

  lemma MatchInRange(bytes: seq<Byte>, i: nat, short: seq<Byte>)
    requires Matches(bytes, i, short)
    ensures ENTRY_SIZE * (i + 1) <= |bytes|
  {
  }

  lemma FoundFirst(bytes: seq<Byte>, i: nat, short: seq<Byte>)
    requires |short| == 11 && Matches(bytes, i, short)
    ensures FirstMatch(bytes, i, short) == SpecMatch(bytes, i, short) <==> IsLive(Record(bytes, i))
  {
    assert short[0] == Record(bytes, i)[..11][0];
  }

  /** One round of a scan, from what `fat32_read` delivered into the record buffer. */
  lemma ScanStep(bytes: seq<Byte>, k: nat, short: seq<Byte>, record: seq<Byte>, initial: seq<Byte>, n: nat)
    requires |initial| == ENTRY_SIZE && ENTRY_SIZE * k <= |bytes|
    requires n == Min(ENTRY_SIZE, |bytes| - ENTRY_SIZE * k)
    requires Delivered(record, initial, bytes, ENTRY_SIZE * k, ENTRY_SIZE * k + n)
    ensures n <= ENTRY_SIZE == |record|
    ensures FirstMatch(bytes, k, short) ==
            if n != ENTRY_SIZE then None
            else if short == record[..11] then Some(ParseEntry(record))
            else FirstMatch(bytes, k + 1, short)
    ensures n == ENTRY_SIZE ==> ENTRY_SIZE * (k + 1) <= |bytes|
  {
    hide ParseEntry;
    if n == ENTRY_SIZE {
      assert record == Record(bytes, k);
    }
  }

  // ----- path lookup, on the volume alone

  datatype Resolved = Found(ref: FileRef) | Failed(code: int)

  /** The directories that a lookup of `names` from `ref` scans are sound and can be read. Nothing is asked
      of a directory that cannot be opened, nor of the file in the end. */
  ghost predicate Walkable(vol: Volume, ref: FileRef, names: seq<seq<Byte>>)
    decreases |names|
  {
    && vol.Valid()
    && (names != [] && vol.CanRead(vol.ClusterToLba(ref.first)) ==>
          && WellFormed(vol, ref)
          && Readable(vol, ref)
          && match FirstMatch(FileBytes(vol, ref), 0, ShortName(names[0]))
             case None => true
             case Some(entry) => Walkable(vol, entry.Ref(), names[1..]))
  }

  /** Folding "the first record with this name" over the names. */
  ghost function Resolve(vol: Volume, ref: FileRef, names: seq<seq<Byte>>): Resolved
    requires Walkable(vol, ref, names)
    decreases |names|
  {
    if !vol.CanRead(vol.ClusterToLba(ref.first)) then Failed(OPEN_FAILED)
    else if names == [] then Found(ref)
    else match FirstMatch(FileBytes(vol, ref), 0, ShortName(names[0]))
      case None => Failed(NOT_FOUND)
      case Some(entry) => Resolve(vol, entry.Ref(), names[1..])
  }

  lemma ResolveStep(vol: Volume, ref: FileRef, names: seq<seq<Byte>>)
    requires Walkable(vol, ref, names) && vol.CanRead(vol.ClusterToLba(ref.first))
    ensures names == [] ==> Resolve(vol, ref, names) == Found(ref)
    ensures names != [] ==>
              && WellFormed(vol, ref)
              && Readable(vol, ref)
              && match FirstMatch(FileBytes(vol, ref), 0, ShortName(names[0]))
                 case None => Resolve(vol, ref, names) == Failed(NOT_FOUND)
                 case Some(entry) => Walkable(vol, entry.Ref(), names[1..])
                                     && Resolve(vol, ref, names) == Resolve(vol, entry.Ref(), names[1..])
  {
  }

  lemma ResolveUnreadable(vol: Volume, ref: FileRef, names: seq<seq<Byte>>)
    requires Walkable(vol, ref, names) && !vol.CanRead(vol.ClusterToLba(ref.first))
    ensures Resolve(vol, ref, names) == Failed(OPEN_FAILED)
  {
  }

  lemma {:induction false} WalkablePrefix(vol: Volume, ref: FileRef, names: seq<seq<Byte>>, k: nat)
    requires Walkable(vol, ref, names) && k <= |names|
    ensures Walkable(vol, ref, names[..k])
    decreases k
  {
    hide FirstMatch, FileBytes, WellFormed, Readable, ShortName, DirEntry.Ref;
    if k > 0 && vol.CanRead(vol.ClusterToLba(ref.first)) {
      var found := FirstMatch(FileBytes(vol, ref), 0, ShortName(names[0]));
      if found != None {
        WalkablePrefix(vol, found.value.Ref(), names[1..], k - 1);
        assert names[..k][1..] == names[1..][..k - 1];
      }
    }
  }

  /** Where the first `k` of the names lead. */
  ghost function ResolvePrefix(vol: Volume, ref: FileRef, names: seq<seq<Byte>>, k: nat): Resolved
    requires Walkable(vol, ref, names) && k <= |names|
  {
    WalkablePrefix(vol, ref, names, k);
    Resolve(vol, ref, names[..k])
  }

  /** The first `k` names lead to a directory in which no record has the name number `k`. */
  ghost predicate Misses(vol: Volume, ref: FileRef, names: seq<seq<Byte>>, k: nat)
    requires Walkable(vol, ref, names) && k < |names|
  {
    match ResolvePrefix(vol, ref, names, k)
    case Found(dir) => WellFormed(vol, dir) && FirstMatch(FileBytes(vol, dir), 0, ShortName(names[k])) == None
    case Failed(_) => false
  }

  /** They lead to a directory in which the record with that name begins with a sector that cannot be read. */
  ghost predicate Blocks(vol: Volume, ref: FileRef, names: seq<seq<Byte>>, k: nat)
    requires Walkable(vol, ref, names) && k < |names|
  {
    match ResolvePrefix(vol, ref, names, k)
    case Found(dir) =>
      && WellFormed(vol, dir)
      && var found := FirstMatch(FileBytes(vol, dir), 0, ShortName(names[k]));
         found != None && !vol.CanRead(vol.ClusterToLba(found.value.Ref().first))
    case Failed(_) => false
  }

  /** At the start nothing has been looked up yet. */
  lemma NoPrefix(vol: Volume, ref: FileRef, names: seq<seq<Byte>>)
    requires Walkable(vol, ref, names)
    ensures ResolvePrefix(vol, ref, names, 0)
         == if vol.CanRead(vol.ClusterToLba(ref.first)) then Found(ref) else Failed(OPEN_FAILED)
  {
    assert names[..0] == [];
  }

  /** Behind the first component, the rest of the names is looked up from where it leads. */
  lemma PrefixStep(vol: Volume, ref: FileRef, names: seq<seq<Byte>>, k: nat)
    requires Walkable(vol, ref, names) && 0 < k <= |names| && vol.CanRead(vol.ClusterToLba(ref.first))
    ensures WellFormed(vol, ref)
    ensures match FirstMatch(FileBytes(vol, ref), 0, ShortName(names[0]))
            case None =>
              Resolve(vol, ref, names) == ResolvePrefix(vol, ref, names, k) == Failed(NOT_FOUND)
            case Some(entry) =>
              && Walkable(vol, entry.Ref(), names[1..])
              && Resolve(vol, ref, names) == Resolve(vol, entry.Ref(), names[1..])
              && ResolvePrefix(vol, ref, names, k) == ResolvePrefix(vol, entry.Ref(), names[1..], k - 1)
              && (k < |names| ==>
                    && Misses(vol, ref, names, k) == Misses(vol, entry.Ref(), names[1..], k - 1)
                    && Blocks(vol, ref, names, k) == Blocks(vol, entry.Ref(), names[1..], k - 1))
  {
    hide FirstMatch, FileBytes, WellFormed, Readable, ShortName, DirEntry.Ref;
    assert names[..k][1..] == names[1..][..k - 1] && names[..k][0] == names[0];
    WalkablePrefix(vol, ref, names, k);
    match FirstMatch(FileBytes(vol, ref), 0, ShortName(names[0]))
    case None =>
    case Some(entry) => WalkablePrefix(vol, entry.Ref(), names[1..], k - 1);
  }

  lemma {:induction false} MissingFails(vol: Volume, ref: FileRef, names: seq<seq<Byte>>, k: nat)
    requires Walkable(vol, ref, names) && k < |names|
    ensures Misses(vol, ref, names, k) ==> Resolve(vol, ref, names) == Failed(NOT_FOUND)
    ensures Blocks(vol, ref, names, k) ==> Resolve(vol, ref, names) == Failed(OPEN_FAILED)
    decreases k
  {
    hide FirstMatch, FileBytes, WellFormed, Readable, ShortName, DirEntry.Ref, ResolvePrefix, Resolve, Walkable;
    if !vol.CanRead(vol.ClusterToLba(ref.first)) {
      UnreadableStart(vol, ref, names, k);
    } else if k == 0 {
      NoPrefix(vol, ref, names);
      FirstFails(vol, ref, names);
    } else {
      PrefixStep(vol, ref, names, k);
      match FirstMatch(FileBytes(vol, ref), 0, ShortName(names[0]))
      case None =>
      case Some(entry) => MissingFails(vol, entry.Ref(), names[1..], k - 1);
    }
  }

  /** A lookup fails where it cannot begin, where it does not find the first component, or where it cannot open
      it. */
  lemma FirstFails(vol: Volume, ref: FileRef, names: seq<seq<Byte>>)
    requires Walkable(vol, ref, names) && names != [] && vol.CanRead(vol.ClusterToLba(ref.first))
    ensures WellFormed(vol, ref)
    ensures match FirstMatch(FileBytes(vol, ref), 0, ShortName(names[0]))
            case None => Resolve(vol, ref, names) == Failed(NOT_FOUND)
            case Some(entry) =>
              !vol.CanRead(vol.ClusterToLba(entry.Ref().first)) ==> Resolve(vol, ref, names) == Failed(OPEN_FAILED)
  {
    hide FirstMatch, FileBytes, WellFormed, Readable, ShortName, DirEntry.Ref;
  }

  lemma UnreadableStart(vol: Volume, ref: FileRef, names: seq<seq<Byte>>, k: nat)
    requires Walkable(vol, ref, names) && k < |names| && !vol.CanRead(vol.ClusterToLba(ref.first))
    ensures !Misses(vol, ref, names, k) && !Blocks(vol, ref, names, k)
    ensures Resolve(vol, ref, names) == Failed(OPEN_FAILED)
  {
    WalkablePrefix(vol, ref, names, k);
  }

  lemma {:induction false} FailsSomewhere(vol: Volume, ref: FileRef, names: seq<seq<Byte>>) returns (k: nat)
    requires Walkable(vol, ref, names) && Resolve(vol, ref, names).Failed?
    requires vol.CanRead(vol.ClusterToLba(ref.first))
    ensures k < |names|
    ensures || (Resolve(vol, ref, names) == Failed(NOT_FOUND) && Misses(vol, ref, names, k))
            || (Resolve(vol, ref, names) == Failed(OPEN_FAILED) && Blocks(vol, ref, names, k))
    decreases |names|
  {
    hide FirstMatch, FileBytes, WellFormed, Readable, ShortName, DirEntry.Ref, ResolvePrefix, Walkable;
    k := 0;
    ResolveStep(vol, ref, names);
    NoPrefix(vol, ref, names);
    FirstFails(vol, ref, names);
    match FirstMatch(FileBytes(vol, ref), 0, ShortName(names[0]))
    case None =>
    case Some(entry) =>
      if vol.CanRead(vol.ClusterToLba(entry.Ref().first)) {
        var j := FailsSomewhere(vol, entry.Ref(), names[1..]);
        k := j + 1;
        PrefixStep(vol, ref, names, k);
      }
  }

  /** The lookup gives 0x0532 exactly if some component is missing in the directory that those before it lead to,
      and 0x0512 exactly if the first sector of the root or of some component cannot be read. */
  lemma WhenLookupFails(vol: Volume, ref: FileRef, names: seq<seq<Byte>>)
    requires Walkable(vol, ref, names)
    ensures Resolve(vol, ref, names) == Failed(0x0532) <==> exists k | 0 <= k < |names| :: Misses(vol, ref, names, k)
    ensures Resolve(vol, ref, names) == Failed(0x0512) <==>
              || !vol.CanRead(vol.ClusterToLba(ref.first))
              || exists k | 0 <= k < |names| :: Blocks(vol, ref, names, k)
    ensures Resolve(vol, ref, names).Failed? ==> Resolve(vol, ref, names).code in {0x0512, 0x0532}
  {
    hide Misses, Blocks, Resolve, Walkable;
    forall k: nat | k < |names|
      ensures Misses(vol, ref, names, k) ==> Resolve(vol, ref, names) == Failed(NOT_FOUND)
      ensures Blocks(vol, ref, names, k) ==> Resolve(vol, ref, names) == Failed(OPEN_FAILED)
    {
      MissingFails(vol, ref, names, k);
    }
    if !vol.CanRead(vol.ClusterToLba(ref.first)) {
      ResolveUnreadable(vol, ref, names);
    } else if Resolve(vol, ref, names).Failed? {
      var k := FailsSomewhere(vol, ref, names);
    }
  }

  /** One more name leads from the directory reached so far to the first record in it with that name. */
  lemma {:induction false} ResolveAppends(vol: Volume, ref: FileRef, names: seq<seq<Byte>>, name: seq<Byte>)
    requires Walkable(vol, ref, names + [name])
    ensures Walkable(vol, ref, names)
    ensures match Resolve(vol, ref, names)
            case Failed(code) => Resolve(vol, ref, names + [name]) == Failed(code)
            case Found(dir) =>
              && WellFormed(vol, dir)
              && match FirstMatch(FileBytes(vol, dir), 0, ShortName(name))
                 case None => Resolve(vol, ref, names + [name]) == Failed(0x0532)
                 case Some(entry) =>
                   Resolve(vol, ref, names + [name])
                   == if vol.CanRead(vol.ClusterToLba(entry.Ref().first)) then Found(entry.Ref()) else Failed(0x0512)
    decreases |names|
  {
    hide FirstMatch, FileBytes, WellFormed, Readable, ShortName, DirEntry.Ref;
    var all := names + [name];
    assert all[..|names|] == names;
    WalkablePrefix(vol, ref, all, |names|);
    if vol.CanRead(vol.ClusterToLba(ref.first)) {
      if names == [] {
        assert all[1..] == [] && all[0] == name;
        ResolveStep(vol, ref, []);
        ResolveStep(vol, ref, all);
        match FirstMatch(FileBytes(vol, ref), 0, ShortName(name))
        case None =>
        case Some(entry) => assert Walkable(vol, entry.Ref(), []);
      } else {
        assert all[1..] == names[1..] + [name] && all[0] == names[0];
        match FirstMatch(FileBytes(vol, ref), 0, ShortName(names[0]))
        case None =>
        case Some(entry) => ResolveAppends(vol, entry.Ref(), names[1..], name);
      }
    }
  }

  /** The lookup that the error code 0x0531 was meant for: a component that is followed by a slash has to be
      a directory. */
  ghost function StrictResolve(vol: Volume, ref: FileRef, names: seq<seq<Byte>>, slash: bool): Resolved
    requires Walkable(vol, ref, names)
    decreases |names|
  {
    if !vol.CanRead(vol.ClusterToLba(ref.first)) then Failed(OPEN_FAILED)
    else if names == [] then Found(ref)
    else match FirstMatch(FileBytes(vol, ref), 0, ShortName(names[0]))
      case None => Failed(NOT_FOUND)
      case Some(entry) =>
        if (|names| > 1 || slash) && !entry.Ref().isDir then Failed(NOT_A_DIRECTORY)
        else StrictResolve(vol, entry.Ref(), names[1..], slash)
  }

  ghost predicate DirectoriesOnly(vol: Volume, ref: FileRef, names: seq<seq<Byte>>, slash: bool)
    requires Walkable(vol, ref, names)
    decreases |names|
  {
    names != [] && vol.CanRead(vol.ClusterToLba(ref.first)) ==>
      match FirstMatch(FileBytes(vol, ref), 0, ShortName(names[0]))
      case None => true
      case Some(entry) =>
        && (|names| > 1 || slash ==> entry.Ref().isDir)
        && DirectoriesOnly(vol, entry.Ref(), names[1..], slash)
  }

  /** The directory check of `fat32_open` is dead: the lookup never reports 0x0531, and gives the intended
      answer exactly when no component that is followed by a slash names a file. */
  lemma {:induction false} DirectoryCheckMissing(vol: Volume, ref: FileRef, names: seq<seq<Byte>>, slash: bool)
    requires Walkable(vol, ref, names)
    ensures Resolve(vol, ref, names) != Failed(NOT_A_DIRECTORY)
    ensures Resolve(vol, ref, names) == StrictResolve(vol, ref, names, slash)
       <==> DirectoriesOnly(vol, ref, names, slash)
    decreases |names|
  {
    if vol.CanRead(vol.ClusterToLba(ref.first)) && names != [] {
      match FirstMatch(FileBytes(vol, ref), 0, ShortName(names[0]))
      case None =>
      case Some(entry) => DirectoryCheckMissing(vol, entry.Ref(), names[1..], slash);
    }
  }

  // ----- path lookup, by the specification

  ghost predicate SpecWalkable(vol: Volume, ref: FileRef, names: seq<seq<Byte>>)
    decreases |names|
  {
    && vol.Valid()
    && (names != [] && vol.CanRead(vol.ClusterToLba(ref.first)) ==>
          && WellFormed(vol, ref)
          && match SpecMatch(FileBytes(vol, ref), 0, ShortName(names[0]))
             case None => true
             case Some(entry) => SpecWalkable(vol, entry.Ref(), names[1..]))
  }

  /** Folding the lookup of the FAT32 specification over the names. */
  ghost function SpecResolve(vol: Volume, ref: FileRef, names: seq<seq<Byte>>): Resolved
    requires SpecWalkable(vol, ref, names)
    decreases |names|
  {
    if !vol.CanRead(vol.ClusterToLba(ref.first)) then Failed(OPEN_FAILED)
    else if names == [] then Found(ref)
    else match SpecMatch(FileBytes(vol, ref), 0, ShortName(names[0]))
      case None => Failed(NOT_FOUND)
      case Some(entry) => SpecResolve(vol, entry.Ref(), names[1..])
  }

  /** In every directory that is scanned, the first record with the name is live. */
  ghost predicate LiveOnly(vol: Volume, ref: FileRef, names: seq<seq<Byte>>)
    requires Walkable(vol, ref, names)
    decreases |names|
  {
    names != [] && vol.CanRead(vol.ClusterToLba(ref.first)) ==>
      && FirstIsLive(FileBytes(vol, ref), 0, ShortName(names[0]))
      && match FirstMatch(FileBytes(vol, ref), 0, ShortName(names[0]))
         case None => true
         case Some(entry) => LiveOnly(vol, entry.Ref(), names[1..])
  }

  /** The records that the lookup finds on its way, and a last `None` where it finds none. */
  ghost function Trail(vol: Volume, ref: FileRef, names: seq<seq<Byte>>): seq<Option<DirEntry>>
    requires Walkable(vol, ref, names)
    decreases |names|
  {
    if names == [] || !vol.CanRead(vol.ClusterToLba(ref.first)) then []
    else
      var found := FirstMatch(FileBytes(vol, ref), 0, ShortName(names[0]));
      [found] + if found == None then [] else Trail(vol, found.value.Ref(), names[1..])
  }

  ghost function SpecTrail(vol: Volume, ref: FileRef, names: seq<seq<Byte>>): seq<Option<DirEntry>>
    requires SpecWalkable(vol, ref, names)
    decreases |names|
  {
    if names == [] || !vol.CanRead(vol.ClusterToLba(ref.first)) then []
    else
      var found := SpecMatch(FileBytes(vol, ref), 0, ShortName(names[0]));
      [found] + if found == None then [] else SpecTrail(vol, found.value.Ref(), names[1..])
  }

  /** A path along which only live records are found leads where the specification says. */
  lemma {:induction false} PathMeetsSpecification(vol: Volume, ref: FileRef, names: seq<seq<Byte>>)
    requires Walkable(vol, ref, names) && LiveOnly(vol, ref, names)
    ensures SpecWalkable(vol, ref, names) && SpecResolve(vol, ref, names) == Resolve(vol, ref, names)
    decreases |names|
  {
    hide FirstMatch, SpecMatch, FirstIsLive, ShortName, FileBytes, WellFormed, Readable, DirEntry.Ref;
    if names != [] && vol.CanRead(vol.ClusterToLba(ref.first)) {
      var found := FirstMatch(FileBytes(vol, ref), 0, ShortName(names[0]));
      ScanMeetsSpecification(FileBytes(vol, ref), 0, ShortName(names[0]));
      if found != None {
        PathMeetsSpecification(vol, found.value.Ref(), names[1..]);
      }
    }
  }

  /** On the way it finds the very records that the specification finds only then. */
  lemma {:induction false} TrailMeetsSpecification(vol: Volume, ref: FileRef, names: seq<seq<Byte>>)
    requires Walkable(vol, ref, names) && SpecWalkable(vol, ref, names)
    ensures Trail(vol, ref, names) == SpecTrail(vol, ref, names) <==> LiveOnly(vol, ref, names)
    decreases |names|
  {
    hide FirstMatch, SpecMatch, FirstIsLive, ShortName, FileBytes, WellFormed, Readable, DirEntry.Ref;
    if names != [] && vol.CanRead(vol.ClusterToLba(ref.first)) {
      var bytes, short := FileBytes(vol, ref), ShortName(names[0]);
      var found, meant := FirstMatch(bytes, 0, short), SpecMatch(bytes, 0, short);
      ScanMeetsSpecification(bytes, 0, short);
      assert Trail(vol, ref, names)[0] == found && SpecTrail(vol, ref, names)[0] == meant;
      if found == meant && found != None {
        TrailMeetsSpecification(vol, found.value.Ref(), names[1..]);
        assert Trail(vol, ref, names)[1..] == Trail(vol, found.value.Ref(), names[1..]);
        assert SpecTrail(vol, ref, names)[1..] == SpecTrail(vol, found.value.Ref(), names[1..]);
      }
    }
  }

  /** Every component fits the buffer that it is copied to, with the NUL one place behind its end. */
  ghost predicate NamesFit(path: seq<Byte>) {
    forall name | name in Components(path) :: |name| + 1 < MAX_PATH
  }

  /** Names of up to 254 bytes. */
  lemma FittingPath(path: seq<Byte>)
    ensures NamesFit(path) <==> forall name | name in Components(path) :: |name| < 255
  {
  }

  lemma NextNameFits(path: seq<Byte>)
    requires path != [] && NamesFit(path)
    ensures IndexOf(path, SLASH) + 1 < MAX_PATH
    ensures NamesFit(if IndexOf(path, SLASH) < |path| then path[IndexOf(path, SLASH) + 1..] else [])
  {
    hide Components, IndexOf;
    NextComponent(path);
    NoComponent();
    var names := Components(path);
    assert names[0] in names;
    assert forall name | name in names[1..] :: name in names;
  }

  /** `memcpy` of a component into the name buffer, and its end mark. */
  method CopyName(name: array<Byte>, s: seq<Byte>)
    requires |s| + 1 < name.Length
    modifies name
    ensures name[..|s|] == s && name[|s|] == 0
  {
    for i := 0 to |s|
      invariant name[..i] == s[..i]
    {
      name[i] := s[i];
      assert name[..i + 1] == name[..i] + [s[i]];
    }
    name[|s|] := 0;
    assert s[..|s|] == s;
  }

  /** The next component of a path is copied to the name buffer and taken off. */
  method TakeName(path: seq<Byte>, name: array<Byte>) returns (component: seq<Byte>, rest: seq<Byte>)
    requires path != [] && NamesFit(path) && name.Length == MAX_PATH
    modifies name
    ensures Components(path) != [] && Components(path)[0] == component && Components(path)[1..] == Components(rest)
    ensures |component| + 1 < MAX_PATH && name[..|component|] == component && name[|component|] == 0
    ensures |rest| < |path| && NamesFit(rest)
  {
    hide IndexOf, Components, NamesFit;
    var delim := StrChr(path, SLASH);
    NextNameFits(path);
    NextComponent(path);
    CopyName(name, path[..delim]);
    component := name[..delim];
    rest := if delim < |path| then path[delim + 1..] else [];
  }

  // ----- slots of the table

  /** The lowest slot that is not open, or the size of the table. */
  function FirstFree(table: seq<FileState>): (i: nat)
    ensures i <= |table| && LowerOpen(table, i) && (i < |table| ==> !table[i].isOpen)
  {
    if table == [] || !table[0].isOpen then 0
    else
      var i := 1 + FirstFree(table[1..]);
      assert forall j | 1 <= j < i :: table[j] == table[1..][j - 1];
      i
  }

  predicate LowerOpen(table: seq<FileState>, i: nat) {
    i <= |table| && forall j | 0 <= j < i :: table[j].isOpen
  }

  lemma {:induction false} FirstFreeIs(table: seq<FileState>, i: nat)
    requires LowerOpen(table, i) && (i < |table| ==> !table[i].isOpen)
    ensures FirstFree(table) == i
  {
    if i > 0 {
      FirstFreeIs(table[1..], i - 1);
    }
  }

  /** The tables agree on every slot other than `h`. */
  predicate SameBut(a: seq<FileState>, b: seq<FileState>, h: nat) {
    |a| == |b| && forall i | 0 <= i < |a| && i != h :: a[i] == b[i]
  }

  lemma SameButSelf(a: seq<FileState>, h: nat)
    ensures SameBut(a, a, h)
  {
  }

  lemma SameButOne(a: seq<FileState>, h: nat, s: FileState)
    requires h < |a|
    ensures SameBut(a, a[h := s], h)
  {
  }

  lemma SameButTwice(a: seq<FileState>, b: seq<FileState>, c: seq<FileState>, h: nat)
    requires SameBut(a, b, h) && SameBut(b, c, h)
    ensures SameBut(a, c, h)
  {
  }

  lemma LowerStillOpen(a: seq<FileState>, b: seq<FileState>, h: nat)
    requires SameBut(a, b, h) && LowerOpen(a, h)
    ensures LowerOpen(b, h) && (h < |b| && !b[h].isOpen ==> FirstFree(b) == h)
  {
    if h < |b| && !b[h].isOpen {
      FirstFreeIs(b, h);
    }
  }

  function OpenSlots(table: seq<FileState>): set<nat> {
    set i: nat | i < |table| && table[i].isOpen
  }

  /** Handles are conserved by a change of the one slot that was free. */
  lemma HandlesConserved(a: seq<FileState>, b: seq<FileState>, h: nat)
    requires SameBut(a, b, h) && (h < |a| ==> !a[h].isOpen)
    ensures OpenSlots(b) == OpenSlots(a) + if h < |b| && b[h].isOpen then {h} else {}
    ensures |OpenSlots(b)| == |OpenSlots(a)| + if h < |b| && b[h].isOpen then 1 else 0
  {
    assert h !in OpenSlots(a);
  }

  /** Scans an open directory from its start for the first record with the 8.3 form of the name. */
  method Scan(vol: Volume, ghost bytes: seq<Byte>, fd: FileData, name: seq<Byte>) returns (found: Option<DirEntry>)
    requires fd.Holds(vol, bytes) && fd.position == 0
    modifies fd, fd.buffer
    ensures found == FirstMatch(bytes, 0, ShortName(name))
  {
    hide FirstMatch, ParseEntry, ShortName, Delivered, FileData.Holds;
    var fatName := EncodeName(name);
    var entry := new Byte[ENTRY_SIZE];
    ghost var short, k := ShortName(name), 0;
    while true
      invariant fatName[..11] == short
      invariant fd.Holds(vol, bytes) && fd.position == ENTRY_SIZE * k <= |bytes|
      invariant FirstMatch(bytes, k, short) == FirstMatch(bytes, 0, short)
      decreases |bytes| - fd.position
    {
      ghost var initial := entry[..];
      var n := fd.ReadSound(vol, bytes, ENTRY_SIZE, entry);
      ScanStep(bytes, k, short, entry[..], initial, n);
      if n != ENTRY_SIZE {
        return None;
      }
      if fatName[..11] == entry[..11] {
        return Some(ParseEntry(entry[..]));
      }
      k := k + 1;
    }
  }

  // ----- initialisation

  function BootFat(sectors: seq<seq<Byte>>, lba: nat, count: nat): (fat: seq<Byte>)
    requires forall i | 0 <= i < |sectors| :: |sectors[i]| == SECTOR_SIZE
    ensures |fat| == count * SECTOR_SIZE
  {
    if count == 0 then []
    else BootFat(sectors, lba, count - 1)
         + if lba + count <= |sectors| then sectors[lba + count - 1] else seq(SECTOR_SIZE, _ => 0)
  }

  /** The cached FAT is the run of sectors, one behind the other. */
  lemma {:induction false} BootFatSector(sectors: seq<seq<Byte>>, lba: nat, count: nat, i: nat)
    requires forall j | 0 <= j < |sectors| :: |sectors[j]| == SECTOR_SIZE
    requires i < count && lba + count <= |sectors|
    ensures BootFat(sectors, lba, count)[SECTOR_SIZE * i..SECTOR_SIZE * (i + 1)] == sectors[lba + i]
  {
    var before, last := BootFat(sectors, lba, count - 1), sectors[lba + count - 1];
    assert BootFat(sectors, lba, count) == before + last;
    if i < count - 1 {
      BootFatSector(sectors, lba, count - 1, i);
      WithinPrefix(before, last, SECTOR_SIZE * i, SECTOR_SIZE * (i + 1));
    } else {
      AfterPrefix(before, last, 0, SECTOR_SIZE);
      assert last[0..SECTOR_SIZE] == last;
    }
  }

  /** One of the attempts to read the sectors, all at once, succeeds. */
  predicate CanReadRun(sectors: seq<seq<Byte>>, faults: map<nat, nat>, lba: nat, count: nat) {
    lba + count <= |sectors| && forall i | lba <= i < lba + count :: i in faults ==> faults[i] < ATTEMPTS
  }

  /** A run of sectors is read exactly if each of them can be. */
  lemma RunIsEach(vol: Volume, lba: nat, count: nat)
    requires count > 0 && lba + count <= TWO32
    ensures CanReadRun(vol.sectors, vol.faults, lba, count) <==>
              forall i: Word | lba <= i < lba + count :: vol.CanRead(i)
  {
    if forall i: Word | lba <= i < lba + count :: vol.CanRead(i) {
      assert vol.CanRead(lba + count - 1);
      forall i: int | lba <= i < lba + count
        ensures i in vol.faults ==> vol.faults[i] < ATTEMPTS
      {
        assert vol.CanRead(i);
      }
    }
  }

  // The fields of the boot sector that the loader uses.
  datatype BootSector = BootSector(bytesPerSector: Half, sectorsPerCluster: Byte, reservedSectors: Half,
                                   fatCount: Byte, sectorsPerFat: Word, rootDirCluster: Word)

  function ParseBootSector(s: seq<Byte>): BootSector
    requires |s| == SECTOR_SIZE
  {
    BootSector(Le16(s, 11), s[13], Le16(s, 14), s[16], Le32(s, 36), Le32(s, 44))
  }

  /** The places of the fields. */
  lemma BootRoundTrip(s: seq<Byte>, boot: BootSector)
    requires |s| == SECTOR_SIZE
    ensures ParseBootSector(s) == boot <==>
              && s[11..13] == Bytes16(boot.bytesPerSector)
              && s[13] == boot.sectorsPerCluster
              && s[14..16] == Bytes16(boot.reservedSectors)
              && s[16] == boot.fatCount
              && s[36..40] == Bytes32(boot.sectorsPerFat)
              && s[44..48] == Bytes32(boot.rootDirCluster)
  {
    hide Bytes16, Bytes32, Le16, Le32;
    Le16Reads(s, 11, boot.bytesPerSector);
    Le16Reads(s, 14, boot.reservedSectors);
    Le32Reads(s, 36, boot.sectorsPerFat);
    Le32Reads(s, 44, boot.rootDirCluster);
  }

  /** Mounting a disk succeeds, and this is what it makes of it. */
  ghost predicate MountsAs(sectors: seq<seq<Byte>>, faults: map<nat, nat>, vol: Volume, root: FileRef)
    requires forall i | 0 <= i < |sectors| :: |sectors[i]| == SECTOR_SIZE
  {
    && CanReadRun(sectors, faults, 0, 1)
    && var boot := ParseBootSector(sectors[0]);
       && boot.bytesPerSector < 914
       && CanReadRun(sectors, faults, boot.reservedSectors, FAT_READ_SECTORS)
       && root == FileRef(boot.rootDirCluster, true, 0)
       && vol == Volume(sectors, faults, BootFat(sectors, boot.reservedSectors, FAT_READ_SECTORS),
                        boot.sectorsPerCluster, Wrap(boot.reservedSectors + boot.sectorsPerFat * boot.fatCount))
  }

  class FileSystem {
    var vol: Volume
    var root: FileRef
    const files: seq<FileData>

    constructor ()
      ensures |files| == 12 && fresh(files) && fresh(Buffers()) && SlotsOk()
    {
      var slots: seq<FileData> := [];
      for i := 0 to MAX_FILE_HANDLES
        invariant |slots| == i && fresh(slots)
        invariant forall j | 0 <= j < i :: fresh(slots[j].buffer) && slots[j].buffer.Length == SECTOR_SIZE
        invariant forall j, k | 0 <= j < k < i :: slots[j] != slots[k] && slots[j].buffer != slots[k].buffer
      {
        var slot := new FileData();
        slots := slots + [slot];
      }
      files := slots;
      vol, root := Volume([], map[], [], 1, 0), FileRef(0, true, 0);
    }

    ghost function Buffers(): set<array<Byte>> {
      set f | f in files :: f.buffer
    }

    ghost predicate SlotsOk() {
      && |files| == MAX_FILE_HANDLES
      && (forall i | 0 <= i < |files| :: files[i].buffer.Length == SECTOR_SIZE)
      && (forall i, j | 0 <= i < j < |files| :: files[i] != files[j] && files[i].buffer != files[j].buffer)
    }

    ghost predicate Valid()
      reads this
    {
      SlotsOk() && vol.Valid()
    }

    ghost function Table(): (table: seq<FileState>)
      requires SlotsOk()
      reads files, Buffers()
      ensures |table| == MAX_FILE_HANDLES && forall i | 0 <= i < |table| :: table[i] == files[i].State()
    {
      seq(MAX_FILE_HANDLES, i requires 0 <= i < |files| reads files, Buffers() => files[i].State())
    }

    /** Mounts the partition: the boot sector and the first 64 sectors of the FAT are read. A boot sector that
        was read has replaced the old one, even where mounting then fails. */
    method Init(sectors: seq<seq<Byte>>, faults: map<nat, nat>) returns (code: int)
      requires SlotsOk() && forall i | 0 <= i < |sectors| :: |sectors[i]| == SECTOR_SIZE
      modifies this, files
      ensures code == 0x0501 <==> !CanReadRun(sectors, faults, 0, 1)
      ensures code != 0x0501 ==>
                var boot := ParseBootSector(sectors[0]);
                && (code == 0x0502 <==> boot.bytesPerSector >= 914)
                && (code != 0x0502 ==>
                      (code == 0x0503 <==>
                       !CanReadRun(sectors, faults, boot.reservedSectors, FAT_READ_SECTORS)))
                && vol.sectorsPerCluster == boot.sectorsPerCluster
      ensures code in {0, 0x0501, 0x0502, 0x0503}
      ensures code != 0 ==> vol.dataLba == old(vol).dataLba && root == old(root) && unchanged(files)
      ensures code == 0x0502 ==> vol.fat == old(vol).fat
      ensures code == 0 ==>
                && MountsAs(sectors, faults, vol, root)
                && (vol.sectorsPerCluster > 0 ==> Valid())
                && OpenSlots(Table()) == {}
    {
      hide BootFat, Wrap;
      if !CanReadRun(sectors, faults, 0, 1) {
        return BOOT_UNREADABLE;
      }
      var boot := ParseBootSector(sectors[0]);
      vol := vol.(sectorsPerCluster := boot.sectorsPerCluster);
      if FAT_DATA_SIZE + boot.bytesPerSector as int * FAT_READ_SECTORS >= MEMORY_FAT_SIZE {
        return FAT_TOO_LARGE;
      }
      if !CanReadRun(sectors, faults, boot.reservedSectors, FAT_READ_SECTORS) {
        return FAT_UNREADABLE;
      }

      var low, high := boot.rootDirCluster % 0x1_0000, boot.rootDirCluster / 0x1_0000;
      var entry := DirEntry(seq(11, _ => 0), 0x10, high, low, 0);
      root := entry.Ref();
      vol := Volume(sectors, faults, BootFat(sectors, boot.reservedSectors, FAT_READ_SECTORS), boot.sectorsPerCluster,
                    Wrap(boot.reservedSectors + boot.sectorsPerFat * boot.fatCount));
      for i := 0 to MAX_FILE_HANDLES
        invariant forall j | 0 <= j < i :: !files[j].isOpen
        modifies files
      {
        files[i].isOpen := false;
      }
      code := 0;
    }

    method FindFreeSlot() returns (h: nat)
      requires SlotsOk()
      ensures h == FirstFree(Table())
    {
      h := 0;
      while h < MAX_FILE_HANDLES && files[h].isOpen
        invariant h <= MAX_FILE_HANDLES && LowerOpen(Table(), h)
      {
        h := h + 1;
      }
      FirstFreeIs(Table(), h);
    }

    /** Opens a file in the lowest free slot. If its first sector cannot be read the slot stays closed. */
    method OpenEntry(ref: FileRef) returns (code: int, h: nat)
      requires Valid()
      modifies files, Buffers()
      ensures h == FirstFree(old(Table())) && SameBut(old(Table()), Table(), h)
      ensures code == NO_HANDLE <==> h == MAX_FILE_HANDLES
      ensures code != NO_HANDLE ==> code == if vol.CanRead(vol.ClusterToLba(ref.first)) then 0 else OPEN_FAILED
      ensures code != NO_HANDLE ==>
                if code == 0 then Table()[h] == OpenedState(vol, ref) else !Table()[h].isOpen
    {
      h := FindFreeSlot();
      if h == MAX_FILE_HANDLES {
        return NO_HANDLE, h;
      }
      var ok := files[h].Start(vol, ref);
      code := if ok then 0 else OPEN_FAILED;
    }

    method Close(h: nat)
      requires SlotsOk() && h < |files|
      modifies files[h]
      ensures Table() == old(Table())[h := old(Table())[h].(isOpen := false)]
    {
      files[h].isOpen := false;
    }

    /** `fat32_find_file` on slot `h`: only that slot changes. */
    method FindFile(h: nat, ghost bytes: seq<Byte>, name: seq<Byte>) returns (found: Option<DirEntry>)
      requires Valid() && h < |files| && files[h].Holds(vol, bytes) && files[h].position == 0
      modifies files[h], files[h].buffer
      ensures found == FirstMatch(bytes, 0, ShortName(name))
      ensures SameBut(old(Table()), Table(), h)
    {
      hide FileData.Holds, FirstMatch, ShortName;
      found := Scan(vol, bytes, files[h], name);
    }

    /** One round of the path walk: the directory open in slot `h` is searched for the name and closed, and
        what was found is opened. The slot given back is the lowest free one, so it is taken again. */
    method Descend(h: nat, name: seq<Byte>, ghost ref: FileRef) returns (code: int, h': nat, ghost ref': FileRef)
      requires Valid() && WellFormed(vol, ref) && Readable(vol, ref)
      requires h < |files| && LowerOpen(Table(), h) && Table()[h] == OpenedState(vol, ref)
      modifies files, Buffers()
      ensures h' == h && SameBut(old(Table()), Table(), h)
      ensures match FirstMatch(FileBytes(vol, ref), 0, ShortName(name))
              case None => code == NOT_FOUND
              case Some(entry) =>
                && ref' == entry.Ref()
                && code == (if vol.CanRead(vol.ClusterToLba(ref'.first)) then 0 else OPEN_FAILED)
      ensures if code == 0 then Table()[h] == OpenedState(vol, ref') else !Table()[h].isOpen
    {
      hide FirstMatch, ShortName, WellFormed, Readable, FileBytes, CursorOk, FirstFree, LowerOpen, SameBut,
        DirEntry.Ref, Volume.Valid, Volume.CanRead, Volume.ClusterToLba, Volume.SectorAt;
      OpenedCursorOk(vol, ref);
      ghost var before := Table();
      var found := FindFile(h, FileBytes(vol, ref), name);
      ghost var scanned := Table();
      Close(h);
      ghost var closed := Table();
      SameButOne(scanned, h, scanned[h].(isOpen := false));
      SameButTwice(before, scanned, closed, h);
      if found == None {
        return NOT_FOUND, h, ref;
      }
      // Here the original tests `attributes & DIRECTORY == 0`, that is, `attributes & 0`: never true.
      LowerStillOpen(before, closed, h);
      ref' := found.value.Ref();
      code, h' := OpenEntry(found.value.Ref());
      SameButTwice(before, closed, Table(), h);
    }

    /** The rest of a path, walked from the directory open in slot `h`. */
    method Walk(h: nat, ghost ref: FileRef, path: seq<Byte>) returns (code: int)
      requires Valid() && Walkable(vol, ref, Components(path)) && vol.CanRead(vol.ClusterToLba(ref.first))
      requires NamesFit(path)
      requires h < |files| && LowerOpen(Table(), h) && Table()[h] == OpenedState(vol, ref)
      modifies files, Buffers()
      ensures SameBut(old(Table()), Table(), h)
      ensures match Resolve(vol, ref, Components(path))
              case Found(r) => code == 0 && Table()[h] == OpenedState(vol, r)
              case Failed(c) => code == c && c in {OPEN_FAILED, NOT_FOUND} && !Table()[h].isOpen
    {
      hide Resolve, Walkable, FirstMatch, ShortName, Components, WellFormed, Readable, FileBytes, LowerOpen, SameBut,
        FirstFree, IndexOf, NamesFit, DirEntry.Ref, Volume.Valid, Volume.CanRead, Volume.ClusterToLba, Volume.SectorAt;
      var name := new Byte[MAX_PATH];
      var rest := path;
      ghost var table, at, answer := Table(), ref, Resolve(vol, ref, Components(path));
      SameButSelf(table, h);
      ghost var slot := h;
      var h := h;
      while rest != []
        invariant h == slot
        invariant SameBut(table, Table(), h) && LowerOpen(Table(), h) && Table()[h] == OpenedState(vol, at)
        invariant Walkable(vol, at, Components(rest)) && vol.CanRead(vol.ClusterToLba(at.first))
        invariant Resolve(vol, at, Components(rest)) == answer && NamesFit(rest)
        decreases |rest|
      {
        ghost var more, before := Components(rest), Table();
        ResolveStep(vol, at, more);
        var component;
        component, rest := TakeName(rest, name);
        assert Table() == before;

        code, h, at := Descend(h, component, at);
        SameButTwice(table, before, Table(), h);
        LowerStillOpen(before, Table(), h);
        if code != 0 {
          if code == OPEN_FAILED {
            ResolveUnreadable(vol, at, Components(rest));
          }
          return;
        }
      }
      NoComponent();
      ResolveStep(vol, at, []);
      code := 0;
    }

    /** Opens the file a path leads to. The walk lives in the one slot that was the lowest free one. */
    method Open(path: seq<Byte>) returns (code: int, h: nat)
      requires Valid() && Walkable(vol, root, Components(WithoutRoot(path))) && NamesFit(WithoutRoot(path))
      modifies files, Buffers()
      ensures h == FirstFree(old(Table())) && SameBut(old(Table()), Table(), h)
      ensures code == 0x0511 <==> h == 12
      ensures code != 0x0511 ==>
                match Resolve(vol, root, Components(WithoutRoot(path)))
                case Found(ref) => code == 0 && Table()[h] == OpenedState(vol, ref)
                case Failed(c) => code == c && c in {0x0512, 0x0532} && !Table()[h].isOpen
      ensures OpenSlots(Table()) == OpenSlots(old(Table())) + if code == 0 then {h} else {}
    {
      hide Resolve, Walkable, Components, NamesFit, LowerOpen, SameBut, FirstFree, OpenSlots, Volume.Valid,
        Volume.CanRead, Volume.ClusterToLba, Volume.SectorAt;
      ghost var table := Table();
      code, h := OpenEntry(root);
      ghost var rooted := Table();
      if code == 0 {
        LowerStillOpen(table, rooted, h);
        code := Walk(h, root, WithoutRoot(path));
        SameButTwice(table, rooted, Table(), h);
      } else if code == OPEN_FAILED {
        ResolveUnreadable(vol, root, Components(WithoutRoot(path)));
      }
      HandlesConserved(table, Table(), h);
    }

    /** However the path spells the names, with a slash in front or without, it leads where they lead. */
    method OpenSpelled(path: seq<Byte>, ghost names: seq<seq<Byte>>) returns (code: int, h: nat)
      requires Valid() && Spells(path, names)
      requires Walkable(vol, root, names) && forall name | name in names :: |name| < 255
      modifies files, Buffers()
      ensures h == FirstFree(old(Table())) && SameBut(old(Table()), Table(), h)
      ensures code == 0x0511 <==> h == 12
      ensures code != 0x0511 ==>
                match Resolve(vol, root, names)
                case Found(ref) => code == 0 && Table()[h] == OpenedState(vol, ref)
                case Failed(c) => code == c && c in {0x0512, 0x0532} && !Table()[h].isOpen
    {
      hide Resolve, Walkable, Components, WithoutRoot, LowerOpen, SameBut, FirstFree, OpenSlots, Spells, OpenedState;
      SpelledComponents(path, names);
      code, h := Open(path);
    }
  }
}
