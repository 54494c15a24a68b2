/** A disk that the loader mounts, on which three of its flaws show: a file whose contents look like a directory
    is walked like one, a volume label is opened like a file, and a file whose chain has a reserved bit set is
    cut short. */
module Fat32Examples {
  import opened Words
  import opened Fat32Volume
  import opened Fat32Names
  import opened Fat32File
  import opened Fat32

  const LETTER_A: Byte := 0x41
  const LETTER_B: Byte := 0x42
  const LETTER_C: Byte := 0x43

  /** 512 bytes per sector and one sector per cluster; three reserved sectors, four FATs of 16 sectors, and the root
      in cluster 2. */
  function BootRecord(): (s: seq<Byte>)
    ensures |s| == SECTOR_SIZE
  {
    seq(SECTOR_SIZE, i =>
      if i == 12 || i == 44 then 2 else if i == 13 then 1 else if i == 14 then 3 else if i == 16 then 4
      else if i == 36 then 16 else 0)
  }

  /** Clusters 2 and 3 are chains of their own; 4 and 5 are one chain, with a reserved bit set in its link. */
  function FatSector(): (s: seq<Byte>)
    ensures |s| == SECTOR_SIZE
  {
    seq(SECTOR_SIZE, i =>
      if 8 <= i < 16 || 20 <= i < 24 then if i % 4 == 3 then 0x0F else 0xFF
      else if i == 16 then 5 else if i == 19 then 0x10 else 0)
  }

  /** A sector that begins with the record of a one-letter file: no attributes, cluster 3, 512 bytes. */
  function RecordSector(letter: Byte): (s: seq<Byte>)
    ensures |s| == SECTOR_SIZE
  {
    seq(SECTOR_SIZE, i =>
      if i == 0 then letter else if i < 11 then SPACE else if i == 26 then 3 else if i == 29 then 2 else 0)
  }

  function LabelRecord(): (s: seq<Byte>)
    ensures |s| == ENTRY_SIZE
  {
    seq(ENTRY_SIZE, i => if i == 0 then LETTER_B else if i < 11 then SPACE else if i == 11 then 8 else 0)
  }

  /** The record of the file A, and behind it one of a volume label B, with no cluster and no size. */
  function RootSector(): (s: seq<Byte>)
    ensures |s| == SECTOR_SIZE
  {
    RecordSector(LETTER_A)[..ENTRY_SIZE] + LabelRecord() + seq(SECTOR_SIZE - 2 * ENTRY_SIZE, _ => 0)
  }

  function ExampleSector(i: nat): (s: seq<Byte>)
    ensures |s| == SECTOR_SIZE
  {
    if i == 0 then BootRecord() else if i == 3 then FatSector()
    else if i == 67 then RootSector() else if i == 68 then RecordSector(LETTER_B)
    else seq(SECTOR_SIZE, _ => 0)
  }

  /** The root directory, in cluster 2, holds the file A, in cluster 3, and a label. The file holds a record of B. */
  function ExampleDisk(): (sectors: seq<seq<Byte>>)
    ensures |sectors| == 71 && forall i | 0 <= i < |sectors| :: |sectors[i]| == SECTOR_SIZE
    ensures forall i | 0 <= i < |sectors| :: sectors[i] == ExampleSector(i)
  {
    seq(71, i requires 0 <= i < 71 => ExampleSector(i))
  }

  function ExampleVolume(): (vol: Volume)
    ensures vol.Valid()
  {
    Volume(ExampleDisk(), map[], BootFat(ExampleDisk(), 3, FAT_READ_SECTORS), 1, 67)
  }

  const ROOT := FileRef(2, true, 0)
  const FILE_A := FileRef(3, false, SECTOR_SIZE)
  const LABEL := FileRef(0, false, 0)
  const CUT_FILE := FileRef(4, false, 2 * SECTOR_SIZE)

  lemma ExampleBoot()
    ensures ParseBootSector(ExampleDisk()[0]) == BootSector(512, 1, 3, 4, 16, 2)
  {
    var s := BootRecord();
    assert s[11] == 0 && s[12] == 2 && s[13] == 1 && s[14] == 3 && s[15] == 0 && s[16] == 4;
    assert s[36] == 16 && s[37] == 0 && s[38] == 0 && s[39] == 0;
    assert s[44] == 2 && s[45] == 0 && s[46] == 0 && s[47] == 0;
  }

  /** Mounting this disk succeeds, and gives nothing but this volume. */
  lemma ExampleMounts(vol: Volume, root: FileRef)
    ensures MountsAs(ExampleDisk(), map[], vol, root) <==> vol == ExampleVolume() && root == ROOT
  {
    hide ParseBootSector, BootFat, ExampleDisk;
    ExampleBoot();
  }

  lemma ExampleFat()
    ensures var fat := ExampleVolume().fat;
            && |fat| == SECTOR_SIZE * FAT_READ_SECTORS
            && NextCluster(fat, 2) == 0x0FFF_FFFF && NextCluster(fat, 3) == 0x0FFF_FFFF
            && NextCluster(fat, 4) == 0x1000_0005 && NextCluster(fat, 5) == 0x0FFF_FFFF
  {
    hide BootFat, ExampleDisk, FatSector;
    var fat, s := ExampleVolume().fat, FatSector();
    BootFatSector(ExampleDisk(), 3, FAT_READ_SECTORS, 0);
    assert forall i | 0 <= i < SECTOR_SIZE :: fat[i] == fat[SECTOR_SIZE * 0..SECTOR_SIZE * 1][i] == s[i];
    FatEntries();
  }

  lemma FatEntries()
    ensures var s := FatSector();
            && NextCluster(s, 2) == 0x0FFF_FFFF && NextCluster(s, 3) == 0x0FFF_FFFF
            && NextCluster(s, 4) == 0x1000_0005 && NextCluster(s, 5) == 0x0FFF_FFFF
  {
  }

  lemma OneSectorFile(ref: FileRef)
    requires ref == ROOT || ref == FILE_A || ref == CUT_FILE
    ensures IsChain(ExampleVolume().fat, ref.first, [ref.first])
    ensures WellFormed(ExampleVolume(), ref) && Readable(ExampleVolume(), ref)
    ensures FileBytes(ExampleVolume(), ref) == ExampleDisk()[65 + ref.first]
  {
    hide BootFat, ExampleDisk, ExampleSector, NextCluster, IsChain, ChainBytes;
    var vol, c := ExampleVolume(), ref.first;
    SingleCluster(c);
    ChainIsUnique(vol.fat, c, [c], ChainOf(vol.fat, c));
    OneSectorChain(vol, c);
    WrapSmall(65 + c);
    assert vol.SectorLba(c, 0) == 65 + c;
  }

  lemma SingleCluster(c: Word)
    requires 2 <= c <= 4
    ensures IsChain(ExampleVolume().fat, c, [c])
  {
    hide BootFat, ExampleDisk, NextCluster;
    ExampleFat();
  }

  lemma OneSectorChain(vol: Volume, c: Word)
    requires vol.Valid() && vol.sectorsPerCluster == 1
    ensures ChainBytes(vol, [c]) == vol.SectorAt(vol.SectorLba(c, 0))
  {
    hide Volume.SectorLba, Volume.SectorAt, Volume.Valid;
    assert [c][..0] == [];
    assert ChainBytes(vol, []) == [] && ClusterBytes(vol, c, 0) == [];
    assert ClusterBytes(vol, c, 1) == ClusterBytes(vol, c, 0) + vol.SectorAt(vol.SectorLba(c, 0));
  }

  lemma OneLetterName(letter: Byte)
    requires letter == LETTER_A || letter == LETTER_B
    ensures ShortName([letter]) == [letter] + seq(10, _ => SPACE)
  {
    IndexOfIsFirst([letter], DOT, 1);
    assert [letter][..1] == [letter];
  }

  lemma FileRecordFound()
    ensures FirstMatch(RootSector(), 0, ShortName([LETTER_A])).Some?
    ensures FirstMatch(RootSector(), 0, ShortName([LETTER_A])).value.Ref() == FILE_A
    ensures FirstMatch(RecordSector(LETTER_B), 0, ShortName([LETTER_B])).Some?
    ensures FirstMatch(RecordSector(LETTER_B), 0, ShortName([LETTER_B])).value.Ref() == FILE_A
  {
    hide ShortName, RecordSector, RootSector, ParseEntry, Record, FirstMatch, Matches;
    FileRecord(LETTER_A);
    FileRecord(LETTER_B);
    RootRecords();
    FirstMatchStep(RootSector(), 0, ShortName([LETTER_A]));
    FirstMatchStep(RecordSector(LETTER_B), 0, ShortName([LETTER_B]));
    MatchesFirst(RootSector(), LETTER_A);
    MatchesFirst(RecordSector(LETTER_B), LETTER_B);
  }

  lemma MatchesFirst(s: seq<Byte>, letter: Byte)
    requires |s| == SECTOR_SIZE && Record(s, 0)[..11] == ShortName([letter])
    ensures Matches(s, 0, ShortName([letter]))
  {
  }

  /** The record at the beginning of such a sector. */
  lemma FileRecord(letter: Byte)
    requires letter == LETTER_A || letter == LETTER_B
    ensures Record(RecordSector(letter), 0)[..11] == ShortName([letter])
    ensures ParseEntry(Record(RecordSector(letter), 0)).Ref() == FILE_A
  {
    hide ShortName;
    OneLetterName(letter);
    var record := Record(RecordSector(letter), 0);
    assert record[..11] == [letter] + seq(10, _ => SPACE);
  }

  /** The scan finds the label, which the specification does not count as a file. */
  lemma LabelRecordFound()
    ensures FirstMatch(RootSector(), 0, ShortName([LETTER_B])).Some?
    ensures FirstMatch(RootSector(), 0, ShortName([LETTER_B])).value.Ref() == LABEL
    ensures SpecMatch(RootSector(), 0, ShortName([LETTER_B])) == None
  {
    hide ShortName, RootSector, LabelRecord, Record, ParseEntry, IsLive, Matches, FirstMatch, SpecMatch;
    var s, short := RootSector(), ShortName([LETTER_B]);
    RootRecords();
    LabelMatches();
    NotFoundHere(s, 0, short);
    NotFoundHere(s, 2, short);
    FirstMatchStep(s, 1, short);
    SpecMatchSkips(s, 1, short);
  }

  lemma SpecMatchSkips(bytes: seq<Byte>, i: nat, short: seq<Byte>)
    requires ENTRY_SIZE * (i + 1) <= |bytes| && !IsLive(Record(bytes, i))
    ensures SpecMatch(bytes, i, short) == None || SpecMatch(bytes, i, short) == SpecMatch(bytes, i + 1, short)
  {
  }

  lemma RootRecords()
    ensures var s := RootSector();
            && s[0] == LETTER_A && Record(s, 1) == LabelRecord() && s[2 * ENTRY_SIZE] == 0
            && Record(s, 0) == Record(RecordSector(LETTER_A), 0)
  {
  }

  lemma LabelMatches()
    ensures var s, short := RootSector(), ShortName([LETTER_B]);
            && !Matches(s, 0, short) && Matches(s, 1, short) && !Matches(s, 2, short)
            && !IsLive(Record(s, 1)) && ParseEntry(Record(s, 1)).Ref() == LABEL
  {
    hide ShortName, RootSector, ParseEntry;
    var s, short := RootSector(), ShortName([LETTER_B]);
    RootRecords();
    OneLetterName(LETTER_B);
    LabelParsed();
    assert Record(s, 0)[..11][0] == LETTER_A && Record(s, 2)[..11][0] == 0;
    assert LabelRecord()[..11] == short;
  }

  lemma LabelParsed()
    ensures ParseEntry(LabelRecord()).Ref() == LABEL
  {
  }

  /** The path A/B leads through the file A, where the intended lookup reports 0x0531. */
  lemma FileTakenForDirectory()
    ensures var vol, names := ExampleVolume(), [[LETTER_A], [LETTER_B]];
            && MountsAs(ExampleDisk(), map[], vol, ROOT)
            && Components([LETTER_A, SLASH, LETTER_B]) == names
            && Walkable(vol, ROOT, names)
            && Resolve(vol, ROOT, names) == Found(FILE_A)
            && StrictResolve(vol, ROOT, names, false) == Failed(NOT_A_DIRECTORY)
  {
    hide WellFormed, Readable, FileBytes, FirstMatch, ShortName, BootFat, ExampleDisk, FatSector, BootRecord,
      RecordSector, RootSector, MountsAs, Components;
    var vol := ExampleVolume();
    ExampleMounts(vol, ROOT);
    PathSplit();
    OneSectorFile(ROOT);
    OneSectorFile(FILE_A);
    FileRecordFound();
    assert vol.CanRead(vol.ClusterToLba(2)) && vol.CanRead(vol.ClusterToLba(3));
    assert [[LETTER_A], [LETTER_B]][1..] == [[LETTER_B]] && [[LETTER_B]][1..] == [];
    assert Walkable(vol, FILE_A, []) && Resolve(vol, FILE_A, []) == Found(FILE_A);
    assert Walkable(vol, FILE_A, [[LETTER_B]]) && Resolve(vol, FILE_A, [[LETTER_B]]) == Found(FILE_A);
  }

  lemma PathSplit()
    ensures Components([LETTER_A, SLASH, LETTER_B]) == [[LETTER_A], [LETTER_B]]
  {
    IndexOfIsFirst([LETTER_A, SLASH, LETTER_B], SLASH, 1);
    IndexOfIsFirst([LETTER_B], SLASH, 1);
    assert [LETTER_A, SLASH, LETTER_B][..1] == [LETTER_A] && [LETTER_A, SLASH, LETTER_B][2..] == [LETTER_B];
    assert [LETTER_B][..1] == [LETTER_B];
  }

  /** The path B leads to the volume label, where the specification finds nothing. Its cluster 0 is taken for two
      sectors in front of the data area. */
  lemma LabelTakenForFile()
    ensures var vol, names := ExampleVolume(), [[LETTER_B]];
            && MountsAs(ExampleDisk(), map[], vol, ROOT)
            && Components([LETTER_B]) == names
            && Walkable(vol, ROOT, names) && Resolve(vol, ROOT, names) == Found(LABEL)
            && SpecWalkable(vol, ROOT, names) && SpecResolve(vol, ROOT, names) == Failed(NOT_FOUND)
            && !LiveOnly(vol, ROOT, names)
  {
    hide WellFormed, Readable, FileBytes, FirstMatch, SpecMatch, FirstIsLive, ShortName, BootFat, ExampleDisk,
      FatSector, BootRecord, RecordSector, RootSector, MountsAs, Components;
    var vol, names := ExampleVolume(), [[LETTER_B]];
    ExampleMounts(vol, ROOT);
    LabelPath();
    OneSectorFile(ROOT);
    LabelRecordFound();
    assert vol.CanRead(vol.ClusterToLba(2)) && vol.CanRead(vol.ClusterToLba(0));
    assert names[1..] == [];
    assert Walkable(vol, LABEL, []) && Resolve(vol, LABEL, []) == Found(LABEL);
    ScanMeetsSpecification(FileBytes(vol, ROOT), 0, ShortName([LETTER_B]));
  }

  lemma LabelPath()
    ensures Components([LETTER_B]) == [[LETTER_B]]
  {
    IndexOfIsFirst([LETTER_B], SLASH, 1);
    assert [LETTER_B][..1] == [LETTER_B];
  }

  /** The path C leads nowhere. */
  lemma NothingFound()
    ensures var vol, names := ExampleVolume(), [[LETTER_C]];
            Walkable(vol, ROOT, names) && Resolve(vol, ROOT, names) == Failed(0x0532)
  {
    hide WellFormed, Readable, FileBytes, FirstMatch, ShortName, BootFat, ExampleDisk, RootSector;
    OneSectorFile(ROOT);
    NoSuchRecord();
    assert ExampleVolume().CanRead(ExampleVolume().ClusterToLba(2));
  }

  lemma NoSuchRecord()
    ensures FirstMatch(RootSector(), 0, ShortName([LETTER_C])) == None
  {
    hide ShortName, RootSector, FirstMatch, Matches;
    var s, short := RootSector(), ShortName([LETTER_C]);
    forall j: nat ensures !Matches(s, j, short) {
      NotNamedC(j);
    }
    FirstMatchIsFirst(s, 0, short);
  }

  lemma NotNamedC(j: nat)
    ensures !Matches(RootSector(), j, ShortName([LETTER_C]))
  {
    hide ShortName, RootSector;
    var s, short := RootSector(), ShortName([LETTER_C]);
    IndexOfIsFirst([LETTER_C], DOT, 1);
    ShortNameBase([LETTER_C], 0);
    RootRecords();
    if j < 16 {
      RootStarts(j);
      assert Record(s, j)[..11][0] == s[ENTRY_SIZE * j];
    }
  }

  lemma RootStarts(j: nat)
    requires j < 16
    ensures RootSector()[ENTRY_SIZE * j] in {LETTER_A, LETTER_B, 0}
  {
  }

  /** The whole way, from the disk to the open file. */
  method OpenThroughFile(fs: FileSystem) returns (code: int, h: nat)
    requires fs.SlotsOk()
    modifies fs, fs.files, fs.Buffers()
    ensures code == 0 && h == 0 && fs.vol == ExampleVolume()
    ensures fs.Table()[0] == OpenedState(ExampleVolume(), FILE_A)
  {
    hide MountsAs, ExampleVolume, ExampleDisk, ParseBootSector, Components, Walkable, Resolve, StrictResolve, NamesFit,
      OpenedState, CanReadRun;
    code := fs.Init(ExampleDisk(), map[]);
    MountSucceeds();
    ExampleMounts(fs.vol, fs.root);
    FileTakenForDirectory();
    PathFits();
    AllFree(fs.Table());
    code, h := fs.Open([LETTER_A, SLASH, LETTER_B]);
  }

  /** The same for the label. */
  method OpenLabel(fs: FileSystem) returns (code: int, h: nat)
    requires fs.SlotsOk()
    modifies fs, fs.files, fs.Buffers()
    ensures code == 0 && h == 0 && fs.vol == ExampleVolume()
    ensures fs.Table()[0] == OpenedState(ExampleVolume(), LABEL)
  {
    hide MountsAs, ExampleVolume, ExampleDisk, ParseBootSector, Components, Walkable, Resolve, SpecResolve,
      SpecWalkable, LiveOnly, NamesFit, OpenedState, CanReadRun;
    code := fs.Init(ExampleDisk(), map[]);
    MountSucceeds();
    ExampleMounts(fs.vol, fs.root);
    LabelTakenForFile();
    LabelFits();
    AllFree(fs.Table());
    code, h := fs.Open([LETTER_B]);
  }

  lemma LabelFits()
    ensures WithoutRoot([LETTER_B]) == [LETTER_B] && NamesFit([LETTER_B])
  {
    hide Components;
    LabelPath();
  }

  lemma MountSucceeds()
    ensures CanReadRun(ExampleDisk(), map[], 0, 1) && ParseBootSector(ExampleDisk()[0]).bytesPerSector < 914
    ensures CanReadRun(ExampleDisk(), map[], ParseBootSector(ExampleDisk()[0]).reservedSectors, FAT_READ_SECTORS)
  {
    hide ParseBootSector, ExampleDisk;
    ExampleBoot();
  }

  lemma AllFree(table: seq<FileState>)
    requires |table| > 0 && OpenSlots(table) == {}
    ensures FirstFree(table) == 0
  {
    assert 0 !in OpenSlots(table);
  }

  lemma PathFits()
    ensures WithoutRoot([LETTER_A, SLASH, LETTER_B]) == [LETTER_A, SLASH, LETTER_B]
    ensures NamesFit([LETTER_A, SLASH, LETTER_B])
  {
    hide Components;
    PathSplit();
  }

  /** The file in the clusters 4 and 5 has 1024 bytes by the FAT32 specification, and 512 for the loader. */
  lemma ReservedBitsCutAFile()
    ensures var vol := ExampleVolume();
            && MountsAs(ExampleDisk(), map[], vol, ROOT)
            && IsSpecChain(vol.fat, 4, [4, 5]) && |ChainBytes(vol, [4, 5])| == CUT_FILE.size
            && IsChain(vol.fat, 4, [4])
            && WellFormed(vol, CUT_FILE) && |FileBytes(vol, CUT_FILE)| == SECTOR_SIZE
  {
    hide BootFat, ExampleDisk, ExampleSector, NextCluster, MountsAs, FileBytes, ChainBytes, WellFormed;
    ExampleMounts(ExampleVolume(), ROOT);
    ExampleFat();
    OneSectorFile(CUT_FILE);
  }
}
