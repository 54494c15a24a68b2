/** The mounted volume: the disk, the cached part of the File Allocation Table, cluster chains and the
    bytes a chain holds. */
module Fat32Volume {
  import opened Words

  const SECTOR_SIZE := 512
  const END_OF_CHAIN := 0x0FFF_FFF8
  const FAT_READ_SECTORS := 64
  const ATTEMPTS := 3

  // What the loader knows of the disk after initialisation. Sectors are numbered from the start of the
  // partition. `faults` says how many attempts to read a sector fail before one succeeds.
  datatype Volume = Volume(
    sectors: seq<seq<Byte>>,
    faults: map<nat, nat>,
    fat: seq<Byte>,
    sectorsPerCluster: nat,
    dataLba: Word)
  {
    ghost predicate Valid() {
      && (forall i | 0 <= i < |sectors| :: |sectors[i]| == SECTOR_SIZE)
      && |fat| == SECTOR_SIZE * FAT_READ_SECTORS
      && 0 < sectorsPerCluster < 0x100
    }

    /** Attempt number `attempt`, from zero on, to read a sector succeeds. */
    predicate Delivers(lba: Word, attempt: nat) {
      lba < |sectors| && (lba in faults ==> faults[lba] <= attempt)
    }

    predicate CanRead(lba: Word) {
      Delivers(lba, ATTEMPTS - 1)
    }

    function SectorAt(lba: Word): (s: seq<Byte>)
      requires Valid()
      ensures |s| == SECTOR_SIZE
    {
      if lba < |sectors| then sectors[lba] else seq(SECTOR_SIZE, _ => 0)
    }

    /** All the subtractions and products below are `uint32_t` ones. */
    function ClusterToLba(cluster: Word): Word {
      Wrap(dataLba + Wrap(cluster - 2) * sectorsPerCluster)
    }

    function SectorLba(cluster: Word, sector: nat): Word {
      Wrap(ClusterToLba(cluster) + sector)
    }
  }

  /** A sector is read unless it lies past the end, or three attempts to read it fail. */
  lemma ReadThreeTimes(vol: Volume, lba: Word)
    ensures vol.CanRead(lba) <==> lba < |vol.sectors| && (lba in vol.faults ==> vol.faults[lba] < 3)
  {
  }

  /** Whether the FAT entry of the cluster is one the loader has in memory, and the cluster holds data. */
  predicate Cached(fat: seq<Byte>, cluster: Word) {
    2 <= cluster && 4 * cluster + 4 <= |fat|
  }

  function NextCluster(fat: seq<Byte>, cluster: Word): Word
    requires Cached(fat, cluster)
  {
    Le32(fat, 4 * cluster)
  }

  // ----- chains

  /** The clusters visited from `first` when each FAT entry is taken as it stands, up to an end mark. */
  ghost predicate IsChain(fat: seq<Byte>, first: Word, chain: seq<Word>) {
    && |chain| > 0
    && chain[0] == first
    && (forall i | 0 <= i < |chain| :: Cached(fat, chain[i]))
    && (forall i | 0 <= i < |chain| - 1 :: NextCluster(fat, chain[i]) == chain[i + 1])
    && NextCluster(fat, chain[|chain| - 1]) >= END_OF_CHAIN
    && |fat| < END_OF_CHAIN
  }

  ghost predicate HasChain(fat: seq<Byte>, first: Word) {
    exists chain :: IsChain(fat, first, chain)
  }

  ghost function ChainOf(fat: seq<Byte>, first: Word): (chain: seq<Word>)
    requires HasChain(fat, first)
    ensures IsChain(fat, first, chain)
  {
    var chain :| IsChain(fat, first, chain);
    chain
  }

  /** A first cluster determines its chain. */
  lemma {:induction false} ChainIsUnique(fat: seq<Byte>, first: Word, a: seq<Word>, b: seq<Word>)
    requires IsChain(fat, first, a) && IsChain(fat, first, b)
    ensures a == b
    decreases |a|
  {
    ChainGoesOn(fat, first, a);
    ChainGoesOn(fat, first, b);
    if |a| > 1 {
      ChainSuffix(fat, first, a, 1);
      ChainSuffix(fat, first, b, 1);
      ChainIsUnique(fat, a[1], a[1..], b[1..]);
      assert a == [first] + a[1..] && b == [first] + b[1..];
    }
  }

  /** A FAT entry is four bytes, the lowest one first. The values from 0x0FFFFFF8 on end a chain. */
  lemma EntryEndsChain(fat: seq<Byte>, cluster: Word, entry: Word)
    requires Cached(fat, cluster) && |fat| <= 0x8000
    ensures NextCluster(fat, cluster) == entry <==> fat[4 * cluster..4 * cluster + 4] == Bytes32(entry)
    ensures IsChain(fat, cluster, [cluster]) <==> NextCluster(fat, cluster) >= 0x0FFF_FFF8
  {
    Le32Reads(fat, 4 * cluster, entry);
  }

  lemma ChainGoesOn(fat: seq<Byte>, first: Word, chain: seq<Word>)
    requires IsChain(fat, first, chain)
    ensures |chain| > 1 <==> NextCluster(fat, first) < END_OF_CHAIN
    ensures |chain| > 1 ==> chain[1] == NextCluster(fat, first)
  {
    if |chain| > 1 {
      assert NextCluster(fat, chain[0]) == chain[0 + 1];
      assert Cached(fat, chain[1]);
    }
  }

  lemma ChainSuffix(fat: seq<Byte>, first: Word, chain: seq<Word>, i: nat)
    requires IsChain(fat, first, chain) && i < |chain|
    ensures IsChain(fat, chain[i], chain[i..])
  {
    var rest := chain[i..];
    forall j | 0 <= j < |rest| - 1
      ensures NextCluster(fat, rest[j]) == rest[j + 1]
    {
      assert NextCluster(fat, chain[i + j]) == chain[i + j + 1];
    }
  }

  /** No cluster occurs twice: a chain that reaches an end mark has no cycle. */
  lemma ChainIsAcyclic(fat: seq<Byte>, first: Word, chain: seq<Word>)
    requires IsChain(fat, first, chain)
    ensures forall i, j | 0 <= i < j < |chain| :: chain[i] != chain[j]
  {
    forall i, j | 0 <= i < j < |chain|
      ensures chain[i] != chain[j]
    {
      ChainSuffix(fat, first, chain, i);
      ChainSuffix(fat, first, chain, j);
      if chain[i] == chain[j] {
        ChainIsUnique(fat, chain[i], chain[i..], chain[j..]);
        assert false;
      }
    }
  }

  /** A chain is never longer than the number of clusters whose entries are cached. */
  lemma ChainIsShort(fat: seq<Byte>, first: Word, chain: seq<Word>)
    requires IsChain(fat, first, chain)
    ensures |chain| <= |fat| / 4 - 2
  {
    ChainIsAcyclic(fat, first, chain);
    DistinctBelow(chain, |fat| / 4);
  }

  lemma DistinctBelow(s: seq<Word>, bound: nat)
    requires |s| > 0
    requires forall i | 0 <= i < |s| :: 2 <= s[i] < bound
    requires forall i, j | 0 <= i < j < |s| :: s[i] != s[j]
    ensures |s| <= bound - 2
  {
    assert s[0] < bound;
    RangeSize(bound);
    SetOfDistinct(s);
    SubsetSize(Elements(s), Range(bound));
  }

  ghost function Range(bound: nat): set<int> {
    if bound <= 2 then {} else Range(bound - 1) + {bound - 1}
  }

  lemma {:induction false} RangeSize(bound: nat)
    requires bound >= 2
    ensures |Range(bound)| == bound - 2
    ensures forall i :: i in Range(bound) <==> 2 <= i < bound
  {
    if bound > 2 {
      RangeSize(bound - 1);
    }
  }

  ghost function Elements(s: seq<Word>): set<int> {
    set x: Word | x in s
  }

  lemma {:induction false} SetOfDistinct(s: seq<Word>)
    requires forall i, j | 0 <= i < j < |s| :: s[i] != s[j]
    ensures |Elements(s)| == |s|
  {
    if |s| > 0 {
      var front, last := s[..|s| - 1], s[|s| - 1];
      SetOfDistinct(front);
      assert s == front + [last];
      assert last !in front;
      assert Elements(s) == Elements(front) + {last};
    }
  }

  lemma {:induction false} SubsetSize(a: set<int>, b: set<int>)
    requires a <= b
    ensures |a| <= |b|
  {
    assert b == a + (b - a);
  }

  // ----- the unmasked FAT entry

  /** The chain as the FAT32 File System Specification defines it, in the whole FAT: the top four bits of an
      entry are reserved and must be ignored. */
  ghost predicate IsSpecChain(wholeFat: seq<Byte>, first: Word, chain: seq<Word>) {
    && |chain| > 0
    && chain[0] == first
    && (forall i | 0 <= i < |chain| :: Cached(wholeFat, chain[i]) && chain[i] < END_OF_CHAIN)
    && (forall i | 0 <= i < |chain| - 1 :: NextCluster(wholeFat, chain[i]) % 0x1000_0000 == chain[i + 1])
    && NextCluster(wholeFat, chain[|chain| - 1]) % 0x1000_0000 >= END_OF_CHAIN
  }

  /** The part of the FAT that the loader has in memory has the entries of the clusters below 8192. */
  lemma CachedEntry(wholeFat: seq<Byte>, fat: seq<Byte>, cluster: Word)
    requires fat <= wholeFat && |fat| == SECTOR_SIZE * FAT_READ_SECTORS && Cached(wholeFat, cluster)
    ensures Cached(fat, cluster) <==> cluster < 0x2000
    ensures cluster < 0x2000 ==> NextCluster(fat, cluster) == NextCluster(wholeFat, cluster)
  {
  }

  /** The loader follows a specified chain to its end exactly when it does not leave the cached part of the FAT,
      and every link but the last has its reserved bits clear. */
  lemma SpecChainFollowed(wholeFat: seq<Byte>, fat: seq<Byte>, first: Word, chain: seq<Word>)
    requires fat <= wholeFat && |fat| == SECTOR_SIZE * FAT_READ_SECTORS && IsSpecChain(wholeFat, first, chain)
    ensures (HasChain(fat, first) && ChainOf(fat, first) == chain)
       <==> && (forall i | 0 <= i < |chain| :: chain[i] < 0x2000)
            && forall i | 0 <= i < |chain| - 1 :: NextCluster(wholeFat, chain[i]) < 0x1000_0000
  {
    hide NextCluster, Cached;
    forall i | 0 <= i < |chain|
      ensures Cached(fat, chain[i]) <==> chain[i] < 0x2000
      ensures chain[i] < 0x2000 ==> NextCluster(fat, chain[i]) == NextCluster(wholeFat, chain[i])
    {
      CachedEntry(wholeFat, fat, chain[i]);
    }
    if && (forall i | 0 <= i < |chain| :: chain[i] < 0x2000)
       && forall i | 0 <= i < |chain| - 1 :: NextCluster(wholeFat, chain[i]) < 0x1000_0000
    {
      assert IsChain(fat, first, chain);
      ChainIsUnique(fat, first, chain, ChainOf(fat, first));
    }
    if HasChain(fat, first) && ChainOf(fat, first) == chain {
      forall i | 0 <= i < |chain| - 1
        ensures NextCluster(wholeFat, chain[i]) < 0x1000_0000
      {
        assert NextCluster(fat, chain[i]) == chain[i + 1];
      }
    }
  }

  // ----- the bytes of a chain

  function ClusterBytes(vol: Volume, cluster: Word, count: nat): (bytes: seq<Byte>)
    requires vol.Valid()
    ensures |bytes| == count * SECTOR_SIZE
  {
    if count == 0 then []
    else ClusterBytes(vol, cluster, count - 1) + vol.SectorAt(vol.SectorLba(cluster, count - 1))
  }

  /** The clusters of a chain laid end to end. */
  function ChainBytes(vol: Volume, chain: seq<Word>): (bytes: seq<Byte>)
    requires vol.Valid()
    ensures |bytes| == SECTOR_SIZE * (|chain| * vol.sectorsPerCluster)
  {
    if |chain| == 0 then []
    else
      var front := chain[..|chain| - 1];
      assert |chain| * vol.sectorsPerCluster == |front| * vol.sectorsPerCluster + vol.sectorsPerCluster;
      ChainBytes(vol, front) + ClusterBytes(vol, chain[|chain| - 1], vol.sectorsPerCluster)
  }

  lemma {:induction false} SectorInCluster(vol: Volume, cluster: Word, count: nat, s: nat)
    requires vol.Valid() && s < count
    ensures ClusterBytes(vol, cluster, count)[s * SECTOR_SIZE..(s + 1) * SECTOR_SIZE]
         == vol.SectorAt(vol.SectorLba(cluster, s))
  {
    hide Volume.Valid, Volume.SectorAt, Volume.SectorLba;
    var before, last := ClusterBytes(vol, cluster, count - 1), vol.SectorAt(vol.SectorLba(cluster, count - 1));
    assert ClusterBytes(vol, cluster, count) == before + last;
    if s < count - 1 {
      SectorInCluster(vol, cluster, count - 1, s);
      WithinPrefix(before, last, s * SECTOR_SIZE, (s + 1) * SECTOR_SIZE);
    } else {
      AfterPrefix(before, last, 0, SECTOR_SIZE);
      assert last[0..SECTOR_SIZE] == last;
    }
  }

  /** Sector `r` of cluster number `q` of a chain is sector `k == q * n + r` of its bytes. */
  lemma {:induction false} SectorOfCluster(vol: Volume, chain: seq<Word>, q: nat, r: nat, k: nat)
    requires vol.Valid() && q < |chain| && r < vol.sectorsPerCluster
    requires k == q * vol.sectorsPerCluster + r
    ensures (k + 1) * SECTOR_SIZE <= |ChainBytes(vol, chain)|
    ensures ChainBytes(vol, chain)[k * SECTOR_SIZE..(k + 1) * SECTOR_SIZE]
         == vol.SectorAt(vol.SectorLba(chain[q], r))
  {
    hide Volume.SectorAt, Volume.SectorLba, ClusterBytes;
    var n := vol.sectorsPerCluster;
    var front, last := chain[..|chain| - 1], chain[|chain| - 1];
    var before, after := ChainBytes(vol, front), ClusterBytes(vol, last, n);
    assert ChainBytes(vol, chain) == before + after;
    if q < |front| {
      SectorOfCluster(vol, front, q, r, k);
      WithinPrefix(before, after, k * SECTOR_SIZE, (k + 1) * SECTOR_SIZE);
    } else {
      SectorInCluster(vol, last, n, r);
      assert q == |front|;
      AfterPrefix(before, after, r * SECTOR_SIZE, (r + 1) * SECTOR_SIZE);
      assert |before| == SECTOR_SIZE * (q * n);
    }
  }

  lemma WithinPrefix<T>(a: seq<T>, b: seq<T>, lo: nat, hi: nat)
    requires lo <= hi <= |a|
    ensures (a + b)[lo..hi] == a[lo..hi]
  {
  }

  lemma AfterPrefix<T>(a: seq<T>, b: seq<T>, lo: nat, hi: nat)
    requires lo <= hi <= |b|
    ensures (a + b)[|a| + lo..|a| + hi] == b[lo..hi]
  {
  }

  /** While the data area stays below 2^32, the address of a sector is the one the FAT32 layout gives it,
      and no two sectors of two clusters share an address. */
  lemma SectorAddressing(vol: Volume, c: Word, s: nat, d: Word, t: nat)
    requires vol.Valid() && vol.dataLba + 0x2000 * vol.sectorsPerCluster <= TWO32
    requires Cached(vol.fat, c) && Cached(vol.fat, d)
    requires s < vol.sectorsPerCluster && t < vol.sectorsPerCluster
    ensures vol.SectorLba(c, s) == vol.dataLba + (c - 2) * vol.sectorsPerCluster + s
    ensures vol.SectorLba(c, s) == vol.SectorLba(d, t) ==> c == d && s == t
  {
    AddressInRange(vol, c, s);
    AddressInRange(vol, d, t);
    if vol.SectorLba(c, s) == vol.SectorLba(d, t) {
      SamePlace(c - 2, s, d - 2, t, vol.sectorsPerCluster);
    }
  }

  lemma AddressInRange(vol: Volume, c: Word, s: nat)
    requires vol.Valid() && vol.dataLba + 0x2000 * vol.sectorsPerCluster <= TWO32
    requires Cached(vol.fat, c) && s < vol.sectorsPerCluster
    ensures vol.SectorLba(c, s) == vol.dataLba + (c - 2) * vol.sectorsPerCluster + s
  {
    var n := vol.sectorsPerCluster;
    var offset := (c - 2) * n;
    Within(c - 2, 0x1FFE, n);
    WrapSmall(c - 2);
    WrapSmall(vol.dataLba + offset);
    WrapSmall(vol.dataLba + offset + s);
  }

  lemma Within(i: nat, m: nat, n: nat)
    requires i < m
    ensures 0 <= i * n <= m * n - n
  {
    MulMonotone(i + 1, m, n);
  }

  lemma WrapSmall(i: int)
    requires 0 <= i < TWO32
    ensures Wrap(i) == i
  {
  }
}
