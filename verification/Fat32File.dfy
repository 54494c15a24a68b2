/** Reading an open file: the one-sector buffer and the cursor walking the cluster chain, against the flat
    bytes of the file. */
module Fat32File {
  import opened Words
  import opened Fat32Volume

  // What identifies the contents of a file: its first cluster, whether it is a directory, and its size.
  datatype FileRef = FileRef(first: Word, isDir: bool, size: Word) {
    /** A directory of size zero, the usual case, extends to the end of its chain. */
    predicate Limited() {
      !isDir || size != 0
    }

    predicate Empty() {
      !isDir && size == 0
    }
  }

  // Sizes are below 2^31, past which the signed `min` of the loader goes wrong (see `SignedMinIsMin`).
  ghost predicate WellFormed(vol: Volume, f: FileRef) {
    && vol.Valid()
    && f.size < TWO31
    && (!f.Empty() ==> HasChain(vol.fat, f.first))
  }

  /** The bytes of a file: its chain, cut to its size. */
  ghost function FileBytes(vol: Volume, f: FileRef): (bytes: seq<Byte>)
    requires WellFormed(vol, f)
  {
    if f.Empty() then []
    else
      var all := ChainBytes(vol, ChainOf(vol.fat, f.first));
      if f.Limited() && f.size < |all| then all[..f.size] else all
  }

  /** Every sector of the chain of the file can be read. */
  ghost predicate Readable(vol: Volume, f: FileRef)
    requires WellFormed(vol, f)
  {
    !f.Empty() ==>
      var chain := ChainOf(vol.fat, f.first);
      forall q, r | 0 <= q < |chain| && 0 <= r < vol.sectorsPerCluster ::
        vol.CanRead(vol.SectorLba(chain[q], r))
  }

  /** Sector number `p` of a file: those of its first cluster come first, then those of the next. */
  ghost function NthSector(vol: Volume, chain: seq<Word>, p: nat): Word
    requires vol.Valid() && p < |chain| * vol.sectorsPerCluster
  {
    SectorIndex(|chain|, vol.sectorsPerCluster, p);
    vol.SectorLba(chain[p / vol.sectorsPerCluster], p % vol.sectorsPerCluster)
  }

  lemma SectorIndex(length: nat, n: nat, p: nat)
    requires n > 0 && p < length * n
    ensures 0 <= p / n < length && 0 <= p % n < n
  {
    Division(p, n);
    if p / n >= length {
      MulMonotone(length, p / n, n);
    }
  }

  lemma NumberOfSector(vol: Volume, chain: seq<Word>, q: nat, r: nat)
    requires vol.Valid() && q < |chain| && r < vol.sectorsPerCluster
    ensures var p := q * vol.sectorsPerCluster + r;
            p < |chain| * vol.sectorsPerCluster && NthSector(vol, chain, p) == vol.SectorLba(chain[q], r)
  {
    hide Volume.SectorLba;
    var n := vol.sectorsPerCluster;
    MulMonotone(q + 1, |chain|, n);
    DivMod(q * n + r, n, q, r);
  }

  /** These are the ones that have to be readable. */
  lemma ReadableSectors(vol: Volume, f: FileRef)
    requires WellFormed(vol, f) && !f.Empty()
    ensures var chain := ChainOf(vol.fat, f.first);
            Readable(vol, f) <==>
              forall p | 0 <= p < |chain| * vol.sectorsPerCluster :: vol.CanRead(NthSector(vol, chain, p))
  {
    hide ChainOf, IsChain, Volume.CanRead, Volume.SectorLba, NthSector;
    var chain, n := ChainOf(vol.fat, f.first), vol.sectorsPerCluster;
    if forall p | 0 <= p < |chain| * n :: vol.CanRead(NthSector(vol, chain, p)) {
      forall q, r | 0 <= q < |chain| && 0 <= r < n
        ensures vol.CanRead(vol.SectorLba(chain[q], r))
      {
        NumberOfSector(vol, chain, q, r);
      }
    }
    if Readable(vol, f) {
      forall p | 0 <= p < |chain| * n
        ensures vol.CanRead(NthSector(vol, chain, p))
      {
        SectorOfNumber(vol, chain, p);
      }
    }
  }

  lemma SectorOfNumber(vol: Volume, chain: seq<Word>, p: nat)
    requires vol.Valid() && p < |chain| * vol.sectorsPerCluster
    ensures exists q, r | 0 <= q < |chain| && 0 <= r < vol.sectorsPerCluster ::
              NthSector(vol, chain, p) == vol.SectorLba(chain[q], r)
  {
    hide Volume.SectorLba;
    SectorIndex(|chain|, vol.sectorsPerCluster, p);
    assert NthSector(vol, chain, p) == vol.SectorLba(chain[p / vol.sectorsPerCluster], p % vol.sectorsPerCluster);
  }

  lemma LengthOfFile(vol: Volume, f: FileRef)
    requires WellFormed(vol, f)
    ensures vol.Valid() && f.size < TWO31 && (f.Empty() ==> |FileBytes(vol, f)| == 0)
    ensures f.Limited() ==> |FileBytes(vol, f)| <= f.size
    ensures !f.Empty() ==>
              || |FileBytes(vol, f)| == |ChainBytes(vol, ChainOf(vol.fat, f.first))|
              || (f.Limited() && |FileBytes(vol, f)| == f.size < |ChainBytes(vol, ChainOf(vol.fat, f.first))|)
    ensures !f.Empty() ==> |ChainBytes(vol, ChainOf(vol.fat, f.first))| < TWO31
  {
    if !f.Empty() {
      ChainBytesFit(vol, f.first, ChainOf(vol.fat, f.first));
    }
  }

  /** What a file holds, from any chain that begins at its first cluster: a file and a directory with a size are
      cut to it, a directory without one is the whole chain. */
  lemma FileContents(vol: Volume, f: FileRef, chain: seq<Word>)
    requires WellFormed(vol, f) && IsChain(vol.fat, f.first, chain)
    ensures var all := ChainBytes(vol, chain);
            FileBytes(vol, f) == if f.isDir && f.size == 0 then all else all[..Min(f.size, |all|)]
  {
    hide ChainBytes;
    if !f.Empty() {
      ChainIsUnique(vol.fat, f.first, chain, ChainOf(vol.fat, f.first));
    }
  }

  // ----- the flat file

  function FlatRead(bytes: seq<Byte>, position: nat, count: nat): seq<Byte>
    requires position <= |bytes|
  {
    bytes[position..Min(position + count, |bytes|)]
  }

  lemma ReadLength(bytes: seq<Byte>, position: nat, count: nat)
    requires position <= |bytes|
    ensures |FlatRead(bytes, position, count)| == Min(count, |bytes| - position)
    ensures FlatRead(bytes, position, count) == bytes[position..position + Min(count, |bytes| - position)]
  {
  }

  /** What a run of reads delivers, one request after the other. */
  function FlatReads(bytes: seq<Byte>, position: nat, counts: seq<nat>): seq<Byte>
    requires position <= |bytes|
    decreases |counts|
  {
    if counts == [] then []
    else FlatRead(bytes, position, counts[0])
         + FlatReads(bytes, position + |FlatRead(bytes, position, counts[0])|, counts[1..])
  }

  function Sum(counts: seq<nat>): nat {
    if counts == [] then 0 else counts[0] + Sum(counts[1..])
  }

  lemma FirstRead(bytes: seq<Byte>, position: nat, counts: seq<nat>)
    requires position <= |bytes| && counts != []
    ensures var n := Min(counts[0], |bytes| - position);
            FlatReads(bytes, position, counts) ==
            bytes[position..position + n] + FlatReads(bytes, position + n, counts[1..])
  {
    hide FlatRead, Min;
    ReadLength(bytes, position, counts[0]);
  }

  /** However a file is cut into requests, the pieces join to the bytes that one large request would give. */
  lemma {:induction false} ReadsAreConsecutive(bytes: seq<Byte>, position: nat, counts: seq<nat>)
    requires position <= |bytes|
    ensures FlatReads(bytes, position, counts) == FlatRead(bytes, position, Sum(counts))
    decreases |counts|
  {
    hide FlatReads;
    if counts == [] {
      NoMoreReads(bytes, position);
    } else {
      var next := position + Min(counts[0], |bytes| - position);
      FirstRead(bytes, position, counts);
      ReadsAreConsecutive(bytes, next, counts[1..]);
      SlicesJoin(bytes, position, next, Min(position + Sum(counts), |bytes|));
    }
  }

  lemma SlicesJoin<T>(s: seq<T>, lo: nat, mid: nat, hi: nat)
    requires lo <= mid <= hi <= |s|
    ensures s[lo..mid] + s[mid..hi] == s[lo..hi]
  {
  }

  /** No position in a chain reaches 2^31, so none of the position counters wraps. */
  lemma ChainBytesFit(vol: Volume, first: Word, chain: seq<Word>)
    requires vol.Valid() && IsChain(vol.fat, first, chain)
    ensures |ChainBytes(vol, chain)| < TWO31
  {
    ChainIsShort(vol.fat, first, chain);
    MulMonotone(|chain|, 0x1FFE, vol.sectorsPerCluster);
  }

  // ----- the cursor

  datatype FileState = FileState(
    isDir: bool,
    position: nat,
    size: Word,
    isOpen: bool,
    first: Word,
    current: Word,
    sector: nat,
    buffer: seq<Byte>)
  {
    function Ref(): FileRef {
      FileRef(first, isDir, size)
    }
  }

  /** The cursor stands in cluster number `q` of the chain, on the sector that contains the position, and
      the buffer holds that sector. */
  ghost predicate CursorAt(vol: Volume, s: FileState, q: nat)
    requires WellFormed(vol, s.Ref()) && !s.Ref().Empty()
  {
    var chain := ChainOf(vol.fat, s.first);
    && q < |chain|
    && s.sector < vol.sectorsPerCluster
    && s.position / SECTOR_SIZE == q * vol.sectorsPerCluster + s.sector
    && s.current == chain[q]
    && s.buffer == vol.SectorAt(vol.SectorLba(chain[q], s.sector))
  }

  /** The invariant of an open file. Once everything has been read the size has been pinned to the position. */
  ghost predicate CursorOk(vol: Volume, s: FileState) {
    && WellFormed(vol, s.Ref())
    && var length := |FileBytes(vol, s.Ref())|;
       && s.position <= length
       && (s.position < length ==> exists q :: CursorAt(vol, s, q))
       && (s.position == length ==> s.size == s.position && s.Ref().Limited())
  }

  /** `CursorOk` with its witness, for a file known by `ref`. */
  ghost predicate Progress(vol: Volume, ref: FileRef, s: FileState, q: nat)
    requires WellFormed(vol, ref)
  {
    && s.Ref() == ref
    && s.position <= |FileBytes(vol, ref)|
    && (s.position < |FileBytes(vol, ref)| ==> CursorAt(vol, s, q))
    && (s.position == |FileBytes(vol, ref)| ==> s.size == s.position && ref.Limited())
  }

  lemma CursorInRange(vol: Volume, s: FileState)
    requires CursorOk(vol, s)
    ensures WellFormed(vol, s.Ref()) && vol.Valid() && s.size < TWO31
    ensures s.position <= |FileBytes(vol, s.Ref())|
    ensures s.Ref().Limited() ==> |FileBytes(vol, s.Ref())| <= s.size
  {
  }

  lemma ProgressBegins(vol: Volume, s: FileState) returns (q: nat)
    requires CursorOk(vol, s)
    ensures Progress(vol, s.Ref(), s, q)
  {
    if s.position < |FileBytes(vol, s.Ref())| {
      q :| CursorAt(vol, s, q);
    } else {
      q := 0;
    }
  }

  lemma ProgressAtEnd(vol: Volume, ref: FileRef, s: FileState, q: nat)
    requires WellFormed(vol, ref) && Progress(vol, ref, s, q)
    ensures s.position <= |FileBytes(vol, ref)|
    ensures s.position == |FileBytes(vol, ref)| ==> s.size == s.position && ref.Limited()
  {
  }

  lemma ProgressKept(vol: Volume, ref: FileRef, s: FileState, q: nat)
    requires WellFormed(vol, ref) && Progress(vol, ref, s, q)
    ensures CursorOk(vol, s)
  {
  }

  /** The cursor in closed form: the position alone determines cluster and sector. */
  lemma CursorFollowsPosition(vol: Volume, s: FileState, q: nat)
    requires WellFormed(vol, s.Ref()) && !s.Ref().Empty() && CursorAt(vol, s, q)
    ensures q == s.position / SECTOR_SIZE / vol.sectorsPerCluster
    ensures s.sector == s.position / SECTOR_SIZE % vol.sectorsPerCluster
  {
    DivMod(s.position / SECTOR_SIZE, vol.sectorsPerCluster, q, s.sector);
  }

  /** What is left of the buffer is the file at the position. */
  lemma BufferHolds(vol: Volume, s: FileState, q: nat, take: nat)
    requires WellFormed(vol, s.Ref()) && !s.Ref().Empty() && CursorAt(vol, s, q)
    requires s.position % SECTOR_SIZE + take <= SECTOR_SIZE
    requires s.position + take <= |FileBytes(vol, s.Ref())|
    ensures |s.buffer| == SECTOR_SIZE
    ensures s.buffer[s.position % SECTOR_SIZE..s.position % SECTOR_SIZE + take]
         == FileBytes(vol, s.Ref())[s.position..s.position + take]
  {
    hide FileBytes, ChainBytes, Volume.SectorAt, Volume.SectorLba;
    var chain := ChainOf(vol.fat, s.first);
    var k, from := s.position / SECTOR_SIZE, s.position % SECTOR_SIZE;
    SectorOfCluster(vol, chain, q, s.sector, k);
    SliceOfSlice(ChainBytes(vol, chain), k * SECTOR_SIZE, (k + 1) * SECTOR_SIZE, from, from + take);
    FileSlice(vol, s.Ref(), s.position, s.position + take);
  }

  /** What is cut off a file lies behind its end. */
  lemma FileSlice(vol: Volume, f: FileRef, lo: nat, hi: nat)
    requires WellFormed(vol, f) && !f.Empty() && lo <= hi <= |FileBytes(vol, f)|
    ensures hi <= |ChainBytes(vol, ChainOf(vol.fat, f.first))|
    ensures FileBytes(vol, f)[lo..hi] == ChainBytes(vol, ChainOf(vol.fat, f.first))[lo..hi]
  {
    hide ChainBytes;
  }

  lemma SliceOfSlice<T>(s: seq<T>, lo: nat, hi: nat, from: nat, to: nat)
    requires lo <= hi <= |s| && from <= to <= hi - lo
    ensures s[lo..hi][from..to] == s[lo + from..lo + to]
  {
    var a, b := s[lo..hi][from..to], s[lo + from..lo + to];
    forall i | 0 <= i < to - from
      ensures a[i] == b[i]
    {
      assert a[i] == s[lo..hi][from + i] == s[lo + (from + i)];
    }
  }

  /** Where the code moves the cursor when the position reaches the end of its sector. */
  function Advanced(vol: Volume, s: FileState): FileState
    requires Cached(vol.fat, s.current)
  {
    var over := s.sector + 1 >= vol.sectorsPerCluster;
    s.(position := SECTOR_SIZE * (s.position / SECTOR_SIZE + 1),
       sector := if over then 0 else s.sector + 1,
       current := if over then NextCluster(vol.fat, s.current) else s.current)
  }

  /** The move ends on an end mark exactly when the chain is used up, and otherwise on the next sector. */
  lemma AdvancedCursor(vol: Volume, s: FileState, q: nat) returns (q': nat)
    requires WellFormed(vol, s.Ref()) && !s.Ref().Empty() && CursorAt(vol, s, q)
    ensures Cached(vol.fat, s.current)
    ensures var t, chain := Advanced(vol, s), ChainOf(vol.fat, s.first);
            if t.current >= END_OF_CHAIN then t.position == |ChainBytes(vol, chain)|
            else
              && t.position < |ChainBytes(vol, chain)|
              && q' < |chain| && t.sector < vol.sectorsPerCluster && t.current == chain[q']
              && CursorAt(vol, t.(buffer := vol.SectorAt(vol.SectorLba(t.current, t.sector))), q')
  {
    hide ChainBytes, NextCluster, Volume.SectorAt, Volume.SectorLba;
    var chain, n, t := ChainOf(vol.fat, s.first), vol.sectorsPerCluster, Advanced(vol, s);
    assert Cached(vol.fat, chain[q]);
    assert q + 1 < |chain| ==> NextCluster(vol.fat, chain[q]) == chain[q + 1] && Cached(vol.fat, chain[q + 1]);
    q' := if s.sector + 1 >= n then q + 1 else q;
    NextSector(s.position / SECTOR_SIZE, q, s.sector, n, q', t.sector);
    if t.current < END_OF_CHAIN {
      SectorOfCluster(vol, chain, q', t.sector, t.position / SECTOR_SIZE);
    }
  }

  lemma NextSector(k: nat, q: nat, r: nat, n: nat, q': nat, r': nat)
    requires r < n && k == q * n + r
    requires if r + 1 >= n then q' == q + 1 && r' == 0 else q' == q && r' == r + 1
    ensures SECTOR_SIZE * (k + 1) / SECTOR_SIZE == k + 1 == q' * n + r'
  {
  }

  /** Pinning the size of a file that has been read to the end of its chain does not change its bytes. */
  lemma PinnedSize(vol: Volume, f: FileRef, position: Word)
    requires WellFormed(vol, f) && !f.Empty() && 0 < position <= |FileBytes(vol, f)|
    requires position == |ChainBytes(vol, ChainOf(vol.fat, f.first))|
    ensures WellFormed(vol, f.(size := position)) && FileBytes(vol, f.(size := position)) == FileBytes(vol, f)
    ensures Readable(vol, f) ==> Readable(vol, f.(size := position))
  {
    ChainBytesFit(vol, f.first, ChainOf(vol.fat, f.first));
  }

  /** The bytes of `src` from `from` on are the ones that the file has at the position. */
  ghost predicate IsPiece(src: seq<Byte>, from: nat, bytes: seq<Byte>, position: nat, count: nat) {
    && from + count <= |src|
    && position + count <= |bytes|
    && src[from..from + count] == bytes[position..position + count]
  }

  lemma PieceInRange(src: seq<Byte>, from: nat, bytes: seq<Byte>, position: nat, count: nat)
    requires IsPiece(src, from, bytes, position, count)
    ensures from + count <= |src| && position + count <= |bytes|
  {
  }

  /** The bytes about to be copied exist (the request was cut to the size, or the file ends with a cluster)
      and they are the ones in the buffer. */
  lemma TakeFits(vol: Volume, s: FileState, q: nat, count: Word)
    requires WellFormed(vol, s.Ref()) && Progress(vol, s.Ref(), s, q)
    requires s.position < |FileBytes(vol, s.Ref())|
    requires count < TWO31 && (s.Ref().Limited() ==> s.position + count <= s.size)
    ensures var from := s.position % SECTOR_SIZE;
            var take := SignedMin(count, SECTOR_SIZE - from);
            && take == Min(count, SECTOR_SIZE - from)
            && |s.buffer| == SECTOR_SIZE
            && IsPiece(s.buffer, from, FileBytes(vol, s.Ref()), s.position, take)
  {
    hide CursorAt, ChainBytes, ChainOf;
    var take := Min(count, SECTOR_SIZE - s.position % SECTOR_SIZE);
    LengthOfFile(vol, s.Ref());
    SectorInChain(vol, s, q);
    BufferHolds(vol, s, q, take);
  }

  /** The chain goes on at least to the end of the sector under the cursor. */
  lemma SectorInChain(vol: Volume, s: FileState, q: nat)
    requires WellFormed(vol, s.Ref()) && !s.Ref().Empty() && CursorAt(vol, s, q)
    ensures SECTOR_SIZE * (s.position / SECTOR_SIZE + 1) <= |ChainBytes(vol, ChainOf(vol.fat, s.first))|
  {
    hide CursorAt;
    var q' := AdvancedCursor(vol, s, q);
  }

  /** What one copy takes: the rest of the request, or of the sector. */
  lemma TakeInSector(position: nat, count: Word)
    requires count < TWO31
    ensures var left := SECTOR_SIZE - position % SECTOR_SIZE;
            var take := SignedMin(count, left);
            && 0 < left <= SECTOR_SIZE && take <= count && take <= left && (0 < count ==> 0 < take)
            && if take == left then position + take == SECTOR_SIZE * (position / SECTOR_SIZE + 1) else take == count
  {
  }

  /** A copy that stops short of the end of the sector leaves the cursor where it is. */
  lemma StaysInSector(vol: Volume, s: FileState, q: nat, take: nat)
    requires WellFormed(vol, s.Ref()) && Progress(vol, s.Ref(), s, q)
    requires s.position < |FileBytes(vol, s.Ref())|
    requires s.position % SECTOR_SIZE + take < SECTOR_SIZE
    requires s.position + take <= |FileBytes(vol, s.Ref())|
    ensures Progress(vol, s.Ref(), s.(position := s.position + take), q)
  {
    LengthOfFile(vol, s.Ref());
    SameSector(s.position, take);
    WholeSectors(vol, ChainOf(vol.fat, s.first));
  }

  lemma SameSector(position: nat, take: nat)
    requires position % SECTOR_SIZE + take < SECTOR_SIZE
    ensures (position + take) / SECTOR_SIZE == position / SECTOR_SIZE
    ensures take > 0 ==> (position + take) % SECTOR_SIZE != 0
  {
  }

  lemma WholeSectors(vol: Volume, chain: seq<Word>)
    requires vol.Valid()
    ensures |ChainBytes(vol, chain)| % SECTOR_SIZE == 0
  {
    DivMod(|ChainBytes(vol, chain)|, SECTOR_SIZE, |chain| * vol.sectorsPerCluster, 0);
  }

  /** A copy up to the end of the sector: the code then either has used up the chain, and pins the size, or
      has the next sector to load. */
  lemma MovesOn(vol: Volume, s: FileState, q: nat) returns (q': nat)
    requires WellFormed(vol, s.Ref()) && Progress(vol, s.Ref(), s, q)
    requires s.position < |FileBytes(vol, s.Ref())|
    ensures Cached(vol.fat, s.current) && vol.Valid()
    ensures var t, bytes, ref := Advanced(vol, s), FileBytes(vol, s.Ref()), s.Ref();
            && t.position <= |bytes| ==>
               if t.current >= END_OF_CHAIN then
                 && t.position == |bytes| && t.position < TWO31
                 && var pinned := t.(size := t.position);
                    && WellFormed(vol, pinned.Ref())
                    && FileBytes(vol, pinned.Ref()) == bytes
                    && CursorOk(vol, pinned)
                    && (Readable(vol, ref) ==> Readable(vol, pinned.Ref()))
               else
                 && (Readable(vol, ref) ==> vol.CanRead(vol.SectorLba(t.current, t.sector)))
                 && Progress(vol, ref, t.(buffer := vol.SectorAt(vol.SectorLba(t.current, t.sector))), q')
  {
    var t, chain := Advanced(vol, s), ChainOf(vol.fat, s.first);
    LengthOfFile(vol, s.Ref());
    q' := AdvancedCursor(vol, s, q);
    if t.current >= END_OF_CHAIN && t.position <= |FileBytes(vol, s.Ref())| {
      PinnedSize(vol, s.Ref(), t.position);
    }
  }

  /** `out` holds the bytes from `start` to `position`, and behind them what it held initially. */
  ghost predicate Delivered(out: seq<Byte>, initial: seq<Byte>, bytes: seq<Byte>, start: nat, position: nat) {
    && start <= position <= |bytes|
    && position - start <= |initial|
    && out == bytes[start..position] + initial[position - start..]
  }

  lemma NothingDelivered(out: seq<Byte>, bytes: seq<Byte>, start: nat)
    requires start <= |bytes|
    ensures Delivered(out, out, bytes, start, start)
  {
  }

  /** `after` is `before` with the piece of `src` that starts at `from` put at `at`. */
  ghost predicate Copied(after: seq<Byte>, before: seq<Byte>, at: nat, src: seq<Byte>, from: nat, count: nat) {
    && from + count <= |src|
    && at + count <= |before|
    && after == before[..at] + src[from..from + count] + before[at + count..]
  }

  /** One more piece is delivered behind the bytes already there. */
  lemma Extended(after: seq<Byte>, before: seq<Byte>, initial: seq<Byte>, bytes: seq<Byte>, start: nat, position: nat,
                 src: seq<Byte>, from: nat, count: nat)
    requires Delivered(before, initial, bytes, start, position)
    requires Copied(after, before, position - start, src, from, count)
    requires IsPiece(src, from, bytes, position, count)
    ensures position + count <= |bytes| && Delivered(after, initial, bytes, start, position + count)
  {
    var n := position - start;
    assert before[n + count..] == initial[n + count..];
    SlicesJoin(bytes, start, position, position + count);
  }

  /** What a slot holds once `ref` has been opened in it. */
  function OpenedState(vol: Volume, ref: FileRef): FileState
    requires vol.Valid()
  {
    FileState(ref.isDir, 0, ref.size, true, ref.first, ref.first, 0, vol.SectorAt(vol.ClusterToLba(ref.first)))
  }

  lemma OpenedCursorOk(vol: Volume, ref: FileRef)
    requires WellFormed(vol, ref)
    ensures var s := OpenedState(vol, ref); s.Ref() == ref && s.isOpen && s.position == 0 && CursorOk(vol, s)
  {
    hide FileBytes, CursorAt;
    LengthOfFile(vol, ref);
    if !ref.Empty() {
      CursorOpens(vol, ref);
    }
  }

  lemma CursorOpens(vol: Volume, ref: FileRef)
    requires WellFormed(vol, ref) && !ref.Empty()
    ensures OpenedState(vol, ref).Ref() == ref && CursorAt(vol, OpenedState(vol, ref), 0)
    ensures |FileBytes(vol, ref)| > 0
  {
    hide Volume.SectorAt, Volume.ClusterToLba, ChainBytes;
    var chain := ChainOf(vol.fat, ref.first);
    OpensAtFirstSector(vol, ref.first);
    MulMonotone(1, |chain|, vol.sectorsPerCluster);
  }

  lemma OpensAtFirstSector(vol: Volume, cluster: Word)
    ensures vol.ClusterToLba(cluster) == vol.SectorLba(cluster, 0)
  {
  }

  /** `memcpy`, on regions of two different arrays. */
  method CopyBytes(dest: array<Byte>, at: nat, src: array<Byte>, from: nat, count: nat)
    requires dest != src && at + count <= dest.Length && from + count <= src.Length
    modifies dest
    ensures Copied(dest[..], old(dest[..]), at, src[..], from, count)
  {
    for i := 0 to count
      invariant dest[..at + i] == old(dest[..at]) + src[from..from + i]
      invariant dest[at + i..] == old(dest[at + i..])
    {
      dest[at + i] := src[from + i];
      assert dest[..at + i + 1] == dest[..at + i] + [src[from + i]];
    }
  }

  /** One attempt to read a sector. If it fails, any part of the sector may have arrived. */
  method DiskRead(vol: Volume, lba: Word, attempt: nat, buffer: array<Byte>) returns (ok: bool)
    requires vol.Valid() && buffer.Length == SECTOR_SIZE
    modifies buffer
    ensures ok == vol.Delivers(lba, attempt)
    ensures ok ==> buffer[..] == vol.SectorAt(lba)
  {
    ok := vol.Delivers(lba, attempt);
    var count: nat :| count <= SECTOR_SIZE && (ok ==> count == SECTOR_SIZE);
    for i := 0 to count
      invariant buffer[..i] == vol.SectorAt(lba)[..i]
    {
      buffer[i] := vol.SectorAt(lba)[i];
      assert buffer[..i + 1] == buffer[..i] + [buffer[i]];
    }
  }

  /** `read_disk_sectors`, for one sector. */
  method ReadSector(vol: Volume, lba: Word, buffer: array<Byte>) returns (ok: bool)
    requires vol.Valid() && buffer.Length == SECTOR_SIZE
    modifies buffer
    ensures ok == vol.CanRead(lba)
    ensures ok ==> buffer[..] == vol.SectorAt(lba)
  {
    hide Volume.Valid, Volume.SectorAt;
    for attempt := 0 to ATTEMPTS
      invariant forall a | 0 <= a < attempt :: !vol.Delivers(lba, a)
    {
      ok := DiskRead(vol, lba, attempt, buffer);
      if ok {
        return;
      }
    }
    ok := false;
  }

  /** The number of bytes that a read sets out to deliver. */
  function Request(s: FileState, byteCount: Word): Word {
    if s.Ref().Limited() then SignedMin(byteCount, Wrap(s.size - s.position)) else byteCount
  }

  /** It is never too small, and does not lead behind the size. */
  lemma RequestCut(s: FileState, byteCount: Word, length: nat)
    requires byteCount < TWO31 && s.size < TWO31 && s.position <= length && (s.Ref().Limited() ==> length <= s.size)
    ensures Min(byteCount, length - s.position) <= Request(s, byteCount) <= byteCount
    ensures s.Ref().Limited() ==> s.position + Request(s, byteCount) <= s.size
  {
  }

  // One slot of the table of open files.
  class FileData {
    const buffer: array<Byte>
    var isDir: bool
    var position: nat
    var size: Word
    var isOpen: bool
    var firstCluster: Word
    var currentCluster: Word
    var currentSectorInCluster: nat

    constructor ()
      ensures buffer.Length == SECTOR_SIZE && fresh(buffer) && !isOpen
    {
      buffer := new Byte[SECTOR_SIZE];
      isOpen := false;
      isDir, position, size, firstCluster, currentCluster, currentSectorInCluster := false, 0, 0, 0, 0, 0;
    }

    ghost function State(): FileState
      reads this, buffer
    {
      FileState(isDir, position, size, isOpen, firstCluster, currentCluster, currentSectorInCluster, buffer[..])
    }

    ghost predicate Ok(vol: Volume)
      reads this, buffer
    {
      buffer.Length == SECTOR_SIZE && CursorOk(vol, State())
    }

    /** The slot is set up for a file, and its first sector loaded. Only then does it count as open. */
    method Start(vol: Volume, ref: FileRef) returns (ok: bool)
      requires vol.Valid() && buffer.Length == SECTOR_SIZE
      modifies this, buffer
      ensures ok == vol.CanRead(vol.ClusterToLba(ref.first))
      ensures if ok then State() == OpenedState(vol, ref) else isOpen == old(isOpen)
    {
      isDir := ref.isDir;
      position := 0;
      size := ref.size;
      firstCluster := ref.first;
      currentCluster := firstCluster;
      currentSectorInCluster := 0;

      ok := ReadSector(vol, vol.ClusterToLba(currentCluster), buffer);
      if ok {
        isOpen := true;
      }
    }

    ghost function Bytes(vol: Volume): seq<Byte>
      requires WellFormed(vol, State().Ref())
      reads this, buffer
    {
      FileBytes(vol, State().Ref())
    }

    /** The part of the request that the buffer can serve is copied out. */
    method Deliver(vol: Volume, ghost bytes: seq<Byte>, ghost q: nat, count: Word, out: array<Byte>, n: nat,
                   ghost initial: seq<Byte>)
      returns (take: Word)
      requires WellFormed(vol, State().Ref()) && Progress(vol, State().Ref(), State(), q)
      requires bytes == Bytes(vol) && position < |bytes| && count < TWO31
      requires State().Ref().Limited() ==> position + count <= size
      requires out != buffer && n <= position && n + count <= out.Length == |initial|
      requires Delivered(out[..], initial, bytes, position - n, position)
      modifies this`position, out
      ensures take == SignedMin(count, SECTOR_SIZE - old(position) % SECTOR_SIZE)
      ensures position == old(position) + take <= |bytes| && buffer.Length == SECTOR_SIZE
      ensures Delivered(out[..], initial, bytes, old(position) - n, position)
    {
      hide FileBytes, Progress, WellFormed, Delivered, Copied, IsPiece, SignedMin;
      ghost var before, from := out[..], position % SECTOR_SIZE;
      TakeFits(vol, State(), q, count);
      PieceInRange(State().buffer, from, bytes, position, SignedMin(count, SECTOR_SIZE - from));
      take := SignedMin(count, SECTOR_SIZE - position % SECTOR_SIZE);
      CopyBytes(out, n, buffer, position % SECTOR_SIZE, take);
      Extended(out[..], before, initial, bytes, position - n, position, buffer[..], from, take);
      position := position + take;
    }

    /** At the end of a sector the cursor moves on: the next sector is loaded, or the size is pinned. */
    method LoadNextSector(vol: Volume, ghost before: FileState, ghost q: nat) returns (more: bool, ghost q': nat)
      requires WellFormed(vol, before.Ref()) && Progress(vol, before.Ref(), before, q)
      requires before.position < |FileBytes(vol, before.Ref())| && buffer.Length == SECTOR_SIZE
      requires State() == before.(position := position)
      requires position == SECTOR_SIZE * (before.position / SECTOR_SIZE + 1) <= |FileBytes(vol, before.Ref())|
      modifies this`currentCluster, this`currentSectorInCluster, this`size, buffer
      ensures WellFormed(vol, State().Ref()) && Bytes(vol) == FileBytes(vol, before.Ref())
      ensures more ==> State().Ref() == before.Ref() && Progress(vol, before.Ref(), State(), q')
      ensures !more && Readable(vol, before.Ref()) ==>
                position == |Bytes(vol)| && Ok(vol) && Readable(vol, State().Ref())
    {
      hide FileBytes, Progress, WellFormed, CursorOk, Readable, NextCluster, Cached;
      q' := MovesOn(vol, before, q);
      currentSectorInCluster := currentSectorInCluster + 1;
      if currentSectorInCluster >= vol.sectorsPerCluster {
        currentSectorInCluster := 0;
        currentCluster := NextCluster(vol.fat, currentCluster);
      }

      if currentCluster >= END_OF_CHAIN {
        size := position;
        return false, q';
      }

      more := ReadSector(vol, vol.SectorLba(currentCluster, currentSectorInCluster), buffer);
    }

    /** One round of the reading loop. */
    method Serve(vol: Volume, ghost q: nat, count: Word, out: array<Byte>, n: nat, ghost initial: seq<Byte>)
      returns (take: Word, more: bool, ghost q': nat)
      requires WellFormed(vol, State().Ref()) && Progress(vol, State().Ref(), State(), q)
      requires position < |Bytes(vol)| && 0 < count < TWO31 && (State().Ref().Limited() ==> position + count <= size)
      requires out != buffer && n <= position && n + count <= out.Length == |initial|
      requires Delivered(out[..], initial, Bytes(vol), position - n, position)
      modifies this`position, this`currentCluster, this`currentSectorInCluster, this`size, out, buffer
      ensures WellFormed(vol, State().Ref()) && Bytes(vol) == old(Bytes(vol))
      ensures 0 < take <= count && position == old(position) + take <= |Bytes(vol)|
      ensures Delivered(out[..], initial, Bytes(vol), old(position) - n, position)
      ensures more ==> State().Ref() == old(State().Ref()) && Progress(vol, State().Ref(), State(), q')
                       && (position == |Bytes(vol)| ==> size == position && State().Ref().Limited())
      ensures !more && old(Readable(vol, State().Ref())) ==>
                position == |Bytes(vol)| && Ok(vol) && Readable(vol, State().Ref())
    {
      hide FileBytes, Progress, CursorOk, Readable, WellFormed, Delivered, SignedMin;
      ghost var state := State();
      more, q' := true, q;
      var left := SECTOR_SIZE - position % SECTOR_SIZE;
      TakeInSector(position, count);
      take := Deliver(vol, Bytes(vol), q, count, out, n, initial);
      if left == take {
        more, q' := LoadNextSector(vol, state, q);
      } else {
        StaysInSector(vol, state, q, take);
      }
      if more {
        ProgressAtEnd(vol, state.Ref(), State(), q');
      }
    }

    /** Reads up to `byteCount` bytes at the position. Whatever was delivered is the flat bytes of the file
        from the old position; a failed disk read only shortens it, and without one nothing is missing. */
    method Read(vol: Volume, byteCount: Word, out: array<Byte>) returns (n: nat)
      requires Ok(vol) && byteCount < TWO31
      requires out != buffer && byteCount <= out.Length
      modifies this, buffer, out
      ensures isDir == old(isDir) && isOpen == old(isOpen) && firstCluster == old(firstCluster)
      ensures WellFormed(vol, State().Ref()) && Bytes(vol) == old(Bytes(vol))
      ensures position == old(position) + n && n <= |FlatRead(Bytes(vol), old(position), byteCount)|
      ensures Delivered(out[..], old(out[..]), Bytes(vol), old(position), position)
      ensures old(Readable(vol, State().Ref())) ==>
                && n == |FlatRead(Bytes(vol), old(position), byteCount)|
                && Ok(vol) && Readable(vol, State().Ref())
    {
      hide FileBytes, Progress, CursorOk, Readable, WellFormed, Delivered, SignedMin, Wrap, FlatRead;
      CursorInRange(vol, State());
      ghost var ref, bytes, start := State().Ref(), Bytes(vol), position;
      ghost var q := ProgressBegins(vol, State());

      var count := byteCount;
      if !isDir || size != 0 {
        count := SignedMin(byteCount, Wrap(size - position));
      }
      ghost var limit := count;
      assert limit == Request(State(), byteCount);
      RequestCut(State(), byteCount, |bytes|);
      ReadLength(bytes, start, byteCount);
      ghost var initial := out[..];
      NothingDelivered(initial, bytes, start);
      n := 0;

      var more := true;
      while count > 0 && more
        invariant isOpen == old(isOpen) && firstCluster == old(firstCluster) && isDir == old(isDir)
        invariant WellFormed(vol, State().Ref()) && Bytes(vol) == bytes
        invariant position == start + n <= |bytes| && count == limit - n
        invariant more ==> State().Ref() == ref && Progress(vol, ref, State(), q)
        invariant more && position == |bytes| ==> count == 0
        invariant !more && Readable(vol, ref) ==> position == |bytes| && Ok(vol) && Readable(vol, State().Ref())
        invariant Delivered(out[..], initial, bytes, start, position)
      {
        var take;
        take, more, q := Serve(vol, q, count, out, n, initial);
        n := n + take;
        count := count - take;
      }
      if more {
        ProgressKept(vol, ref, State(), q);
      }
    }

    /** The file is `bytes`, its cursor is in order, and all its sectors can be read. */
    ghost predicate Holds(vol: Volume, bytes: seq<Byte>)
      reads this, buffer
    {
      Ok(vol) && Readable(vol, State().Ref()) && Bytes(vol) == bytes && position <= |bytes|
    }

    /** `Read` where no disk read fails. */
    method ReadSound(vol: Volume, ghost bytes: seq<Byte>, byteCount: Word, out: array<Byte>) returns (n: nat)
      requires Holds(vol, bytes) && byteCount < TWO31
      requires out != buffer && byteCount <= out.Length
      modifies this, buffer, out
      ensures Holds(vol, bytes) && isOpen == old(isOpen)
      ensures position == old(position) + n && n == Min(byteCount, |bytes| - old(position))
      ensures Delivered(out[..], old(out[..]), bytes, old(position), position)
    {
      n := Read(vol, byteCount, out);
    }
  }

  /** However a caller cuts its requests, from an array to each: the pieces join to one slice of the file. */
  method ReadPieces(vol: Volume, ghost bytes: seq<Byte>, fd: FileData, counts: seq<nat>) returns (text: seq<Byte>)
    requires fd.Holds(vol, bytes) && forall c | c in counts :: c < TWO31
    modifies fd, fd.buffer
    ensures fd.Holds(vol, bytes) && fd.isOpen == old(fd.isOpen)
    ensures text == FlatReads(bytes, old(fd.position), counts) == FlatRead(bytes, old(fd.position), Sum(counts))
    ensures fd.position == old(fd.position) + |text|
  {
    hide FileData.Holds, Delivered, FlatReads, FlatRead, Sum, Min;
    ghost var start := fd.position;
    PositionOf(vol, bytes, fd);
    text := [];
    assert counts[0..] == counts;
    for i := 0 to |counts|
      invariant fd.Holds(vol, bytes) && fd.isOpen == old(fd.isOpen)
      invariant fd.position == start + |text| <= |bytes|
      invariant text + FlatReads(bytes, fd.position, counts[i..]) == FlatReads(bytes, start, counts)
    {
      assert counts[i] in counts;
      var out := new Byte[counts[i]];
      ghost var position, initial := fd.position, out[..];
      var n := fd.ReadSound(vol, bytes, counts[i], out);
      PieceDelivered(out[..], initial, bytes, position, n);
      NextRead(bytes, position, counts, i, text);
      text := text + out[..n];
      PositionOf(vol, bytes, fd);
    }
    assert counts[|counts|..] == [];
    NoMoreReads(bytes, fd.position);
    ReadsAreConsecutive(bytes, start, counts);
  }

  lemma PositionOf(vol: Volume, bytes: seq<Byte>, fd: FileData)
    requires fd.Holds(vol, bytes)
    ensures fd.position <= |bytes|
  {
  }

  lemma PieceDelivered(out: seq<Byte>, initial: seq<Byte>, bytes: seq<Byte>, position: nat, n: nat)
    requires Delivered(out, initial, bytes, position, position + n)
    ensures position + n <= |bytes| && n <= |out| && out[..n] == bytes[position..position + n]
  {
  }

  lemma NextRead(bytes: seq<Byte>, position: nat, counts: seq<nat>, i: nat, text: seq<Byte>)
    requires position <= |bytes| && i < |counts|
    ensures text + FlatReads(bytes, position, counts[i..])
         == text + bytes[position..position + Min(counts[i], |bytes| - position)]
            + FlatReads(bytes, position + Min(counts[i], |bytes| - position), counts[i + 1..])
  {
    hide FlatReads;
    FirstRead(bytes, position, counts[i..]);
    assert counts[i..][1..] == counts[i + 1..];
  }

  lemma NoMoreReads(bytes: seq<Byte>, position: nat)
    requires position <= |bytes|
    ensures FlatReads(bytes, position, []) == []
  {
  }
}
