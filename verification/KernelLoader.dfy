/** Loading the kernel: the file is read through a 64 KiB buffer into its place in memory. */
module KernelLoader {
  import opened Words
  import opened Fat32Volume
  import opened Fat32Names
  import opened Fat32File
  import opened Fat32

  const MEMORY_LOAD_SIZE := 0x1_0000

  /** The number of requests of the full buffer size it takes to read `length` bytes. */
  function Rounds(length: nat): nat {
    (length + MEMORY_LOAD_SIZE - 1) / MEMORY_LOAD_SIZE
  }

  /** Rounds of 64 KiB, as few as will do. */
  lemma RoundsSuffice(length: nat)
    ensures length <= 65536 * Rounds(length) < length + 65536
  {
  }

  /** After `rounds` rounds `at` bytes of `length` have been read. */
  ghost predicate Counted(length: nat, at: nat, rounds: nat) {
    at == MEMORY_LOAD_SIZE * rounds <= length || (at == length && rounds == Rounds(length))
  }

  lemma CountNone(length: nat)
    ensures Counted(length, 0, 0)
  {
  }

  lemma CountRound(length: nat, at: nat, rounds: nat, read: nat)
    requires Counted(length, at, rounds) && at < length && read == Min(MEMORY_LOAD_SIZE, length - at)
    ensures Counted(length, at + read, rounds + 1)
  {
  }

  lemma CountedAll(length: nat, rounds: nat)
    requires Counted(length, length, rounds)
    ensures rounds == Rounds(length)
  {
  }

  lemma PieceRead(buffer: seq<Byte>, before: seq<Byte>, bytes: seq<Byte>, at: nat, read: nat)
    requires Delivered(buffer, before, bytes, at, at + read)
    ensures at + read <= |bytes| && read <= |buffer| && IsPiece(buffer, 0, bytes, at, read)
  {
  }

  lemma AllDelivered(memory: seq<Byte>, initial: seq<Byte>, bytes: seq<Byte>)
    requires Delivered(memory, initial, bytes, 0, |bytes|)
    ensures |bytes| <= |initial| && memory == bytes + initial[|bytes|..]
  {
    assert bytes[0..|bytes|] == bytes;
  }

  /** What was read goes behind what is there already. */
  method CopyPiece(ghost bytes: seq<Byte>, ghost initial: seq<Byte>, buffer: array<Byte>, kernel: array<Byte>, at: nat,
                   read: nat)
    requires buffer != kernel && read <= buffer.Length && at + read <= |bytes| <= kernel.Length
    requires Delivered(kernel[..], initial, bytes, 0, at) && IsPiece(buffer[..], 0, bytes, at, read)
    modifies kernel
    ensures Delivered(kernel[..], initial, bytes, 0, at + read)
  {
    hide Delivered, Copied, IsPiece;
    ghost var before := kernel[..];
    CopyBytes(kernel, at, buffer, 0, read);
    Extended(kernel[..], before, initial, bytes, 0, at, buffer[..], 0, read);
  }

  /** Reads an open file from its start to its end. Exactly as many rounds deliver something as its length
      demands, and the memory behind the file is left alone. */
  method ReadAll(vol: Volume, ghost bytes: seq<Byte>, fd: FileData, buffer: array<Byte>, kernel: array<Byte>)
    returns (ghost rounds: nat)
    requires fd.Holds(vol, bytes) && fd.position == 0
    requires buffer.Length == MEMORY_LOAD_SIZE && |bytes| <= kernel.Length
    requires buffer != kernel && buffer != fd.buffer && kernel != fd.buffer
    modifies fd, fd.buffer, buffer, kernel
    ensures kernel[..] == bytes + old(kernel[..])[|bytes|..]
    ensures rounds == Rounds(|bytes|)
    ensures fd.isOpen == old(fd.isOpen)
  {
    hide FileData.Holds, Delivered, Copied, IsPiece, Counted, Rounds;
    ghost var initial := kernel[..];
    NothingDelivered(initial, bytes, 0);
    CountNone(|bytes|);
    var at := 0;
    rounds := 0;
    while true
      invariant fd.Holds(vol, bytes) && fd.isOpen == old(fd.isOpen)
      invariant at == fd.position <= |bytes|
      invariant Counted(|bytes|, at, rounds)
      invariant Delivered(kernel[..], initial, bytes, 0, at)
      decreases |bytes| - at
    {
      ghost var loaded := buffer[..];
      var read := fd.ReadSound(vol, bytes, MEMORY_LOAD_SIZE, buffer);
      if read == 0 {
        break;
      }
      PieceRead(buffer[..], loaded, bytes, at, read);
      CopyPiece(bytes, initial, buffer, kernel, at, read);
      CountRound(|bytes|, at, rounds, read);
      at := at + read;
      rounds := rounds + 1;
    }
    AllDelivered(kernel[..], initial, bytes);
    CountedAll(|bytes|, rounds);
  }

  /** Opening, loading and closing: on success the memory holds the file the path resolves to, and in every
      case the files that were open before are the ones that are open after. */
  method LoadKernel(fs: FileSystem, path: seq<Byte>, buffer: array<Byte>, kernel: array<Byte>)
    returns (code: int, ghost rounds: nat)
    requires fs.Valid() && Walkable(fs.vol, fs.root, Components(WithoutRoot(path))) && NamesFit(WithoutRoot(path))
    requires match Resolve(fs.vol, fs.root, Components(WithoutRoot(path)))
             case Failed(_) => true
             case Found(ref) =>
               WellFormed(fs.vol, ref) && Readable(fs.vol, ref) && |FileBytes(fs.vol, ref)| <= kernel.Length
    requires buffer.Length == MEMORY_LOAD_SIZE && buffer != kernel
    requires buffer !in fs.Buffers() && kernel !in fs.Buffers()
    modifies fs.files, fs.Buffers(), buffer, kernel
    ensures code == 0 ==>
              && Resolve(fs.vol, fs.root, Components(WithoutRoot(path))).Found?
              && var bytes := FileBytes(fs.vol, Resolve(fs.vol, fs.root, Components(WithoutRoot(path))).ref);
                 && kernel[..] == bytes + old(kernel[..])[|bytes|..]
                 && rounds == Rounds(|bytes|)
    ensures code != 0 ==> kernel[..] == old(kernel[..])
    ensures OpenSlots(fs.Table()) == OpenSlots(old(fs.Table()))
  {
    hide CursorOk, WellFormed, Readable, FileBytes, Resolve, Walkable, Components, NamesFit, FirstFree, LowerOpen,
      OpenSlots, OpenedState, Rounds, FileData.Holds, Volume.Valid;
    ghost var table := fs.Table();
    rounds := 0;
    var fd;
    code, fd := fs.Open(path);
    if code != 0 {
      return;
    }
    ghost var ref := Resolve(fs.vol, fs.root, Components(WithoutRoot(path))).ref;
    OpenedHolds(fs.vol, fs.files[fd], ref);
    rounds := ReadAll(fs.vol, FileBytes(fs.vol, ref), fs.files[fd], buffer, kernel);
    fs.Close(fd);
    FreeAgain(table, fs.Table(), fd);
  }

  lemma OpenedHolds(vol: Volume, fd: FileData, ref: FileRef)
    requires vol.Valid() && WellFormed(vol, ref) && Readable(vol, ref)
    requires fd.buffer.Length == SECTOR_SIZE && fd.State() == OpenedState(vol, ref)
    ensures fd.Holds(vol, FileBytes(vol, ref)) && fd.position == 0
  {
    hide CursorOk, WellFormed, Readable, FileBytes;
    OpenedCursorOk(vol, ref);
    CursorInRange(vol, OpenedState(vol, ref));
  }

  /** The slot that was taken has been given back. */
  lemma FreeAgain(a: seq<FileState>, b: seq<FileState>, h: nat)
    requires SameBut(a, b, h) && h == FirstFree(a) < |a| && !b[h].isOpen
    ensures OpenSlots(a) == OpenSlots(b)
  {
    HandlesConserved(a, b, h);
  }
}
