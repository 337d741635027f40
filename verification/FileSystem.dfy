/** The read-only file system of filesys.c, on the raw bytes of the mounted image: one boot
    block, `num_inodes` inode blocks, then the data blocks, 4096 bytes each. */
module FileSystem {
  import opened Bytes
  import Strings

  const NAME_SIZE := 32
  const ENTRY_SIZE := 64
  const MAX_FILES := 63
  const MAX_DATA_NUM := 1023
  const BLOCK_SIZE := 4096
  const MAX_LENGTH := 1023 * 4096

  // ------------------------------------------------------------ layout

  function NumInodes(img: seq<byte>): word
    requires |img| >= BLOCK_SIZE
  {
    Word(img, 4)
  }

  function NumBlocks(img: seq<byte>): word
    requires |img| >= BLOCK_SIZE
  {
    Word(img, 8)
  }

  /** setup_fs: the data blocks follow the boot block and the inodes. */
  function DataStart(img: seq<byte>): nat
    requires |img| >= BLOCK_SIZE
  {
    BLOCK_SIZE + NumInodes(img) * BLOCK_SIZE
  }

  function InodeAt(inode: nat): nat {
    BLOCK_SIZE * (inode + 1)
  }

  function InodeLength(img: seq<byte>, inode: nat): word
    requires InodeAt(inode) + 4 <= |img|
  {
    Word(img, InodeAt(inode))
  }

  /** Entry `k` of the block list; entry 1023 is already the first word of the next inode. */
  function BlockNumber(img: seq<byte>, inode: nat, k: nat): word
    requires InodeAt(inode) + 8 + 4 * k <= |img|
  {
    Word(img, InodeAt(inode) + 4 + 4 * k)
  }

  function EntryAt(index: nat): nat {
    ENTRY_SIZE + ENTRY_SIZE * index
  }

  function Dentry(img: seq<byte>, index: nat): seq<byte>
    requires EntryAt(index) + ENTRY_SIZE <= |img|
  {
    img[EntryAt(index)..EntryAt(index) + ENTRY_SIZE]
  }

  function DentryType(d: seq<byte>): word requires |d| == ENTRY_SIZE { Word(d, 32) }

  function DentryInode(d: seq<byte>): word requires |d| == ENTRY_SIZE { Word(d, 36) }

  /** The length fits the block list, and the word behind a full list is still in the image. */
  predicate InodeFits(img: seq<byte>, inode: nat)
    requires |img| >= BLOCK_SIZE && inode < NumInodes(img) && DataStart(img) <= |img|
  {
    InodeLength(img, inode) <= MAX_LENGTH && (InodeLength(img, inode) == MAX_LENGTH ==> NumBlocks(img) > 0)
  }

  /** Every block of the file exists. */
  predicate BlocksExist(img: seq<byte>, inode: nat)
    requires |img| >= BLOCK_SIZE && inode < NumInodes(img) && DataStart(img) <= |img|
    requires InodeFits(img, inode)
  {
    forall k :: 0 <= k < MAX_DATA_NUM && BLOCK_SIZE * k < InodeLength(img, inode) ==>
        BlockNumber(img, inode, k) < NumBlocks(img)
  }

  predicate EntryWellFormed(img: seq<byte>, index: nat)
    requires |img| >= BLOCK_SIZE && EntryAt(index) + ENTRY_SIZE <= |img|
  {
    0 in Dentry(img, index) && (index < MAX_FILES ==> DentryInode(Dentry(img, index)) < NumInodes(img))
  }

  /** An image that read_data can read: it is as large as its header says and the lengths fit. The
      block numbers are arbitrary. */
  ghost predicate LaidOut(img: seq<byte>) {
    |img| >= BLOCK_SIZE && |img| == DataStart(img) + NumBlocks(img) * BLOCK_SIZE &&
    forall i :: 0 <= i < NumInodes(img) ==> InodeFits(img, i)
  }

  /** An image without damage: every file has its blocks, every entry its inode. */
  ghost predicate WellFormed(img: seq<byte>) {
    LaidOut(img) && NumInodes(img) >= 1 && (forall i :: 0 <= i < NumInodes(img) ==> BlocksExist(img, i)) &&
    (forall i :: 0 <= i < MAX_FILES || 0 <= i <= NumInodes(img) ==> EntryWellFormed(img, i))
  }

  // ------------------------------------------------------------ file contents

  predicate HasBlock(img: seq<byte>, inode: nat, pos: nat)
    requires |img| >= BLOCK_SIZE && InodeAt(inode) + 8 + 4 * (pos / BLOCK_SIZE) <= |img|
  {
    BlockNumber(img, inode, pos / BLOCK_SIZE) < NumBlocks(img)
  }

  /** Where the block map puts position `pos` of the file. */
  function BytePos(img: seq<byte>, inode: nat, pos: nat): nat
    requires |img| >= BLOCK_SIZE && InodeAt(inode) + 8 + 4 * (pos / BLOCK_SIZE) <= |img|
  {
    DataStart(img) + BlockNumber(img, inode, pos / BLOCK_SIZE) * BLOCK_SIZE + pos % BLOCK_SIZE
  }

  lemma BlockListReadable(img: seq<byte>, inode: nat, pos: nat)
    requires LaidOut(img) && inode < NumInodes(img)
    requires pos <= InodeLength(img, inode) || (pos == InodeLength(img, inode) + 1 && NumBlocks(img) > 0)
    ensures InodeAt(inode) + 8 + 4 * (pos / BLOCK_SIZE) <= |img|
  {
    assert InodeFits(img, inode);
  }

  /** read_data's two tests let position `pos` through. The length itself is let through. */
  predicate Served(img: seq<byte>, inode: nat, pos: nat)
    requires LaidOut(img) && inode < NumInodes(img)
  {
    pos <= InodeLength(img, inode) && (BlockListReadable(img, inode, pos); HasBlock(img, inode, pos))
  }

  /** The byte the block map gives for position `pos` of the file. */
  function FileByte(img: seq<byte>, inode: nat, pos: nat): byte
    requires LaidOut(img) && inode < NumInodes(img) && Served(img, inode, pos)
  {
    BlockListReadable(img, inode, pos);
    img[BytePos(img, inode, pos)]
  }

  /** How many positions from `pos` on are served before the first that is not. */
  function Reach(img: seq<byte>, inode: nat, pos: nat): (n: nat)
    requires LaidOut(img) && inode < NumInodes(img)
    ensures n > 0 ==> pos + n <= InodeLength(img, inode) + 1
    ensures forall p :: pos <= p < pos + n ==> Served(img, inode, p)
    ensures !Served(img, inode, pos + n)
    decreases if pos <= InodeLength(img, inode) then InodeLength(img, inode) + 1 - pos else 0
  {
    if Served(img, inode, pos) then 1 + Reach(img, inode, pos + 1) else 0
  }

  /** `n` bytes from `pos` on. */
  function Stretch(img: seq<byte>, inode: nat, pos: nat, n: nat): (s: seq<byte>)
    requires LaidOut(img) && inode < NumInodes(img) && n <= Reach(img, inode, pos)
    ensures |s| == n
  {
    seq<byte>(n, k requires 0 <= k < n => FileByte(img, inode, pos + k))
  }

  /** Every byte a reader that starts at 0 can be given, in order. */
  function Contents(img: seq<byte>, inode: nat): (s: seq<byte>)
    requires LaidOut(img) && inode < NumInodes(img)
    ensures |s| == Reach(img, inode, 0) <= InodeLength(img, inode) + 1 <= MAX_LENGTH + 1
    ensures WellFormed(img) ==> InodeLength(img, inode) <= |s|
  {
    assert InodeFits(img, inode);
    WholeFileServed(img, inode);
    Stretch(img, inode, 0, Reach(img, inode, 0))
  }

  lemma WholeFileServed(img: seq<byte>, inode: nat)
    requires LaidOut(img) && inode < NumInodes(img)
    ensures WellFormed(img) ==> forall p :: 0 <= p < InodeLength(img, inode) ==> Served(img, inode, p)
  {
    if WellFormed(img) {
      assert InodeFits(img, inode) && BlocksExist(img, inode);
      forall p | 0 <= p < InodeLength(img, inode) ensures Served(img, inode, p) {
        BlockListReadable(img, inode, p);
        assert BLOCK_SIZE * (p / BLOCK_SIZE) < InodeLength(img, inode);
      }
    }
  }

  /** Reading on from within the contents reaches their end. */
  lemma ReachWithin(img: seq<byte>, inode: nat, pos: nat)
    requires LaidOut(img) && inode < NumInodes(img) && pos <= |Contents(img, inode)|
    ensures Reach(img, inode, pos) == |Contents(img, inode)| - pos
  {
    hide Served;
    var n, m := Reach(img, inode, pos), Reach(img, inode, 0);
    assert !Served(img, inode, pos + n) && !Served(img, inode, m);
  }

  lemma StretchWithin(img: seq<byte>, inode: nat, pos: nat, n: nat)
    requires LaidOut(img) && inode < NumInodes(img) && n <= Reach(img, inode, pos)
    ensures pos <= |Contents(img, inode)| ==>
              pos + n <= |Contents(img, inode)| && Stretch(img, inode, pos, n) == Contents(img, inode)[pos..pos + n]
  {
    hide Served, FileByte;
    if pos <= |Contents(img, inode)| {
      ReachWithin(img, inode, pos);
    }
  }

  /** The file itself. */
  function File(img: seq<byte>, inode: nat): (s: seq<byte>)
    requires WellFormed(img) && inode < NumInodes(img)
    ensures |s| == InodeLength(img, inode)
  {
    Contents(img, inode)[..InodeLength(img, inode)]
  }

  /** The request after read_data has clamped it (in 32-bit arithmetic). */
  function ReadLimit(filelength: word, offset: word, length: word): word {
    if (offset + length) % 0x1_0000_0000 > filelength then filelength else length
  }

  /** How many bytes read_data delivers, for a nonzero request on a valid inode. */
  function ReadCount(img: seq<byte>, inode: nat, offset: word, length: word): (n: nat)
    requires LaidOut(img) && inode < NumInodes(img)
    ensures n <= length && n <= Reach(img, inode, offset)
  {
    var len := InodeLength(img, inode);
    if offset > len then 0 else Min(ReadLimit(len, offset, length), Reach(img, inode, offset))
  }

  /** The bytes delivered. */
  function Delivered(img: seq<byte>, inode: nat, offset: word, length: word): (s: seq<byte>)
    requires LaidOut(img) && inode < NumInodes(img)
    ensures |s| == ReadCount(img, inode, offset, length)
    ensures offset <= |Contents(img, inode)| ==>
              offset + |s| <= |Contents(img, inode)| && s == Contents(img, inode)[offset..offset + |s|]
  {
    var n := ReadCount(img, inode, offset, length);
    StretchWithin(img, inode, offset, n);
    Stretch(img, inode, offset, n)
  }

  // ------------------------------------------------------------ read_data

  /** The image is in memory at `boot`. */
  ghost predicate Mounted(m: seq<byte>, boot: nat, img: seq<byte>) {
    boot + |img| <= |m| && m[boot..boot + |img|] == img
  }

  lemma MountedByte(m: seq<byte>, boot: nat, img: seq<byte>, off: nat)
    requires Mounted(m, boot, img) && off < |img|
    ensures m[boot + off] == img[off]
  {
    assert img[off] == m[boot..boot + |img|][off];
  }

  lemma MountedWord(m: seq<byte>, boot: nat, img: seq<byte>, off: nat)
    requires Mounted(m, boot, img) && off + 4 <= |img|
    ensures Word(m, boot + off) == Word(img, off)
  {
    forall k | off <= k < off + 4 ensures m[boot + k] == img[k] {
      MountedByte(m, boot, img, k);
    }
  }

  method FetchWord(disk: array<byte>, boot: nat, off: nat, ghost img: seq<byte>) returns (w: word)
    requires Mounted(disk[..], boot, img) && off + 4 <= |img|
    ensures w == Word(img, off)
  {
    MountedWord(disk[..], boot, img, off);
    w := Word(disk[boot + off..boot + off + 4], 0);
  }

  /** read_data. The buffer may be the memory that holds the image, outside the image. */
  method ReadData(disk: array<byte>, boot: nat, inode: word, offset: word, buf: array?<byte>, at: nat, length: word,
                  ghost img: seq<byte>)
    returns (r: int)
    requires Mounted(disk[..], boot, img) && LaidOut(img) && inode < NumInodes(img)
    requires buf != null && length != 0 && inode <= MAX_DATA_NUM ==>
               var n := ReadCount(img, inode, offset, length);
               at + n <= buf.Length && (buf != disk || n == 0 || at + n <= boot || boot + |img| <= at)
    modifies if buf == null then {} else {buf}
    ensures r == -1 <==> length == 0 || buf == null || inode > MAX_DATA_NUM
    ensures r != -1 ==> r == ReadCount(img, inode, offset, length) &&
                        buf[..] == Splice(old(buf[..]), at, Delivered(img, inode, offset, length))
    ensures r == -1 && buf != null ==> buf[..] == old(buf[..])
  {
    var filelength := FetchWord(disk, boot, InodeAt(inode), img);
    if length == 0 || buf == null || inode > MAX_DATA_NUM {
      return -1;
    }
    r := ReadLoop(disk, boot, inode, offset, buf, at, length, filelength, img);
  }

  /** read_data after its argument check. */
  method ReadLoop(disk: array<byte>, boot: nat, inode: word, offset: word, buf: array<byte>, at: nat, length: word,
                  filelength: word, ghost img: seq<byte>)
    returns (bytesread: nat)
    requires Mounted(disk[..], boot, img) && LaidOut(img) && inode < NumInodes(img)
    requires filelength == InodeLength(img, inode)
    requires var n := ReadCount(img, inode, offset, length);
             at + n <= buf.Length && (buf != disk || n == 0 || at + n <= boot || boot + |img| <= at)
    modifies buf
    ensures bytesread == ReadCount(img, inode, offset, length)
    ensures buf[..] == Splice(old(buf[..]), at, Delivered(img, inode, offset, length))
  {
    ghost var was := buf[..];
    bytesread := 0;
    if offset > filelength {
      return;
    }
    hide Contents, FileByte, Partial, LaidOut, ReadCount;
    var limit := ReadLimit(filelength, offset, length);
    ReadStart(img, inode, offset, length, was, at);
    var more := true;
    while bytesread < limit && more
      invariant bytesread <= ReadCount(img, inode, offset, length) <= limit
      invariant !more ==> bytesread == ReadCount(img, inode, offset, length)
      invariant Mounted(disk[..], boot, img)
      invariant Partial(img, inode, offset, bytesread, was, buf[..], at)
      decreases limit - bytesread, more
    {
      more := ReadByte(disk, boot, inode, offset, buf, at, length, filelength, bytesread, was, img);
      if more {
        bytesread := bytesread + 1;
      }
    }
    PartialEnd(img, inode, offset, length, bytesread, was, buf[..], at);
  }

  /** The body of the reading loop: one byte, unless one of its two tests ends the loop. */
  method ReadByte(disk: array<byte>, boot: nat, inode: word, offset: word, buf: array<byte>, at: nat, length: word,
                  filelength: word, bytesread: nat, ghost was: seq<byte>, ghost img: seq<byte>)
    returns (more: bool)
    requires Mounted(disk[..], boot, img) && LaidOut(img) && inode < NumInodes(img)
    requires filelength == InodeLength(img, inode) && offset <= filelength
    requires bytesread <= ReadCount(img, inode, offset, length) && bytesread < ReadLimit(filelength, offset, length)
    requires at + ReadCount(img, inode, offset, length) <= buf.Length == |was|
    requires buf == disk && bytesread < ReadCount(img, inode, offset, length) ==>
               at + bytesread < boot || boot + |img| <= at + bytesread
    requires Partial(img, inode, offset, bytesread, was, buf[..], at)
    modifies buf
    ensures Mounted(disk[..], boot, img)
    ensures more <==> bytesread < ReadCount(img, inode, offset, length)
    ensures Partial(img, inode, offset, if more then bytesread + 1 else bytesread, was, buf[..], at)
  {
    hide Contents, FileByte, Partial, LaidOut, ReadCount;
    hide Served, Reach, Stretch, Delivered;
    ReadStep(img, inode, offset, length, bytesread);
    var position := offset + bytesread;
    var blocknum, blockoff := position / BLOCK_SIZE, position % BLOCK_SIZE;
    var block := FetchWord(disk, boot, InodeAt(inode) + 4 + 4 * blocknum, img);
    var maxblocks := FetchWord(disk, boot, 8, img);
    var numInodes := FetchWord(disk, boot, 4, img);
    if block >= maxblocks {
      return false;
    }
    if position > filelength {
      return false;
    }
    var from := BLOCK_SIZE + numInodes * BLOCK_SIZE + block * BLOCK_SIZE + blockoff;
    MountedByte(disk[..], boot, img, from);
    PartialStep(img, inode, offset, length, bytesread, was, buf[..], at);
    CopyOneByte(disk, boot + from, buf, at + bytesread, boot, img);
    return true;
  }

  /** The first `k` bytes from `offset` on have reached the buffer. */
  ghost predicate Partial(img: seq<byte>, inode: nat, offset: nat, k: nat, was: seq<byte>, now: seq<byte>, at: nat) {
    LaidOut(img) && inode < NumInodes(img) && k <= Reach(img, inode, offset) && at + k <= |was| &&
    now == Splice(was, at, Stretch(img, inode, offset, k))
  }

  lemma ReadStart(img: seq<byte>, inode: nat, offset: word, length: word, was: seq<byte>, at: nat)
    requires LaidOut(img) && inode < NumInodes(img) && offset <= InodeLength(img, inode) && at <= |was|
    ensures Partial(img, inode, offset, 0, was, was, at)
    ensures ReadCount(img, inode, offset, length) <= ReadLimit(InodeLength(img, inode), offset, length)
  {
  }

  lemma PartialStep(img: seq<byte>, inode: nat, offset: word, length: word, k: nat, was: seq<byte>, now: seq<byte>,
                    at: nat)
    requires LaidOut(img) && inode < NumInodes(img) && k < ReadCount(img, inode, offset, length)
    requires at + k < |was| && Partial(img, inode, offset, k, was, now, at)
    requires InodeAt(inode) + 8 + 4 * ((offset + k) / BLOCK_SIZE) <= |img| && BytePos(img, inode, offset + k) < |img|
    ensures Partial(img, inode, offset, k + 1, was, now[at + k := img[BytePos(img, inode, offset + k)]], at)
  {
    hide Splice, ReadCount;
    var b := FileByte(img, inode, offset + k);
    assert Stretch(img, inode, offset, k + 1) == Stretch(img, inode, offset, k) + [b];
    SpliceMore(was, at, Stretch(img, inode, offset, k), b);
  }

  lemma SpliceMore(was: seq<byte>, at: nat, bs: seq<byte>, b: byte)
    requires at + |bs| < |was|
    ensures Splice(was, at, bs)[at + |bs| := b] == Splice(was, at, bs + [b])
  {
  }

  lemma PartialEnd(img: seq<byte>, inode: nat, offset: word, length: word, k: nat, was: seq<byte>, now: seq<byte>,
                   at: nat)
    requires LaidOut(img) && inode < NumInodes(img) && k == ReadCount(img, inode, offset, length)
    requires Partial(img, inode, offset, k, was, now, at)
    ensures now == Splice(was, at, Delivered(img, inode, offset, length))
  {
  }

  /** One round of the reading loop: the two tests of the loop body stop it exactly at the count. */
  lemma ReadStep(img: seq<byte>, inode: nat, offset: word, length: word, k: nat)
    requires LaidOut(img) && inode < NumInodes(img) && offset <= InodeLength(img, inode)
    requires k <= ReadCount(img, inode, offset, length) && k < ReadLimit(InodeLength(img, inode), offset, length)
    ensures |img| >= BLOCK_SIZE
    ensures InodeAt(inode) + 8 + 4 * ((offset + k) / BLOCK_SIZE) <= |img|
    ensures k < ReadCount(img, inode, offset, length) <==>
            HasBlock(img, inode, offset + k) && offset + k <= InodeLength(img, inode)
    ensures k < ReadCount(img, inode, offset, length) ==> BytePos(img, inode, offset + k) < |img|
  {
    var r := Reach(img, inode, offset);
    assert k < r ==> Served(img, inode, offset + k);
    assert k == r ==> !Served(img, inode, offset + k);
    if k > 0 { assert Served(img, inode, offset + k - 1); }
    BlockListReadable(img, inode, offset + k);
  }

  method CopyOneByte(disk: array<byte>, from: nat, buf: array<byte>, to: nat, boot: nat, ghost img: seq<byte>)
    requires from < disk.Length && to < buf.Length
    requires Mounted(disk[..], boot, img) && (buf != disk || to < boot || boot + |img| <= to)
    modifies buf
    ensures buf[..] == old(buf[..])[to := old(disk[from])]
    ensures Mounted(disk[..], boot, img)
  {
    buf[to] := disk[from];
    assert disk[boot..boot + |img|] == old(disk[boot..boot + |img|]);
    assert disk[..][boot..boot + |img|] == disk[boot..boot + |img|];
    assert old(disk[..])[boot..boot + |img|] == old(disk[boot..boot + |img|]);
  }

  // ------------------------------------------------------------ what a sequence of reads delivers

  /** A request inside the file is answered in full exactly when every block it touches exists. */
  lemma ReadComplete(img: seq<byte>, inode: nat, offset: word, n: word)
    requires LaidOut(img) && inode < NumInodes(img) && offset + n <= InodeLength(img, inode)
    ensures ReadCount(img, inode, offset, n) == n <==> forall p :: offset <= p < offset + n ==> Served(img, inode, p)
  {
    assert InodeFits(img, inode);
    assert (offset + n) % 0x1_0000_0000 == offset + n;
    assert !Served(img, inode, offset + Reach(img, inode, offset));
  }

  /** A request that stays inside the file gets exactly the bytes asked for. */
  lemma ReadInside(img: seq<byte>, inode: nat, offset: word, n: word)
    requires WellFormed(img) && inode < NumInodes(img) && offset + n <= InodeLength(img, inode)
    ensures Delivered(img, inode, offset, n) == File(img, inode)[offset..offset + n]
  {
    WholeFileServed(img, inode);
    ReadComplete(img, inode, offset, n);
    hide Served, Contents, InodeLength, ReadCount, Delivered;
  }

  /** A request from the start for at least the whole file gets exactly the file. */
  lemma ReadWhole(img: seq<byte>, inode: nat, n: word)
    requires WellFormed(img) && inode < NumInodes(img) && n >= InodeLength(img, inode)
    ensures Delivered(img, inode, 0, n) == File(img, inode)
  {
    assert InodeFits(img, inode);
    hide Served, Contents, InodeLength, Delivered;
    assert Reach(img, inode, 0) == |Contents(img, inode)|;
    assert ReadCount(img, inode, 0, n) == InodeLength(img, inode);
  }

  /** Where byte `pos` of a file lies: in the data block that entry pos / 4096 of the block list names,
      pos % 4096 bytes into it. */
  function Place(img: seq<byte>, inode: nat, pos: nat): int
    requires |img| >= BLOCK_SIZE && 4096 * (inode + 1) + 8 + 4 * (pos / 4096) <= |img|
  {
    4096 + 4096 * Word(img, 4) + 4096 * Word(img, 4096 * (inode + 1) + 4 + 4 * (pos / 4096)) + pos % 4096
  }

  /** A request that stays inside the file and inside one block is answered with one piece of the image,
      in order. */
  lemma ReadInBlock(img: seq<byte>, inode: nat, offset: word, n: word)
    requires LaidOut(img) && inode < NumInodes(img) && offset + n <= InodeLength(img, inode)
    requires n <= 4096 - offset % 4096
    ensures 4096 * (inode + 1) + 8 + 4 * (offset / 4096) <= |img|
    ensures HasBlock(img, inode, offset) ==>
              var a := Place(img, inode, offset);
              0 <= a && a + n <= |img| && Delivered(img, inode, offset, n) == img[a..a + n]
  {
    BlockListReadable(img, inode, offset);
    if HasBlock(img, inode, offset) {
      BlockServed(img, inode, offset, n);
      ReadComplete(img, inode, offset, n);
      var a, s := Place(img, inode, offset), Delivered(img, inode, offset, n);
      PlaceInImage(img, inode, offset, n);
      forall k | 0 <= k < n ensures s[k] == img[a + k] {
        BlockByte(img, inode, offset, n, k);
      }
      assert s == img[a..a + n];
    }
  }

  /** One block serves all its positions. */
  lemma BlockServed(img: seq<byte>, inode: nat, offset: word, n: word)
    requires LaidOut(img) && inode < NumInodes(img) && offset + n <= InodeLength(img, inode)
    requires n <= 4096 - offset % 4096 && 4096 * (inode + 1) + 8 + 4 * (offset / 4096) <= |img|
    requires HasBlock(img, inode, offset)
    ensures forall p :: offset <= p < offset + n ==> Served(img, inode, p)
  {
    forall p | offset <= p < offset + n ensures Served(img, inode, p) {
      SameBlock(offset, p);
    }
  }

  lemma SameBlock(offset: nat, p: nat)
    requires offset <= p < offset + (4096 - offset % 4096)
    ensures p / 4096 == offset / 4096 && p % 4096 == offset % 4096 + (p - offset)
  {
  }

  lemma PlaceInImage(img: seq<byte>, inode: nat, offset: word, n: word)
    requires LaidOut(img) && inode < NumInodes(img) && 4096 * (inode + 1) + 8 + 4 * (offset / 4096) <= |img|
    requires n <= 4096 - offset % 4096 && HasBlock(img, inode, offset)
    ensures 0 <= Place(img, inode, offset) && Place(img, inode, offset) + n <= |img|
  {
  }

  lemma BlockByte(img: seq<byte>, inode: nat, offset: word, n: word, k: nat)
    requires LaidOut(img) && inode < NumInodes(img) && offset + n <= InodeLength(img, inode) && k < n
    requires n <= 4096 - offset % 4096 && 4096 * (inode + 1) + 8 + 4 * (offset / 4096) <= |img|
    requires HasBlock(img, inode, offset) && ReadCount(img, inode, offset, n) == n
    ensures 0 <= Place(img, inode, offset) && Place(img, inode, offset) + n <= |img|
    ensures Delivered(img, inode, offset, n)[k] == img[Place(img, inode, offset) + k]
  {
    assert |img| >= BLOCK_SIZE;
    hide LaidOut, Word, InodeLength, Delivered, Place, BytePos, HasBlock, ReadCount, NumInodes;
    PlaceInImage(img, inode, offset, n);
    PlaceOfByte(img, inode, offset, offset + k);
    DeliveredByte(img, inode, offset, n, k);
  }

  lemma DeliveredByte(img: seq<byte>, inode: nat, offset: word, n: word, k: nat)
    requires LaidOut(img) && inode < NumInodes(img) && k < n && ReadCount(img, inode, offset, n) == n
    ensures 4096 * (inode + 1) + 8 + 4 * ((offset + k) / 4096) <= |img| && 0 <= BytePos(img, inode, offset + k) < |img|
    ensures Delivered(img, inode, offset, n)[k] == img[BytePos(img, inode, offset + k)]
  {
    hide Reach, Contents, ReadCount;
    assert Delivered(img, inode, offset, n)[k] == Stretch(img, inode, offset, n)[k] == FileByte(img, inode, offset + k);
    BlockListReadable(img, inode, offset + k);
  }

  lemma PlaceOfByte(img: seq<byte>, inode: nat, offset: nat, p: nat)
    requires |img| >= BLOCK_SIZE && 4096 * (inode + 1) + 8 + 4 * (offset / 4096) <= |img|
    requires offset <= p < offset + (4096 - offset % 4096)
    ensures 4096 * (inode + 1) + 8 + 4 * (p / 4096) <= |img|
    ensures BytePos(img, inode, p) == Place(img, inode, offset) + (p - offset)
  {
    SameBlock(offset, p);
    hide Word;
  }

  /** The pieces of the image that hold the file from block `k` on. */
  function Pieces(img: seq<byte>, inode: nat, k: nat): seq<byte>
    requires WellFormed(img) && inode < NumInodes(img)
    decreases InodeLength(img, inode) - 4096 * k
  {
    var len := InodeLength(img, inode);
    if 4096 * k >= len then [] else
    Piece(img, inode, k) + Pieces(img, inode, k + 1)
  }

  /** Block `k` of the file, as far as the file goes. */
  function Piece(img: seq<byte>, inode: nat, k: nat): (s: seq<byte>)
    requires WellFormed(img) && inode < NumInodes(img) && 4096 * k < InodeLength(img, inode)
    ensures |s| == Min(4096, InodeLength(img, inode) - 4096 * k)
  {
    PieceInImage(img, inode, k);
    var a := Place(img, inode, 4096 * k);
    img[a..a + Min(4096, InodeLength(img, inode) - 4096 * k)]
  }

  lemma PieceInImage(img: seq<byte>, inode: nat, k: nat)
    requires WellFormed(img) && inode < NumInodes(img) && 4096 * k < InodeLength(img, inode)
    ensures 4096 * (inode + 1) + 8 + 4 * (4096 * k / 4096) <= |img| && HasBlock(img, inode, 4096 * k)
    ensures var a := Place(img, inode, 4096 * k); 0 <= a && a + Min(4096, InodeLength(img, inode) - 4096 * k) <= |img|
  {
    var pos: word, n: word := 4096 * k, Min(4096, InodeLength(img, inode) - 4096 * k);
    assert pos % 4096 == 0;
    PieceServed(img, inode, pos);
    hide *;
    PlaceInImage(img, inode, pos, n);
  }

  /** One such piece. */
  lemma PieceOfFile(img: seq<byte>, inode: nat, k: nat)
    requires WellFormed(img) && inode < NumInodes(img) && 4096 * k < InodeLength(img, inode)
    ensures var n := Min(4096, InodeLength(img, inode) - 4096 * k);
            File(img, inode)[4096 * k..4096 * k + n] == Piece(img, inode, k)
  {
    assert LaidOut(img) && |img| >= BLOCK_SIZE;
    assert InodeAt(inode) + 4 <= |img| && InodeLength(img, inode) <= MAX_LENGTH by {
      assert InodeFits(img, inode);
    }
    hide WellFormed, LaidOut, File, Delivered, Place, HasBlock, InodeLength, Word, NumInodes;
    PieceInImage(img, inode, k);
    var off: word, n: word := 4096 * k, Min(4096, InodeLength(img, inode) - 4096 * k);
    assert off % 4096 == 0;
    ReadInBlock(img, inode, off, n);
    ReadInside(img, inode, off, n);
  }

  lemma PieceServed(img: seq<byte>, inode: nat, pos: nat)
    requires WellFormed(img) && inode < NumInodes(img) && pos < InodeLength(img, inode)
    ensures LaidOut(img) && 4096 * (inode + 1) + 8 + 4 * (pos / 4096) <= |img| && HasBlock(img, inode, pos)
  {
    WholeFileServed(img, inode);
    BlockListReadable(img, inode, pos);
    assert Served(img, inode, pos);
  }

  /** The file is the concatenation of its blocks, as they lie in the image, cut at its length. */
  lemma {:induction false} FileIsPieces(img: seq<byte>, inode: nat, k: nat := 0)
    requires WellFormed(img) && inode < NumInodes(img) && 4096 * k <= InodeLength(img, inode)
    ensures File(img, inode)[4096 * k..] == Pieces(img, inode, k)
    decreases InodeLength(img, inode) - 4096 * k
  {
    var len := InodeLength(img, inode);
    hide WellFormed, File, Pieces, InodeLength;
    if 4096 * (k + 1) <= len {
      FileIsPieces(img, inode, k + 1);
      NextPiece(img, inode, k);
    } else {
      LastPiece(img, inode, k);
    }
  }

  lemma NextPiece(img: seq<byte>, inode: nat, k: nat)
    requires WellFormed(img) && inode < NumInodes(img) && 4096 * (k + 1) <= InodeLength(img, inode)
    requires File(img, inode)[4096 * (k + 1)..] == Pieces(img, inode, k + 1)
    ensures File(img, inode)[4096 * k..] == Pieces(img, inode, k)
  {
    PiecesUnfold(img, inode, k);
    PieceOfFile(img, inode, k);
    var f := File(img, inode);
    hide *;
    CutTail(f, 4096 * k, 4096 * (k + 1));
  }

  lemma LastPiece(img: seq<byte>, inode: nat, k: nat)
    requires WellFormed(img) && inode < NumInodes(img)
    requires 4096 * k <= InodeLength(img, inode) < 4096 * (k + 1)
    ensures File(img, inode)[4096 * k..] == Pieces(img, inode, k)
  {
    PiecesUnfold(img, inode, k);
    PiecesUnfold(img, inode, k + 1);
    var f, len := File(img, inode), InodeLength(img, inode);
    if 4096 * k < len {
      PieceOfFile(img, inode, k);
    }
    hide *;
    CutTail(f, 4096 * k, len);
  }

  lemma CutTail(f: seq<byte>, a: nat, b: nat)
    requires a <= |f| && b <= |f|
    ensures a <= b ==> f[a..] == f[a..b] + f[b..]
    ensures b == |f| ==> f[b..] == []
  {
  }

  lemma PiecesUnfold(img: seq<byte>, inode: nat, k: nat)
    requires WellFormed(img) && inode < NumInodes(img)
    ensures Pieces(img, inode, k) ==
            if 4096 * k >= InodeLength(img, inode) then [] else Piece(img, inode, k) + Pieces(img, inode, k + 1)
  {
    hide Piece;
  }

  /** A read delivers the byte behind the end of the file exactly when it starts after the first byte
      and not past the length, asks for more than is left, and finds a block at every position up to
      the length. It never delivers more than that one byte. */
  lemma ReadPastEnd(img: seq<byte>, inode: nat, offset: word, n: word)
    requires LaidOut(img) && inode < NumInodes(img)
    ensures var len, count := InodeLength(img, inode), ReadCount(img, inode, offset, n);
            (count > 0 ==> offset + count <= len + 1) &&
            (count > 0 && offset + count > len <==>
             0 < offset <= len < offset + n && forall p :: offset <= p <= len ==> Served(img, inode, p))
  {
    assert InodeFits(img, inode);
    var len, r := InodeLength(img, inode), Reach(img, inode, offset);
    assert !Served(img, inode, offset + r);
    assert r > 0 && offset + r > len ==> offset + r == len + 1;
  }

  /** An image with a single one-byte file. */
  function TinyImage(): (img: seq<byte>)
    ensures |img| == 3 * BLOCK_SIZE
    ensures forall k {:trigger img[k]} :: 0 <= k < |img| ==> img[k] == if k == 4 || k == 8 || k == 4096 then 1 else 0
  {
    seq(3 * BLOCK_SIZE, k => if k == 4 || k == 8 || k == 4096 then 1 else 0)
  }

  lemma TinyImageWords()
    ensures var img := TinyImage();
            NumInodes(img) == 1 && NumBlocks(img) == 1 && InodeLength(img, 0) == 1 && BlockNumber(img, 0, 0) == 0
  {
    var img := TinyImage();
    hide TinyImage;
    assert Word(img, 4) == 1;
    assert Word(img, 8) == 1;
    assert Word(img, 4096) == 1;
    assert Word(img, 4100) == 0;
  }

  lemma TinyImageEntry(index: nat)
    requires index < MAX_FILES
    ensures NumInodes(TinyImage()) == 1 ==> EntryWellFormed(TinyImage(), index)
  {
    var img := TinyImage();
    var d := Dentry(img, index);
    hide TinyImage;
    assert d[0] == img[EntryAt(index)] == 0;
    assert forall k :: 32 <= k < 40 ==> d[k] == img[EntryAt(index) + k] == 0;
    assert Word(d, 36) == 0;
  }

  lemma TinyImageWellFormed()
    ensures WellFormed(TinyImage())
  {
    TinyImageWords();
    var img := TinyImage();
    hide TinyImage, Word, NumInodes, NumBlocks, BlockNumber, InodeLength, EntryWellFormed;
    assert InodeFits(img, 0);
    forall i | 0 <= i < MAX_FILES ensures EntryWellFormed(img, i) {
      TinyImageEntry(i);
    }
    assert BlocksExist(img, 0);
  }

  /** Reading two bytes at offset 1 of a one-byte file delivers a byte that is not in the file. */
  lemma ReadPastEndHappens()
    ensures WellFormed(TinyImage()) && InodeLength(TinyImage(), 0) == 1
    ensures ReadCount(TinyImage(), 0, 1, 2) == 1
  {
    TinyImageWellFormed();
    TinyImageWords();
    var img := TinyImage();
    hide TinyImage, WellFormed, Word, NumInodes, NumBlocks, BlockNumber, InodeLength;
    assert Served(img, 0, 1) && !Served(img, 0, 2);
    assert Reach(img, 0, 1) == 1;
  }

  /** fs_read requests served one after the other on one descriptor: all bytes, and the final position. */
  function ReadRun(img: seq<byte>, inode: nat, pos: nat, requests: seq<word>): (r: (seq<byte>, int))
    requires LaidOut(img) && inode < NumInodes(img) && pos <= |Contents(img, inode)|
    decreases |requests|
  {
    if requests == [] then ([], pos)
    else if requests[0] == 0 then ReadRun(img, inode, pos, requests[1..])
    else
      var out := Delivered(img, inode, pos, requests[0]);
      var rest := ReadRun(img, inode, pos + |out|, requests[1..]);
      (out + rest.0, rest.1)
  }

  /** Any sequence of reads tiles the file: no gap, no repetition, never beyond the readable bytes. */
  lemma {:induction false} ReadsTile(img: seq<byte>, inode: nat, pos: nat, requests: seq<word>)
    requires LaidOut(img) && inode < NumInodes(img) && pos <= |Contents(img, inode)|
    ensures var r := ReadRun(img, inode, pos, requests);
            pos <= r.1 <= |Contents(img, inode)| && r.0 == Contents(img, inode)[pos..r.1]
    decreases |requests|
  {
    hide Contents, LaidOut, ReadCount;
    if requests != [] && requests[0] == 0 {
      ReadsTile(img, inode, pos, requests[1..]);
    } else if requests != [] {
      var out := Delivered(img, inode, pos, requests[0]);
      ReadsTile(img, inode, pos + |out|, requests[1..]);
      var text, mid, end := Contents(img, inode), pos + |out|, ReadRun(img, inode, pos, requests).1;
      assert text[pos..mid] + text[mid..end] == text[pos..end];
    }
  }

  // ------------------------------------------------------------ directory entries

  predicate Matches(img: seq<byte>, index: nat, fname: seq<byte>)
    requires EntryAt(index) + ENTRY_SIZE <= |img|
  {
    CStr(Dentry(img, index), NAME_SIZE - 1) == CStr(fname, NAME_SIZE - 1)
  }

  /** The first of the 63 entries, from `index` on, whose name agrees with `fname` on 31 bytes. */
  function Lookup(img: seq<byte>, fname: seq<byte>, index: nat := 0): (r: Option<nat>)
    requires |img| >= BLOCK_SIZE && index <= MAX_FILES
    ensures r.Some? ==> index <= r.value < MAX_FILES && Matches(img, r.value, fname)
    ensures forall j :: index <= j < (if r.Some? then r.value else MAX_FILES) ==> !Matches(img, j, fname)
    decreases |img| + MAX_FILES - index
  {
    if index == MAX_FILES then None
    else if Matches(img, index, fname) then Some(index)
    else Lookup(img, fname, index + 1)
  }

  /** The structure copy of a directory entry followed by strcpy of its name over itself and
      the two field assignments. */
  method CopyDentry(disk: array<byte>, at: nat) returns (d: seq<byte>)
    requires at + ENTRY_SIZE <= disk.Length && 0 in disk[at..at + ENTRY_SIZE]
    ensures d == disk[at..at + ENTRY_SIZE]
  {
    ghost var entry := disk[at..at + ENTRY_SIZE];
    ghost var z :| 0 <= z < ENTRY_SIZE && entry[z] == 0;
    d := disk[at..at + ENTRY_SIZE];
    var i := 0;
    while disk[at + i] != 0
      invariant 0 <= i <= z && d == entry
      decreases z - i
    {
      assert disk[at + i] == entry[i];
      d := d[i := disk[at + i]];
      i := i + 1;
    }
    assert entry[i] == disk[at + i];
    d := d[i := 0];
    assert d == entry;
    var kind, inode := disk[at + 32..at + 36], disk[at + 36..at + 40];
    EntryFields(disk[..], at, kind, inode);
    d := d[..32] + kind + d[36..];
    d := d[..36] + inode + d[40..];
  }

  lemma EntryFields(m: seq<byte>, at: nat, kind: seq<byte>, inode: seq<byte>)
    requires at + ENTRY_SIZE <= |m| && kind == m[at + 32..at + 36] && inode == m[at + 36..at + 40]
    ensures var e := m[at..at + ENTRY_SIZE]; e[..32] + kind + e[36..] == e && e[..36] + inode + e[40..] == e
  {
    SubSlice(m, at, at + ENTRY_SIZE, 32, 36);
    SubSlice(m, at, at + ENTRY_SIZE, 36, 40);
  }

  lemma MountedEntry(m: seq<byte>, boot: nat, img: seq<byte>, index: nat)
    requires Mounted(m, boot, img) && EntryAt(index) + ENTRY_SIZE <= |img|
    ensures boot + EntryAt(index) + ENTRY_SIZE <= |m|
    ensures m[boot + EntryAt(index)..boot + EntryAt(index) + ENTRY_SIZE] == Dentry(img, index)
  {
    var e := EntryAt(index);
    SubSlice(m, boot, boot + |img|, e, e + ENTRY_SIZE);
  }

  method FetchDentry(disk: array<byte>, boot: nat, index: nat, ghost img: seq<byte>) returns (d: seq<byte>)
    requires Mounted(disk[..], boot, img) && WellFormed(img) && (index < MAX_FILES || index <= NumInodes(img))
    ensures EntryAt(index) + ENTRY_SIZE <= |img| && d == Dentry(img, index)
  {
    ImageEntry(img, index);
    MountedEntry(disk[..], boot, img, index);
    d := CopyDentry(disk, boot + EntryAt(index));
  }

  lemma LookupIs(img: seq<byte>, fname: seq<byte>, i: nat)
    requires |img| >= BLOCK_SIZE && i < MAX_FILES && Matches(img, i, fname)
    requires forall j :: 0 <= j < i ==> !Matches(img, j, fname)
    ensures Lookup(img, fname) == Some(i)
  {
    hide Lookup, Matches;
  }

  method CompareName(disk: array<byte>, boot: nat, index: nat, fname: seq<byte>, ghost img: seq<byte>)
    returns (same: bool)
    requires Mounted(disk[..], boot, img) && EntryAt(index) + ENTRY_SIZE <= |img| && Readable(fname, NAME_SIZE - 1)
    ensures same == Matches(img, index, fname)
  {
    MountedEntry(disk[..], boot, img, index);
    hide CStr, Mounted;
    var at := boot + EntryAt(index);
    var c := Strings.StrNCmp(disk[at..at + ENTRY_SIZE], fname, NAME_SIZE - 1);
    same := c == 0;
  }

  method ReadDentryByName(disk: array<byte>, boot: nat, fname: seq<byte>, ghost img: seq<byte>)
    returns (r: int, d: seq<byte>)
    requires Mounted(disk[..], boot, img) && WellFormed(img) && Readable(fname, NAME_SIZE - 1)
    ensures r == (if Lookup(img, fname).Some? then 0 else -1)
    ensures r == 0 ==> d == Dentry(img, Lookup(img, fname).value)
  {
    ImageEntry(img, 0);
    hide WellFormed, Matches, Lookup;
    d := [];
    var i := 0;
    while i < MAX_FILES
      invariant 0 <= i <= MAX_FILES && |img| >= BLOCK_SIZE
      invariant forall j :: 0 <= j < i ==> !Matches(img, j, fname)
    {
      var same := CompareName(disk, boot, i, fname, img);
      if same {
        LookupIs(img, fname, i);
        d := FetchDentry(disk, boot, i, img);
        return 0, d;
      }
      i := i + 1;
    }
    return -1, d;
  }

  lemma ImageEntry(img: seq<byte>, index: nat)
    requires WellFormed(img) && (index < MAX_FILES || index <= NumInodes(img))
    ensures |img| >= BLOCK_SIZE && EntryAt(index) + ENTRY_SIZE <= |img| && 0 in Dentry(img, index)
    ensures index < MAX_FILES ==> DentryInode(Dentry(img, index)) < NumInodes(img)
  {
    assert EntryWellFormed(img, index);
  }

  method ReadDentryByIndex(disk: array<byte>, boot: nat, index: word, ghost img: seq<byte>)
    returns (r: int, d: seq<byte>)
    requires Mounted(disk[..], boot, img) && WellFormed(img)
    ensures r == (if index > NumInodes(img) then -1 else 0)
    ensures r == 0 ==> EntryAt(index) + ENTRY_SIZE <= |img| && d == Dentry(img, index)
  {
    var numInodes := FetchWord(disk, boot, 4, img);
    if index > numInodes {
      return -1, [];
    }
    d := FetchDentry(disk, boot, index, img);
    r := 0;
  }

  /** The entry can be listed: within the index bound, with a nonempty name. */
  predicate Listable(img: seq<byte>, index: nat)
    requires WellFormed(img)
  {
    index <= NumInodes(img) && (ImageEntry(img, index); Dentry(img, index)[0] != 0)
  }

  /** The name dir_read reports when the caller's buffer has room for it. */
  function EntryName(img: seq<byte>, index: nat): (s: seq<byte>)
    requires WellFormed(img) && index <= NumInodes(img)
  {
    ImageEntry(img, index);
    CStr(Dentry(img, index), NAME_SIZE)
  }

  /** Length of dir_read's answer: strlen runs on past an unterminated name, the comparison with
      nbytes is unsigned, and the result is capped at 32. */
  function DirCount(d: seq<byte>, nbytes: int32): (n: nat)
    ensures n <= NAME_SIZE
  {
    var length := |CStr(d, ENTRY_SIZE)|;
    var n := if length < nbytes % 0x1_0000_0000 then length else nbytes;
    if n > NAME_SIZE then NAME_SIZE else n
  }

  /** The bytes one dir_read at position `pos` puts in the buffer. */
  function DirEntry(img: seq<byte>, pos: nat, nbytes: int32): seq<byte>
    requires WellFormed(img)
  {
    if !Listable(img, pos) then [] else
    ImageEntry(img, pos);
    Dentry(img, pos)[..DirCount(Dentry(img, pos), nbytes)]
  }

  /** First position at or after `pos` where the listing stops. */
  function ListEnd(img: seq<byte>, pos: nat): (e: nat)
    requires WellFormed(img)
    ensures pos <= e && !Listable(img, e) && forall k :: pos <= k < e ==> Listable(img, k)
    decreases NumInodes(img) + 1 - pos
  {
    if Listable(img, pos) then ListEnd(img, pos + 1) else pos
  }

  /** With room for 32 bytes, dir_read reports the whole name, also when it fills all 32 bytes. */
  lemma DirEntryName(img: seq<byte>, pos: nat, nbytes: int32)
    requires WellFormed(img) && NAME_SIZE <= nbytes && Listable(img, pos)
    ensures DirEntry(img, pos, nbytes) == EntryName(img, pos) && |EntryName(img, pos)| >= 1
  {
    ImageEntry(img, pos);
    NameCut(Dentry(img, pos), nbytes);
    hide WellFormed, CStr, DirCount;
  }

  /** With any room, dir_read reports the name as far as it fits; a negative count is read as a large one. */
  lemma DirEntryCut(img: seq<byte>, pos: nat, nbytes: int32)
    requires WellFormed(img) && Listable(img, pos)
    ensures var name := EntryName(img, pos);
            DirEntry(img, pos, nbytes) == name[..if 0 <= nbytes < |name| then nbytes else |name|]
  {
    ImageEntry(img, pos);
    hide WellFormed, CStr, DirCount;
    CountCut(Dentry(img, pos), nbytes);
  }

  lemma CountCut(d: seq<byte>, nbytes: int32)
    requires |d| == ENTRY_SIZE
    ensures var name := CStr(d, NAME_SIZE);
            DirCount(d, nbytes) <= ENTRY_SIZE &&
            d[..DirCount(d, nbytes)] == name[..if 0 <= nbytes < |name| then nbytes else |name|]
  {
    hide CStr;
    var k := |CStr(d, ENTRY_SIZE)|;
    CStrUnique(d, NAME_SIZE, Min(k, NAME_SIZE));
    assert CStr(d, NAME_SIZE) == d[..Min(k, NAME_SIZE)];
  }

  /** The three bounds of dir_read together cut the entry at its NUL or after 32 bytes. */
  lemma NameCut(d: seq<byte>, nbytes: int32)
    requires |d| == ENTRY_SIZE && NAME_SIZE <= nbytes && d[0] != 0
    ensures DirCount(d, nbytes) <= ENTRY_SIZE && d[..DirCount(d, nbytes)] == CStr(d, NAME_SIZE)
    ensures |CStr(d, NAME_SIZE)| >= 1
  {
    var k := |CStr(d, ENTRY_SIZE)|;
    CStrUnique(d, NAME_SIZE, if k <= NAME_SIZE then k else NAME_SIZE);
  }

  /** Successive dir_read calls on one descriptor: each call's bytes, and the final position. */
  function DirRun(img: seq<byte>, pos: nat, sizes: seq<int32>): (r: (seq<seq<byte>>, nat))
    requires WellFormed(img)
    decreases |sizes|
  {
    if sizes == [] then ([], pos) else
    var rest := DirRun(img, NextEntry(img, pos), sizes[1..]);
    ([DirEntry(img, pos, sizes[0])] + rest.0, rest.1)
  }

  /** What the call at position `k` of the directory should report. */
  function Listing(img: seq<byte>, k: nat): seq<byte>
    requires WellFormed(img)
  {
    if Listable(img, k) then EntryName(img, k) else []
  }

  /** Call number `k`. */
  lemma {:induction false} ListingAt(img: seq<byte>, pos: nat, sizes: seq<int32>, k: nat)
    requires WellFormed(img) && k < |sizes| && forall i :: 0 <= i < |sizes| ==> NAME_SIZE <= sizes[i]
    ensures k < |DirRun(img, pos, sizes).0|
    ensures DirRun(img, pos, sizes).0[k] == Listing(img, Min(pos + k, ListEnd(img, pos)))
    decreases k
  {
    hide WellFormed, Listable, DirEntry, Listing, ListEnd, DirRun;
    ListingHead(img, pos, sizes[0]);
    ListEndNext(img, pos);
    DirRunCons(img, pos, sizes);
    if k > 0 {
      ListingAt(img, NextEntry(img, pos), sizes[1..], k - 1);
    }
  }

  function NextEntry(img: seq<byte>, pos: nat): nat
    requires WellFormed(img)
  {
    if Listable(img, pos) then pos + 1 else pos
  }

  lemma DirRunCons(img: seq<byte>, pos: nat, sizes: seq<int32>)
    requires WellFormed(img) && sizes != []
    ensures var r, r1 := DirRun(img, pos, sizes).0, DirRun(img, NextEntry(img, pos), sizes[1..]).0;
            |r| == |r1| + 1 && r[0] == DirEntry(img, pos, sizes[0])
    ensures forall k {:trigger DirRun(img, pos, sizes).0[k]} :: 0 < k < |DirRun(img, pos, sizes).0| ==>
              DirRun(img, pos, sizes).0[k] == DirRun(img, NextEntry(img, pos), sizes[1..]).0[k - 1]
  {
    hide WellFormed, Listable, DirEntry;
  }

  lemma ListEndNext(img: seq<byte>, pos: nat)
    requires WellFormed(img)
    ensures if Listable(img, pos) then ListEnd(img, pos) == ListEnd(img, pos + 1) >= pos + 1
            else ListEnd(img, pos) == pos
  {
  }

  lemma {:induction false} ListingPosition(img: seq<byte>, pos: nat, sizes: seq<int32>)
    requires WellFormed(img)
    ensures |DirRun(img, pos, sizes).0| == |sizes| && DirRun(img, pos, sizes).1 == Min(pos + |sizes|, ListEnd(img, pos))
    decreases |sizes|
  {
    hide WellFormed, Listable, DirEntry;
    if sizes != [] {
      ListingPosition(img, NextEntry(img, pos), sizes[1..]);
    }
  }

  /** The calls list the names in order up to the end of the listing and are empty ever after. */
  lemma ListingInOrder(img: seq<byte>, pos: nat, sizes: seq<int32>)
    requires WellFormed(img) && forall i :: 0 <= i < |sizes| ==> NAME_SIZE <= sizes[i]
    ensures var r := DirRun(img, pos, sizes);
            |r.0| == |sizes| && r.1 == Min(pos + |sizes|, ListEnd(img, pos)) &&
            forall k {:trigger r.0[k]} :: 0 <= k < |sizes| ==> r.0[k] == Listing(img, Min(pos + k, ListEnd(img, pos)))
  {
    ListingPosition(img, pos, sizes);
    hide WellFormed, DirRun, ListEnd, Listing;
    forall k | 0 <= k < |sizes|
      ensures DirRun(img, pos, sizes).0[k] == Listing(img, Min(pos + k, ListEnd(img, pos)))
    {
      ListingAt(img, pos, sizes, k);
    }
  }

  lemma ListingHead(img: seq<byte>, pos: nat, n: int32)
    requires WellFormed(img) && NAME_SIZE <= n
    ensures DirEntry(img, pos, n) == Listing(img, pos)
    ensures Listable(img, pos) ==> |Listing(img, pos)| >= 1
    ensures !Listable(img, pos) ==> Listing(img, pos) == []
  {
    if Listable(img, pos) {
      DirEntryName(img, pos, n);
    }
  }

  /** Looking up a listed name finds the entry it came from exactly when no earlier entry agrees
      with it on the first 31 bytes. */
  lemma ListedNameFindsEntry(img: seq<byte>, index: nat)
    requires WellFormed(img) && index < MAX_FILES && Listable(img, index)
    ensures Readable(EntryName(img, index) + [0], NAME_SIZE - 1)
    ensures Lookup(img, EntryName(img, index) + [0]) == Some(index) <==>
            forall j :: 0 <= j < index ==>
                CStr(Dentry(img, j), NAME_SIZE - 1) != CStr(Dentry(img, index), NAME_SIZE - 1)
  {
    ImageEntry(img, index);
    var d, fname := Dentry(img, index), EntryName(img, index) + [0];
    NameAsKey(d);
    assert forall j :: 0 <= j < MAX_FILES ==> (Matches(img, j, fname) <==> Matches(img, j, d));
    assert Matches(img, index, d);
    hide WellFormed, CStr, Dentry, Matches, Lookup;
    KeyFound(img, fname, index);
    forall j | 0 <= j < index
      ensures Matches(img, j, fname) <==> CStr(Dentry(img, j), NAME_SIZE - 1) == CStr(Dentry(img, index), NAME_SIZE - 1)
    {
      MatchesKey(img, j, fname, d);
    }
  }

  lemma MatchesKey(img: seq<byte>, j: nat, fname: seq<byte>, d: seq<byte>)
    requires |img| >= BLOCK_SIZE && j < MAX_FILES && CStr(fname, NAME_SIZE - 1) == CStr(d, NAME_SIZE - 1)
    ensures Matches(img, j, fname) <==> CStr(Dentry(img, j), NAME_SIZE - 1) == CStr(d, NAME_SIZE - 1)
  {
  }

  lemma KeyFound(img: seq<byte>, fname: seq<byte>, index: nat)
    requires |img| >= BLOCK_SIZE && index < MAX_FILES && Matches(img, index, fname)
    ensures Lookup(img, fname) == Some(index) <==> forall j :: 0 <= j < index ==> !Matches(img, j, fname)
  {
    hide Lookup, Matches;
  }

  /** A listed name, NUL-terminated, has the same first 31 bytes as its entry. */
  lemma NameAsKey(d: seq<byte>)
    requires |d| == ENTRY_SIZE
    ensures var fname := CStr(d, NAME_SIZE) + [0];
            Readable(fname, NAME_SIZE - 1) && CStr(fname, NAME_SIZE - 1) == CStr(d, NAME_SIZE - 1)
  {
    var name := CStr(d, NAME_SIZE);
    var fname := name + [0];
    var k := if |name| <= NAME_SIZE - 1 then |name| else NAME_SIZE - 1;
    assert fname[|name|] == 0;
    assert NoNul(fname, k);
    CStrUnique(d, NAME_SIZE - 1, k);
    CStrUnique(fname, NAME_SIZE - 1, k);
    assert fname[..k] == d[..k];
  }
}
