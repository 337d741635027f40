/** The descriptor table of a process: what open, close and read in syscall.c do to it. */
module Descriptors {
  import opened Bytes
  import opened FileSystem
  import opened Processes

  /** The first free descriptor from `i` on, or 8. */
  function FirstFree(fds: seq<Fd>, i: nat := 2): (r: nat)
    requires |fds| == FOPS_NUM && 2 <= i <= FOPS_NUM
    ensures i <= r <= FOPS_NUM && (r < FOPS_NUM ==> fds[r].flags == 0)
    ensures forall k :: i <= k < r ==> fds[k].flags != 0
    decreases FOPS_NUM - i
  {
    if i == FOPS_NUM || fds[i].flags == 0 then i else FirstFree(fds, i + 1)
  }

  /** The descriptor open sets up for a directory entry; None for an entry of unknown type. */
  function FdFor(d: seq<byte>): Option<Fd>
    requires |d| == ENTRY_SIZE
  {
    match DentryType(d)
    case 0 => Some(Fd(RtcOps, 0, 0, 1))
    case 1 => Some(Fd(DirOps, 0, 0, 1))
    case 2 => Some(Fd(FileOps, DentryInode(d), 0, 1))
    case _ => None
  }

  function OpenFd(img: seq<byte>, fds: seq<Fd>, fname: seq<byte>): (r: (seq<Fd>, int))
    requires WellFormed(img) && |fds| == FOPS_NUM && fname != []
  {
    var i := FirstFree(fds);
    if fname[0] == 0 || i == FOPS_NUM || Lookup(img, fname).None? then (fds, -1) else
    ImageEntry(img, Lookup(img, fname).value);
    match FdFor(Dentry(img, Lookup(img, fname).value))
    case None => (fds, -1)
    case Some(fd) => (fds[i := fd], i as int)
  }

  /** fs_read on an open descriptor: the descriptor afterwards, the bytes stored and the result. */
  function ReadFile(img: seq<byte>, fd: Fd, nbytes: int32): (r: (Fd, seq<byte>, int))
    requires WellFormed(img) && fd.inode < NumInodes(img) && fd.pos <= |Contents(img, fd.inode)|
  {
    var n: word := nbytes % 0x1_0000_0000;
    if n == 0 || fd.inode > MAX_DATA_NUM then (fd, [], -1) else
    var out := Delivered(img, fd.inode, fd.pos, n);
    (fd.(pos := fd.pos + |out|), out, |out|)
  }

  /** dir_read on an open descriptor. */
  function ReadDir(img: seq<byte>, fd: Fd, nbytes: int32): (r: (Fd, seq<byte>, int))
    requires WellFormed(img)
  {
    if !Listable(img, fd.pos) then (fd, [], 0) else
    (fd.(pos := fd.pos + 1), DirEntry(img, fd.pos, nbytes), |DirEntry(img, fd.pos, nbytes)|)
  }

  /** read with a non-null buffer on descriptors 2 to 7, or on a descriptor it rejects. */
  function ReadFd(img: seq<byte>, fds: seq<Fd>, fd: int, nbytes: int32): (r: (seq<Fd>, seq<byte>, int))
    requires WellFormed(img) && Healthy(img, fds) && fd != 0
  {
    if fd < 0 || fd > 7 || fds[fd].flags == 0 || fd == 1 then (fds, [], -1) else
    match fds[fd].ops
    case FileOps => var r := ReadFile(img, fds[fd], nbytes); (fds[fd := r.0], r.1, r.2)
    case DirOps => var r := ReadDir(img, fds[fd], nbytes); (fds[fd := r.0], r.1, r.2)
    case _ => (fds, [], 0)
  }

  /** read with any buffer: fs_read and dir_read reject a null one. */
  function ReadBuf(img: seq<byte>, fds: seq<Fd>, fd: int, isNull: bool, nbytes: int32): (r: (seq<Fd>, seq<byte>, int))
    requires WellFormed(img) && Healthy(img, fds) && fd != 0
  {
    if isNull && 2 <= fd <= 7 && fds[fd].flags != 0 && fds[fd].ops in {FileOps, DirOps} then (fds, [], -1)
    else ReadFd(img, fds, fd, nbytes)
  }

  /** Descriptors 0 and 1 are the terminal; the others are free, or open on something readable. */
  predicate HealthyFd(img: seq<byte>, fd: Fd)
    requires WellFormed(img)
  {
    (fd.flags == 0 || fd.flags == 1) &&
    (fd.flags == 1 ==> fd.ops in {FileOps, DirOps, RtcOps}) &&
    (fd.flags == 1 && fd.ops == DirOps ==> fd.pos <= NumInodes(img) + 1) &&
    (fd.flags == 1 && fd.ops == FileOps ==> fd.inode < NumInodes(img) && fd.pos <= |Contents(img, fd.inode)|)
  }

  predicate Healthy(img: seq<byte>, fds: seq<Fd>)
    requires WellFormed(img)
  {
    |fds| == FOPS_NUM && fds[0] == Fd(StdinOps, 0, 0, 1) && fds[1] == Fd(StdoutOps, 0, 0, 1) &&
    forall k :: 2 <= k < FOPS_NUM ==> HealthyFd(img, fds[k])
  }

  lemma FreshHealthy(img: seq<byte>)
    requires WellFormed(img)
    ensures Healthy(img, FreshFds()) && forall k :: 2 <= k < FOPS_NUM ==> FreshFds()[k].flags == 0
  {
  }

  // ------------------------------------------------------------ runs of calls

  datatype Call = Open(fname: seq<byte>) | Close(fd: int) | Read(fd: int, nbytes: int32)

  ghost predicate Proper(call: Call) {
    (call.Open? ==> call.fname != [] && Readable(call.fname, NAME_SIZE - 1)) && (call.Read? ==> call.fd != 0)
  }

  /** The table after one call. */
  function Perform(img: seq<byte>, fds: seq<Fd>, call: Call): seq<Fd>
    requires WellFormed(img) && Healthy(img, fds) && (call.Open? ==> call.fname != []) && (call.Read? ==> call.fd != 0)
  {
    match call
    case Open(fname) => OpenFd(img, fds, fname).0
    case Close(fd) => CloseFd(fds, fd).0
    case Read(fd, nbytes) => ReadFd(img, fds, fd, nbytes).0
  }

  /** What each descriptor has delivered since it was last opened. */
  function Record(img: seq<byte>, fds: seq<Fd>, got: seq<seq<byte>>, call: Call): (r: seq<seq<byte>>)
    requires WellFormed(img) && Healthy(img, fds) && (call.Open? ==> call.fname != []) && (call.Read? ==> call.fd != 0)
    requires |got| == FOPS_NUM
    ensures |r| == FOPS_NUM
  {
    match call
    case Open(fname) => var i := OpenFd(img, fds, fname).1; if i < 0 then got else got[i := []]
    case Close(fd) => got
    case Read(fd, nbytes) => if 0 < fd < FOPS_NUM then got[fd := got[fd] + ReadFd(img, fds, fd, nbytes).1] else got
  }

  /** The delivered bytes of every open regular file are its contents up to the file position. */
  ghost predicate Tracks(img: seq<byte>, fds: seq<Fd>, got: seq<seq<byte>>)
    requires WellFormed(img) && Healthy(img, fds)
  {
    |got| == FOPS_NUM &&
    forall k {:trigger got[k]} :: 2 <= k < FOPS_NUM && fds[k].flags == 1 && fds[k].ops == FileOps ==>
      got[k] == Contents(img, fds[k].inode)[..fds[k].pos]
  }

  /** open gives the lowest free descriptor or fails without effect, and it fails exactly when the
      name is empty, no descriptor is free, no entry matches, or the entry has an unknown type. */
  lemma OpenLowestFree(img: seq<byte>, fds: seq<Fd>, fname: seq<byte>)
    requires WellFormed(img) && Healthy(img, fds) && fname != []
    ensures var r := OpenFd(img, fds, fname);
            if r.1 == -1 then r.0 == fds
            else 2 <= r.1 < FOPS_NUM && fds[r.1].flags == 0 && (forall k :: 2 <= k < r.1 ==> fds[k].flags == 1) &&
                 r.0[r.1].flags == 1 && r.0[r.1].pos == 0 && Healthy(img, r.0) &&
                 forall k :: 0 <= k < FOPS_NUM && k != r.1 ==> r.0[k] == fds[k]
    ensures OpenFd(img, fds, fname).1 == -1 <==>
            fname[0] == 0 || (forall k :: 2 <= k < FOPS_NUM ==> fds[k].flags == 1) || Lookup(img, fname).None? ||
            (ImageEntry(img, Lookup(img, fname).value); DentryType(Dentry(img, Lookup(img, fname).value)) > 2)
  {
    if Lookup(img, fname).Some? {
      ImageEntry(img, Lookup(img, fname).value);
    }
    hide WellFormed, Contents, Lookup, Word, DentryInode;
    var i := FirstFree(fds);
    assert i == FOPS_NUM || fds[i].flags == 0;
  }

  lemma OpenTracks(img: seq<byte>, fds: seq<Fd>, got: seq<seq<byte>>, fname: seq<byte>)
    requires WellFormed(img) && Healthy(img, fds) && fname != [] && Tracks(img, fds, got)
    ensures Healthy(img, Perform(img, fds, Open(fname)))
    ensures Tracks(img, Perform(img, fds, Open(fname)), Record(img, fds, got, Open(fname)))
  {
    OpenLowestFree(img, fds, fname);
    hide WellFormed, Contents, OpenFd, Lookup, HealthyFd;
  }

  lemma CloseTracks(img: seq<byte>, fds: seq<Fd>, got: seq<seq<byte>>, fd: int)
    requires WellFormed(img) && Healthy(img, fds) && Tracks(img, fds, got)
    ensures Healthy(img, Perform(img, fds, Close(fd)))
    ensures Tracks(img, Perform(img, fds, Close(fd)), Record(img, fds, got, Close(fd)))
    ensures forall k :: 0 <= k < FOPS_NUM && k != fd ==> Perform(img, fds, Close(fd))[k] == fds[k]
  {
    hide WellFormed, Contents;
  }

  /** A read of a regular file: the descriptor stays healthy and moves by what was delivered. */
  lemma ReadFileTracks(img: seq<byte>, fd: Fd, nbytes: int32)
    requires WellFormed(img) && HealthyFd(img, fd) && fd.flags == 1 && fd.ops == FileOps
    ensures var r := ReadFile(img, fd, nbytes);
            HealthyFd(img, r.0) && r.0.inode == fd.inode && r.0.flags == 1 && r.0.ops == FileOps &&
            Contents(img, fd.inode)[..fd.pos] + r.1 == Contents(img, fd.inode)[..r.0.pos]
  {
    var n := nbytes % 0x1_0000_0000;
    if n != 0 && fd.inode <= MAX_DATA_NUM {
      DeliveredExtends(img, fd.inode, fd.pos, n);
    }
    hide WellFormed, Contents, Delivered;
  }

  lemma ReadTracks(img: seq<byte>, fds: seq<Fd>, got: seq<seq<byte>>, fd: int, nbytes: int32)
    requires WellFormed(img) && Healthy(img, fds) && fd != 0 && Tracks(img, fds, got)
    ensures Healthy(img, Perform(img, fds, Read(fd, nbytes)))
    ensures Tracks(img, Perform(img, fds, Read(fd, nbytes)), Record(img, fds, got, Read(fd, nbytes)))
    ensures forall k :: 0 <= k < FOPS_NUM && k != fd ==> Perform(img, fds, Read(fd, nbytes))[k] == fds[k]
  {
    if 2 <= fd <= 7 && fds[fd].flags == 1 && fds[fd].ops == FileOps {
      ReadFileTracks(img, fds[fd], nbytes);
      hide WellFormed, Contents, ReadFile, HealthyFd;
    } else {
      assert forall k :: 0 <= k < FOPS_NUM ==> got[k] + [] == got[k];
      hide WellFormed, Contents, DirEntry;
    }
  }

  /** One call keeps the table healthy and the tracking exact, and changes no other descriptor. */
  lemma CallTracks(img: seq<byte>, fds: seq<Fd>, got: seq<seq<byte>>, call: Call)
    requires WellFormed(img) && Healthy(img, fds) && Proper(call) && Tracks(img, fds, got)
    ensures Healthy(img, Perform(img, fds, call))
    ensures Tracks(img, Perform(img, fds, call), Record(img, fds, got, call))
    ensures call.Read? || call.Close? ==>
              forall k :: 0 <= k < FOPS_NUM && k != call.fd ==> Perform(img, fds, call)[k] == fds[k]
  {
    hide WellFormed, Healthy, Tracks, Perform, Record;
    match call
    case Open(fname) => OpenTracks(img, fds, got, fname);
    case Close(fd) => CloseTracks(img, fds, got, fd);
    case Read(fd, nbytes) => ReadTracks(img, fds, got, fd, nbytes);
  }

  lemma DeliveredExtends(img: seq<byte>, inode: nat, pos: nat, n: word)
    requires WellFormed(img) && inode < NumInodes(img) && pos <= |Contents(img, inode)|
    ensures pos + |Delivered(img, inode, pos, n)| <= |Contents(img, inode)|
    ensures Contents(img, inode)[..pos] + Delivered(img, inode, pos, n) ==
            Contents(img, inode)[..pos + |Delivered(img, inode, pos, n)|]
  {
    hide WellFormed, Contents;
  }

  ghost function CallRun(img: seq<byte>, fds: seq<Fd>, got: seq<seq<byte>>, calls: seq<Call>):
    (r: (seq<Fd>, seq<seq<byte>>))
    requires WellFormed(img) && Healthy(img, fds) && Tracks(img, fds, got) && forall c :: c in calls ==> Proper(c)
    decreases |calls|
  {
    if calls == [] then (fds, got) else
    assert calls[0] in calls;
    CallTracks(img, fds, got, calls[0]);
    CallRun(img, Perform(img, fds, calls[0]), Record(img, fds, got, calls[0]), calls[1..])
  }

  /** After any run of open, close and read: 0 and 1 are still the terminal, and every open regular
      file has delivered exactly its contents up to its position, independently of the others. */
  lemma {:induction false} DescriptorRuns(img: seq<byte>, fds: seq<Fd>, got: seq<seq<byte>>, calls: seq<Call>)
    requires WellFormed(img) && Healthy(img, fds) && Tracks(img, fds, got) && forall c :: c in calls ==> Proper(c)
    ensures var r := CallRun(img, fds, got, calls); Healthy(img, r.0) && Tracks(img, r.0, r.1)
    decreases |calls|
  {
    if calls != [] {
      assert calls[0] in calls;
      CallTracks(img, fds, got, calls[0]);
      hide WellFormed, Healthy, Tracks, Perform, Record;
      DescriptorRuns(img, Perform(img, fds, calls[0]), Record(img, fds, got, calls[0]), calls[1..]);
    }
  }

  // ------------------------------------------------------------ what each call means

  /** What open makes of the entry it finds: entries start at byte 64 of the image, 64 bytes apart, with
      the type at byte 32 and the inode at byte 36. */
  lemma OpenKinds(img: seq<byte>, fds: seq<Fd>, fname: seq<byte>)
    requires WellFormed(img) && Healthy(img, fds) && fname != [] && OpenFd(img, fds, fname).1 != -1
    ensures Lookup(img, fname).Some? && 64 + 64 * Lookup(img, fname).value + 64 <= |img|
    ensures var (t, i) := OpenFd(img, fds, fname);
            var a := 64 + 64 * Lookup(img, fname).value;
            2 <= i < 8 && |t| == 8 && OpenedAs(t[i], Word(img, a + 32), Word(img, a + 36)) &&
            Word(img, a + 36) < NumInodes(img)
  {
    assert |img| >= BLOCK_SIZE && |fds| == FOPS_NUM;
    hide WellFormed, Healthy, OpenFd, FdFor, DentryType, DentryInode, OpenedAs, Word;
    OpenedFd(img, fds, fname);
    var k := Lookup(img, fname).value;
    hide Lookup;
    EntryWords(img, k);
    EntryInode(img, k);
    FdForKinds(Dentry(img, k));
  }

  /** A descriptor just opened: 0 is the real-time clock, 1 a directory, 2 a regular file. */
  predicate OpenedAs(fd: Fd, kind: word, inode: word) {
    fd.flags == 1 && fd.pos == 0 &&
    ((kind == 0 && fd.ops == RtcOps) || (kind == 1 && fd.ops == DirOps) ||
     (kind == 2 && fd.ops == FileOps && fd.inode == inode))
  }

  lemma OpenedFd(img: seq<byte>, fds: seq<Fd>, fname: seq<byte>)
    requires WellFormed(img) && Healthy(img, fds) && fname != [] && OpenFd(img, fds, fname).1 != -1
    ensures Lookup(img, fname).Some? && 64 + 64 * Lookup(img, fname).value + 64 <= |img|
    ensures EntryAt(Lookup(img, fname).value) + ENTRY_SIZE <= |img|
    ensures var fd, i := FdFor(Dentry(img, Lookup(img, fname).value)), OpenFd(img, fds, fname).1;
            fd.Some? && 2 <= i < FOPS_NUM && OpenFd(img, fds, fname).0 == fds[i := fd.value]
  {
    ImageEntry(img, Lookup(img, fname).value);
    hide WellFormed, Lookup, FdFor;
  }

  lemma FdForKinds(d: seq<byte>)
    requires |d| == ENTRY_SIZE
    ensures FdFor(d).Some? ==> OpenedAs(FdFor(d).value, DentryType(d), DentryInode(d))
  {
    hide Word;
  }

  lemma EntryInode(img: seq<byte>, k: nat)
    requires WellFormed(img) && k < MAX_FILES && EntryAt(k) + ENTRY_SIZE <= |img|
    ensures DentryInode(Dentry(img, k)) < NumInodes(img)
  {
    ImageEntry(img, k);
  }

  lemma EntryWords(img: seq<byte>, i: nat)
    requires 64 + 64 * i + 64 <= |img|
    ensures DentryType(Dentry(img, i)) == Word(img, 64 + 64 * i + 32)
    ensures DentryInode(Dentry(img, i)) == Word(img, 64 + 64 * i + 36)
  {
  }

  /** open and then read: the first bytes of the file that the name's entry points to, all of it when the
      request is longer. */
  lemma OpenThenRead(img: seq<byte>, fds: seq<Fd>, fname: seq<byte>, n: int32)
    requires WellFormed(img) && Healthy(img, fds) && fname != [] && OpenFd(img, fds, fname).1 != -1 && n > 0
    requires var fd := OpenFd(img, fds, fname).0[OpenFd(img, fds, fname).1];
             fd.ops == FileOps && fd.inode <= MAX_DATA_NUM
    ensures Lookup(img, fname).Some? && 64 + 64 * Lookup(img, fname).value + 64 <= |img|
    ensures var (t, i) := OpenFd(img, fds, fname);
            var inode := Word(img, 64 + 64 * Lookup(img, fname).value + 36);
            Healthy(img, t) && inode < NumInodes(img) &&
            var f, r := File(img, inode), ReadFd(img, t, i, n);
            r.1 == f[..Min(n, |f|)] && r.2 == Min(n, |f|)
  {
    hide WellFormed, OpenFd, ReadFile, File, Lookup, Word, Contents, HealthyFd;
    OpenKinds(img, fds, fname);
    OpenLowestFree(img, fds, fname);
    var (t, i) := OpenFd(img, fds, fname);
    FirstRead(img, t[i], n);
  }

  lemma FirstRead(img: seq<byte>, fd: Fd, n: int32)
    requires WellFormed(img) && HealthyFd(img, fd) && fd.flags == 1 && fd.ops == FileOps
    requires fd.pos == 0 && fd.inode <= MAX_DATA_NUM && n > 0
    ensures var f, r := File(img, fd.inode), ReadFile(img, fd, n); r.1 == f[..Min(n, |f|)] && r.2 == Min(n, |f|)
  {
    var len := |File(img, fd.inode)|;
    if n <= len {
      ReadInside(img, fd.inode, 0, n);
    } else {
      ReadWhole(img, fd.inode, n);
    }
    hide WellFormed, File, Delivered;
  }

  /** When read fails: on a bad, closed or write-only descriptor, and for a null buffer on a file or
      directory. The real-time clock's read returns 0. */
  lemma ReadRejects(img: seq<byte>, fds: seq<Fd>, fd: int, isNull: bool, nbytes: int32)
    requires WellFormed(img) && Healthy(img, fds) && fd != 0
    requires fd < 0 || fd > 7 || fd == 1 || fds[fd].flags == 0 || fds[fd].ops == RtcOps || isNull
    ensures ReadBuf(img, fds, fd, isNull, nbytes) ==
            (fds, [], if 2 <= fd <= 7 && fds[fd].flags != 0 && fds[fd].ops == RtcOps then 0 else -1)
  {
    hide WellFormed, Contents, ReadFile, ReadDir;
  }

  /** A read of an open regular file returns the number of bytes it delivers, or -1 for an empty request
      or an inode past 1023; the position moves by it, and a request inside the file is answered in full. */
  lemma FileReadResults(img: seq<byte>, fds: seq<Fd>, fd: int, nbytes: int32)
    requires WellFormed(img) && Healthy(img, fds) && 2 <= fd <= 7 && fds[fd].flags == 1 && fds[fd].ops == FileOps
    ensures var (t, bs, r) := ReadBuf(img, fds, fd, false, nbytes);
            if nbytes == 0 || fds[fd].inode > 1023 then r == -1 && t == fds && bs == []
            else r == |bs| && t == fds[fd := fds[fd].(pos := fds[fd].pos + r)] && (nbytes > 0 ==> r <= nbytes)
    ensures var (_, bs, r) := ReadBuf(img, fds, fd, false, nbytes);
            var f, pos := File(img, fds[fd].inode), fds[fd].pos;
            nbytes > 0 && fds[fd].inode <= 1023 && pos + nbytes <= |f| ==> r == nbytes && bs == f[pos..pos + nbytes]
  {
    assert fds[fd := fds[fd]] == fds;
    FileResults(img, fds[fd], nbytes);
    hide WellFormed, File, Contents, ReadFile;
  }

  lemma FileResults(img: seq<byte>, fd: Fd, nbytes: int32)
    requires WellFormed(img) && HealthyFd(img, fd) && fd.flags == 1 && fd.ops == FileOps
    ensures var (t, bs, r) := ReadFile(img, fd, nbytes);
            if nbytes == 0 || fd.inode > 1023 then r == -1 && t == fd && bs == []
            else r == |bs| && t == fd.(pos := fd.pos + r) && (nbytes > 0 ==> r <= nbytes)
    ensures var (_, bs, r) := ReadFile(img, fd, nbytes);
            var f := File(img, fd.inode);
            nbytes > 0 && fd.inode <= 1023 && fd.pos + nbytes <= |f| ==> r == nbytes && bs == f[fd.pos..fd.pos + nbytes]
  {
    var n := nbytes % 0x1_0000_0000;
    assert nbytes > 0 ==> n == nbytes;
    assert fd.inode < NumInodes(img) && fd.pos <= |Contents(img, fd.inode)|;
    if nbytes > 0 && fd.pos + nbytes <= |File(img, fd.inode)| {
      ReadInside(img, fd.inode, fd.pos, nbytes);
    }
    hide WellFormed, HealthyFd, File, Contents, Delivered, ReadCount;
  }

  /** close succeeds exactly on an open descriptor from 2 to 7, frees it and touches no other. */
  lemma CloseResults(fds: seq<Fd>, fd: int)
    requires |fds| == FOPS_NUM
    ensures var (t, r) := CloseFd(fds, fd);
            (r == 0 <==> 2 <= fd <= 7 && fds[fd].flags != 0) && (r != 0 ==> r == -1 && t == fds) &&
            (r == 0 ==> t[fd].flags == 0) && forall k :: 0 <= k < FOPS_NUM && k != fd ==> t[k] == fds[k]
  {
  }

  /** Successive reads on one descriptor: the table afterwards, and each call's bytes and result. */
  function ReadCalls(img: seq<byte>, fds: seq<Fd>, fd: int, sizes: seq<int32>): (r: (seq<Fd>, seq<(seq<byte>, int)>))
    requires WellFormed(img) && Healthy(img, fds) && fd != 0
    ensures |r.1| == |sizes|
    decreases |sizes|
  {
    if sizes == [] then (fds, []) else
    var one := ReadFd(img, fds, fd, sizes[0]);
    ReadKeepsHealth(img, fds, fd, sizes[0]);
    var rest := ReadCalls(img, one.0, fd, sizes[1..]);
    (rest.0, [(one.1, one.2)] + rest.1)
  }

  lemma ReadKeepsHealth(img: seq<byte>, fds: seq<Fd>, fd: int, nbytes: int32)
    requires WellFormed(img) && Healthy(img, fds) && fd != 0
    ensures Healthy(img, ReadFd(img, fds, fd, nbytes).0)
  {
    if 2 <= fd <= 7 && fds[fd].flags == 1 && fds[fd].ops == FileOps {
      ReadFileTracks(img, fds[fd], nbytes);
    }
    hide WellFormed, Contents, ReadFile, DirEntry;
  }

  /** Reads with room for 32 bytes on an open directory list the names in order, one a call, from the
      descriptor's position to the end of the listing, and then return 0 for ever; the position stays at
      the end, and no other descriptor moves. */
  lemma DirectoryReads(img: seq<byte>, fds: seq<Fd>, fd: int, sizes: seq<int32>)
    requires WellFormed(img) && Healthy(img, fds) && 2 <= fd <= 7 && fds[fd].flags == 1 && fds[fd].ops == DirOps
    requires forall i :: 0 <= i < |sizes| ==> NAME_SIZE <= sizes[i]
    ensures var r, pos := ReadCalls(img, fds, fd, sizes), fds[fd].pos;
            var end := ListEnd(img, pos);
            r.0 == fds[fd := fds[fd].(pos := Min(pos + |sizes|, end))] && |r.1| == |sizes| &&
            forall k :: 0 <= k < |sizes| ==> Answers(img, Min(pos + k, end), r.1[k])
  {
    ReadsMove(img, fds, fd, sizes);
    hide WellFormed, Healthy, ReadCalls, ListEnd, Answers;
    forall k | 0 <= k < |sizes|
      ensures Answers(img, Min(fds[fd].pos + k, ListEnd(img, fds[fd].pos)), ReadCalls(img, fds, fd, sizes).1[k])
    {
      DirectoryRead(img, fds, fd, sizes, k);
    }
  }

  lemma ReadsMove(img: seq<byte>, fds: seq<Fd>, fd: int, sizes: seq<int32>)
    requires WellFormed(img) && Healthy(img, fds) && 2 <= fd <= 7 && fds[fd].flags == 1 && fds[fd].ops == DirOps
    ensures var pos := fds[fd].pos;
            ReadCalls(img, fds, fd, sizes).0 == fds[fd := fds[fd].(pos := Min(pos + |sizes|, ListEnd(img, pos)))]
  {
    hide WellFormed, ReadCalls, DirRun, ListEnd;
    ReadsAreRun(img, fds, fd, sizes);
    ListingPosition(img, fds[fd].pos, sizes);
  }

  lemma DirectoryRead(img: seq<byte>, fds: seq<Fd>, fd: int, sizes: seq<int32>, k: nat)
    requires WellFormed(img) && Healthy(img, fds) && 2 <= fd <= 7 && fds[fd].flags == 1 && fds[fd].ops == DirOps
    requires k < |sizes| && forall i :: 0 <= i < |sizes| ==> NAME_SIZE <= sizes[i]
    ensures Answers(img, Min(fds[fd].pos + k, ListEnd(img, fds[fd].pos)), ReadCalls(img, fds, fd, sizes).1[k])
  {
    hide WellFormed, Healthy, ReadCalls, DirRun, ListEnd, Listing, Answers;
    ReadIsRun(img, fds, fd, sizes, k);
    var call, pos := ReadCalls(img, fds, fd, sizes).1[k], fds[fd].pos;
    RunAnswers(img, pos, sizes, k, call);
  }

  lemma RunAnswers(img: seq<byte>, pos: nat, sizes: seq<int32>, k: nat, call: (seq<byte>, int))
    requires WellFormed(img) && k < |sizes| && forall i :: 0 <= i < |sizes| ==> NAME_SIZE <= sizes[i]
    requires k < |DirRun(img, pos, sizes).0| && call.0 == DirRun(img, pos, sizes).0[k] && call.1 == |call.0|
    ensures Answers(img, Min(pos + k, ListEnd(img, pos)), call)
  {
    hide WellFormed, DirRun, ListEnd, Listing;
    ListingAt(img, pos, sizes, k);
  }

  lemma ReadIsRun(img: seq<byte>, fds: seq<Fd>, fd: int, sizes: seq<int32>, k: nat)
    requires WellFormed(img) && Healthy(img, fds) && 2 <= fd <= 7 && fds[fd].flags == 1 && fds[fd].ops == DirOps
    requires k < |sizes|
    ensures |fds| == FOPS_NUM && |DirRun(img, fds[fd].pos, sizes).0| == |sizes|
    ensures var c := ReadCalls(img, fds, fd, sizes).1[k];
            c.0 == DirRun(img, fds[fd].pos, sizes).0[k] && c.1 == |c.0|
  {
    ReadsAreRun(img, fds, fd, sizes);
    hide WellFormed, ReadCalls, DirRun;
  }

  /** The call delivers the name at position `k` of the listing and returns its length. */
  predicate Answers(img: seq<byte>, k: nat, call: (seq<byte>, int))
    requires WellFormed(img)
  {
    call.0 == Listing(img, k) && call.1 == |call.0|
  }

  /** The calls on the descriptor are the directory run of its position. */
  lemma {:induction false} ReadsAreRun(img: seq<byte>, fds: seq<Fd>, fd: int, sizes: seq<int32>)
    requires WellFormed(img) && Healthy(img, fds) && 2 <= fd <= 7 && fds[fd].flags == 1 && fds[fd].ops == DirOps
    ensures var r, d := ReadCalls(img, fds, fd, sizes), DirRun(img, fds[fd].pos, sizes);
            r.0 == fds[fd := fds[fd].(pos := d.1)] && |r.1| == |d.0| == |sizes| &&
            forall k {:trigger r.1[k]} :: 0 <= k < |sizes| ==> r.1[k].0 == d.0[k] && r.1[k].1 == |r.1[k].0|
    decreases |sizes|
  {
    ListingPosition(img, fds[fd].pos, sizes);
    if sizes == [] {
      assert fds[fd := fds[fd].(pos := fds[fd].pos)] == fds;
    } else {
      var one, pos := ReadFd(img, fds, fd, sizes[0]), fds[fd].pos;
      ReadKeepsHealth(img, fds, fd, sizes[0]);
      DirStep(img, fds, fd, sizes[0]);
      ReadsAreRun(img, one.0, fd, sizes[1..]);
      DirRunCons(img, pos, sizes);
      hide WellFormed, Healthy, DirEntry, Listable, NextEntry, ReadFd;
      var rest, d1 := ReadCalls(img, one.0, fd, sizes[1..]), DirRun(img, NextEntry(img, pos), sizes[1..]);
      assert one.0[fd := one.0[fd].(pos := d1.1)] == fds[fd := fds[fd].(pos := d1.1)];
      assert ReadCalls(img, fds, fd, sizes).1 == [(one.1, one.2)] + rest.1;
    }
  }

  lemma DirStep(img: seq<byte>, fds: seq<Fd>, fd: int, nbytes: int32)
    requires WellFormed(img) && Healthy(img, fds) && 2 <= fd <= 7 && fds[fd].flags == 1 && fds[fd].ops == DirOps
    ensures var r := ReadFd(img, fds, fd, nbytes);
            r.0 == fds[fd := fds[fd].(pos := NextEntry(img, fds[fd].pos))] && r.2 == |r.1| &&
            r.1 == DirEntry(img, fds[fd].pos, nbytes)
  {
    assert fds[fd := fds[fd]] == fds;
    hide WellFormed;
  }

  /** halt leaves descriptors 2 to 7 free and 0 and 1 as they were. */
  lemma HaltFreesDescriptors(img: seq<byte>, fds: seq<Fd>)
    requires WellFormed(img) && Healthy(img, fds)
    ensures var r := CloseAll(fds);
            Healthy(img, r) && r[..2] == fds[..2] && forall k :: 2 <= k < FOPS_NUM ==> r[k].flags == 0
  {
  }
}
