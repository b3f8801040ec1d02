/** The one-block file system: fs/relisfs/relisfs.c.

The disk is a sequence of 512-byte blocks and does not fail. `Fs` is what the kernel holds:
the disk, the inode cached at mount, and the position of each open file. The module proves
that opens, reads, in-block writes and reboots together behave as one plain file. */
module RelisFs {
  import opened Bytes

  type Block = b: seq<Byte> | |b| == 512 witness seq(512, _ => 0)

  const MAGIC: nat := 0x52454C49

  // ---- on-disk forms

  function U32(n: nat): (s: seq<Byte>)
    ensures |s| == 4
  {
    Digits(n, 4)
  }

  function FromU32(s: seq<Byte>): nat
    requires |s| == 4
  {
    LittleEndian(s)
  }

  lemma U32RoundTrip(n: nat)
    requires n < 0x1_0000_0000
    ensures FromU32(U32(n)) == n
  {
    assert Limit(4) == 0x1_0000_0000;
    DigitsBack(n, 4);
  }

  datatype Inode = Inode(used: nat, size: nat, block: nat, name: seq<Byte>)

  predicate ValidInode(i: Inode) {
    i.used < 0x1_0000_0000 && i.size < 0x1_0000_0000 && i.block < 0x1_0000_0000 && |i.name| == 64
  }

  // sizeof(relisfs_inode_t) is 76.
  function InodeBytes(i: Inode): (s: seq<Byte>)
    requires |i.name| == 64
    ensures |s| == 76
  {
    U32(i.used) + U32(i.size) + U32(i.block) + i.name
  }

  function InodeOf(s: seq<Byte>): Inode
    requires |s| == 76
  {
    Inode(FromU32(s[0..4]), FromU32(s[4..8]), FromU32(s[8..12]), s[12..76])
  }

  lemma InodeRoundTrip(i: Inode)
    requires ValidInode(i)
    ensures InodeOf(InodeBytes(i)) == i
  {
    var s := InodeBytes(i);
    assert s[0..4] == U32(i.used) && s[4..8] == U32(i.size) && s[8..12] == U32(i.block) && s[12..76] == i.name;
    U32RoundTrip(i.used);
    U32RoundTrip(i.size);
    U32RoundTrip(i.block);
  }

  // kmemcpy into a block.
  function Patch(b: Block, at: nat, src: seq<Byte>): Block
    requires at + |src| <= 512
  {
    b[..at] + src + b[at + |src|..]
  }

  // ---- operations

  datatype Fs = Fs(disk: seq<Block>, inode: Inode, files: map<nat, nat>)

  function RootInode(): Inode { Inode(1, 0, 2, [47] + seq(63, _ => 0)) }

  // The blocks that formatting writes: a superblock and an inode table with the root in slot 1.
  function Format(disk: seq<Block>): seq<Block>
    requires |disk| >= 3
  {
    disk[0 := Patch(disk[0], 0, U32(MAGIC) + (U32(64) + U32(1) + U32(2)))]
        [1 := Patch(seq(512, _ => 0), 76, InodeBytes(RootInode()))]
  }

  function Mount(disk: seq<Block>): Fs
    requires |disk| >= 3
  {
    var disk' := if FromU32(disk[0][0..4]) != MAGIC then Format(disk) else disk;
    Fs(disk', InodeOf(disk'[1][76..152]), map[])
  }

  function Open(s: Fs, fd: nat): Fs { s.(files := s.files[fd := 0]) }

  const WORD: nat := 0x1_0000_0000_0000_0000

  // The bytes that line 31 lets through: the sum is taken in 64 bits.
  function Clamp(size: nat, pos: nat, count: nat): nat
    requires pos < size
  {
    if (pos + count) % WORD > size then size - pos else count
  }

  // The copy of line 34 stays inside the block.
  predicate CopyFits(size: nat, pos: nat, count: nat) { pos < size ==> pos + Clamp(size, pos, count) <= 512 }

  function Read(s: Fs, fd: nat, count: nat): (Fs, seq<Byte>)
    requires fd in s.files && s.inode.block < |s.disk| && CopyFits(s.inode.size, s.files[fd], count)
  {
    var pos := s.files[fd];
    if pos >= s.inode.size then (s, [])
    else
      var n := Clamp(s.inode.size, pos, count);
      (s.(files := s.files[fd := pos + n]), s.disk[s.inode.block][pos..pos + n])
  }

  // The clamp is right, and the copy stays inside the block, exactly when the sum does not wrap.
  lemma ClampIff(size: nat, pos: nat, count: nat)
    requires pos < size <= 512 && count < WORD
    ensures Clamp(size, pos, count) == (if count <= size - pos then count else size - pos) <==> pos + count < WORD
    ensures CopyFits(size, pos, count) <==> pos + count < WORD
  {
    if pos + count >= WORD { assert (pos + count) % WORD == pos + count - WORD; }
  }

  // One byte before the end of a two-byte file, a count of 2^64 - 1 is copied whole.
  lemma ClampWraps()
    ensures Clamp(2, 1, WORD - 1) == WORD - 1 && !CopyFits(2, 1, WORD - 1)
  {
  }

  function Write(s: Fs, fd: nat, data: seq<Byte>): Fs
    requires fd in s.files && 1 < |s.disk| && s.inode.block < |s.disk| && |s.inode.name| == 64
    requires s.files[fd] + |data| <= 512
  {
    var pos := s.files[fd];
    var disk := s.disk[s.inode.block := Patch(s.disk[s.inode.block], pos, data)];
    var s' := s.(disk := disk, files := s.files[fd := pos + |data|]);
    if pos + |data| > s.inode.size then
      var inode := s.inode.(size := pos + |data|);
      s'.(inode := inode, disk := disk[1 := Patch(disk[1], 76, InodeBytes(inode))])
    else s'
  }

  // ---- the plain file

  datatype File = File(bytes: seq<Byte>, positions: map<nat, nat>)

  ghost predicate Inv(s: Fs) {
    && |s.disk| >= 3 && FromU32(s.disk[0][0..4]) == MAGIC
    && ValidInode(s.inode) && s.inode.used == 1 && s.inode.block == 2 && s.inode.size <= 512
    && s.inode == InodeOf(s.disk[1][76..152])
    && forall fd :: fd in s.files ==> s.files[fd] <= s.inode.size
  }

  ghost function View(s: Fs): File
    requires Inv(s)
  {
    File(s.disk[2][..s.inode.size], s.files)
  }

  // Overwriting from pos, extending the file when needed.
  function Splice(bytes: seq<Byte>, pos: nat, data: seq<Byte>): seq<Byte>
    requires pos <= |bytes|
  {
    bytes[..pos] + data + if pos + |data| <= |bytes| then bytes[pos + |data|..] else []
  }

  lemma MountFresh(disk: seq<Block>)
    requires |disk| >= 3 && FromU32(disk[0][0..4]) != MAGIC
    ensures Inv(Mount(disk)) && View(Mount(disk)) == File([], map[])
  {
    SuperblockWritten(disk[0], U32(MAGIC), U32(64) + U32(1) + U32(2));
    RootWritten();
  }

  lemma SuperblockWritten(b: Block, magic: seq<Byte>, rest: seq<Byte>)
    requires magic == U32(MAGIC) && |rest| == 12
    ensures FromU32(Patch(b, 0, magic + rest)[0..4]) == MAGIC
  {
    U32RoundTrip(MAGIC);
    assert Patch(b, 0, magic + rest)[0..4] == magic;
  }

  lemma RootWritten()
    ensures InodeOf(Patch(seq(512, _ => 0), 76, InodeBytes(RootInode()))[76..152]) == RootInode()
  {
    InodeRoundTrip(RootInode());
    assert Patch(seq(512, _ => 0), 76, InodeBytes(RootInode()))[76..152] == InodeBytes(RootInode());
  }

  // What formatting leaves on the disk: the superblock's four numbers before whatever was there, one
  // inode in slot 1 of an empty table, named "/", of size 0 and with block 2, and nothing else.
  lemma Formatted(disk: seq<Block>, b: nat, i: nat)
    requires |disk| >= 3 && b < |disk| && i < 512
    ensures var d := Format(disk);
      && |d| == |disk| && (b >= 2 ==> d[b] == disk[b])
      && FromU32(d[0][0..4]) == 0x52454C49 && FromU32(d[0][4..8]) == 64
      && FromU32(d[0][8..12]) == 1 && FromU32(d[0][12..16]) == 2 && (i >= 16 ==> d[0][i] == disk[0][i])
      && (i < 76 || 152 <= i ==> d[1][i] == 0)
    ensures var root := InodeOf(Format(disk)[1][76..152]);
      root.used == 1 && root.size == 0 && root.block == 2 && |root.name| == 64 && root.name[0] == 47
  {
    NumbersWritten(disk[0]);
    RootWritten();
  }

  lemma NumbersWritten(b: Block)
    ensures var d := Patch(b, 0, U32(MAGIC) + (U32(64) + U32(1) + U32(2)));
      && FromU32(d[0..4]) == 0x52454C49 && FromU32(d[4..8]) == 64 && FromU32(d[8..12]) == 1 && FromU32(d[12..16]) == 2
      && forall i :: 16 <= i < 512 ==> d[i] == b[i]
  {
    FourWritten(b, U32(MAGIC), U32(64), U32(1), U32(2));
    U32RoundTrip(MAGIC);
    U32RoundTrip(64);
    U32RoundTrip(1);
    U32RoundTrip(2);
  }

  lemma FourWritten(b: Block, w: seq<Byte>, x: seq<Byte>, y: seq<Byte>, z: seq<Byte>)
    requires |w| == |x| == |y| == |z| == 4
    ensures var d := Patch(b, 0, w + (x + y + z));
      && d[0..4] == w && d[4..8] == x && d[8..12] == y && d[12..16] == z
      && forall i :: 16 <= i < 512 ==> d[i] == b[i]
  {
  }

  // A reboot loses the open files and nothing else.
  lemma Remount(s: Fs)
    requires Inv(s)
    ensures Inv(Mount(s.disk)) && View(Mount(s.disk)) == File(View(s).bytes, map[])
  {
  }

  lemma PrefixSlice(b: seq<Byte>, size: nat, pos: nat, n: nat)
    requires pos + n <= size <= |b|
    ensures b[..size][pos..pos + n] == b[pos..pos + n]
  {
  }

  lemma ReadIsPlain(s: Fs, fd: nat, count: nat)
    requires Inv(s) && Allowed(s, ReadOp(fd, count))
    ensures CopyFits(s.inode.size, s.files[fd], count)
    ensures var (s', got) := Read(s, fd, count); var pos, f := s.files[fd], View(s);
      && got == f.bytes[pos..if pos + count <= |f.bytes| then pos + count else |f.bytes|]
      && Inv(s') && View(s') == File(f.bytes, f.positions[fd := pos + |got|])
  {
    var pos, f := s.files[fd], View(s);
    if pos < s.inode.size {
      ClampIff(s.inode.size, pos, count);
      var n := Clamp(s.inode.size, pos, count);
      PrefixSlice(s.disk[2], s.inode.size, pos, n);
    } else {
      assert s.files[fd := pos] == s.files;
    }
  }

  lemma WriteIsPlain(s: Fs, fd: nat, data: seq<Byte>)
    requires Inv(s) && fd in s.files && s.files[fd] + |data| <= 512
    ensures var s', pos, f := Write(s, fd, data), s.files[fd], View(s);
      Inv(s') && View(s') == File(Splice(f.bytes, pos, data), f.positions[fd := pos + |data|])
  {
    var s', pos, n := Write(s, fd, data), s.files[fd], |data|;
    PatchSplices(s.disk[2], s.inode.size, pos, data);
    if pos + n > s.inode.size {
      PatchedSlice(s.disk[1], 76, InodeBytes(s'.inode));
      InodeRoundTrip(s'.inode);
    }
  }

  lemma PatchedSlice(b: Block, at: nat, src: seq<Byte>)
    requires at + |src| <= 512
    ensures Patch(b, at, src)[at..at + |src|] == src
  {
  }

  // Patching a block splices the file that its first bytes are.
  lemma PatchSplices(b: Block, size: nat, pos: nat, data: seq<Byte>)
    requires pos <= size <= 512 && pos + |data| <= 512
    ensures var end := if pos + |data| > size then pos + |data| else size;
      Patch(b, pos, data)[..end] == Splice(b[..size], pos, data)
  {
    assert b[..size][..pos] == b[..pos];
    if pos + |data| > size {
      assert Patch(b, pos, data)[..pos + |data|] == b[..pos] + data;
    } else {
      assert b[..size][pos + |data|..] == b[pos + |data|..size];
      assert Patch(b, pos, data)[..size] == b[..pos] + data + b[pos + |data|..size];
    }
  }

  // ---- runs

  datatype Op = OpenOp(fd: nat) | ReadOp(fd: nat, count: nat) | WriteOp(fd: nat, data: seq<Byte>) | RebootOp

  // What callers must see to: reads and writes on open files, writes inside the block, and no
  // read from inside the file whose end wraps around 2^64.
  predicate Allowed(s: Fs, op: Op) {
    match op
    case OpenOp(_) => true
    case ReadOp(fd, count) =>
      fd in s.files && count < WORD && (s.files[fd] < s.inode.size ==> s.files[fd] + count < WORD)
    case WriteOp(fd, data) => fd in s.files && s.files[fd] + |data| <= 512
    case RebootOp => true
  }

  // What the driver must see to: the disk has its three blocks, and the inode points into them.
  predicate Bounded(s: Fs) { |s.disk| >= 3 && s.inode.block < |s.disk| && s.inode.size <= 512 && |s.inode.name| == 64 }

  lemma AllowedFits(s: Fs, fd: nat, count: nat)
    requires s.inode.size <= 512 && Allowed(s, ReadOp(fd, count))
    ensures CopyFits(s.inode.size, s.files[fd], count)
  {
    if s.files[fd] < s.inode.size { ClampIff(s.inode.size, s.files[fd], count); }
  }

  function Step(s: Fs, op: Op): (Fs, seq<Byte>)
    requires Bounded(s) && Allowed(s, op)
  {
    match op
    case OpenOp(fd) => (Open(s, fd), [])
    case ReadOp(fd, count) => AllowedFits(s, fd, count); Read(s, fd, count)
    case WriteOp(fd, data) => (Write(s, fd, data), [])
    case RebootOp => (Mount(s.disk), [])
  }

  // The same operations on a plain sequence of bytes.
  function PlainStep(f: File, op: Op): (File, seq<Byte>) {
    match op
    case OpenOp(fd) => (f.(positions := f.positions[fd := 0]), [])
    case ReadOp(fd, count) =>
      var pos := if fd in f.positions then f.positions[fd] else 0;
      var end := if pos + count <= |f.bytes| then pos + count else |f.bytes|;
      if pos > end then (f, []) else (f.(positions := f.positions[fd := end]), f.bytes[pos..end])
    case WriteOp(fd, data) =>
      var pos := if fd in f.positions then f.positions[fd] else 0;
      if pos > |f.bytes| then (f, []) else (File(Splice(f.bytes, pos, data), f.positions[fd := pos + |data|]), [])
    case RebootOp => (f.(positions := map[]), [])
  }

  lemma ReadStep(s: Fs, fd: nat, count: nat)
    requires Inv(s) && Allowed(s, ReadOp(fd, count))
    ensures var (s', got) := Step(s, ReadOp(fd, count));
      Inv(s') && (View(s'), got) == PlainStep(View(s), ReadOp(fd, count))
  {
    ReadIsPlain(s, fd, count);
  }

  lemma WriteStep(s: Fs, fd: nat, data: seq<Byte>)
    requires Inv(s) && Allowed(s, WriteOp(fd, data))
    ensures var (s', got) := Step(s, WriteOp(fd, data));
      Inv(s') && (View(s'), got) == PlainStep(View(s), WriteOp(fd, data))
  {
    WriteIsPlain(s, fd, data);
  }

  lemma StepIsPlain(s: Fs, op: Op)
    requires Inv(s) && Allowed(s, op)
    ensures Inv(Step(s, op).0)
    ensures (View(Step(s, op).0), Step(s, op).1) == PlainStep(View(s), op)
  {
    match op
    case OpenOp(_) =>
    case ReadOp(fd, count) => ReadStep(s, fd, count);
    case WriteOp(fd, data) => WriteStep(s, fd, data);
    case RebootOp => Remount(s);
  }

  // Of a state out of bounds nothing is said; RunIsPlain has none.
  ghost predicate Run(states: seq<Fs>, ops: seq<Op>, outs: seq<seq<Byte>>) {
    && |states| == |ops| + 1 == |outs| + 1
    && forall i :: 0 <= i < |ops| ==>
         && Allowed(states[i], ops[i])
         && (Bounded(states[i]) ==> Step(states[i], ops[i]) == (states[i + 1], outs[i]))
  }

  function PlainRun(f: File, ops: seq<Op>): (File, seq<seq<Byte>>) {
    if ops == [] then (f, [])
    else
      var k := |ops| - 1;
      var (g, outs) := PlainRun(f, ops[..k]);
      var (h, out) := PlainStep(g, ops[k]);
      (h, outs + [out])
  }

  // From a freshly formatted disk, every run reads what the plain file would read, and the
  // cached inode, the disk and the positions always agree.
  lemma {:induction false} RunIsPlain(disk: seq<Block>, states: seq<Fs>, ops: seq<Op>, outs: seq<seq<Byte>>, n: nat)
    requires |disk| >= 3 && FromU32(disk[0][0..4]) != MAGIC
    requires Run(states, ops, outs) && states[0] == Mount(disk) && n <= |ops|
    ensures Inv(states[n]) && PlainRun(File([], map[]), ops[..n]) == (View(states[n]), outs[..n])
  {
    if n == 0 {
      MountFresh(disk);
    } else {
      RunIsPlain(disk, states, ops, outs, n - 1);
      NextIsPlain(states[n - 1], ops[n - 1], states[n], outs[n - 1]);
      PlainRunNext(File([], map[]), ops, outs, n, View(states[n - 1]), View(states[n]));
    }
  }

  lemma NextIsPlain(s: Fs, op: Op, s': Fs, out: seq<Byte>)
    requires Inv(s) && Allowed(s, op) && (Bounded(s) ==> Step(s, op) == (s', out))
    ensures Inv(s') && PlainStep(View(s), op) == (View(s'), out)
  {
    StepIsPlain(s, op);
  }

  lemma PlainRunNext(f: File, ops: seq<Op>, outs: seq<seq<Byte>>, n: nat, g: File, h: File)
    requires 0 < n <= |ops| == |outs|
    requires PlainRun(f, ops[..n - 1]) == (g, outs[..n - 1]) && PlainStep(g, ops[n - 1]) == (h, outs[n - 1])
    ensures PlainRun(f, ops[..n]) == (h, outs[..n])
  {
    assert ops[..n][..n - 1] == ops[..n - 1];
    assert outs[..n] == outs[..n - 1] + [outs[n - 1]];
  }

  // ---- the driver, with its one static block buffer

  class Driver {
    var disk: seq<Block>
    var buf: Block
    var inode: Inode
    var files: map<nat, nat>

    function Now(): Fs
      reads this
    {
      Fs(disk, inode, files)
    }

    // relisfs_mount on a disk found at boot.
    constructor (found: seq<Block>)
      requires |found| >= 3
      ensures Now() == Mount(found)
    {
      disk, inode, files := found, RootInode(), map[];
      buf := found[0];
      new;
      if FromU32(buf[0..4]) != MAGIC {
        buf := Patch(buf, 0, U32(MAGIC) + (U32(64) + U32(1) + U32(2)));
        disk := disk[0 := buf];
        buf := seq(512, _ => 0);
        disk := disk[1 := buf];
        buf := disk[1];
        buf := Patch(buf, 76, InodeBytes(RootInode()));
        disk := disk[1 := buf];
      }
      buf := disk[1];
      inode := InodeOf(buf[76..152]);
    }

    // relisfs_read; failing is the -1 of an unused inode.
    method ReadFile(fd: nat, count: nat) returns (failed: bool, got: seq<Byte>)
      requires fd in files && inode.block < |disk| && CopyFits(inode.size, files[fd], count)
      modifies this
      ensures failed <==> old(inode.used) == 0
      ensures failed ==> Now() == old(Now()) && got == []
      ensures !failed ==> (Now(), got) == Read(old(Now()), fd, count)
    {
      got := [];
      if inode.used == 0 { return true, got; }
      failed := false;
      if files[fd] >= inode.size { return; }
      var n := count;
      if (files[fd] + n) % WORD > inode.size { n := inode.size - files[fd]; }
      buf := disk[inode.block];
      got := buf[files[fd]..files[fd] + n];
      files := files[fd := files[fd] + n];
    }

    // relisfs_write
    method WriteFile(fd: nat, data: seq<Byte>) returns (failed: bool)
      requires fd in files && 1 < |disk| && inode.block < |disk| && |inode.name| == 64 && files[fd] + |data| <= 512
      modifies this
      ensures failed <==> old(inode.used) == 0
      ensures Now() == if failed then old(Now()) else Write(old(Now()), fd, data)
    {
      if inode.used == 0 { return true; }
      buf := disk[inode.block];
      buf := Patch(buf, files[fd], data);
      disk := disk[inode.block := buf];
      files := files[fd := files[fd] + |data|];
      if files[fd] > inode.size {
        inode := inode.(size := files[fd]);
        buf := disk[1];
        buf := Patch(buf, 76, InodeBytes(inode));
        disk := disk[1 := buf];
      }
      failed := false;
    }
  }
}
