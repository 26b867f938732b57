/**
BMFS initialize (bmfs.c): the disk image it writes, and that every command can start from it.
*/
module BmfsInit {
  import opened Options
  import opened Bytes
  import opened Streams
  import opened BmfsDirectory
  import opened BmfsCreate
  import opened BmfsFiles
  import opened BmfsRuns
  import opened BmfsSizes
  import opened Bmfs
  import opened Words

  const BUFFER_SIZE: nat := 51200
  const MBR_SIZE: nat := 512
  const BOOT_OFFSET: nat := 8192

  type Blob = seq<byte>

  predicate CanBoot(mbr: Option<Blob>) { mbr.Some? ==> |mbr.value| >= MBR_SIZE }

  function WithMbr(data: Blob, mbr: Option<Blob>): Blob
    requires CanBoot(mbr)
  {
    if mbr.Some? then Patch(data, 0, mbr.value[..MBR_SIZE]) else data
  }

  function Formatted(n: nat): (r: Blob)
    requires n >= MINIMUM_DISK_SIZE
    ensures |r| == n
  {
    FormatCmd(Image(EMPTY_DIR, Zeros(n))).data
  }

  /** A new disk of n bytes with a boot record at its start and boot code behind the directory. */
  function Layout(n: nat, mbr: Option<Blob>, boot: Blob): Blob
    requires n >= MINIMUM_DISK_SIZE && CanBoot(mbr)
  {
    Patch(WithMbr(Formatted(n), mbr), BOOT_OFFSET, boot)
  }

  /** The index of the last block, for a tool that opens the disk. */
  function LastBlock(data: Blob): nat
    requires |data| >= 4 * MIB
  {
    |data| / MIB / 2 - 1
  }

  lemma PatchOutside(data: Blob, pos: nat, b: Blob, i: nat, j: nat)
    requires i <= j <= |data| && pos <= |data| && (pos + |b| <= i || j <= pos)
    ensures |Patch(data, pos, b)| >= |data| && Patch(data, pos, b)[i..j] == data[i..j]
  {
  }

  /** The image holds an empty directory and is long enough for every block up to the last. */
  lemma LayoutGood(n: nat, mbr: Option<Blob>, boot: Blob)
    requires n >= MINIMUM_DISK_SIZE && CanBoot(mbr)
    requires |Layout(n, mbr, boot)| < TWO_32 * MIB
    ensures var data := Layout(n, mbr, boot);
            && |data| >= n && data[DIR_OFFSET..2 * DIR_SIZE] == Encode(EMPTY_DIR)
            && Agrees(World(Image(EMPTY_DIR, data), map[]), LastBlock(data))
            && Reopen(Image(EMPTY_DIR, data)) == Image(EMPTY_DIR, data)
  {
    var data := Layout(n, mbr, boot);
    if mbr.Some? { PatchOutside(Formatted(n), 0, mbr.value[..MBR_SIZE], DIR_OFFSET, 2 * DIR_SIZE); }
    PatchOutside(WithMbr(Formatted(n), mbr), BOOT_OFFSET, boot, DIR_OFFSET, 2 * DIR_SIZE);
    EmptyAgrees(data);
  }

  /** Boot record, tag and boot code lie where they are looked for, and all other bytes are 0. */
  lemma LayoutBytes(n: nat, mbr: Option<Blob>, boot: Blob)
    requires n >= MINIMUM_DISK_SIZE && CanBoot(mbr)
    ensures var data := Layout(n, mbr, boot);
            && |data| == (if 8192 + |boot| <= n then n else 8192 + |boot|)
            && (mbr.Some? ==> data[..512] == mbr.value[..512])
            && data[1024..1028] == [66, 77, 70, 83] && data[8192..8192 + |boot|] == boot
            && (forall k :: (if mbr.Some? then 512 else 0) <= k < 1024 || 1028 <= k < 8192 ==> data[k] == 0)
            && forall k :: 8192 + |boot| <= k < |data| ==> data[k] == 0
  {
    FormatBytes(Image(EMPTY_DIR, Zeros(n)));
    var booted := WithMbr(Formatted(n), mbr);
    var data := Layout(n, mbr, boot);
    assert data[1024..1028] == booted[1024..1028] == Formatted(n)[1024..1028];
    if mbr.Some? { assert data[..512] == booted[..512] == mbr.value[..512]; }
  }

  lemma EmptyAgrees(data: Blob)
    requires 4 * MIB <= |data| < TWO_32 * MIB && data[DIR_OFFSET..2 * DIR_SIZE] == Encode(EMPTY_DIR)
    ensures Agrees(World(Image(EMPTY_DIR, data), map[]), LastBlock(data))
    ensures Reopen(Image(EMPTY_DIR, data)) == Image(EMPTY_DIR, data)
  {
    EndOfIs(EMPTY_DIR, 0);
    FilesIs(EMPTY_DIR, LastBlock(data), data, map[]);
    ReopenSame(Image(EMPTY_DIR, data), LastBlock(data));
  }

  // ----- The command -----

  method Format(disk: FileStream, directory: array<Entry>)
    requires HasDirectory(disk.data) && directory.Length == SLOTS
    modifies disk, directory
    ensures Image(directory[..], disk.data) == FormatCmd(Image(old(directory[..]), old(disk.data)))
  {
    for i := 0 to SLOTS
      invariant disk.data == old(disk.data)
      invariant forall k :: 0 <= k < i ==> directory[k] == ZERO_ENTRY
    {
      directory[i] := ZERO_ENTRY;
    }
    assert directory[..] == EMPTY_DIR;
    disk.Seek(INFO_OFFSET);
    disk.Write(DISK_INFO);
    disk.Seek(DIR_OFFSET);
    disk.Write(Encode(directory[..]));
  }

  /** The loop that fills the image with zeros, a buffer at a time. */
  method FillZeros(disk: FileStream, diskSize: nat)
    requires disk.pos == |disk.data|
    modifies disk
    ensures disk.data == old(disk.data) + Zeros(diskSize)
  {
    var writeSize := 0;
    assert old(disk.data) + Zeros(0) == old(disk.data);
    while writeSize < diskSize
      invariant writeSize <= diskSize && disk.pos == |disk.data|
      invariant disk.data == old(disk.data) + Zeros(writeSize)
    {
      var chunkSize := if BUFFER_SIZE > diskSize - writeSize then diskSize - writeSize else BUFFER_SIZE;
      assert Zeros(writeSize) + Zeros(chunkSize) == Zeros(writeSize + chunkSize);
      disk.Write(Zeros(chunkSize));
      writeSize := writeSize + chunkSize;
    }
  }

  lemma PatchAppend(data: Blob, pos: nat, a: Blob, b: Blob)
    requires pos <= |data|
    ensures Patch(Patch(data, pos, a), pos + |a|, b) == Patch(data, pos, a + b)
  {
  }

  /** The loop that copies a file to the disk position until a read gives nothing. */
  method CopyFile(disk: FileStream, source: FileStream)
    requires disk != source && disk.pos <= |disk.data| && source.pos == 0
    modifies disk, source
    ensures disk.data == Patch(old(disk.data), old(disk.pos), source.data)
    ensures disk.pos == old(disk.pos) + |source.data| <= |disk.data| && source.data == old(source.data)
  {
    var more := true;
    while more
      invariant source.data == old(source.data) && source.pos <= |source.data|
      invariant !more ==> source.pos == |source.data|
      invariant disk.pos == old(disk.pos) + source.pos <= |disk.data|
      invariant disk.data == Patch(old(disk.data), old(disk.pos), source.data[..source.pos])
      decreases |source.data| - source.pos, more
    {
      ghost var p := source.pos;
      var buffer := source.Read(BUFFER_SIZE);
      assert source.data[..p] + buffer == source.data[..source.pos];
      PatchAppend(old(disk.data), old(disk.pos), source.data[..p], buffer);
      if |buffer| > 0 {
        disk.Write(buffer);
      } else {
        more := false;
      }
    }
    assert source.data[..|source.data|] == source.data;
  }

  datatype InitResult = Refused(why: Parsed) | TooSmall | Unopened | NoDisk | ShortMbr | Complete

  /** A local file that the user named: its bytes, or None when it cannot be opened. */
  type Local = Option<Blob>

  predicate AllOpen(files: seq<Local>) { forall f :: f in files ==> f.Some? }

  /** The bytes of the local file at position k, none when it was not given. */
  function BytesOf(files: seq<Local>, k: nat): Blob {
    if k < |files| && files[k].Some? then files[k].value else []
  }

  function MbrOf(files: seq<Local>): Option<Blob> { if files == [] then None else files[0] }

  /** The arguments are a size that is large enough and files that open. */
  predicate Accepted(size: string, files: seq<Local>) {
    Parse(size).Size? && Parse(size).n >= MINIMUM_DISK_SIZE && AllOpen(files)
  }

  /**
  files are the boot record, the boot loader and the kernel, as far as they are given; writable is
  whether the buffer can be allocated and the disk file opened.
  */
  method Initialize(size: string, files: seq<Local>, writable: bool) returns (r: InitResult, disk: FileStream?)
    requires |files| <= 3
    ensures r.Refused? <==> !Parse(size).Size?
    ensures r.Refused? ==> r.why == Parse(size)
    ensures r.TooSmall? <==> Parse(size).Size? && Parse(size).n < MINIMUM_DISK_SIZE
    ensures r.Unopened? <==> Parse(size).Size? && Parse(size).n >= MINIMUM_DISK_SIZE && !AllOpen(files)
    ensures r.NoDisk? <==> Accepted(size, files) && !writable
    ensures r.ShortMbr? <==> Accepted(size, files) && writable && !CanBoot(MbrOf(files))
    ensures disk == null <==> !r.ShortMbr? && !r.Complete?
    ensures disk != null ==> fresh(disk)
    ensures r.ShortMbr? ==> disk.data == Formatted(Parse(size).n)
    ensures r.Complete? ==> disk.data == Layout(Parse(size).n, MbrOf(files), BytesOf(files, 1) + BytesOf(files, 2))
  {
    var parsed := ParseSize(size);
    disk := null;
    if !parsed.Size? {
      return Refused(parsed), null;
    }
    if parsed.n < MINIMUM_DISK_SIZE {
      return TooSmall, null;
    }
    if !AllOpen(files) {
      return Unopened, null;
    }
    if !writable {
      return NoDisk, null;
    }
    disk := new FileStream([]);
    FillZeros(disk, parsed.n);
    assert [] + Zeros(parsed.n) == Zeros(parsed.n);
    var directory := new Entry[SLOTS](_ => ZERO_ENTRY);
    Format(disk, directory);
    if files != [] {
      if |files[0].value| < MBR_SIZE {
        return ShortMbr, disk;
      }
      disk.Seek(0);
      disk.Write(files[0].value[..MBR_SIZE]);
    }
    WriteBoot(disk, BytesOf(files, 1), BytesOf(files, 2));
    r := Complete;
  }

  method WriteBoot(disk: FileStream, boot: Blob, kernel: Blob)
    requires BOOT_OFFSET <= |disk.data|
    modifies disk
    ensures disk.data == Patch(old(disk.data), BOOT_OFFSET, boot + kernel)
  {
    var first := new FileStream(boot);
    var second := new FileStream(kernel);
    disk.Seek(BOOT_OFFSET);
    CopyFile(disk, first);
    CopyFile(disk, second);
    PatchAppend(old(disk.data), BOOT_OFFSET, boot, kernel);
  }

  /** The number of MiB fits in the tool's 32 bits. */
  lemma LastKnown(n: nat)
    requires 4 * MIB <= n < TWO_32 * MIB
    ensures var disksize := n / MIB % TWO_32; 4 <= disksize && LastOf(disksize) == n / MIB / 2 - 1
  {
    assert n / MIB < TWO_32;
  }

  method OpenNew(disk: FileStream) returns (tool: Tool)
    requires 4 * MIB <= |disk.data| < TWO_32 * MIB && disk.data[DIR_OFFSET..2 * DIR_SIZE] == Encode(EMPTY_DIR)
    modifies disk
    ensures tool.Valid() && FilesOf(tool.State(), tool.Last()) == map[]
  {
    EmptyAgrees(disk.data);
    ghost var s, last := Image(EMPTY_DIR, disk.data), LastBlock(disk.data);
    assert Good(s, last) && FilesOf(s, last) == map[];
    tool := new Tool(disk);
    LastKnown(|disk.data|);
    assert tool.State() == s;
  }

  predicate FitsTool(n: nat, boot: Blob) { n < TWO_32 * MIB && BOOT_OFFSET + |boot| < TWO_32 * MIB }

  /** Whatever the boot code, the disk that initialize completes opens as a good one without files. */
  method InitializeThenOpen(size: string, files: seq<Local>, writable: bool) returns (r: InitResult, tool: Tool?)
    requires |files| <= 3
    ensures r.Refused? <==> !Parse(size).Size?
    ensures r.Refused? ==> r.why == Parse(size)
    ensures r.TooSmall? <==> Parse(size).Size? && Parse(size).n < MINIMUM_DISK_SIZE
    ensures r.Unopened? <==> Parse(size).Size? && Parse(size).n >= MINIMUM_DISK_SIZE && !AllOpen(files)
    ensures r.NoDisk? <==> Accepted(size, files) && !writable
    ensures r.ShortMbr? <==> Accepted(size, files) && writable && !CanBoot(MbrOf(files))
    ensures r.Complete? && FitsTool(Parse(size).n, BytesOf(files, 1) + BytesOf(files, 2)) ==>
      tool != null && tool.Valid() && FilesOf(tool.State(), tool.Last()) == map[]
  {
    var disk: FileStream?;
    r, disk := Initialize(size, files, writable);
    tool := null;
    if r.Complete? && |disk.data| < TWO_32 * MIB {
      LayoutGood(Parse(size).n, MbrOf(files), BytesOf(files, 1) + BytesOf(files, 2));
      tool := OpenNew(disk);
    }
  }
}
