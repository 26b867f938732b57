/**
The commands of the BMFS tool as functions on a disk image, and whole runs of them as a refinement
of the file map.
*/
module BmfsRuns {
  import opened Options
  import opened Bytes
  import opened Streams
  import opened BmfsDirectory
  import opened BmfsGaps
  import opened BmfsCreate
  import opened BmfsFiles
  import opened Words

  /** The directory in memory and the bytes of the disk. */
  datatype Image = Image(dir: Dir, data: seq<byte>)

  predicate HasDirectory(data: seq<byte>) { |data| >= 2 * DIR_SIZE }

  /** A good directory, equal to the one on the disk, over a disk that has all its blocks. */
  ghost predicate Good(s: Image, last: nat) {
    && DirInv(s.dir, last) && Holds(s.data, last) && last < TWO_32 / 2
    && s.data[DIR_OFFSET..2 * DIR_SIZE] == Encode(s.dir)
  }

  // ----- The commands -----

  function Flush(s: Image): Image
    requires HasDirectory(s.data)
  {
    Image(s.dir, Patch(s.data, DIR_OFFSET, Encode(s.dir)))
  }

  /** Sizes are in MiB and reserved in blocks of two. */
  function Blocks(maxsize: uint64): (n: uint64)
    ensures n <= TWO_64 / 2
  {
    (if maxsize % 2 != 0 then (maxsize + 1) % TWO_64 else maxsize) / 2
  }

  function Capacity(e: Entry): uint64 { e.reserved * BLOCK_SIZE % TWO_64 }

  /** fseek refuses an offset that reads as negative and leaves the disk as main has rewound it. */
  function Offset(e: Entry): nat {
    var p := e.start * BLOCK_SIZE % TWO_64;
    if p < TWO_64 / 2 then p else 0
  }

  function CreateCmd(s: Image, last: uint64, name: seq<byte>, maxsize: uint64): (Image, Result)
    requires HasDirectory(s.data) && IsFileName(name)
  {
    var r := Create(s.dir, Sort(s.dir[..Used(s.dir)]), last, name, Blocks(maxsize));
    (if r.Created? then Flush(Image(r.dir, s.data)) else s, r)
  }

  predicate CanWrite(s: Image, name: seq<byte>, b: seq<byte>) {
    var r := Find(s.dir, name);
    r.Some? && |b| <= Capacity(s.dir[r.value])
  }

  function WriteCmd(s: Image, name: seq<byte>, b: seq<byte>): Image
    requires HasDirectory(s.data)
  {
    if CanWrite(s, name, b) then
      var i := Find(s.dir, name).value;
      var e := s.dir[i];
      Flush(Image(s.dir[i := e.(size := |b|)], Put(s.data, Offset(e), b)))
    else s
  }

  function DeleteCmd(s: Image, name: seq<byte>): Image
    requires HasDirectory(s.data)
  {
    var r := Find(s.dir, name);
    if r.Some? then Flush(s.(dir := s.dir[r.value := Deleted(s.dir[r.value])])) else s
  }

  /** n bytes from pos on; what lies behind the end of the disk reads as the end-of-file character. */
  function BytesAt(data: seq<byte>, pos: nat, n: nat): (r: seq<byte>)
    ensures |r| == n
    ensures pos + n <= |data| ==> r == data[pos..pos + n]
  {
    if n == 0 then [] else BytesAt(data, pos, n - 1) + [if pos + n <= |data| then data[pos + n - 1] else 255]
  }

  lemma {:induction false} ByteRead(data: seq<byte>, pos: nat, n: nat, k: nat)
    requires k < n
    ensures BytesAt(data, pos, n)[k] == if pos + k < |data| then data[pos + k] else 255
    decreases n
  {
    if k < n - 1 { ByteRead(data, pos, n - 1, k); }
  }

  function ReadCmd(s: Image, name: seq<byte>): Option<seq<byte>> {
    var r := Find(s.dir, name);
    if r.None? then None
    else Some(BytesAt(s.data, Offset(s.dir[r.value]), s.dir[r.value].size))
  }

  const FS_TAG: seq<byte> := [66, 77, 70, 83]
  const INFO_OFFSET: nat := 1024
  const INFO_SIZE: nat := 512

  const ZERO_ENTRY: Entry := Entry(Zeros(NAME_SIZE), 0, 0, 0, 0)

  function ZeroEntries(n: nat): (d: seq<Entry>)
    ensures |d| == n && forall k :: 0 <= k < n ==> d[k] == ZERO_ENTRY
  {
    if n == 0 then [] else ZeroEntries(n - 1) + [ZERO_ENTRY]
  }

  const EMPTY_DIR: Dir := ZeroEntries(SLOTS)

  const DISK_INFO: seq<byte> := FS_TAG + Zeros(INFO_SIZE - 4)

  function FormatCmd(s: Image): Image
    requires HasDirectory(s.data)
  {
    Flush(Image(EMPTY_DIR, Patch(s.data, INFO_OFFSET, DISK_INFO)))
  }

  lemma {:induction false} ZeroBytes(k: nat)
    ensures ToBytes(0, k) == Zeros(k)
  {
    if k > 0 { ZeroBytes(k - 1); }
  }

  lemma {:induction false} EncodeZeros(d: seq<Entry>)
    requires forall k :: 0 <= k < |d| ==> d[k] == ZERO_ENTRY
    ensures Encode(d) == Zeros(RECORD_SIZE * |d|)
  {
    ZeroBytes(8);
    if d != [] { EncodeZeros(d[1..]); }
  }

  /** A format writes the tag at 1024, clears the rest of its block and the directory, and nothing else. */
  lemma FormatBytes(s: Image)
    requires HasDirectory(s.data)
    ensures var data := FormatCmd(s).data;
            && |data| == |s.data| && data[1024..1028] == [66, 77, 70, 83]
            && (forall k :: 1028 <= k < 1536 || 4096 <= k < 8192 ==> data[k] == 0)
            && (forall k :: 0 <= k < 1024 || 1536 <= k < 4096 || 8192 <= k < |data| ==> data[k] == s.data[k])
  {
    EncodeZeros(EMPTY_DIR);
    var tagged := Patch(s.data, INFO_OFFSET, DISK_INFO);
    var data := Patch(tagged, DIR_OFFSET, Zeros(DIR_SIZE));
    assert data[1024..1028] == tagged[1024..1028] == DISK_INFO[..4];
    forall k | 1028 <= k < 1536 ensures data[k] == 0 {
      assert tagged[k] == tagged[1024..1536][k - 1024] == DISK_INFO[k - 1024];
    }
    forall k | 4096 <= k < 8192 ensures data[k] == 0 { assert data[k] == data[4096..8192][k - 4096]; }
  }

  // ----- Each command refines the file map -----

  ghost function FilesOf(s: Image, last: nat): FileMap
    requires Good(s, last)
  {
    Files(s.dir, last, s.data)
  }

  lemma FlushGood(s: Image, last: nat)
    requires DirInv(s.dir, last) && Holds(s.data, last) && last < TWO_32 / 2
    ensures Good(Flush(s), last) && FilesOf(Flush(s), last) == Files(s.dir, last, s.data)
  {
    FlushFiles(s.dir, last, s.data, Encode(s.dir));
  }

  /** A formatted disk is good and holds no files. */
  lemma FormatRefines(s: Image, last: nat)
    requires Holds(s.data, last) && last < TWO_32 / 2
    ensures Good(FormatCmd(s), last) && FilesOf(FormatCmd(s), last) == map[]
  {
  }

  /** On a disk with few enough blocks no product of a block number wraps. */
  lemma NoWrap(e: Entry, last: nat)
    requires GoodRecord(e, last) && last < TWO_32 / 2
    ensures Capacity(e) == e.reserved * BLOCK_SIZE && Offset(e) == e.start * BLOCK_SIZE
  {
  }

  /** A name and size that the tool can store, and the condition of CreateGoodIff that no file is lost. */
  ghost predicate SafeCreate(s: Image, last: nat, name: seq<byte>, maxsize: uint64) {
    IsFileName(name) && Storable(name) && Blocks(maxsize) > 0 && Harmless(s.dir, last, Blocks(maxsize))
  }

  lemma SmallEntries(d: Dir, last: nat)
    requires DirInv(d, last) && last < TWO_32 / 2
    ensures Qsorted(d[..Used(d)], Sort(d[..Used(d)]))
  {
    var s := d[..Used(d)];
    forall e | e in s ensures e.start < TWO_32 / 2 {
      var i :| 0 <= i < |s| && s[i] == e;
      assert GoodRecord(d[..EndOf(d)][i], last);
    }
    SortQsorted(s);
  }

  /** Where a safe create puts its record, and the run of blocks it takes. */
  lemma SafePlace(d: Dir, t: seq<Entry>, last: uint64, name: seq<byte>, reserved: uint64) returns (start: uint64)
    requires DirInv(d, last) && Qsorted(d[..Used(d)], t) && 1 <= last && IsFileName(name) && Storable(name)
    requires reserved > 0 && Find(d, name).None? && Harmless(d, last, reserved)
    ensures var r := Create(d, t, last, name, reserved);
            && (r.Created? <==> FreeSlot(d).Some? && SomeRun(d, last, reserved))
            && (r.Created? ==>
                 && FreeSlot(d).Some? && 1 <= start && start + reserved <= last
                 && r.dir == Place(d, FreeSlot(d).value, name, start, reserved) && StillGood(d, r.dir, last))
  {
    CreateGoodIff(d, t, last, name, reserved);
    var scan := GapScan(t, 0, 1, last, reserved);
    start := if scan.Some? then scan.value else 0;
    if EndOf(d) < SLOTS {
      CreateOutcome(d, t, last, name, reserved);
      if scan.Some? && start > 0 { PlaceEnd(d, FreeSlot(d).value, name, start, reserved); }
    } else {
      assert t == [] by { assert |multiset(t)| == 0; }
      CreateUnterminated(d, last, name, reserved);
    }
  }

  /** A safe create adds the empty file exactly when the name is new and slot and blocks are free. */
  lemma CreateRefines(s: Image, last: uint64, name: seq<byte>, maxsize: uint64)
    requires Good(s, last) && SafeCreate(s, last, name, maxsize)
    ensures var (t, r) := CreateCmd(s, last, name, maxsize);
            && Good(t, last)
            && (r.Created? <==>
                 name !in FilesOf(s, last) && FreeSlot(s.dir).Some? && SomeRun(s.dir, last, Blocks(maxsize)))
            && FilesOf(t, last) ==
               if r.Created? then FilesOf(s, last)[name := File([], Blocks(maxsize) * BLOCK_SIZE)] else FilesOf(s, last)
  {
    NamesFound(s.dir);
    SmallEntries(s.dir, last);
    if Find(s.dir, name).None? {
      var sorted := Sort(s.dir[..Used(s.dir)]);
      var start := SafePlace(s.dir, sorted, last, name, Blocks(maxsize));
      var r := Create(s.dir, sorted, last, name, Blocks(maxsize));
      if r.Created? {
        CreateFiles(s.dir, FreeSlot(s.dir).value, name, start, Blocks(maxsize), last, s.data);
        FlushGood(Image(r.dir, s.data), last);
      }
    }
  }

  lemma BlocksCover(maxsize: uint64)
    ensures maxsize == TWO_64 - 1 ==> Blocks(maxsize) == 0
    ensures maxsize < TWO_64 - 1 ==> maxsize <= 2 * Blocks(maxsize) <= maxsize + 1
  {
  }

  /**
  On any disk a created record reserves the least number of two MiB that is not below the size asked
  for, except that the largest size of all wraps and reserves nothing.
  */
  lemma CreateReserves(s: Image, last: uint64, name: seq<byte>, maxsize: uint64)
    requires HasDirectory(s.data) && IsFileName(name)
    ensures var r := CreateCmd(s, last, name, maxsize).1;
            r.Created? ==>
              && FreeSlot(s.dir).Some?
              && var n := r.dir[FreeSlot(s.dir).value].reserved;
                 if maxsize == TWO_64 - 1 then n == 0 else maxsize <= 2 * n <= maxsize + 1
  {
    BlocksCover(maxsize);
    var reserved := Blocks(maxsize);
    var r := Create(s.dir, Sort(s.dir[..Used(s.dir)]), last, name, reserved);
    assert r.Created? ==> r.dir[FreeSlot(s.dir).value].reserved == reserved;
  }

  /** So the file can hold that many MiB, and its capacity is the least multiple of 2 MiB that can. */
  lemma CreateCapacity(s: Image, last: uint64, name: seq<byte>, maxsize: uint64)
    requires Good(s, last) && SafeCreate(s, last, name, maxsize) && CreateCmd(s, last, name, maxsize).1.Created?
    ensures Good(CreateCmd(s, last, name, maxsize).0, last)
    ensures var files := FilesOf(CreateCmd(s, last, name, maxsize).0, last);
            && maxsize < TWO_64 - 1 && name in files && files[name].bytes == []
            && files[name].capacity % (2 * MIB) == 0
            && maxsize * MIB <= files[name].capacity < maxsize * MIB + 2 * MIB
  {
    CreateRefines(s, last, name, maxsize);
    BlocksCover(maxsize);
    InMib(maxsize, Blocks(maxsize));
  }

  lemma InMib(maxsize: nat, blocks: nat)
    requires maxsize <= 2 * blocks <= maxsize + 1
    ensures blocks * BLOCK_SIZE % (2 * MIB) == 0 && maxsize * MIB <= blocks * BLOCK_SIZE < maxsize * MIB + 2 * MIB
  {
  }

  /** Any bytes up to the size asked for can then be written, and read back. */
  lemma CreateThenWrite(s: Image, last: uint64, name: seq<byte>, maxsize: uint64, b: seq<byte>)
    requires Good(s, last) && SafeCreate(s, last, name, maxsize) && CreateCmd(s, last, name, maxsize).1.Created?
    requires |b| <= maxsize * MIB
    ensures var t := CreateCmd(s, last, name, maxsize).0;
            HasDirectory(t.data) && CanWrite(t, name, b) && ReadCmd(WriteCmd(t, name, b), name) == Some(b)
  {
    CreateCapacity(s, last, name, maxsize);
    var t := CreateCmd(s, last, name, maxsize).0;
    WriteRefines(t, last, name, b);
    ReadRefines(WriteCmd(t, name, b), last, name);
  }

  /** What format and a create make of a disk without data blocks: a record of blocks that do not exist. */
  lemma CreateAfterSmallFormat(s: Image, disksize: uint32, name: seq<byte>, maxsize: uint64)
    requires HasDirectory(s.data) && disksize < 4 && IsFileName(name) && Storable(name) && Blocks(maxsize) > 0
    ensures var t := FormatCmd(s);
            var (u, r) := CreateCmd(t, LastOf(disksize), name, maxsize);
            && DirInv(t.dir, LastIndex(disksize)) && r.Created? && !DirInv(u.dir, LastIndex(disksize))
  {
    var d := EMPTY_DIR;
    assert EndOf(d) == 0 && Used(d) == 0 && Sort(d[..0]) == [];
    CreateOnSmallDisk(d, disksize, name, Blocks(maxsize));
  }

  /** A write succeeds exactly when the file exists and can hold the bytes; only its bytes change. */
  lemma WriteRefines(s: Image, last: nat, name: seq<byte>, b: seq<byte>)
    requires Good(s, last)
    ensures var t := WriteCmd(s, name, b);
            && Good(t, last)
            && (CanWrite(s, name, b) <==> name in FilesOf(s, last) && |b| <= FilesOf(s, last)[name].capacity)
            && FilesOf(t, last) ==
               if CanWrite(s, name, b) then FilesOf(s, last)[name := FilesOf(s, last)[name].(bytes := b)]
               else FilesOf(s, last)
  {
    NamesFound(s.dir);
    if Find(s.dir, name).Some? {
      var i := Find(s.dir, name).value;
      LiveOnDisk(s.dir, last, s.data, i);
      NoWrap(s.dir[i], last);
      if CanWrite(s, name, b) {
        WriteFiles(s.dir, last, s.data, i, b);
        FlushGood(Image(s.dir[i := s.dir[i].(size := |b|)], Patch(s.data, s.dir[i].start * BLOCK_SIZE, b)), last);
      }
    }
  }

  lemma DeleteRefines(s: Image, last: nat, name: seq<byte>)
    requires Good(s, last)
    ensures Good(DeleteCmd(s, name), last)
    ensures FilesOf(DeleteCmd(s, name), last) == FilesOf(s, last) - {name}
  {
    NamesFound(s.dir);
    if Find(s.dir, name).Some? {
      var i := Find(s.dir, name).value;
      DeleteFiles(s.dir, last, s.data, i);
      FlushGood(s.(dir := s.dir[i := Deleted(s.dir[i])]), last);
    }
  }

  lemma ReadFound(s: Image, last: nat, name: seq<byte>)
    requires Good(s, last) && Find(s.dir, name).Some?
    ensures name in FilesOf(s, last) && ReadCmd(s, name) == Some(FilesOf(s, last)[name].bytes)
  {
    var i := Find(s.dir, name).value;
    NamesFound(s.dir);
    LiveOnDisk(s.dir, last, s.data, i);
    NoWrap(s.dir[i], last);
    assert BytesAt(s.data, s.dir[i].start * BLOCK_SIZE, s.dir[i].size) == Content(s.dir[i], s.data);
    assert FilesOf(s, last)[name] == FileNamed(s.dir, last, s.data, name);
  }

  lemma ReadRefines(s: Image, last: nat, name: seq<byte>)
    requires Good(s, last)
    ensures ReadCmd(s, name) == if name in FilesOf(s, last) then Some(FilesOf(s, last)[name].bytes) else None
  {
    NamesFound(s.dir);
    if Find(s.dir, name).Some? { ReadFound(s, last, name); }
  }

  // ----- Runs; every command is its own process and starts from the directory on the disk -----

  function Reopen(s: Image): Image
    requires HasDirectory(s.data)
  {
    s.(dir := Decode(s.data[DIR_OFFSET..2 * DIR_SIZE]))
  }

  lemma ReopenSame(s: Image, last: nat)
    requires Good(s, last)
    ensures Reopen(s) == s
  {
    DirRoundTrip(s.dir);
  }

  datatype Command =
    | CmdCreate(name: seq<byte>, maxsize: uint64)
    | CmdWrite(name: seq<byte>, bytes: seq<byte>)
    | CmdDelete(name: seq<byte>)

  /** The disk next to the files its user expects, given which creates were reported complete. */
  datatype World = World(image: Image, files: FileMap)

  ghost predicate Legal(w: World, last: nat, c: Command) {
    && HasDirectory(w.image.data)
    && match c
       case CmdCreate(name, maxsize) => SafeCreate(Reopen(w.image), last, name, maxsize)
       case CmdWrite(_, _) => true
       case CmdDelete(_) => true
  }

  ghost function Next(w: World, last: uint64, c: Command): World
    requires Legal(w, last, c)
  {
    var s := Reopen(w.image);
    match c
    case CmdCreate(name, maxsize) =>
      var (t, r) := CreateCmd(s, last, name, maxsize);
      World(t, if r.Created? then w.files[name := File([], Blocks(maxsize) * BLOCK_SIZE)] else w.files)
    case CmdWrite(name, b) =>
      World(WriteCmd(s, name, b),
        if name in w.files && |b| <= w.files[name].capacity then w.files[name := w.files[name].(bytes := b)]
        else w.files)
    case CmdDelete(name) =>
      World(DeleteCmd(s, name), w.files - {name})
  }

  ghost predicate LegalRun(w: World, last: uint64, cmds: seq<Command>)
    decreases |cmds|
  {
    cmds == [] || (Legal(w, last, cmds[0]) && LegalRun(Next(w, last, cmds[0]), last, cmds[1..]))
  }

  ghost function Run(w: World, last: uint64, cmds: seq<Command>): World
    requires LegalRun(w, last, cmds)
    decreases |cmds|
  {
    if cmds == [] then w else Run(Next(w, last, cmds[0]), last, cmds[1..])
  }

  ghost predicate Agrees(w: World, last: nat) { Good(w.image, last) && FilesOf(w.image, last) == w.files }

  lemma NextAgrees(w: World, last: uint64, c: Command)
    requires Agrees(w, last) && Legal(w, last, c)
    ensures Agrees(Next(w, last, c), last)
  {
    ReopenSame(w.image, last);
    match c
    case CmdCreate(name, maxsize) => CreateRefines(w.image, last, name, maxsize);
    case CmdWrite(name, b) => WriteRefines(w.image, last, name, b);
    case CmdDelete(name) => DeleteRefines(w.image, last, name);
  }

  /** Over every run of safe commands, a read gives back exactly the last bytes written to the name. */
  lemma {:induction false} RunAgrees(w: World, last: uint64, cmds: seq<Command>, name: seq<byte>)
    requires Agrees(w, last) && LegalRun(w, last, cmds)
    ensures var v := Run(w, last, cmds);
            && Agrees(v, last) && Reopen(v.image) == v.image
            && ReadCmd(v.image, name) == if name in v.files then Some(v.files[name].bytes) else None
    decreases |cmds|
  {
    if cmds == [] {
      ReopenSame(w.image, last);
      ReadRefines(w.image, last, name);
    } else {
      NextAgrees(w, last, cmds[0]);
      RunAgrees(Next(w, last, cmds[0]), last, cmds[1..], name);
    }
  }
}
