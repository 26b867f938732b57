/**
The BMFS tool (bmfs.c) itself: the directory array in memory and the open disk file, changed in
place. Every method is tied to the command of BmfsRuns it carries out.
*/
module Bmfs {
  import opened Options
  import opened Bytes
  import opened Streams
  import opened BmfsDirectory
  import opened BmfsGaps
  import opened BmfsCreate
  import opened BmfsFiles
  import opened BmfsRuns
  import opened Words

  datatype ReadResult = Absent | Unwritable | Copied(bytes: seq<byte>)

  datatype WriteResult = NotFound | NoLocalFile | NotEnoughRoom | Written

  class Tool {
    const disk: FileStream
    const directory: array<Entry>
    const disksize: uint32

    ghost predicate Valid()
      reads this, disk, directory
    {
      directory.Length == SLOTS && 4 <= disksize && Good(State(), Last())
    }

    /** The index of the disk's last block, on a disk that has one. */
    function Last(): (last: uint64)
      ensures 4 <= disksize ==> last == LastIndex(disksize)
    {
      LastOf(disksize)
    }

    ghost function State(): Image
      requires directory.Length == SLOTS
      reads this, disk, directory
    {
      Image(directory[..], disk.data)
    }

    /** What main does before it runs a command on a formatted disk. */
    constructor (image: FileStream)
      requires HasDirectory(image.data)
      modifies image
      ensures disk == image && fresh(directory) && directory.Length == SLOTS
      ensures disksize == |image.data| / MIB % TWO_32 && image.data == old(image.data)
      ensures State() == Reopen(Image(directory[..], image.data))
    {
      disk, disksize := image, |image.data| / MIB % TWO_32;
      directory := new Entry[SLOTS](_ => ZERO_ENTRY);
      new;
      image.Seek(DIR_OFFSET);
      var b := image.Read(DIR_SIZE);
      var d := Decode(b);
      for i := 0 to SLOTS
        invariant directory[..i] == d[..i]
        invariant image.data == old(image.data)
      {
        directory[i] := d[i];
      }
      assert directory[..] == d;
    }

    method FindFile(name: seq<byte>) returns (r: Option<nat>)
      requires directory.Length == SLOTS
      ensures r == Find(directory[..], name)
    {
      var d := directory[..];
      var i := 0;
      while i < SLOTS && !IsEnd(directory[i])
        invariant 0 <= i <= EndOf(d)
        invariant FindIn(d, EndOf(d), i, name) == Find(d, name)
      {
        if !IsDeleted(directory[i]) && CStr(directory[i].name) == name {
          return Some(i);
        }
        i := i + 1;
      }
      return None;
    }

    method FlushDirectory()
      requires directory.Length == SLOTS && HasDirectory(disk.data)
      modifies disk
      ensures State() == Flush(old(State()))
    {
      disk.Seek(DIR_OFFSET);
      disk.Write(Encode(directory[..]));
    }

    /** The count of used or deleted records, and where to put a new one. */
    method CountUsed() returns (used: nat, slot: Option<nat>)
      requires directory.Length == SLOTS
      ensures used == Used(directory[..]) && slot == FreeSlot(directory[..])
    {
      used, slot := 0, None;
      var i := 0;
      while i < SLOTS
        invariant 0 <= i <= SLOTS && used == 0
        invariant forall k :: 0 <= k < i ==> !IsEnd(directory[k])
        invariant slot.None? ==> forall k :: 0 <= k < i ==> !IsDeleted(directory[k])
        invariant slot.Some? ==>
          && slot.value < i && IsDeleted(directory[slot.value])
          && forall k :: 0 <= k < slot.value ==> !IsDeleted(directory[k])
      {
        if IsEnd(directory[i]) {
          EndOfIs(directory[..], i);
          return i, if slot == None then Some(i) else slot;
        }
        if IsDeleted(directory[i]) && slot == None {
          slot := Some(i);
        }
        i := i + 1;
      }
      EndOfIs(directory[..], SLOTS);
    }

    /** The scan over the sorted copy of the used records. */
    method FindGap(t: seq<Entry>, last: uint64, req: uint64) returns (start: uint64)
      ensures var r := GapScan(t, 0, 1, last, req); start == if r.Some? then r.value else 0
    {
      var prev: uint64 := 1;
      start := 0;
      var i := 0;
      while i < |t| + 1
        invariant 0 <= i <= |t| && GapScan(t, i, prev, last, req) == GapScan(t, 0, 1, last, req)
        decreases |t| + 1 - i
      {
        var next := if i == |t| || IsDeleted(t[i]) then last else t[i].start;
        if Sub64(next, prev) >= req {
          return prev;
        }
        if i == |t| {
          return 0;
        }
        prev := t[i].End() % TWO_64;
        i := i + 1;
      }
    }

    /** The new record, the terminator behind it when the record took the terminator's slot, and a flush. */
    method AddRecord(slot: nat, used: nat, name: seq<byte>, start: uint64, reserved: uint64)
      requires directory.Length == SLOTS && HasDirectory(disk.data) && IsFileName(name)
      requires slot < SLOTS && used == Used(directory[..])
      modifies disk, directory
      ensures State() == Flush(Image(Place(old(directory[..]), slot, name, start, reserved), old(disk.data)))
    {
      directory[slot] := Record(directory[slot], name, start, reserved);
      if slot == used && used + 1 < SLOTS {
        directory[used + 1] := directory[used + 1].(name := directory[used + 1].name[0 := 0]);
      }
      assert directory[..] == Place(old(directory[..]), slot, name, start, reserved);
      FlushDirectory();
    }

    method CreateFile(name: seq<byte>, maxsize: uint64) returns (r: Result)
      requires Valid() && IsFileName(name)
      modifies disk, directory
      ensures (State(), r) == CreateCmd(old(State()), Last(), name, maxsize)
      ensures old(SafeCreate(State(), Last(), name, maxsize)) ==>
        && Valid()
        && (r.Created? <==>
             && name !in old(FilesOf(State(), Last()))
             && old(FreeSlot(directory[..]).Some? && SomeRun(directory[..], Last(), Blocks(maxsize))))
        && FilesOf(State(), Last()) ==
           if r.Created? then old(FilesOf(State(), Last()))[name := File([], Blocks(maxsize) * BLOCK_SIZE)]
           else old(FilesOf(State(), Last()))
    {
      if SafeCreate(State(), Last(), name, maxsize) { CreateRefines(State(), Last(), name, maxsize); }
      r := TryCreate(name, maxsize);
    }

    /** For any directory and a disk of any size. */
    method TryCreate(name: seq<byte>, maxsize: uint64) returns (r: Result)
      requires directory.Length == SLOTS && HasDirectory(disk.data) && IsFileName(name)
      modifies disk, directory
      ensures (State(), r) == CreateCmd(old(State()), Last(), name, maxsize)
    {
      var found := FindFile(name);
      if found.Some? {
        return AlreadyExists;
      }
      var used, slot := CountUsed();
      if slot == None {
        return NoSlot;
      }
      var copy := Sort(directory[..used]);
      var start := FindGap(copy, Last(), Blocks(maxsize));
      if start == 0 {
        return NoRoom;
      }
      AddRecord(slot.value, used, name, start, Blocks(maxsize));
      return Created(directory[..]);
    }

    /** Whether the file was there, for any directory. */
    method TryDelete(name: seq<byte>) returns (ok: bool)
      requires directory.Length == SLOTS && HasDirectory(disk.data)
      modifies disk, directory
      ensures State() == DeleteCmd(old(State()), name) && ok == Find(old(directory[..]), name).Some?
    {
      var slot := FindFile(name);
      if slot == None {
        return false;
      }
      directory[slot.value] := Deleted(directory[slot.value]);
      FlushDirectory();
      return true;
    }

    method Delete(name: seq<byte>) returns (ok: bool)
      requires Valid()
      modifies disk, directory
      ensures Valid() && State() == DeleteCmd(old(State()), name)
      ensures ok <==> name in old(FilesOf(State(), Last()))
      ensures FilesOf(State(), Last()) == old(FilesOf(State(), Last())) - {name}
    {
      DeleteRefines(State(), Last(), name);
      NamesFound(directory[..]);
      ok := TryDelete(name);
    }

    /** The bytes copied to the local file, for any directory; writable is whether it can be opened. */
    method TryRead(name: seq<byte>, writable: bool) returns (r: ReadResult)
      requires directory.Length == SLOTS
      modifies disk
      ensures State() == old(State())
      ensures match ReadCmd(State(), name)
              case None => r == Absent
              case Some(bytes) => r == if writable then Copied(bytes) else Unwritable
    {
      var slot := FindFile(name);
      if slot == None {
        return Absent;
      }
      if !writable {
        return Unwritable;
      }
      disk.Seek(Offset(directory[slot.value]));
      var out := CopyOut(directory[slot.value].size);
      return Copied(out);
    }

    method Read(name: seq<byte>, writable: bool) returns (r: ReadResult)
      requires Valid()
      modifies disk
      ensures Valid() && State() == old(State())
      ensures var files := FilesOf(State(), Last());
              r == if name !in files then Absent else if writable then Copied(files[name].bytes) else Unwritable
    {
      ReadRefines(State(), Last(), name);
      r := TryRead(name, writable);
    }

    /** The byte-by-byte copy from the disk position to a local file. */
    method CopyOut(n: nat) returns (out: seq<byte>)
      modifies disk`pos, disk`eof
      ensures out == BytesAt(disk.data, old(disk.pos), n)
    {
      out := [];
      for i := 0 to n
        invariant disk.pos == if old(disk.pos) + i <= |disk.data| || i == 0 then old(disk.pos) + i
                              else if old(disk.pos) <= |disk.data| then |disk.data| else old(disk.pos)
        invariant out == BytesAt(disk.data, old(disk.pos), i)
      {
        var c := disk.Getc();
        out := out + [if c == -1 then 255 else c];
      }
    }

    /** Any directory; local is the content of the local file, or None when it cannot be opened. */
    method TryWrite(name: seq<byte>, local: Option<seq<byte>>) returns (r: WriteResult)
      requires directory.Length == SLOTS && HasDirectory(disk.data)
      modifies disk, directory
      ensures State() == if local.Some? then WriteCmd(old(State()), name, local.value) else old(State())
      ensures r == if Find(old(directory[..]), name).None? then NotFound
                   else if local.None? then NoLocalFile
                   else if CanWrite(old(State()), name, local.value) then Written
                   else NotEnoughRoom
    {
      var slot := FindFile(name);
      if slot == None {
        return NotFound;
      }
      if local == None {
        return NoLocalFile;
      }
      var e := directory[slot.value];
      if Capacity(e) < |local.value| {
        return NotEnoughRoom;
      }
      disk.Seek(Offset(e));
      CopyIn(local.value);
      directory[slot.value] := e.(size := |local.value|);
      FlushDirectory();
      return Written;
    }

    method Write(name: seq<byte>, local: Option<seq<byte>>) returns (r: WriteResult)
      requires Valid()
      modifies disk, directory
      ensures Valid() && State() == if local.Some? then WriteCmd(old(State()), name, local.value) else old(State())
      ensures var files := old(FilesOf(State(), Last()));
              && (r == NotFound <==> name !in files)
              && (r == NoLocalFile <==> name in files && local.None?)
              && (r == Written <==> name in files && local.Some? && |local.value| <= files[name].capacity)
              && FilesOf(State(), Last()) ==
                 if r == Written then files[name := files[name].(bytes := local.value)] else files
    {
      if local.Some? { WriteRefines(State(), Last(), name, local.value); }
      NamesFound(directory[..]);
      r := TryWrite(name, local);
    }

    /** The byte-by-byte copy of a local file to the disk position. */
    method CopyIn(b: seq<byte>)
      modifies disk
      ensures disk.data == Put(old(disk.data), old(disk.pos), b)
    {
      for i := 0 to |b|
        invariant disk.pos == old(disk.pos) + i
        invariant disk.data == Put(old(disk.data), old(disk.pos), b[..i])
      {
        disk.Write([b[i]]);
        PutNext(old(disk.data), old(disk.pos), b, i);
      }
      assert b[..|b|] == b;
    }
  }

  lemma PatchNext(data: seq<byte>, pos: nat, b: seq<byte>, i: nat)
    requires pos <= |data| && i < |b|
    ensures Patch(Patch(data, pos, b[..i]), pos + i, [b[i]]) == Patch(data, pos, b[..i + 1])
  {
  }

  lemma PutNext(data: seq<byte>, pos: nat, b: seq<byte>, i: nat)
    requires i < |b|
    ensures Put(Put(data, pos, b[..i]), pos + i, [b[i]]) == Put(data, pos, b[..i + 1])
  {
    assert b[..i + 1] == b[..i] + [b[i]];
    if pos <= |data| {
      PatchNext(data, pos, b, i);
    } else if i > 0 {
      var padded := data + Zeros(pos - |data|);
      assert padded + b[..i] + [b[i]] == padded + b[..i + 1];
    }
  }
}
