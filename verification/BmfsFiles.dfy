/**
The files that a BMFS disk image (bmfs.c) holds, as a map from names to bytes, and what each change
of the directory or the disk does to that map.
*/
module BmfsFiles {
  import opened Options
  import opened Bytes
  import opened Streams
  import opened BmfsDirectory
  import opened BmfsGaps
  import opened BmfsCreate
  import opened Words

  const DIR_OFFSET: nat := 4096

  // ----- The files a disk holds -----

  ghost function Names(d: Dir): set<seq<byte>> { set i | 0 <= i < EndOf(d) && !IsDeleted(d[i]) :: CStr(d[i].name) }

  predicate OnDisk(e: Entry, data: seq<byte>) { e.start * BLOCK_SIZE + e.size <= |data| }

  function Content(e: Entry, data: seq<byte>): seq<byte>
    requires OnDisk(e, data)
  {
    data[e.start * BLOCK_SIZE..e.start * BLOCK_SIZE + e.size]
  }

  /** What a user sees of a file: its bytes, and how many it may hold. */
  datatype File = File(bytes: seq<byte>, capacity: nat)

  type FileMap = map<seq<byte>, File>

  ghost function AsFile(e: Entry, data: seq<byte>): File
    requires OnDisk(e, data)
  {
    File(Content(e, data), e.reserved * BLOCK_SIZE)
  }

  /** Every block up to last, which is the copy of block 0, is part of the image. */
  ghost predicate Holds(data: seq<byte>, last: nat) { 1 <= last && (last + 1) * BLOCK_SIZE <= |data| }

  lemma LiveOnDisk(d: Dir, last: nat, data: seq<byte>, i: nat)
    requires DirInv(d, last) && Holds(data, last) && i < EndOf(d)
    ensures OnDisk(d[i], data) && GoodRecord(d[i], last)
  {
    assert d[..EndOf(d)][i] == d[i];
    assert GoodRecord(d[..EndOf(d)][i], last);
  }

  ghost function FileNamed(d: Dir, last: nat, data: seq<byte>, n: seq<byte>): File
    requires DirInv(d, last) && Holds(data, last) && Find(d, n).Some?
  {
    var i := Find(d, n).value;
    LiveOnDisk(d, last, data, i);
    AsFile(d[i], data)
  }

  lemma NamesFound(d: Dir)
    ensures forall n :: n in Names(d) <==> Find(d, n).Some?
  {
  }

  ghost function Files(d: Dir, last: nat, data: seq<byte>): FileMap
    requires DirInv(d, last) && Holds(data, last)
  {
    NamesFound(d);
    map n | n in Names(d) :: FileNamed(d, last, data, n)
  }

  /** With distinct names, looking up a live file's name finds its slot. */
  lemma FindLive(d: Dir, last: nat, i: nat)
    requires DirInv(d, last) && Live(d, i)
    ensures Find(d, CStr(d[i].name)) == Some(i)
  {
    var n := CStr(d[i].name);
    var s := d[..EndOf(d)];
    assert Find(d, n).Some?;
    var k := Find(d, n).value;
    assert k < i ==> NamesDiffer(s[k], s[i]);
  }

  ghost predicate FileAt(d: Dir, i: nat, data: seq<byte>, n: seq<byte>, f: File) {
    Live(d, i) && CStr(d[i].name) == n && OnDisk(d[i], data) && AsFile(d[i], data) == f
  }

  /** A map that lists exactly the live files is the file map. */
  lemma FilesIs(d: Dir, last: nat, data: seq<byte>, m: FileMap)
    requires DirInv(d, last) && Holds(data, last)
    requires forall i: nat :: Live(d, i) ==> CStr(d[i].name) in m
    requires forall n :: n in m ==> exists i :: FileAt(d, i, data, n, m[n])
    ensures Files(d, last, data) == m
  {
    NamesFound(d);
    forall n | n in m ensures n in Files(d, last, data) && Files(d, last, data)[n] == m[n] {
      var i :| FileAt(d, i, data, n, m[n]);
      FindLive(d, last, i);
    }
    forall n | n in Files(d, last, data) ensures n in m {
      assert Live(d, Find(d, n).value);
    }
  }

  lemma FileOf(d: Dir, last: nat, data: seq<byte>, n: seq<byte>) returns (i: nat)
    requires DirInv(d, last) && Holds(data, last) && n in Files(d, last, data)
    ensures FileAt(d, i, data, n, Files(d, last, data)[n])
  {
    NamesFound(d);
    i := Find(d, n).value;
    LiveOnDisk(d, last, data, i);
  }

  lemma LiveListed(d: Dir, last: nat, data: seq<byte>, i: nat)
    requires DirInv(d, last) && Holds(data, last) && Live(d, i)
    ensures CStr(d[i].name) in Files(d, last, data)
  {
  }

  lemma OtherName(d: Dir, last: nat, data: seq<byte>, i: nat, k: nat)
    requires DirInv(d, last) && Holds(data, last) && Live(d, i) && Live(d, k) && i != k
    ensures CStr(d[k].name) in Files(d, last, data) && CStr(d[k].name) != CStr(d[i].name)
  {
    LiveListed(d, last, data, k);
    FindLive(d, last, k);
    FindLive(d, last, i);
  }

  // ----- What each change of directory and disk does to the files -----

  ghost predicate SameFile(e: Entry, data: seq<byte>, e': Entry, data': seq<byte>) {
    CStr(e'.name) == CStr(e.name) && OnDisk(e, data) && OnDisk(e', data') && AsFile(e', data') == AsFile(e, data)
  }

  /** The file map after a change of one slot: its old file leaves, its new one comes. */
  ghost function Moved(m: FileMap, e: Option<Entry>, e': Option<Entry>, data': seq<byte>): FileMap
    requires e'.Some? ==> OnDisk(e'.value, data')
  {
    var m1 := if e.Some? then m - {CStr(e.value.name)} else m;
    if e'.Some? then m1[CStr(e'.value.name) := AsFile(e'.value, data')] else m1
  }

  ghost function LiveEntry(d: Dir, i: nat): Option<Entry> { if Live(d, i) then Some(d[i]) else None }

  lemma SlotChange(d: Dir, data: seq<byte>, d': Dir, data': seq<byte>, last: nat, slot: nat)
    requires DirInv(d, last) && Holds(data, last) && DirInv(d', last) && Holds(data', last)
    requires forall k: nat {:trigger Live(d', k)} {:trigger Live(d, k)} :: k != slot ==>
      (Live(d', k) <==> Live(d, k)) && (Live(d, k) ==> SameFile(d[k], data, d'[k], data'))
    requires Live(d', slot) ==> OnDisk(d'[slot], data')
    ensures Files(d', last, data') == Moved(Files(d, last, data), LiveEntry(d, slot), LiveEntry(d', slot), data')
  {
    var m := Moved(Files(d, last, data), LiveEntry(d, slot), LiveEntry(d', slot), data');
    forall n | n in m ensures exists k :: FileAt(d', k, data', n, m[n]) {
      if Live(d', slot) && n == CStr(d'[slot].name) {
        assert FileAt(d', slot, data', n, m[n]);
      } else {
        var k := FileOf(d, last, data, n);
        assert k != slot;
        assert FileAt(d', k, data', n, m[n]);
      }
    }
    forall k: nat | Live(d', k) ensures CStr(d'[k].name) in m {
      if k != slot {
        LiveListed(d, last, data, k);
        if Live(d, slot) { OtherName(d, last, data, slot, k); }
      }
    }
    FilesIs(d', last, data', m);
  }

  /** A flush writes below the first data block. */
  lemma FlushFiles(d: Dir, last: nat, data: seq<byte>, b: seq<byte>)
    requires DirInv(d, last) && Holds(data, last) && |b| == DIR_SIZE
    ensures var data' := Patch(data, DIR_OFFSET, b);
            Holds(data', last) && Files(d, last, data') == Files(d, last, data)
  {
    var data' := Patch(data, DIR_OFFSET, b);
    forall k: nat | Live(d, k) ensures SameFile(d[k], data, d[k], data') {
      LiveOnDisk(d, last, data, k);
      assert Content(d[k], data') == Content(d[k], data);
    }
    SlotChange(d, data, d, data', last, SLOTS);
  }

  lemma CreateFiles(d: Dir, slot: nat, name: seq<byte>, start: uint64, reserved: uint64, last: nat, data: seq<byte>)
    requires DirInv(d, last) && Holds(data, last) && FreeSlot(d) == Some(slot)
    requires IsFileName(name) && Storable(name) && reserved > 0 && 1 <= start && start + reserved <= last
    requires StillGood(d, Place(d, slot, name, start, reserved), last)
    ensures Files(Place(d, slot, name, start, reserved), last, data) ==
            Files(d, last, data)[name := File([], reserved * BLOCK_SIZE)]
  {
    var d' := Place(d, slot, name, start, reserved);
    PlaceAdded(d, slot, name, start, reserved, last);
    RecordFacts(d[slot], name, start, reserved, last);
    LiveOnDisk(d', last, data, slot);
    forall k: nat | Live(d, k) ensures SameFile(d[k], data, d'[k], data) { LiveOnDisk(d, last, data, k); }
    SlotChange(d, data, d', data, last, slot);
    assert !Live(d, slot) && AsFile(d'[slot], data) == File([], reserved * BLOCK_SIZE);
  }

  function Deleted(e: Entry): Entry { e.(name := e.name[0 := 1]) }

  /** A delete writes one byte of the record. */
  lemma DeletedMark(e: Entry)
    ensures var f := Deleted(e);
            && f.name[0] == 1 && f.name[1..] == e.name[1..]
            && (f.start, f.reserved, f.size, f.unused) == (e.start, e.reserved, e.size, e.unused)
  {
  }

  lemma DeleteFiles(d: Dir, last: nat, data: seq<byte>, i: nat)
    requires DirInv(d, last) && Holds(data, last) && Live(d, i)
    ensures var d' := d[i := Deleted(d[i])];
            DirInv(d', last) && Files(d', last, data) == Files(d, last, data) - {CStr(d[i].name)}
  {
    var d' := d[i := Deleted(d[i])];
    EndOfIs(d', EndOf(d));
    LiveOnDisk(d, last, data, i);
    UpdateInv(d, i, Deleted(d[i]), last);
    forall k: nat | k != i && Live(d, k) ensures SameFile(d[k], data, d'[k], data) { LiveOnDisk(d, last, data, k); }
    SlotChange(d, data, d', data, last, i);
  }

  /** Marking a record deleted, or changing its size within its blocks, keeps the directory good. */
  lemma UpdateInv(d: Dir, i: nat, e: Entry, last: nat)
    requires DirInv(d, last) && i < EndOf(d) && EndOf(d[i := e]) == EndOf(d)
    requires e.start == d[i].start && e.reserved == d[i].reserved && e.size <= e.reserved * BLOCK_SIZE
    requires IsDeleted(e) || e.name == d[i].name
    ensures DirInv(d[i := e], last)
  {
    var s, s' := d[..EndOf(d)], d[i := e][..EndOf(d)];
    forall k | 0 <= k < |s'| ensures GoodRecord(s'[k], last) { assert GoodRecord(s[k], last); }
    forall k, j | 0 <= k < j < |s'| ensures Apart(s'[k], s'[j]) && NamesDiffer(s'[k], s'[j]) {
      assert Apart(s[k], s[j]) && NamesDiffer(s[k], s[j]);
    }
  }

  lemma WriteFiles(d: Dir, last: nat, data: seq<byte>, i: nat, b: seq<byte>)
    requires DirInv(d, last) && Holds(data, last) && Live(d, i) && |b| <= d[i].reserved * BLOCK_SIZE && |b| < TWO_64
    requires d[i].start * BLOCK_SIZE <= |data|
    ensures var d', data' := d[i := d[i].(size := |b|)], Patch(data, d[i].start * BLOCK_SIZE, b);
            && DirInv(d', last) && Holds(data', last)
            && Files(d', last, data') == Files(d, last, data)[CStr(d[i].name) := File(b, d[i].reserved * BLOCK_SIZE)]
            && data'[..2 * DIR_SIZE] == data[..2 * DIR_SIZE]
  {
    var e := d[i].(size := |b|);
    var d', data' := d[i := e], Patch(data, e.start * BLOCK_SIZE, b);
    EndOfIs(d', EndOf(d));
    UpdateInv(d, i, e, last);
    LiveOnDisk(d, last, data, i);
    LiveOnDisk(d', last, data', i);
    forall k: nat | k != i && Live(d, k) ensures SameFile(d[k], data, d'[k], data') {
      LiveOnDisk(d, last, data, k);
      OtherContent(d, last, data, i, k, b);
    }
    SlotChange(d, data, d', data', last, i);
    assert AsFile(d'[i], data') == File(b, e.reserved * BLOCK_SIZE);
    Rewritten(Files(d, last, data), CStr(e.name), File(b, e.reserved * BLOCK_SIZE));
    PatchPrefix(data, e.start * BLOCK_SIZE, b, 2 * DIR_SIZE);
  }

  lemma Rewritten(m: FileMap, n: seq<byte>, f: File)
    ensures (m - {n})[n := f] == m[n := f]
  {
  }

  lemma PatchPrefix(data: seq<byte>, pos: nat, b: seq<byte>, n: nat)
    requires n <= pos <= |data|
    ensures Patch(data, pos, b)[..n] == data[..n]
  {
  }

  /** A write inside one file's blocks leaves every other file's bytes alone. */
  lemma OtherContent(d: Dir, last: nat, data: seq<byte>, i: nat, k: nat, b: seq<byte>)
    requires DirInv(d, last) && Holds(data, last) && Live(d, i) && Live(d, k) && i != k
    requires |b| <= d[i].reserved * BLOCK_SIZE && d[i].start * BLOCK_SIZE <= |data| && OnDisk(d[k], data)
    ensures var data' := Patch(data, d[i].start * BLOCK_SIZE, b);
            OnDisk(d[k], data') && Content(d[k], data') == Content(d[k], data)
  {
    var s := d[..EndOf(d)];
    LiveOnDisk(d, last, data, k);
    assert i < k ==> Apart(s[i], s[k]);
    assert k < i ==> Apart(s[k], s[i]);
  }
}
