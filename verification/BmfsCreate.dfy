/**
BMFS create (bmfs.c) on a directory value: the slot it takes, the blocks it reserves, and exactly
when the files it finds are still good files afterwards.
*/
module BmfsCreate {
  import opened Options
  import opened Bytes
  import opened BmfsDirectory
  import opened BmfsGaps
  import opened Words

  const MIB: nat := 1048576
  const BLOCK_SIZE: nat := 2097152

  /** The index of the last block of a disk of that many MiB, negative when it has no block. */
  function LastIndex(disksize: uint32): int { disksize / 2 - 1 }

  /** What create computes for it, in unsigned arithmetic. */
  function LastOf(disksize: uint32): uint64 { Sub64(disksize / 2, 1) }

  // ----- The directory invariant; last is the index of the disk's last block -----

  ghost predicate GoodRecord(e: Entry, last: int) {
    && InRange(e, last) && (IsDeleted(e) || CLen(e.name) < NAME_SIZE)
    && e.size <= e.reserved * BLOCK_SIZE
  }

  ghost predicate NamesDiffer(a: Entry, b: Entry) {
    !IsDeleted(a) && !IsDeleted(b) ==> CStr(a.name) != CStr(b.name)
  }

  ghost predicate DirInv(d: Dir, last: int) {
    var s := d[..EndOf(d)];
    && (forall i {:trigger GoodRecord(s[i], last)} :: 0 <= i < |s| ==> GoodRecord(s[i], last))
    && AllApart(s)
    && (forall i, j {:trigger NamesDiffer(s[i], s[j])} :: 0 <= i < j < |s| ==> NamesDiffer(s[i], s[j]))
  }

  lemma RecordsNeedRoom(d: Dir, last: int)
    requires DirInv(d, last)
    ensures EndOf(d) > 0 ==> last >= 2
  {
    if EndOf(d) > 0 { assert GoodRecord(d[..EndOf(d)][0], last); }
  }

  // ----- create -----

  /** The records create counts and sorts: none when the directory has no terminator. */
  function Used(d: Dir): nat { if EndOf(d) < SLOTS then EndOf(d) else 0 }

  /** The first deleted record, else the terminator's. */
  function FreeSlot(d: seq<Entry>): (r: Option<nat>)
    ensures r.Some? ==> r.value < |d| && r.value <= EndOf(d) && (IsDeleted(d[r.value]) || r.value == EndOf(d))
    ensures r.Some? ==> forall k :: 0 <= k < r.value ==> !IsDeleted(d[k])
    ensures r.None? ==> EndOf(d) == |d| && forall k :: 0 <= k < |d| ==> !IsDeleted(d[k])
  {
    if d == [] then None
    else if IsEnd(d[0]) || IsDeleted(d[0]) then Some(0)
    else
      var r := FreeSlot(d[1..]);
      if r.Some? then Some(r.value + 1) else None
  }

  function Record(e: Entry, name: seq<byte>, start: uint64, reserved: uint64): Entry
    requires IsFileName(name)
  {
    Entry(StrCpy(e.name, name), start, reserved, 0, e.unused)
  }

  function Place(d: Dir, slot: nat, name: seq<byte>, start: uint64, reserved: uint64): Dir
    requires slot < SLOTS && IsFileName(name)
  {
    var d1 := d[slot := Record(d[slot], name, start, reserved)];
    if slot == Used(d) && Used(d) + 1 < SLOTS
    then d1[slot + 1 := d1[slot + 1].(name := d1[slot + 1].name[0 := 0])]
    else d1
  }

  datatype Result = AlreadyExists | NoSlot | NoRoom | Created(dir: Dir)

  /** t is the sorted copy of the used records, last the index of the disk's last block. */
  function Create(d: Dir, t: seq<Entry>, last: uint64, name: seq<byte>, reserved: uint64): Result
    requires IsFileName(name)
  {
    if Find(d, name).Some? then AlreadyExists
    else if FreeSlot(d).None? then NoSlot
    else
      var start := GapScan(t, 0, 1, last, reserved);
      if start.None? || start.value == 0 then NoRoom
      else Created(Place(d, FreeSlot(d).value, name, start.value, reserved))
  }

  // ----- Which slots are live afterwards -----

  /** A name that does not read as a mark of the directory. */
  predicate Storable(name: seq<byte>) { name != [] && name[0] != 0 && name[0] != 1 }

  lemma EndOfIs(d: seq<Entry>, n: nat)
    requires n <= |d| && (n < |d| ==> IsEnd(d[n])) && forall k :: 0 <= k < n ==> !IsEnd(d[k])
    ensures EndOf(d) == n
  {
  }

  lemma PlaceEnd(d: Dir, slot: nat, name: seq<byte>, start: uint64, reserved: uint64)
    requires EndOf(d) < SLOTS && FreeSlot(d) == Some(slot) && IsFileName(name) && Storable(name)
    ensures var d' := Place(d, slot, name, start, reserved);
            && EndOf(d') == (if slot == EndOf(d) then slot + 1 else EndOf(d))
            && d'[slot] == Record(d[slot], name, start, reserved)
            && (forall k :: 0 <= k < EndOf(d') && k != slot ==> d'[k] == d[k])
            && (forall k :: EndOf(d') < k < SLOTS ==> d'[k] == d[k])
  {
    var d' := Place(d, slot, name, start, reserved);
    var n := if slot == EndOf(d) then slot + 1 else EndOf(d);
    assert forall k :: 0 <= k < n && k != slot ==> d'[k] == d[k];
    EndOfIs(d', n);
  }

  /** Every live file of d is in d', unchanged and in the same slot. */
  ghost predicate Keeps(d: Dir, d': Dir) {
    forall i: nat :: Live(d, i) ==> Live(d', i) && d'[i] == d[i]
  }

  ghost predicate StillGood(d: Dir, d': Dir, last: int) { DirInv(d', last) && Keeps(d, d') }

  // ----- The new record among the old ones -----

  /** d' is d with the record r in slot, the slots below its end otherwise as in d. */
  ghost predicate Added(d: Dir, d': Dir, slot: nat, r: Entry) {
    && slot < EndOf(d') && d'[slot] == r && !IsDeleted(r)
    && forall k :: 0 <= k < EndOf(d') && k != slot ==> k < EndOf(d) && d'[k] == d[k]
  }

  lemma AddedGood(d: Dir, d': Dir, slot: nat, r: Entry, last: nat)
    requires DirInv(d, last) && Added(d, d', slot, r) && GoodRecord(r, last)
    requires forall k :: 0 <= k < EndOf(d') && k != slot ==> Clear(d[k], r.start, r.reserved)
    requires forall k :: 0 <= k < EndOf(d') && k != slot ==> NamesDiffer(d[k], r)
    ensures DirInv(d', last)
  {
    var s, s' := d[..EndOf(d)], d'[..EndOf(d')];
    forall i | 0 <= i < |s'| ensures GoodRecord(s'[i], last) {
      assert s'[i] == d'[i];
      if i != slot { assert GoodRecord(s[i], last); }
    }
    forall i, j | 0 <= i < j < |s'| ensures Apart(s'[i], s'[j]) && NamesDiffer(s'[i], s'[j]) {
      assert s'[i] == d'[i] && s'[j] == d'[j];
      if i != slot && j != slot { assert Apart(s[i], s[j]) && NamesDiffer(s[i], s[j]); }
    }
  }

  /** In a good directory every live file but r is clear of the blocks of r. */
  lemma GoodIsClear(d: Dir, d': Dir, slot: nat, r: Entry, last: nat)
    requires DirInv(d', last) && Added(d, d', slot, r) && Keeps(d, d')
    requires slot >= EndOf(d) || IsDeleted(d[slot])
    ensures Fits(d[..EndOf(d)], last, r.start, r.reserved)
  {
    var s' := d'[..EndOf(d')];
    assert GoodRecord(s'[slot], last);
    forall e | e in d[..EndOf(d)] ensures Clear(e, r.start, r.reserved) {
      var k :| 0 <= k < EndOf(d) && d[k] == e;
      if !IsDeleted(e) {
        assert Live(d, k);
        assert k < slot ==> Apart(s'[k], s'[slot]);
        assert slot < k ==> Apart(s'[slot], s'[k]);
      }
    }
  }

  lemma RecordFacts(e: Entry, name: seq<byte>, start: uint64, reserved: uint64, last: nat)
    requires IsFileName(name) && Storable(name) && reserved > 0 && 1 <= start && start + reserved <= last
    ensures var r := Record(e, name, start, reserved);
            CStr(r.name) == name && !IsDeleted(r) && !IsEnd(r) && GoodRecord(r, last)
  {
    StrCpyRead(e.name, name);
  }

  lemma NewNameDiffers(d: Dir, name: seq<byte>, r: Entry)
    requires Find(d, name).None? && CStr(r.name) == name
    ensures forall k :: 0 <= k < EndOf(d) ==> NamesDiffer(d[k], r)
  {
  }

  // ----- With a terminator -----

  /** Placing a new file keeps the old ones good exactly when its blocks are a free run. */
  lemma PlaceGoodIff(d: Dir, slot: nat, name: seq<byte>, start: uint64, reserved: uint64, last: uint64)
    requires DirInv(d, last) && EndOf(d) < SLOTS && FreeSlot(d) == Some(slot)
    requires IsFileName(name) && Storable(name) && Find(d, name).None?
    requires reserved > 0 && 1 <= start && start + reserved <= last
    ensures StillGood(d, Place(d, slot, name, start, reserved), last) <==>
            Fits(d[..EndOf(d)], last, start, reserved)
  {
    var d' := Place(d, slot, name, start, reserved);
    var r := Record(d[slot], name, start, reserved);
    PlaceEnd(d, slot, name, start, reserved);
    RecordFacts(d[slot], name, start, reserved, last);
    NewNameDiffers(d, name, r);
    assert Keeps(d, d');
    if Fits(d[..EndOf(d)], last, start, reserved) {
      forall k | 0 <= k < EndOf(d') && k != slot ensures Clear(d[k], start, reserved) {
        assert d[k] in d[..EndOf(d)];
      }
      AddedGood(d, d', slot, r, last);
    }
    if DirInv(d', last) { GoodIsClear(d, d', slot, r, last); }
  }

  /** The state create leaves: a new directory, or the old one when it refuses. */
  function After(d: Dir, r: Result): Dir { if r.Created? then r.dir else d }

  ghost predicate SomeRun(d: Dir, last: int, reserved: nat) {
    exists p :: Fits(d[..EndOf(d)], last, p, reserved)
  }

  ghost predicate SomeDeletedRoom(d: Dir, last: int, reserved: nat) {
    exists e :: e in d[..EndOf(d)] && RoomBehind(e, last, reserved)
  }

  lemma Permuted(d: Dir, t: seq<Entry>, last: uint64, reserved: nat)
    requires DirInv(d, last) && Qsorted(d[..EndOf(d)], t)
    ensures Scannable(t, last) && forall e :: e in t <==> e in d[..EndOf(d)]
    ensures forall p :: Fits(t, last, p, reserved) <==> Fits(d[..EndOf(d)], last, p, reserved)
  {
    var s := d[..EndOf(d)];
    ApartPermuted(s, t);
    forall e ensures e in t <==> e in s { assert e in multiset(t) <==> e in multiset(s); }
    forall i | 0 <= i < |t| ensures InRange(t[i], last) {
      assert t[i] in s;
      var k :| 0 <= k < |s| && s[k] == t[i];
      assert GoodRecord(s[k], last);
    }
  }

  /**
  A new name is given the lowest free run; when there is none, create either refuses or, behind a
  deleted record, reserves blocks of a live file.
  */
  lemma CreateOutcome(d: Dir, t: seq<Entry>, last: uint64, name: seq<byte>, reserved: uint64)
    requires DirInv(d, last) && EndOf(d) < SLOTS && Qsorted(d[..EndOf(d)], t) && 1 <= last
    requires IsFileName(name) && Storable(name) && Find(d, name).None? && reserved > 0
    ensures var r := Create(d, t, last, name, reserved);
            && (r.Created? <==> SomeRun(d, last, reserved) || SomeDeletedRoom(d, last, reserved))
            && (!r.Created? ==> r == NoRoom)
            && (r.Created? ==>
                 var f := r.dir[FreeSlot(d).value];
                 && f == Record(d[FreeSlot(d).value], name, f.start, reserved) && f.End() <= last
                 && (SomeRun(d, last, reserved) ==> LowestFit(d[..EndOf(d)], last, f.start, reserved)))
    ensures StillGood(d, After(d, Create(d, t, last, name, reserved)), last) <==>
            SomeRun(d, last, reserved) || !SomeDeletedRoom(d, last, reserved)
  {
    var slot := FreeSlot(d).value;
    Permuted(d, t, last, reserved);
    ScanSpec(t, last, reserved);
    var start := GapScan(t, 0, 1, last, reserved);
    if start.Some? {
      RoomInRange(d, t, last, reserved, start.value);
      PlaceEnd(d, slot, name, start.value, reserved);
      PlaceGoodIff(d, slot, name, start.value, reserved, last);
    }
  }

  lemma RoomInRange(d: Dir, t: seq<Entry>, last: uint64, reserved: uint64, p: uint64)
    requires Scannable(t, last) && ScanResult(t, last, reserved, Some(p))
    ensures 1 <= p && p + reserved <= last
  {
  }

  // ----- Without a terminator -----

  ghost predicate NoLive(d: Dir) { forall i: nat :: !Live(d, i) }

  /** Reusing slot 0 also marks slot 1 as the end. */
  lemma UnterminatedEnd(d: Dir, slot: nat, name: seq<byte>, start: uint64, reserved: uint64)
    requires EndOf(d) == SLOTS && slot < SLOTS && IsFileName(name) && !IsEnd(Record(d[slot], name, start, reserved))
    ensures var d' := Place(d, slot, name, start, reserved);
            && EndOf(d') == (if slot == 0 then 1 else SLOTS)
            && d'[slot] == Record(d[slot], name, start, reserved)
            && forall k :: 0 <= k < EndOf(d') && k != slot ==> d'[k] == d[k]
  {
    var d', n := Place(d, slot, name, start, reserved), if slot == 0 then 1 else SLOTS;
    if slot == 0 { assert d'[1].name[0] == 0; }
    forall k | 0 <= k < n ensures !IsEnd(d'[k]) { assert k != slot ==> d'[k] == d[k]; }
    EndOfIs(d', n);
  }

  lemma UnterminatedPlace(d: Dir, slot: nat, name: seq<byte>, reserved: uint64, last: uint64)
    requires DirInv(d, last) && EndOf(d) == SLOTS && FreeSlot(d) == Some(slot)
    requires IsFileName(name) && Storable(name) && Find(d, name).None? && reserved > 0 && 1 + reserved <= last
    ensures StillGood(d, Place(d, slot, name, 1, reserved), last) <==>
            Fits(d[..SLOTS], last, 1, reserved) && (slot != 0 || NoLive(d))
  {
    var d' := Place(d, slot, name, 1, reserved);
    var r := Record(d[slot], name, 1, reserved);
    RecordFacts(d[slot], name, 1, reserved, last);
    NewNameDiffers(d, name, r);
    UnterminatedEnd(d, slot, name, 1, reserved);
    if slot == 0 {
      assert Keeps(d, d') <==> NoLive(d);
      if NoLive(d) {
        AddedGood(d, d', slot, r, last);
        forall e | e in d[..SLOTS] ensures Clear(e, 1, reserved) {
          var k :| 0 <= k < SLOTS && d[k] == e;
          assert !Live(d, k);
        }
      }
    } else {
      assert Keeps(d, d');
      if Fits(d[..SLOTS], last, 1, reserved) {
        forall k | 0 <= k < SLOTS ensures Clear(d[k], 1, reserved) { assert d[k] in d[..SLOTS]; }
        AddedGood(d, d', slot, r, last);
      }
      if DirInv(d', last) { GoodIsClear(d, d', slot, r, last); }
    }
  }

  /**
  Without a terminator create counts no records at all: it always proposes block 1, and when it
  reuses slot 0 it also cuts the directory off behind it.
  */
  lemma CreateUnterminated(d: Dir, last: uint64, name: seq<byte>, reserved: uint64)
    requires DirInv(d, last) && EndOf(d) == SLOTS
    requires IsFileName(name) && Storable(name) && Find(d, name).None? && reserved > 0
    ensures var r := Create(d, [], last, name, reserved);
            && (r == NoSlot <==> FreeSlot(d).None?)
            && (r.Created? <==> FreeSlot(d).Some? && 1 + reserved <= last)
    ensures StillGood(d, After(d, Create(d, [], last, name, reserved)), last) <==>
            || FreeSlot(d).None? || last < 1 + reserved
            || (Fits(d[..SLOTS], last, 1, reserved) && (FreeSlot(d).value != 0 || NoLive(d)))
  {
    RecordsNeedRoom(d, last);
    assert Sub64(last, 1) == last - 1;
    if FreeSlot(d).Some? && 1 + reserved <= last {
      UnterminatedPlace(d, FreeSlot(d).value, name, reserved, last);
    }
  }

  // ----- With or without a terminator, on a disk of any size -----

  /** A record that keeps all files joins the others, which stay in their slots. */
  lemma PlaceAdded(d: Dir, slot: nat, name: seq<byte>, start: uint64, reserved: uint64, last: nat)
    requires FreeSlot(d) == Some(slot) && IsFileName(name) && Storable(name)
    requires reserved > 0 && 1 <= start && start + reserved <= last
    ensures Added(d, Place(d, slot, name, start, reserved), slot, Record(d[slot], name, start, reserved))
  {
    RecordFacts(d[slot], name, start, reserved, last);
    if EndOf(d) < SLOTS {
      PlaceEnd(d, slot, name, start, reserved);
    } else {
      UnterminatedEnd(d, slot, name, start, reserved);
    }
  }

  /** Whether there is a place for the file, right or wrong. */
  ghost predicate Accepts(d: Dir, last: int, reserved: nat) {
    if EndOf(d) < SLOTS then SomeRun(d, last, reserved) || SomeDeletedRoom(d, last, reserved)
    else FreeSlot(d).Some? && 1 + reserved <= last
  }

  /** Whether a place that create takes on a disk with data blocks is a right one. */
  ghost predicate Harmless(d: Dir, last: int, reserved: nat) {
    if EndOf(d) < SLOTS then SomeRun(d, last, reserved) || !SomeDeletedRoom(d, last, reserved)
    else
      || !Accepts(d, last, reserved)
      || (Fits(d[..SLOTS], last, 1, reserved) && (FreeSlot(d).value != 0 || NoLive(d)))
  }

  /**
  On a disk of less than 4 MiB, which has no data block, a good directory is empty and create always
  reserves blocks that do not exist: the last block is 0 - 1 blocks away, or 2^64 - 1 itself.
  */
  lemma CreateOnSmallDisk(d: Dir, disksize: uint32, name: seq<byte>, reserved: uint64)
    requires disksize < 4 && DirInv(d, LastIndex(disksize))
    requires IsFileName(name) && Storable(name) && 0 < reserved <= TWO_64 / 2
    ensures EndOf(d) == 0 && Harmless(d, LastIndex(disksize), reserved) && !Accepts(d, LastIndex(disksize), reserved)
    ensures var r := Create(d, [], LastOf(disksize), name, reserved);
            && r == Created(Place(d, 0, name, 1, reserved))
            && !DirInv(r.dir, LastIndex(disksize))
  {
    RecordsNeedRoom(d, LastIndex(disksize));
    assert Sub64(LastOf(disksize), 1) >= reserved;
    PlaceEnd(d, 0, name, 1, reserved);
    var d' := Place(d, 0, name, 1, reserved);
    assert !GoodRecord(d'[..EndOf(d')][0], LastIndex(disksize));
  }

  /** Which refusal is answered: a name that exists first, then a directory without a slot. */
  lemma CreateAnswers(d: Dir, t: seq<Entry>, last: uint64, name: seq<byte>, reserved: uint64)
    requires IsFileName(name)
    ensures var r := Create(d, t, last, name, reserved);
            && (r.AlreadyExists? <==> exists i: nat :: Live(d, i) && CStr(d[i].name) == name)
            && (r.NoSlot? <==>
                 && (forall i: nat :: Live(d, i) ==> CStr(d[i].name) != name)
                 && forall i :: 0 <= i < SLOTS ==> !IsEnd(d[i]) && !IsDeleted(d[i]))
  {
    if FreeSlot(d).Some? {
      var k := FreeSlot(d).value;
      assert IsEnd(d[k]) || IsDeleted(d[k]);
    }
  }

  lemma CreateGoodIff(d: Dir, t: seq<Entry>, last: uint64, name: seq<byte>, reserved: uint64)
    requires DirInv(d, last) && Qsorted(d[..Used(d)], t) && 1 <= last
    requires IsFileName(name) && Storable(name) && Find(d, name).None? && reserved > 0
    ensures Create(d, t, last, name, reserved).Created? <==> Accepts(d, last, reserved)
    ensures StillGood(d, After(d, Create(d, t, last, name, reserved)), last) <==> Harmless(d, last, reserved)
  {
    if EndOf(d) < SLOTS {
      CreateOutcome(d, t, last, name, reserved);
    } else {
      assert t == [] by { assert |multiset(t)| == 0; }
      CreateUnterminated(d, last, name, reserved);
    }
  }

  /**
  For every disk size and directory: create adds a record where there is a place, and always on a
  disk without data blocks; all files survive it exactly on other disks and in a right place.
  */
  lemma CreateOnAnyDisk(d: Dir, t: seq<Entry>, disksize: uint32, name: seq<byte>, reserved: uint64)
    requires DirInv(d, LastIndex(disksize)) && Qsorted(d[..Used(d)], t)
    requires IsFileName(name) && Storable(name) && Find(d, name).None? && 0 < reserved <= TWO_64 / 2
    ensures var r := Create(d, t, LastOf(disksize), name, reserved);
            && (r.Created? <==> disksize < 4 || Accepts(d, LastIndex(disksize), reserved))
            && (StillGood(d, After(d, r), LastIndex(disksize)) <==>
                disksize >= 4 && Harmless(d, LastIndex(disksize), reserved))
  {
    if disksize < 4 {
      CreateOnSmallDisk(d, disksize, name, reserved);
      assert t == [] by { assert |multiset(t)| == 0; }
    } else {
      assert LastOf(disksize) == LastIndex(disksize);
      CreateGoodIff(d, t, LastOf(disksize), name, reserved);
    }
  }

  // ----- Looking up what was created -----

  /** A file can be found under its name afterwards exactly when the name is no mark. */
  lemma CreatedIsFoundIff(d: Dir, slot: nat, name: seq<byte>, start: uint64, reserved: uint64)
    requires EndOf(d) < SLOTS && FreeSlot(d) == Some(slot) && IsFileName(name) && Find(d, name).None?
    ensures Find(Place(d, slot, name, start, reserved), name) == Some(slot) <==> Storable(name)
  {
    var d' := Place(d, slot, name, start, reserved);
    var r := d'[slot];
    StrCpyRead(d[slot].name, name);
    if Storable(name) {
      PlaceEnd(d, slot, name, start, reserved);
      assert Matches(r, name);
      forall k | 0 <= k < slot ensures !Matches(d'[k], name) {
        if !IsDeleted(d[k]) { assert Live(d, k); }
      }
    } else if name == [] {
      assert IsEnd(r);
    } else {
      assert r.name[0] == name[0] && 0 !in name;
      assert IsDeleted(r);
    }
  }

  // ----- Two directories that create damages -----

  function Sample(first: byte, start: uint64, reserved: uint64): Entry {
    Entry([first] + seq(NAME_SIZE - 1, _ => 0), start, reserved, 0, 0)
  }

  /** Block 1 belonged to a deleted file; a live file now fills the disk's two data blocks. */
  const FULL_DIR: Dir := [Sample(1, 1, 1), Sample(97, 1, 2)] + seq(SLOTS - 2, _ => Sample(0, 0, 0))

  /** A one-block file on the full disk is put into the middle of the live file. */
  lemma CreateCanOverlap(t: seq<Entry>)
    requires Qsorted(FULL_DIR[..2], t)
    ensures EndOf(FULL_DIR) == 2 && DirInv(FULL_DIR, 3)
    ensures var r := Create(FULL_DIR, t, 3, [98], 1); r.Created? && !DirInv(r.dir, 3)
  {
    EndOfIs(FULL_DIR, 2);
    var s := FULL_DIR[..2];
    assert CLen(s[1].name) == 1;
    forall i | 0 <= i < 2 ensures GoodRecord(s[i], 3) {}
    assert DirInv(FULL_DIR, 3);
    forall p ensures !Fits(s, 3, p, 1) { assert s[1] in s && (Clear(s[1], p, 1) ==> p + 1 <= 1 || 3 <= p); }
    assert s[0] in s && RoomBehind(s[0], 3, 1);
    assert CStr(s[1].name)[0] == 97;
    CreateOutcome(FULL_DIR, t, 3, [98], 1);
    PlaceEnd(FULL_DIR, 0, [98], GapScan(t, 0, 1, 3, 1).value, 1);
  }

  /** 64 records, the first deleted, and no terminator. */
  const UNCUT_DIR: Dir := seq(SLOTS, i requires 0 <= i < SLOTS => UncutRecord(i))

  function UncutRecord(i: nat): (e: Entry)
    requires i < SLOTS
    ensures !IsEnd(e) && (IsDeleted(e) <==> i == 0) && e.name[1] == 0
  {
    Sample(if i == 0 then 1 else 96 + i, i + 1, 1)
  }

  lemma UncutName(i: nat)
    requires i < SLOTS
    ensures CStr(UncutRecord(i).name) == [UncutRecord(i).name[0]]
  {
    assert CLen(UncutRecord(i).name) == 1;
  }

  lemma UncutGood()
    ensures EndOf(UNCUT_DIR) == SLOTS && DirInv(UNCUT_DIR, 70)
  {
    assert forall k :: 0 <= k < SLOTS ==> UNCUT_DIR[k] == UncutRecord(k);
    EndOfIs(UNCUT_DIR, SLOTS);
    var s := UNCUT_DIR[..SLOTS];
    forall i | 0 <= i < |s| ensures GoodRecord(s[i], 70) { UncutName(i); }
    forall i, j | 0 <= i < j < |s| ensures Apart(s[i], s[j]) && NamesDiffer(s[i], s[j]) {
      UncutName(i);
      UncutName(j);
    }
  }

  /** Creating one file in that good directory makes every other file unfindable. */
  lemma CreateCanCutOff()
    ensures EndOf(UNCUT_DIR) == SLOTS && DirInv(UNCUT_DIR, 70)
    ensures forall i: nat :: Live(UNCUT_DIR, i) <==> 1 <= i < SLOTS
    ensures var r := Create(UNCUT_DIR, [], 70, [98, 98], 1);
            r.Created? && forall i: nat :: Live(r.dir, i) <==> i == 0
  {
    UncutGood();
    assert forall k :: 0 <= k < SLOTS ==> UNCUT_DIR[k] == UncutRecord(k);
    assert Sub64(70, 1) == 69;
    assert FreeSlot(UNCUT_DIR) == Some(0);
    forall i: nat | Live(UNCUT_DIR, i) ensures CStr(UNCUT_DIR[i].name) != [98, 98] {
      UncutName(i);
    }
    var r := Create(UNCUT_DIR, [], 70, [98, 98], 1);
    EndOfIs(r.dir, 1);
  }
}
