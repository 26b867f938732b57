/**
The 64-slot directory of BMFS (bmfs.c): its records, its terminator and deletion marks, the name
lookup, and its 4096-byte image on the disk.
*/
module BmfsDirectory {
  import opened Options
  import opened Bytes
  import opened Words

  const SLOTS: nat := 64
  const NAME_SIZE: nat := 32
  const RECORD_SIZE: nat := 64
  const DIR_SIZE: nat := 4096

  type Name = s: seq<byte> | |s| == NAME_SIZE witness seq(NAME_SIZE, _ => 0)

  datatype Entry = Entry(name: Name, start: uint64, reserved: uint64, size: uint64, unused: uint64) {
    function End(): nat { start + reserved }
  }

  // The two marks a record's first name byte can carry
  predicate IsEnd(e: Entry) { e.name[0] == 0 }
  predicate IsDeleted(e: Entry) { e.name[0] == 1 }

  type Dir = d: seq<Entry> | |d| == SLOTS witness seq(SLOTS, _ => Entry(seq(NAME_SIZE, _ => 0), 0, 0, 0, 0))

  // ----- C strings -----

  function CLen(b: seq<byte>): (n: nat)
    ensures n <= |b| && (n < |b| ==> b[n] == 0)
    ensures forall k :: 0 <= k < n ==> b[k] != 0
  {
    if b == [] || b[0] == 0 then 0 else 1 + CLen(b[1..])
  }

  function CStr(b: seq<byte>): seq<byte> { b[..CLen(b)] }

  /** What a C caller can pass as a file name that fits the record. */
  predicate IsFileName(s: seq<byte>) { 0 !in s && |s| < NAME_SIZE }

  /** strcpy leaves the bytes behind the terminator as they were. */
  function StrCpy(b: Name, s: seq<byte>): Name
    requires IsFileName(s)
  {
    s + [0] + b[|s| + 1..]
  }

  lemma StrCpyRead(b: Name, s: seq<byte>)
    requires IsFileName(s)
    ensures CStr(StrCpy(b, s)) == s && forall k :: |s| < k < NAME_SIZE ==> StrCpy(b, s)[k] == b[k]
  {
    var r := StrCpy(b, s);
    assert r[|s|] == 0 && forall k :: 0 <= k < |s| ==> r[k] == s[k] && s[k] in s;
    assert CLen(r) == |s|;
  }

  // ----- Which slots count -----

  /** The slot of the terminator, or 64 when there is none. */
  function EndOf(d: seq<Entry>): (n: nat)
    ensures n <= |d| && (n < |d| ==> IsEnd(d[n]))
    ensures forall k :: 0 <= k < n ==> !IsEnd(d[k])
  {
    if d == [] || IsEnd(d[0]) then 0 else 1 + EndOf(d[1..])
  }

  ghost predicate Live(d: seq<Entry>, i: nat) { i < EndOf(d) && !IsDeleted(d[i]) }

  // ----- findfile -----

  predicate Matches(e: Entry, name: seq<byte>) { !IsDeleted(e) && CStr(e.name) == name }

  function Find(d: seq<Entry>, name: seq<byte>): (r: Option<nat>)
    ensures r.Some? ==> Live(d, r.value) && CStr(d[r.value].name) == name
    ensures r.None? ==> forall i: nat :: Live(d, i) ==> CStr(d[i].name) != name
  {
    FindIn(d, EndOf(d), 0, name)
  }

  function FindIn(d: seq<Entry>, n: nat, k: nat, name: seq<byte>): (r: Option<nat>)
    requires k <= n <= |d|
    ensures r.Some? ==>
      k <= r.value < n && Matches(d[r.value], name) && forall i :: k <= i < r.value ==> !Matches(d[i], name)
    ensures r.None? ==> forall i :: k <= i < n ==> !Matches(d[i], name)
    decreases n - k
  {
    if k == n then None
    else if Matches(d[k], name) then Some(k)
    else FindIn(d, n, k + 1, name)
  }

  // ----- The image on the disk -----

  function EncodeEntry(e: Entry): (r: seq<byte>)
    ensures |r| == RECORD_SIZE
  {
    e.name + ToBytes(e.start, 8) + ToBytes(e.reserved, 8) + ToBytes(e.size, 8) + ToBytes(e.unused, 8)
  }

  function ToUint64(b: seq<byte>): uint64
    requires |b| == 8
  {
    ToFromBytes(b);
    assert Pow256(8) == TWO_64;
    FromBytes(b)
  }

  function DecodeEntry(b: seq<byte>): Entry
    requires |b| == RECORD_SIZE
  {
    Entry(b[..32], ToUint64(b[32..40]), ToUint64(b[40..48]), ToUint64(b[48..56]), ToUint64(b[56..64]))
  }

  lemma Slices(a: seq<byte>, b: seq<byte>, c: seq<byte>, d: seq<byte>, e: seq<byte>)
    requires |a| == 32 && |b| == 8 && |c| == 8 && |d| == 8 && |e| == 8
    ensures var s := a + b + c + d + e;
            s[..32] == a && s[32..40] == b && s[40..48] == c && s[48..56] == d && s[56..64] == e
  {
  }

  lemma EntryRoundTrip(e: Entry)
    ensures DecodeEntry(EncodeEntry(e)) == e
  {
    assert Pow256(8) == TWO_64;
    Slices(e.name, ToBytes(e.start, 8), ToBytes(e.reserved, 8), ToBytes(e.size, 8), ToBytes(e.unused, 8));
    FromToBytes(e.start, 8);
    FromToBytes(e.reserved, 8);
    FromToBytes(e.size, 8);
    FromToBytes(e.unused, 8);
  }

  /** Where the fields of a record lie in its 64 bytes. */
  lemma RecordLayout(e: Entry)
    ensures var r := EncodeEntry(e);
            && r[0..32] == e.name && FromBytes(r[32..40]) == e.start && FromBytes(r[40..48]) == e.reserved
            && FromBytes(r[48..56]) == e.size && FromBytes(r[56..64]) == e.unused
  {
    assert Pow256(8) == TWO_64;
    Slices(e.name, ToBytes(e.start, 8), ToBytes(e.reserved, 8), ToBytes(e.size, 8), ToBytes(e.unused, 8));
    FromToBytes(e.start, 8);
    FromToBytes(e.reserved, 8);
    FromToBytes(e.size, 8);
    FromToBytes(e.unused, 8);
  }

  function Encode(d: seq<Entry>): (r: seq<byte>)
    ensures |r| == RECORD_SIZE * |d|
  {
    if d == [] then [] else EncodeEntry(d[0]) + Encode(d[1..])
  }

  function Decode(b: seq<byte>): (d: seq<Entry>)
    requires |b| % RECORD_SIZE == 0
    ensures |d| == |b| / RECORD_SIZE
  {
    if b == [] then [] else [DecodeEntry(b[..RECORD_SIZE])] + Decode(b[RECORD_SIZE..])
  }

  /** Record i lies at 64 * i. */
  lemma {:induction false} RecordAt(d: seq<Entry>, i: nat)
    requires i < |d|
    ensures Encode(d)[RECORD_SIZE * i..RECORD_SIZE * i + RECORD_SIZE] == EncodeEntry(d[i])
    decreases i
  {
    var b := Encode(d);
    assert b[RECORD_SIZE..] == Encode(d[1..]);
    if i > 0 {
      RecordAt(d[1..], i - 1);
      var rest := b[RECORD_SIZE..];
      var at := RECORD_SIZE * (i - 1);
      assert rest[at..at + RECORD_SIZE] == b[RECORD_SIZE + at..RECORD_SIZE + at + RECORD_SIZE];
    }
  }

  /** Reading back a flushed directory gives the directory. */
  lemma {:induction false} DirRoundTrip(d: seq<Entry>)
    ensures Decode(Encode(d)) == d
  {
    if d != [] {
      var b := Encode(d);
      assert b[..RECORD_SIZE] == EncodeEntry(d[0]) && b[RECORD_SIZE..] == Encode(d[1..]);
      EntryRoundTrip(d[0]);
      DirRoundTrip(d[1..]);
    }
  }
}
