/**
The search of BMFS create (bmfs.c) for a run of free blocks: the sort of the directory copy by
starting block, and the scan of the gaps between consecutive files.
*/
module BmfsGaps {
  import opened Options
  import opened BmfsDirectory
  import opened Words

  // ----- The comparator and the sort -----

  function Sub64(a: uint64, b: uint64): uint64 { (a - b) % TWO_64 }

  function StartingBlockCmp(a: Entry, b: Entry): int {
    if IsDeleted(a) then 1
    else if IsDeleted(b) then -1
    else ToInt32(Sub64(a.start, b.start))
  }

  /** The low words of a difference and of its negation add up to 0 modulo 2^32. */
  lemma LowWords(a: uint64, b: uint64)
    ensures var w := Sub64(a, b) % TWO_32;
            && Sub64(b, a) % TWO_32 == (if w == 0 then 0 else TWO_32 - w)
            && (a >= b ==> w == (a - b) % TWO_32)
  {
    var d := Sub64(a, b);
    assert Sub64(b, a) == if d == 0 then 0 else TWO_64 - d;
    var w, q := d % TWO_32, d / TWO_32;
    assert d == q * TWO_32 + w && TWO_64 == TWO_32 * TWO_32;
    if d > 0 {
      assert TWO_64 - d == (TWO_32 - q) * TWO_32 - w;
      if w > 0 { assert (TWO_64 - d) % TWO_32 == TWO_32 - w; }
    }
  }

  /** Each of two records comes before the other, or each behind the other. */
  ghost predicate Contradicts(a: Entry, b: Entry) {
    || (StartingBlockCmp(a, b) > 0 && StartingBlockCmp(b, a) > 0)
    || (StartingBlockCmp(a, b) < 0 && StartingBlockCmp(b, a) < 0)
  }

  /** Two live records with the low words of their starts 2^31 apart. */
  predicate Opposite(a: Entry, b: Entry) {
    !IsDeleted(a) && !IsDeleted(b) && Sub64(a.start, b.start) % TWO_32 == TWO_32 / 2
  }

  /**
  The comparator puts each of two records behind the other exactly when both are deleted, each before
  the other exactly when they are live and opposite, and agrees with itself on every other pair.
  */
  lemma ComparatorAntisymmetricIff(a: Entry, b: Entry)
    ensures (StartingBlockCmp(a, b) > 0 && StartingBlockCmp(b, a) > 0) <==> (IsDeleted(a) && IsDeleted(b))
    ensures (StartingBlockCmp(a, b) < 0 && StartingBlockCmp(b, a) < 0) <==> Opposite(a, b)
    ensures !Contradicts(a, b) <==>
      && (StartingBlockCmp(a, b) > 0 <==> StartingBlockCmp(b, a) < 0)
      && (StartingBlockCmp(a, b) < 0 <==> StartingBlockCmp(b, a) > 0)
  {
    LowWords(a.start, b.start);
  }

  /** It orders two live records by their starts exactly when the low word of the distance is small. */
  lemma ComparatorOrdersIff(a: Entry, b: Entry)
    requires !IsDeleted(a) && !IsDeleted(b)
    ensures (StartingBlockCmp(a, b) <= 0 <==> a.start <= b.start) <==>
      if a.start > b.start then 0 < (a.start - b.start) % TWO_32 < TWO_32 / 2
      else (b.start - a.start) % TWO_32 <= TWO_32 / 2
    ensures a.start - b.start < TWO_32 / 2 && b.start - a.start < TWO_32 / 2 ==>
      (StartingBlockCmp(a, b) <= 0 <==> a.start <= b.start)
  {
    LowWords(a.start, b.start);
    LowWords(b.start, a.start);
  }

  /** Live records by starting block, deleted records behind them. */
  ghost predicate InOrder(a: Entry, b: Entry) {
    (IsDeleted(a) ==> IsDeleted(b)) && (!IsDeleted(a) && !IsDeleted(b) ==> a.start <= b.start)
  }

  ghost predicate Ordered(t: seq<Entry>) {
    forall i, j {:trigger InOrder(t[i], t[j])} :: 0 <= i < j < |t| ==> InOrder(t[i], t[j])
  }

  /** All that create may rely on of qsort: a permutation, in the comparator's order where it has one. */
  ghost predicate Qsorted(s: seq<Entry>, t: seq<Entry>) { multiset(t) == multiset(s) && Ordered(t) }

  function Insert(e: Entry, s: seq<Entry>): seq<Entry> {
    if s == [] || StartingBlockCmp(e, s[0]) <= 0 then [e] + s else [s[0]] + Insert(e, s[1..])
  }

  function Sort(s: seq<Entry>): seq<Entry> { if s == [] then [] else Insert(s[0], Sort(s[1..])) }

  ghost predicate SmallStarts(s: seq<Entry>) { forall e :: e in s ==> e.start < TWO_32 / 2 }

  /** x is in order before every element of t. */
  ghost predicate Leads(x: Entry, t: seq<Entry>) { forall y :: y in t ==> InOrder(x, y) }

  lemma ConsOrdered(x: Entry, t: seq<Entry>)
    requires Leads(x, t) && Ordered(t)
    ensures Ordered([x] + t)
  {
  }

  lemma TailOrdered(s: seq<Entry>)
    requires s != [] && Ordered(s)
    ensures Ordered(s[1..]) && Leads(s[0], s[1..])
  {
  }

  lemma {:induction false} InsertQsorted(e: Entry, s: seq<Entry>)
    requires Ordered(s) && SmallStarts(s) && e.start < TWO_32 / 2
    ensures Qsorted([e] + s, Insert(e, s))
  {
    if s == [] {
      ConsOrdered(e, s);
    } else {
      TailOrdered(s);
      if !IsDeleted(e) && !IsDeleted(s[0]) { ComparatorOrdersIff(e, s[0]); }
      assert s == [s[0]] + s[1..];
      if StartingBlockCmp(e, s[0]) <= 0 {
        ConsOrdered(e, s);
      } else {
        var rest := Insert(e, s[1..]);
        InsertQsorted(e, s[1..]);
        forall y | y in rest ensures InOrder(s[0], y) { assert y in multiset(rest); }
        ConsOrdered(s[0], rest);
      }
    }
  }

  lemma {:induction false} SortQsorted(s: seq<Entry>)
    requires SmallStarts(s)
    ensures Qsorted(s, Sort(s))
  {
    if s != [] {
      SortQsorted(s[1..]);
      var r := Sort(s[1..]);
      forall e | e in r ensures e.start < TWO_32 / 2 { assert e in multiset(r); assert e in s[1..]; }
      InsertQsorted(s[0], r);
      assert s == [s[0]] + s[1..];
    }
  }

  // ----- The gap scan -----

  /** From record k on: the end of the previous file if the gap behind it is large enough. */
  function GapScan(t: seq<Entry>, k: nat, prev: uint64, last: uint64, req: uint64): Option<uint64>
    requires k <= |t|
    decreases |t| - k
  {
    var next := if k == |t| || IsDeleted(t[k]) then last else t[k].start;
    if Sub64(next, prev) >= req then Some(prev)
    else if k == |t| then None
    else GapScan(t, k + 1, t[k].End() % TWO_64, last, req)
  }

  /** A record's blocks lie between the first and the last block of the disk. */
  ghost predicate InRange(e: Entry, last: int) { 1 <= e.start < e.End() <= last }

  ghost predicate Apart(a: Entry, b: Entry) {
    !IsDeleted(a) && !IsDeleted(b) ==> a.End() <= b.start || b.End() <= a.start
  }

  ghost predicate AllApart(s: seq<Entry>) {
    forall i, j {:trigger Apart(s[i], s[j])} :: 0 <= i < j < |s| ==> Apart(s[i], s[j])
  }

  ghost predicate Clear(e: Entry, p: nat, req: nat) { IsDeleted(e) || p + req <= e.start || e.End() <= p }

  /** The req blocks from p are data blocks of no live file. */
  ghost predicate Fits(s: seq<Entry>, last: int, p: nat, req: nat) {
    1 <= p && p + req <= last && forall e {:trigger Clear(e, p, req)} :: e in s ==> Clear(e, p, req)
  }

  /** A deleted file with room between its end and the last block. */
  ghost predicate RoomBehind(e: Entry, last: int, req: nat) { IsDeleted(e) && e.End() + req <= last }

  /** What holds before record k is reached while only live records were passed. */
  ghost predicate Scanned(t: seq<Entry>, k: nat, prev: nat, last: nat, req: nat) {
    && k <= |t| && 1 <= prev <= last
    && (forall i :: 0 <= i < k ==> !IsDeleted(t[i]) && t[i].End() <= prev)
    && (forall p :: Fits(t, last, p, req) ==> prev <= p)
  }

  ghost predicate Scannable(t: seq<Entry>, last: nat) {
    Ordered(t) && AllApart(t) && forall i :: 0 <= i < |t| ==> InRange(t[i], last)
  }

  /** Past a live record too close to the previous one, the next possible place is its end. */
  lemma ScanStep(t: seq<Entry>, k: nat, prev: nat, last: nat, req: nat)
    requires Scannable(t, last) && Scanned(t, k, prev, last, req) && req > 0
    requires k < |t| && !IsDeleted(t[k]) && t[k].start < prev + req
    ensures Scanned(t, k + 1, t[k].End(), last, req)
  {
    forall p | Fits(t, last, p, req) ensures t[k].End() <= p {
      assert Clear(t[k], p, req);
    }
    forall i | 0 <= i < k ensures t[i].End() <= t[k].End() {
      assert InOrder(t[i], t[k]);
      assert Apart(t[i], t[k]);
    }
  }

  lemma StartsBeyond(t: seq<Entry>, k: nat, prev: nat, last: nat, req: nat)
    requires Scannable(t, last) && Scanned(t, k, prev, last, req)
    requires k < |t| && !IsDeleted(t[k]) && (k == 0 ==> prev == 1) && (k > 0 ==> prev == t[k - 1].End())
    ensures prev <= t[k].start
  {
    if k > 0 {
      assert InOrder(t[k - 1], t[k]);
      assert Apart(t[k - 1], t[k]);
    }
  }

  /** A gap that is large enough is a place, and by Scanned the lowest one. */
  lemma ScanHit(t: seq<Entry>, k: nat, prev: nat, last: nat, req: nat)
    requires Scannable(t, last) && Scanned(t, k, prev, last, req)
    requires prev + req <= if k == |t| || IsDeleted(t[k]) then last else t[k].start
    ensures Fits(t, last, prev, req)
  {
    forall e | e in t ensures Clear(e, prev, req) {
      var i :| 0 <= i < |t| && t[i] == e;
      if i >= k && !IsDeleted(e) {
        if i > k { assert InOrder(t[k], t[i]); }
      }
    }
    if k < |t| && !IsDeleted(t[k]) { assert InRange(t[k], last); }
  }

  ghost predicate LowestFit(t: seq<Entry>, last: nat, p: nat, req: nat) {
    Fits(t, last, p, req) && forall q :: Fits(t, last, q, req) ==> p <= q
  }

  /** The scan finds the lowest place if there is one; else it may stop behind a deleted record. */
  ghost predicate ScanResult(t: seq<Entry>, last: nat, req: nat, r: Option<uint64>) {
    if r.Some? && Fits(t, last, r.value, req) then LowestFit(t, last, r.value, req)
    else
      && (forall p :: !Fits(t, last, p, req))
      && (r.Some? <==> exists e :: e in t && RoomBehind(e, last, req))
      && (r.Some? ==> exists e :: e in t && RoomBehind(e, last, req) && e.End() == r.value)
  }

  /** What the scan compares the previous end with at record k. */
  function NextStart(t: seq<Entry>, k: nat, last: uint64): uint64
    requires k <= |t|
  {
    if k == |t| || IsDeleted(t[k]) then last else t[k].start
  }

  lemma GapTaken(t: seq<Entry>, k: nat, prev: uint64, last: uint64, req: uint64)
    requires k <= |t| && prev + req <= NextStart(t, k, last)
    ensures GapScan(t, k, prev, last, req) == Some(prev)
  {
    assert Sub64(NextStart(t, k, last), prev) == NextStart(t, k, last) - prev;
  }

  lemma GapPassed(t: seq<Entry>, k: nat, prev: uint64, last: uint64, req: uint64)
    requires k <= |t| && prev <= NextStart(t, k, last) < prev + req
    requires k < |t| ==> t[k].End() < TWO_64
    ensures GapScan(t, k, prev, last, req) == if k == |t| then None else GapScan(t, k + 1, t[k].End(), last, req)
  {
    assert Sub64(NextStart(t, k, last), prev) == NextStart(t, k, last) - prev;
  }

  lemma {:induction false} ScanLive(t: seq<Entry>, k: nat, prev: uint64, last: uint64, req: uint64, r: Option<uint64>)
    requires k <= |t| && r == GapScan(t, k, prev, last, req)
    requires Scannable(t, last) && Scanned(t, k, prev, last, req) && req > 0
    requires (k == 0 ==> prev == 1) && (k > 0 ==> prev == t[k - 1].End())
    ensures ScanResult(t, last, req, r)
    decreases |t| - k
  {
    var next := NextStart(t, k, last);
    if prev + req <= next {
      GapTaken(t, k, prev, last, req);
      ScanHit(t, k, prev, last, req);
      LowestIsResult(t, last, req, prev);
    } else if k < |t| && !IsDeleted(t[k]) {
      StartsBeyond(t, k, prev, last, req);
      assert InRange(t[k], last);
      GapPassed(t, k, prev, last, req);
      ScanStep(t, k, prev, last, req);
      ScanLive(t, k + 1, t[k].End(), last, req, r);
    } else {
      ScanDeleted(t, k, prev, last, req, r);
    }
  }

  lemma LowestIsResult(t: seq<Entry>, last: uint64, req: uint64, p: uint64)
    requires LowestFit(t, last, p, req)
    ensures ScanResult(t, last, req, Some(p))
  {
  }

  lemma RoomIsResult(t: seq<Entry>, last: uint64, req: uint64, e: Entry)
    requires (forall p :: !Fits(t, last, p, req)) && e in t && RoomBehind(e, last, req)
    ensures ScanResult(t, last, req, Some(e.End()))
  {
  }

  /** Behind the live records the scan tries the end of each deleted one. */
  lemma {:induction false} ScanDeleted(t: seq<Entry>, k: nat, prev: uint64, last: uint64, req: uint64,
                                       r: Option<uint64>)
    requires k <= |t| && r == GapScan(t, k, prev, last, req)
    requires Scannable(t, last) && (k < |t| ==> IsDeleted(t[k]))
    requires prev <= last < prev + req
    requires forall p :: !Fits(t, last, p, req)
    requires forall i :: 0 <= i < k ==> !RoomBehind(t[i], last, req)
    ensures ScanResult(t, last, req, r)
    decreases |t| - k
  {
    if k < |t| { assert InRange(t[k], last); }
    GapPassed(t, k, prev, last, req);
    if k < |t| {
      var next := t[k].End();
      if k + 1 < |t| { assert InOrder(t[k], t[k + 1]); }
      if next + req <= last {
        GapTaken(t, k + 1, next, last, req);
        RoomIsResult(t, last, req, t[k]);
      } else {
        ScanDeleted(t, k + 1, next, last, req, r);
      }
    } else {
      NoRoomIsResult(t, last, req);
    }
  }

  lemma NoRoomIsResult(t: seq<Entry>, last: uint64, req: uint64)
    requires (forall p :: !Fits(t, last, p, req)) && forall i :: 0 <= i < |t| ==> !RoomBehind(t[i], last, req)
    ensures ScanResult(t, last, req, None)
  {
  }

  lemma ScanSpec(t: seq<Entry>, last: uint64, req: uint64)
    requires Scannable(t, last) && 1 <= last && req > 0
    ensures ScanResult(t, last, req, GapScan(t, 0, 1, last, req))
  {
    ScanLive(t, 0, 1, last, req, GapScan(t, 0, 1, last, req));
  }

  // ----- A permutation keeps what the scan needs -----

  lemma {:induction false} TwoIndices(s: seq<Entry>, x: Entry) returns (i: nat, j: nat)
    requires multiset(s)[x] >= 2
    ensures i < j < |s| && s[i] == x && s[j] == x
  {
    assert s == [s[0]] + s[1..];
    if s[0] == x {
      assert x in multiset(s[1..]);
      i := 0;
      j :| 1 <= j < |s| && s[j] == x;
    } else {
      i, j := TwoIndices(s[1..], x);
      i, j := i + 1, j + 1;
    }
  }

  lemma {:induction false} TwoOccurrences(t: seq<Entry>, i: nat, j: nat)
    requires i < j < |t| && t[i] == t[j]
    ensures multiset(t)[t[i]] >= 2
  {
    assert t == t[..j] + [t[j]] + t[j + 1..];
    assert t[i] in t[..j];
  }

  lemma ApartPermuted(s: seq<Entry>, t: seq<Entry>)
    requires multiset(t) == multiset(s) && AllApart(s)
    ensures AllApart(t)
  {
    forall i, j | 0 <= i < j < |t| ensures Apart(t[i], t[j]) {
      if t[i] == t[j] {
        TwoOccurrences(t, i, j);
        var k, l := TwoIndices(s, t[i]);
        assert Apart(s[k], s[l]);
      } else {
        assert t[i] in multiset(s) && t[j] in multiset(s);
        var k :| 0 <= k < |s| && s[k] == t[i];
        var l :| 0 <= l < |s| && s[l] == t[j];
        assert k < l ==> Apart(s[k], s[l]);
        assert l < k ==> Apart(s[l], s[k]);
      }
    }
  }
}
