/**
The table of named shared blocks (shared.c) as a value, and what it keeps over whole runs.
SharedMemory holds the array and the calls into the allocators.
*/
module SharedTables {
  import opened Options
  import opened Words

  const MAX_SHBLOCKS: nat := 10

  /** start is 0 when get_memblock had no block; addr and nameAddr are the kmalloc chunks of the entry. */
  datatype Entry = Entry(start: nat, name: string, simAccess: nat, addr: int, nameAddr: int)

  type Slots = seq<Option<Entry>>

  datatype Table = Table(current: nat, slots: Slots)

  function NullSlots(n: nat): (s: Slots)
    ensures |s| == n && forall i :: 0 <= i < n ==> s[i].None?
  {
    if n == 0 then [] else NullSlots(n - 1) + [None]
  }

  const EMPTY: Table := Table(1, NullSlots(MAX_SHBLOCKS))

  // ----- The search of shmget -----

  ghost predicate Named(s: Slots, i: nat, name: string) { i < |s| && s[i].Some? && s[i].value.name == name }

  /** The position after the first n slots: the first slot of that name, else the last null one. */
  function Search(s: Slots, n: nat, name: string): (r: (Option<nat>, bool))
    requires n <= |s|
    ensures r.1 ==> r.0.Some? && r.0.value < n && Named(s, r.0.value, name)
    ensures !r.1 ==> forall k :: 0 <= k < n ==> !Named(s, k, name)
    ensures !r.1 && r.0.Some? ==> r.0.value < n && s[r.0.value].None?
    ensures r.0.None? ==> forall k :: 0 <= k < n ==> s[k].Some?
  {
    if n == 0 then (None, false)
    else
      var (pos, equals) := Search(s, n - 1, name);
      if equals then (pos, true)
      else if s[n - 1].None? then (Some(n - 1), false)
      else if s[n - 1].value.name == name then (Some(n - 1), true)
      else (pos, false)
  }

  predicate FreeSpace(s: Slots, n: nat)
    requires n <= |s|
  {
    exists k :: 0 <= k < n && s[k].None?
  }

  // ----- The three operations -----

  /** Puts a new entry in slot pos; the table grows when no null slot is left below current. */
  function Install(t: Table, pos: nat, e: Entry, equals: bool): Table
    requires pos < |t.slots| && t.current <= |t.slots|
  {
    var s := t.slots[pos := Some(e)];
    Table(if !equals && !FreeSpace(s, t.current) then t.current + 1 else t.current, s)
  }

  /** Whether shmget gets as far as building an entry: for a new name, or to overwrite an old one. */
  predicate Builds(t: Table, name: string, overwrite: bool)
    requires t.current <= |t.slots|
  {
    var (pos, equals) := Search(t.slots, t.current, name);
    t.current != MAX_SHBLOCKS && pos.Some? && (overwrite || !equals)
  }

  /** shmget, when the entry it builds, if any, is e. */
  function Get(t: Table, name: string, overwrite: bool, e: Entry): (Table, int)
    requires t.current <= |t.slots|
  {
    var (pos, equals) := Search(t.slots, t.current, name);
    if t.current == MAX_SHBLOCKS || pos.None? then (t, -1)
    else (if overwrite || !equals then Install(t, pos.value, e, equals) else t, pos.value + 1)
  }

  function At(t: Table, id: nat): (Table, nat)
    requires t.current <= |t.slots|
  {
    if id == 0 || id - 1 >= t.current || t.slots[id - 1].None? then (t, 0)
    else
      var e := t.slots[id - 1].value;
      (t.(slots := t.slots[id - 1 := Some(e.(simAccess := (e.simAccess + 1) % TWO_64))]), e.start)
  }

  /** The loop of shmdetach from slot j on, and the slot it empties. */
  function Detach(s: Slots, j: nat, n: nat, address: nat): (r: (Slots, Option<nat>))
    requires j <= n <= |s|
    ensures |r.0| == |s|
    ensures r.1.Some? ==> j <= r.1.value < n && s[r.1.value].Some? && s[r.1.value].value.start == address
    decreases n - j
  {
    if j == n then (s, None)
    else if s[j].Some? && s[j].value.start == address then
      var left := (s[j].value.simAccess + TWO_64 - 1) % TWO_64;
      if left == 0 then (s[j := None], Some(j))
      else Detach(s[j := Some(s[j].value.(simAccess := left))], j + 1, n, address)
    else Detach(s, j + 1, n, address)
  }

  // ----- The invariant -----

  ghost predicate Differ(x: Option<Entry>, y: Option<Entry>) {
    x.Some? && y.Some? ==>
      x.value.name != y.value.name && (x.value.start != 0 ==> x.value.start != y.value.start)
  }

  /** Live entries have distinct names and, where they have one, distinct blocks. */
  ghost predicate Distinct(s: Slots) {
    forall i, j {:trigger Differ(s[i], s[j])} :: 0 <= i < j < |s| ==> Differ(s[i], s[j])
  }

  lemma DistinctUpdate(s: Slots, i: nat, x: Option<Entry>)
    requires i < |s| && Distinct(s) && forall j :: 0 <= j < |s| && j != i ==> Differ(s[j], x)
    ensures Distinct(s[i := x])
  {
  }

  /** A null slot always lies below current, and nothing lives at or beyond it. */
  ghost predicate Shaped(t: Table) {
    && |t.slots| == MAX_SHBLOCKS && 1 <= t.current <= MAX_SHBLOCKS
    && (forall i :: t.current <= i < |t.slots| ==> t.slots[i].None?)
    && FreeSpace(t.slots, t.current)
  }

  lemma EmptyShaped()
    ensures Shaped(EMPTY)
  {
    assert EMPTY.slots[0].None?;
  }

  function LiveCount(s: Slots): nat {
    if s == [] then 0 else (if s[0].Some? then 1 else 0) + LiveCount(s[1..])
  }

  lemma {:induction false} LiveCountUpdate(s: Slots, i: nat, x: Option<Entry>)
    requires i < |s|
    ensures LiveCount(s[i := x]) == LiveCount(s) - (if s[i].Some? then 1 else 0) + (if x.Some? then 1 else 0)
  {
    if i > 0 {
      assert s[i := x][1..] == s[1..][i - 1 := x];
      LiveCountUpdate(s[1..], i - 1, x);
    }
  }

  /** With nothing live from n on, n live entries fill the slots below n and fewer leave a null one. */
  lemma {:induction false} LiveCountFull(s: Slots, n: nat)
    requires n <= |s| && forall i :: n <= i < |s| ==> s[i].None?
    ensures LiveCount(s) <= n && (LiveCount(s) == n <==> !FreeSpace(s, n))
  {
    if n == 0 {
      if s != [] { LiveCountFull(s[1..], 0); }
    } else {
      LiveCountFull(s[1..], n - 1);
      assert FreeSpace(s[1..], n - 1) ==> FreeSpace(s, n) by {
        if k :| 0 <= k < n - 1 && s[1..][k].None? { assert s[k + 1].None?; }
      }
      assert FreeSpace(s, n) && s[0].Some? ==> FreeSpace(s[1..], n - 1) by {
        if FreeSpace(s, n) && s[0].Some? {
          var k :| 0 <= k < n && s[k].None?;
          assert s[1..][k - 1].None?;
        }
      }
    }
  }

  /** The "no space" exit of shmget is unreachable. */
  lemma SearchFindsRoom(t: Table, name: string)
    requires Shaped(t)
    ensures Search(t.slots, t.current, name).0.Some?
  {
  }

  function Max(a: nat, b: nat): nat { if a > b then a else b }

  /** A new entry raises the bound exactly when it raises the peak number of live entries. */
  lemma GetKeepsShape(t: Table, name: string, e: Entry, peak: nat)
    requires Shaped(t) && LiveCount(t.slots) <= peak && t.current == peak + 1
    requires t.current != MAX_SHBLOCKS && !Search(t.slots, t.current, name).1
    ensures var u := Get(t, name, false, e).0;
            var live := LiveCount(u.slots);
            Shaped(u) && live <= Max(peak, live) && u.current == Max(peak, live) + 1
  {
    SearchFindsRoom(t, name);
    var pos := Search(t.slots, t.current, name).0.value;
    var u := Get(t, name, false, e).0;
    LiveCountUpdate(t.slots, pos, Some(e));
    LiveCountFull(u.slots, t.current);
    if u.current > t.current { assert u.slots[t.current].None?; }
  }

  lemma SlotUpdateShape(t: Table, i: nat, x: Option<Entry>)
    requires Shaped(t) && i < |t.slots| && t.slots[i].Some?
    ensures Shaped(t.(slots := t.slots[i := x]))
  {
    var k :| 0 <= k < t.current && t.slots[k].None?;
    assert t.slots[i := x][k].None?;
  }

  // ----- What an id stands for -----

  ghost predicate HasName(t: Table, name: string) { exists k: nat :: Named(t.slots, k, name) }

  /** The entry of that name has that id: ids count the slots from 1 on. */
  ghost predicate HasId(t: Table, name: string, id: nat) { exists k: nat :: Named(t.slots, k, name) && k + 1 == id }

  /** Without the name the search ends at the last null slot below the bound. */
  lemma {:induction false} SearchLastNull(s: Slots, n: nat, name: string)
    requires n <= |s| && !Search(s, n, name).1 && Search(s, n, name).0.Some?
    ensures forall k :: Search(s, n, name).0.value < k < n ==> s[k].Some?
    decreases n
  {
    if s[n - 1].Some? { SearchLastNull(s, n - 1, name); }
  }

  /**
  The id that shmget answers is afterwards that of the name: the one the name had, or else that of the
  last null slot below the bound. No other slot changes, and this one only when an entry is built.
  */
  lemma GetId(t: Table, name: string, overwrite: bool, e: Entry)
    requires Shaped(t) && t.current != MAX_SHBLOCKS && e.name == name
    ensures var (u, id) := Get(t, name, overwrite, e);
            && 1 <= id <= t.current && HasId(u, name, id)
            && u.slots == (if overwrite || !HasName(t, name) then t.slots[id - 1 := Some(e)] else t.slots)
            && (HasName(t, name) ==> HasId(t, name, id))
            && (!HasName(t, name) ==>
                 t.slots[id - 1].None? && forall k :: id <= k < t.current ==> t.slots[k].Some?)
  {
    SearchFindsRoom(t, name);
    var (pos, equals) := Search(t.slots, t.current, name);
    if equals {
      assert Named(t.slots, pos.value, name);
    } else {
      SearchLastNull(t.slots, t.current, name);
      forall k | 0 <= k < |t.slots| ensures !Named(t.slots, k, name) {}
    }
    assert Named(Get(t, name, overwrite, e).0.slots, pos.value, name);
  }

  /** One more attach to the entry in slot k. */
  function Raised(t: Table, k: nat): Table
    requires k < |t.slots| && t.slots[k].Some?
  {
    t.(slots := t.slots[k := Some(t.slots[k].value.(simAccess := (t.slots[k].value.simAccess + 1) % TWO_64))])
  }

  /** shmat counts up the entry of the name that has the id, answers its block and changes nothing else. */
  lemma AtById(t: Table, name: string, id: nat)
    requires Shaped(t) && HasId(t, name, id)
    ensures exists k: nat :: Named(t.slots, k, name) && At(t, id) == (Raised(t, k), t.slots[k].value.start)
  {
    var k: nat :| Named(t.slots, k, name) && k + 1 == id;
    assert At(t, id) == (Raised(t, k), t.slots[k].value.start);
  }

  /** And it changes nothing, and answers 0, exactly when no live entry has the id. */
  lemma AtNothingIff(t: Table, id: nat)
    requires Shaped(t)
    ensures At(t, id).0 == t <==> !exists name :: HasId(t, name, id)
    ensures At(t, id).0 == t ==> At(t, id).1 == 0
  {
    if id > 0 && id - 1 < t.current && t.slots[id - 1].Some? {
      var name := t.slots[id - 1].value.name;
      assert Named(t.slots, id - 1, name) && HasId(t, name, id);
      assert At(t, id).0.slots[id - 1].value.simAccess != t.slots[id - 1].value.simAccess;
    }
  }

  ghost predicate StartsAt(s: Slots, i: nat, a: nat) { i < |s| && s[i].Some? && s[i].value.start == a }

  /** With distinct starts the loop of shmdetach meets exactly one entry. */
  lemma {:induction false} DetachOne(s: Slots, j: nat, n: nat, a: nat, i: nat)
    requires j <= i < n <= |s| && Distinct(s) && a != 0 && StartsAt(s, i, a) && 0 < s[i].value.simAccess < TWO_64
    ensures Detach(s, j, n, a) ==
            if s[i].value.simAccess == 1 then (s[i := None], Some(i))
            else (s[i := Some(s[i].value.(simAccess := s[i].value.simAccess - 1))], None)
    decreases n - j
  {
    if j < i {
      assert Differ(s[j], s[i]);
      DetachOne(s, j + 1, n, a, i);
    } else if s[i].value.simAccess != 1 {
      var t := s[i := Some(s[i].value.(simAccess := s[i].value.simAccess - 1))];
      forall k | i < k < n ensures !StartsAt(t, k, a) { assert Differ(s[i], s[k]); }
      DetachNone(t, i + 1, n, a);
    }
  }

  /** One attach less, with wrap-around. */
  function Lowered(x: Option<Entry>): Option<Entry>
    requires x.Some?
  {
    Some(x.value.(simAccess := if x.value.simAccess == 0 then TWO_64 - 1 else x.value.simAccess - 1))
  }

  /** From s to t an entry at that address was counted down, but not to 0, and any other slot kept. */
  ghost predicate CountedDown(s: Slots, t: Slots, k: nat, a: nat)
    requires k < |s| && k < |t|
  {
    if StartsAt(s, k, a) then s[k].value.simAccess != 1 && t[k] == Lowered(s[k]) else t[k] == s[k]
  }

  ghost predicate Bounded(s: Slots) { forall k :: 0 <= k < |s| && s[k].Some? ==> s[k].value.simAccess < TWO_64 }

  /** For any address: entries there are counted down until one was on its last count, which is emptied. */
  lemma {:induction false} DetachEach(s: Slots, j: nat, n: nat, a: nat)
    requires j <= n <= |s| && Bounded(s)
    ensures var (t, gone) := Detach(s, j, n, a);
            var stop := if gone.Some? then gone.value else n;
            && (gone.Some? ==> StartsAt(s, stop, a) && s[stop].value.simAccess == 1 && t[stop].None?)
            && (forall k: nat :: j <= k < stop ==> CountedDown(s, t, k, a))
            && (forall k :: 0 <= k < j || stop < k < |s| || (gone.None? && stop == k < |s|) ==> t[k] == s[k])
    decreases n - j
  {
    if j < n && StartsAt(s, j, a) && s[j].value.simAccess != 1 {
      var s1 := s[j := Lowered(s[j])];
      assert (s[j].value.simAccess + TWO_64 - 1) % TWO_64 == Lowered(s[j]).value.simAccess;
      DetachEach(s1, j + 1, n, a);
      var (t, gone) := Detach(s1, j + 1, n, a);
      forall k: nat | j <= k < if gone.Some? then gone.value else n ensures CountedDown(s, t, k, a) {
        if k > j { assert CountedDown(s1, t, k, a) && s1[k] == s[k]; }
      }
    } else if j < n && !StartsAt(s, j, a) {
      DetachEach(s, j + 1, n, a);
    }
  }

  lemma {:induction false} DetachNone(s: Slots, j: nat, n: nat, a: nat)
    requires j <= n <= |s| && forall k :: j <= k < n ==> !StartsAt(s, k, a)
    ensures Detach(s, j, n, a) == (s, None)
    decreases n - j
  {
    if j < n {
      assert !StartsAt(s, j, a);
      DetachNone(s, j + 1, n, a);
    }
  }
}
