/**
Whole runs of the shared-memory calls (shared.c) over the table and the buddy tree together, with a
ledger of the attaches and detaches of every block and the peak number of live entries.
*/
module SharedRuns {
  import opened Options
  import opened Words
  import opened SharedTables
  import opened MemLib
  import B = BuddyNodes
  import T = BuddyTrees

  datatype Count = Count(attaches: nat, detaches: nat)

  datatype State = State(table: Table, tree: T.Tree, ledger: map<nat, Count>, peak: nat)

  /**
  addrs: what kmalloc answered for struct and name, None when it had no room for the struct. EvGrant
  and EvRelease are the calls of get_memblock and free_memblock that anyone else makes.
  */
  datatype Event =
    | EvGet(name: string, size: uint64, overwrite: bool, addrs: Option<(int, int)>)
    | EvAt(id: nat)
    | EvDetach(address: nat)
    | EvGrant(size: uint64)
    | EvRelease(address: nat)

  /** The address get_memblock grants, 0 when it grants none. */
  function StartOf(t: T.Tree, size: uint64): nat {
    if PagedSize(size) == 0 then 0
    else
      match T.Alloc(t, PagedSize(size)).1
      case Some(idx) => MEM_START + idx
      case None => 0
  }

  predicate Installs(t: Table, ev: Event)
    requires t.current <= |t.slots| && ev.EvGet?
  {
    Builds(t, ev.name, ev.overwrite) && ev.addrs.Some?
  }

  function NewEntry(t: T.Tree, ev: Event): Entry
    requires ev.EvGet? && ev.addrs.Some?
  {
    Entry(StartOf(t, ev.size), ev.name, 0, ev.addrs.value.0, ev.addrs.value.1)
  }

  /** A request for no bytes crashes the buddy unless no leaf is free. */
  ghost predicate Answered(t: T.Tree, size: uint64) { PagedSize(size) == 0 ==> T.FreeLeaves(t) == [] }

  /**
  Requests that answer at all, a live count that does not overflow, a detach after an attach, and
  nobody else frees a block that an entry has.
  */
  ghost predicate Legal(st: State, ev: Event)
    requires st.table.current <= |st.table.slots|
  {
    match ev
    case EvGet(_, size, _, _) => Installs(st.table, ev) ==> Answered(st.tree, size)
    case EvAt(_) => forall a :: a in st.ledger ==> st.ledger[a].attaches - st.ledger[a].detaches < TWO_64 - 1
    case EvDetach(a) => a in st.ledger && st.ledger[a].detaches < st.ledger[a].attaches
    case EvGrant(size) => Answered(st.tree, size)
    case EvRelease(a) => a !in st.ledger
  }

  /** Where a new entry goes. */
  function Spot(t: Table, name: string): (pos: nat)
    requires t.current <= |t.slots| && Search(t.slots, t.current, name).0.Some?
    ensures pos < t.current
  {
    Search(t.slots, t.current, name).0.value
  }

  /** The ledger forgets an overwritten entry and lists a new block. */
  function Relisted(ledger: map<nat, Count>, was: Option<Entry>, start: nat): map<nat, Count> {
    var kept := if was.Some? then ledger - {was.value.start} else ledger;
    if start == 0 then kept else kept[start := Count(0, 0)]
  }

  function Attached(ledger: map<nat, Count>, a: nat): map<nat, Count>
    requires a in ledger
  {
    ledger[a := ledger[a].(attaches := ledger[a].attaches + 1)]
  }

  function Detached(ledger: map<nat, Count>, a: nat): map<nat, Count>
    requires a in ledger
  {
    ledger[a := ledger[a].(detaches := ledger[a].detaches + 1)]
  }

  ghost function Next(st: State, ev: Event): State
    requires st.table.current <= |st.table.slots|
  {
    match ev
    case EvGet(name, size, overwrite, _) =>
      if !Installs(st.table, ev) then st
      else
        var e := NewEntry(st.tree, ev);
        var t := Get(st.table, name, overwrite, e).0;
        State(t, B.TreeAfter(st.tree, PagedSize(size)),
          Relisted(st.ledger, st.table.slots[Spot(st.table, name)], e.start), Max(st.peak, LiveCount(t.slots)))
    case EvAt(id) =>
      var (t, a) := At(st.table, id);
      st.(table := t, ledger := if a in st.ledger then Attached(st.ledger, a) else st.ledger)
    case EvDetach(a) =>
      var (s, gone) := Detach(st.table.slots, 0, st.table.current, a);
      if gone.Some? && a >= MEM_START then
        State(st.table.(slots := s), T.Free(st.tree, a - MEM_START).0, st.ledger - {a}, st.peak)
      else if a in st.ledger then
        st.(table := st.table.(slots := s), ledger := Detached(st.ledger, a))
      else
        st.(table := st.table.(slots := s))
    case EvGrant(size) => st.(tree := B.TreeAfter(st.tree, PagedSize(size)))
    case EvRelease(a) => st.(tree := Freed(st.tree, a))
  }

  /** The tree after free_memblock. */
  function Freed(t: T.Tree, address: nat): T.Tree {
    if address < MEM_START then t else T.Free(t, address - MEM_START).0
  }

  // ----- The invariant -----

  ghost predicate BlockAt(b: T.Block, t: T.Tree, start: nat) { b in T.Blocks(t) && MEM_START + b.0 == start }

  ghost predicate HasBlock(t: T.Tree, start: nat) { exists b :: BlockAt(b, t, start) }

  ghost predicate EntryBlock(x: Option<Entry>, t: T.Tree) {
    x.Some? && x.value.start != 0 ==> HasBlock(t, x.value.start)
  }

  ghost predicate AllBlocks(s: Slots, t: T.Tree) {
    forall i {:trigger EntryBlock(s[i], t)} :: 0 <= i < |s| ==> EntryBlock(s[i], t)
  }

  /** The count of a slot that has a block is its attaches minus its detaches. */
  ghost predicate Counted(x: Option<Entry>, ledger: map<nat, Count>) {
    x.Some? && x.value.start != 0 ==>
      && x.value.start in ledger
      && x.value.simAccess == ledger[x.value.start].attaches - ledger[x.value.start].detaches < TWO_64
  }

  /** Every block of a live slot is counted, and the ledger lists such blocks only. */
  ghost predicate Ledgered(s: Slots, ledger: map<nat, Count>) {
    && (forall i {:trigger Counted(s[i], ledger)} :: 0 <= i < |s| ==> Counted(s[i], ledger))
    && (forall a :: a in ledger ==> a != 0 && exists i :: StartsAt(s, i, a))
  }

  ghost predicate Inv(st: State, poolSize: nat) {
    && Shaped(st.table) && Distinct(st.table.slots) && Ledgered(st.table.slots, st.ledger)
    && LiveCount(st.table.slots) <= st.peak && st.table.current == st.peak + 1
    && Sound(st.tree, poolSize) && AllBlocks(st.table.slots, st.tree)
  }

  // ----- A new entry -----

  /** The block of a grant has an address that no block had. */
  lemma GrantIsNew(t: T.Tree, poolSize: nat, size: uint64)
    requires Sound(t, poolSize) && PagedSize(size) > 0 && T.Alloc(t, PagedSize(size)).1.Some?
    ensures var (u, i) := T.Alloc(t, PagedSize(size));
            && HasBlock(u, MEM_START + i.value)
            && forall b :: b in T.Blocks(t) ==> b in T.Blocks(u) && b.0 != i.value
  {
    var (u, i) := T.Alloc(t, PagedSize(size));
    var b := T.AllocEffect(t, 0, poolSize, PagedSize(size));
    assert BlockAt(b, u, MEM_START + i.value);
    forall c | c in T.Blocks(t) ensures c in T.Blocks(u) && c.0 != i.value {
      T.BlocksApart(u, 0, poolSize, b, c);
      T.BlocksInside(u, 0, poolSize, c);
    }
  }

  /** A request keeps every block where it is, and what it grants is nobody else's. */
  lemma StartIsNew(t: T.Tree, poolSize: nat, size: uint64)
    requires Sound(t, poolSize)
    ensures var u, start := B.TreeAfter(t, PagedSize(size)), StartOf(t, size);
            && Sound(u, poolSize)
            && (start != 0 ==> HasBlock(u, start) && !HasBlock(t, start))
            && forall a :: HasBlock(t, a) ==> HasBlock(u, a)
  {
    var u, start := B.TreeAfter(t, PagedSize(size)), StartOf(t, size);
    if PagedSize(size) > 0 {
      AllocSound(t, poolSize, size);
      if T.Alloc(t, PagedSize(size)).1.Some? { GrantIsNew(t, poolSize, size); }
      else { T.AllocFailsClean(t, PagedSize(size)); }
    }
    forall a | HasBlock(t, a) ensures HasBlock(u, a) {
      var b :| BlockAt(b, t, a);
      assert BlockAt(b, u, a);
    }
  }

  /** The start of a new entry is the address of the block that is new in the tree, or 0 when none is. */
  lemma StartIsGrant(t: T.Tree, poolSize: nat, size: uint64)
    requires Sound(t, poolSize)
    ensures var u, start := B.TreeAfter(t, PagedSize(size)), StartOf(t, size);
            && (start == 0 <==> T.Blocks(u) == T.Blocks(t))
            && (start != 0 ==> Grants(T.Blocks(t), T.Blocks(u), start, PagedSize(size)))
            && (PagedSize(size) > 0 ==> (start == 0 <==> !HasRoom(t, poolSize, PagedSize(size))))
  {
    if PagedSize(size) > 0 {
      T.AllocFailsIffNoRoom(t, 0, poolSize, PagedSize(size));
      if T.Alloc(t, PagedSize(size)).1.Some? {
        var b := T.AllocEffect(t, 0, poolSize, PagedSize(size));
      } else {
        T.AllocFailsClean(t, PagedSize(size));
      }
    }
  }

  lemma LedgerInstall(s: Slots, pos: nat, e: Entry, ledger: map<nat, Count>)
    requires pos < |s| && Ledgered(s, ledger) && Distinct(s) && e.simAccess == 0 && e.start !in ledger
    ensures Ledgered(s[pos := Some(e)], Relisted(ledger, s[pos], e.start))
  {
    var t, ledger' := s[pos := Some(e)], Relisted(ledger, s[pos], e.start);
    forall i | 0 <= i < |t| ensures Counted(t[i], ledger') {
      assert Counted(s[i], ledger);
      assert i < pos ==> Differ(s[i], s[pos]);
      assert pos < i ==> Differ(s[pos], s[i]);
    }
    forall a | a in ledger' ensures a != 0 && exists i :: StartsAt(t, i, a) {
      if a == e.start { assert StartsAt(t, pos, a); }
      else { var i :| StartsAt(s, i, a); assert StartsAt(t, i, a); }
    }
  }

  /** The slot a name goes to leaves every other entry another name. */
  lemma OtherNames(t: Table, name: string, i: nat)
    requires Shaped(t) && Distinct(t.slots) && i < |t.slots| && t.slots[i].Some?
    requires Search(t.slots, t.current, name).0.Some? && i != Spot(t, name)
    ensures t.slots[i].value.name != name
  {
    var (pos, equals) := Search(t.slots, t.current, name);
    if equals {
      assert i < pos.value ==> Differ(t.slots[i], t.slots[pos.value]);
      assert pos.value < i ==> Differ(t.slots[pos.value], t.slots[i]);
    } else {
      assert !Named(t.slots, i, name);
    }
  }

  lemma GetShape(t: Table, name: string, overwrite: bool, e: Entry, peak: nat)
    requires Shaped(t) && Builds(t, name, overwrite) && LiveCount(t.slots) <= peak && t.current == peak + 1
    ensures var u := Get(t, name, overwrite, e).0;
            Shaped(u) && u.current == Max(peak, LiveCount(u.slots)) + 1 && u.slots == t.slots[Spot(t, name) := Some(e)]
  {
    if Search(t.slots, t.current, name).1 {
      LiveCountUpdate(t.slots, Spot(t, name), Some(e));
      SlotUpdateShape(t, Spot(t, name), Some(e));
    } else {
      GetKeepsShape(t, name, e, peak);
    }
  }

  lemma InstallDistinct(t: Table, tree: T.Tree, e: Entry)
    requires Shaped(t) && Distinct(t.slots) && AllBlocks(t.slots, tree)
    requires Search(t.slots, t.current, e.name).0.Some? && (e.start != 0 ==> !HasBlock(tree, e.start))
    ensures Distinct(t.slots[Spot(t, e.name) := Some(e)])
  {
    forall i | 0 <= i < |t.slots| && i != Spot(t, e.name) ensures Differ(t.slots[i], Some(e)) {
      if t.slots[i].Some? { OtherNames(t, e.name, i); }
      assert EntryBlock(t.slots[i], tree);
    }
    DistinctUpdate(t.slots, Spot(t, e.name), Some(e));
  }

  lemma ListedHaveBlocks(s: Slots, ledger: map<nat, Count>, tree: T.Tree)
    requires Ledgered(s, ledger) && AllBlocks(s, tree)
    ensures forall a :: a in ledger ==> a != 0 && HasBlock(tree, a)
  {
    forall a | a in ledger ensures a != 0 && HasBlock(tree, a) {
      var i: nat :| StartsAt(s, i, a);
      assert EntryBlock(s[i], tree);
    }
  }

  /** A new or overwriting entry keeps names, blocks and counts apart; its block is nobody else's. */
  lemma GetKeepsInv(st: State, poolSize: nat, ev: Event)
    requires Inv(st, poolSize) && ev.EvGet? && Legal(st, ev)
    ensures Inv(Next(st, ev), poolSize)
  {
    if Installs(st.table, ev) {
      var s, e, pos := st.table.slots, NewEntry(st.tree, ev), Spot(st.table, ev.name);
      var u := B.TreeAfter(st.tree, PagedSize(ev.size));
      StartIsNew(st.tree, poolSize, ev.size);
      GetShape(st.table, ev.name, ev.overwrite, e, st.peak);
      InstallDistinct(st.table, st.tree, e);
      ListedHaveBlocks(s, st.ledger, st.tree);
      LedgerInstall(s, pos, e, st.ledger);
      BlocksInstall(s, pos, Some(e), st.tree, u);
    }
  }

  lemma BlocksInstall(s: Slots, i: nat, x: Option<Entry>, t: T.Tree, u: T.Tree)
    requires i < |s| && AllBlocks(s, t) && EntryBlock(x, u)
    requires forall j :: 0 <= j < |s| && j != i && EntryBlock(s[j], t) ==> EntryBlock(s[j], u)
    ensures AllBlocks(s[i := x], u)
  {
    var s' := s[i := x];
    forall j | 0 <= j < |s'| ensures EntryBlock(s'[j], u) { assert EntryBlock(s[j], t); }
  }

  // ----- Counting up and down -----

  /** Changing the count of one live entry, and its ledger line if it has a block, keeps the invariant. */
  lemma UpdateKeeps(st: State, poolSize: nat, i: nat, e: Entry, ledger: map<nat, Count>)
    requires Inv(st, poolSize) && i < |st.table.slots| && st.table.slots[i].Some?
    requires e.start == st.table.slots[i].value.start && e.name == st.table.slots[i].value.name
    requires ledger.Keys == st.ledger.Keys && forall a :: a in ledger && a != e.start ==> ledger[a] == st.ledger[a]
    requires Counted(Some(e), ledger)
    ensures Inv(st.(table := st.table.(slots := st.table.slots[i := Some(e)]), ledger := ledger), poolSize)
  {
    var s := st.table.slots;
    LiveCountUpdate(s, i, Some(e));
    forall j | 0 <= j < |s| && j != i ensures Differ(s[j], Some(e)) {
      assert j < i ==> Differ(s[j], s[i]);
      assert i < j ==> Differ(s[i], s[j]);
    }
    DistinctUpdate(s, i, Some(e));
    LedgerUpdate(s, i, e, st.ledger, ledger);
    SlotUpdateShape(st.table, i, Some(e));
    assert EntryBlock(s[i], st.tree);
    BlocksInstall(s, i, Some(e), st.tree, st.tree);
  }

  lemma LedgerUpdate(s: Slots, i: nat, e: Entry, ledger: map<nat, Count>, ledger': map<nat, Count>)
    requires Ledgered(s, ledger) && Distinct(s) && i < |s| && s[i].Some? && e.start == s[i].value.start
    requires ledger'.Keys == ledger.Keys && forall a :: a in ledger' && a != e.start ==> ledger'[a] == ledger[a]
    requires Counted(Some(e), ledger')
    ensures Ledgered(s[i := Some(e)], ledger')
  {
    var t := s[i := Some(e)];
    forall j | 0 <= j < |t| ensures Counted(t[j], ledger') {
      assert Counted(s[j], ledger);
      assert j < i ==> Differ(s[j], s[i]);
      assert i < j ==> Differ(s[i], s[j]);
    }
    forall a | a in ledger' ensures a != 0 && exists j :: StartsAt(t, j, a) {
      var j :| StartsAt(s, j, a);
      assert StartsAt(t, j, a);
    }
  }

  lemma AtKeepsInv(st: State, poolSize: nat, id: nat)
    requires Inv(st, poolSize) && Legal(st, EvAt(id))
    ensures Inv(Next(st, EvAt(id)), poolSize)
  {
    var t := st.table;
    if !(id == 0 || id - 1 >= t.current || t.slots[id - 1].None?) {
      assert Counted(t.slots[id - 1], st.ledger);
      var e := At(t, id).0.slots[id - 1].value;
      UpdateKeeps(st, poolSize, id - 1, e, Next(st, EvAt(id)).ledger);
    }
  }

  lemma LedgerRemove(s: Slots, i: nat, ledger: map<nat, Count>)
    requires Ledgered(s, ledger) && Distinct(s) && i < |s| && s[i].Some?
    ensures Ledgered(s[i := None], ledger - {s[i].value.start})
  {
    var t, a := s[i := None], s[i].value.start;
    forall j | 0 <= j < |t| ensures Counted(t[j], ledger - {a}) {
      assert Counted(s[j], ledger);
      assert j < i ==> Differ(s[j], s[i]);
      assert i < j ==> Differ(s[i], s[j]);
    }
    forall b | b in ledger - {a} ensures b != 0 && exists j :: StartsAt(t, j, b) {
      var j :| StartsAt(s, j, b);
      assert StartsAt(t, j, b);
    }
  }

  /** Freeing an entry's block finds it and leaves every other block its own. */
  lemma FreeOwn(t: T.Tree, poolSize: nat, start: nat)
    requires Sound(t, poolSize) && HasBlock(t, start)
    ensures start >= MEM_START && T.Free(t, start - MEM_START).1
    ensures Sound(T.Free(t, start - MEM_START).0, poolSize)
    ensures forall a :: HasBlock(t, a) && a != start ==> HasBlock(T.Free(t, start - MEM_START).0, a)
  {
    var b :| BlockAt(b, t, start);
    var u := T.Free(t, b.0).0;
    T.FreeEffect(t, 0, poolSize, b.0);
    forall a | HasBlock(t, a) && a != start ensures HasBlock(u, a) {
      var c :| BlockAt(c, t, a);
      assert BlockAt(c, u, a);
    }
  }

  lemma BlocksRemove(s: Slots, i: nat, t: T.Tree, u: T.Tree)
    requires i < |s| && s[i].Some? && s[i].value.start != 0 && Distinct(s) && AllBlocks(s, t)
    requires forall a :: HasBlock(t, a) && a != s[i].value.start ==> HasBlock(u, a)
    ensures AllBlocks(s[i := None], u)
  {
    forall j | 0 <= j < |s| && j != i && EntryBlock(s[j], t) ensures EntryBlock(s[j], u) {
      assert j < i ==> Differ(s[j], s[i]);
      assert i < j ==> Differ(s[i], s[j]);
    }
    BlocksInstall(s, i, None, t, u);
  }

  /** The block goes back to the buddy on the last detach and on no other. */
  lemma DetachKeepsInv(st: State, poolSize: nat, a: nat)
    requires Inv(st, poolSize) && Legal(st, EvDetach(a))
    ensures Inv(Next(st, EvDetach(a)), poolSize)
    ensures var c := st.ledger[a];
            var gone := Detach(st.table.slots, 0, st.table.current, a).1;
            && (gone.Some? <==> c.attaches - c.detaches == 1)
            && (gone.Some? ==> StartsAt(st.table.slots, gone.value, a))
            && a >= MEM_START
            && (Next(st, EvDetach(a)).tree, gone.Some?) ==
               if gone.Some? then T.Free(st.tree, a - MEM_START) else (st.tree, false)
  {
    var s := st.table.slots;
    var i: nat :| StartsAt(s, i, a);
    assert Counted(s[i], st.ledger) && EntryBlock(s[i], st.tree);
    FreeOwn(st.tree, poolSize, a);
    DetachOne(s, 0, st.table.current, a, i);
    if s[i].value.simAccess == 1 {
      LiveCountUpdate(s, i, None);
      DistinctUpdate(s, i, None);
      LedgerRemove(s, i, st.ledger);
      SlotUpdateShape(st.table, i, None);
      BlocksRemove(s, i, st.tree, T.Free(st.tree, a - MEM_START).0);
    } else {
      UpdateKeeps(st, poolSize, i, s[i].value.(simAccess := s[i].value.simAccess - 1), Next(st, EvDetach(a)).ledger);
    }
  }

  // ----- Everybody else's blocks -----

  lemma GrantKeepsInv(st: State, poolSize: nat, size: uint64)
    requires Inv(st, poolSize)
    ensures Inv(Next(st, EvGrant(size)), poolSize)
  {
    var s, u := st.table.slots, B.TreeAfter(st.tree, PagedSize(size));
    StartIsNew(st.tree, poolSize, size);
    forall i | 0 <= i < |s| ensures EntryBlock(s[i], u) { assert EntryBlock(s[i], st.tree); }
  }

  lemma FreedKeeps(t: T.Tree, poolSize: nat, address: nat)
    requires Sound(t, poolSize)
    ensures Sound(Freed(t, address), poolSize)
    ensures forall a {:trigger HasBlock(t, a)} {:trigger HasBlock(Freed(t, address), a)} ::
      a >= MEM_START ==> (HasBlock(Freed(t, address), a) <==> HasBlock(t, a) && a != address)
  {
    if address >= MEM_START { T.FreeEffect(t, 0, poolSize, address - MEM_START); }
    forall a | a >= MEM_START ensures HasBlock(Freed(t, address), a) <==> HasBlock(t, a) && a != address {
      if HasBlock(t, a) && a != address {
        var b :| BlockAt(b, t, a);
        assert BlockAt(b, Freed(t, address), a);
      }
      if HasBlock(Freed(t, address), a) {
        var b :| BlockAt(b, Freed(t, address), a);
        assert BlockAt(b, t, a);
      }
    }
  }

  /** Anyone may free any address, and the table survives it exactly when no entry has that block. */
  lemma ReleaseKeepsIff(st: State, poolSize: nat, address: nat)
    requires Inv(st, poolSize)
    ensures Inv(Next(st, EvRelease(address)), poolSize) <==> address !in st.ledger
  {
    var s, u := st.table.slots, Freed(st.tree, address);
    FreedKeeps(st.tree, poolSize, address);
    if address in st.ledger {
      var i: nat :| StartsAt(s, i, address);
      assert EntryBlock(s[i], st.tree) && address >= MEM_START;
      assert !EntryBlock(s[i], u);
    } else {
      forall i | 0 <= i < |s| ensures EntryBlock(s[i], u) {
        assert EntryBlock(s[i], st.tree) && Counted(s[i], st.ledger);
      }
    }
  }

  // ----- Whole runs -----

  ghost predicate LegalRun(st: State, evs: seq<Event>)
    decreases |evs|
  {
    evs == [] || (st.table.current <= |st.table.slots| && Legal(st, evs[0]) && LegalRun(Next(st, evs[0]), evs[1..]))
  }

  ghost function Run(st: State, evs: seq<Event>): State
    requires LegalRun(st, evs)
    decreases |evs|
  {
    if evs == [] then st else Run(Next(st, evs[0]), evs[1..])
  }

  /** The empty table over any tree of the pool. */
  function Start(tree: T.Tree): State { State(EMPTY, tree, map[], 0) }

  lemma StartInv(tree: T.Tree, poolSize: nat)
    requires Sound(tree, poolSize)
    ensures Inv(Start(tree), poolSize)
  {
    EmptyShaped();
    LiveCountFull(EMPTY.slots, 0);
  }

  lemma NextKeepsInv(st: State, poolSize: nat, ev: Event)
    requires Inv(st, poolSize) && Legal(st, ev)
    ensures Inv(Next(st, ev), poolSize) && Next(st, ev).peak >= st.peak
  {
    match ev
    case EvGet(_, _, _, _) => GetKeepsInv(st, poolSize, ev);
    case EvAt(id) => AtKeepsInv(st, poolSize, id);
    case EvDetach(a) => DetachKeepsInv(st, poolSize, a);
    case EvGrant(size) => GrantKeepsInv(st, poolSize, size);
    case EvRelease(a) => ReleaseKeepsIff(st, poolSize, a);
  }

  lemma {:induction false} RunKeepsInv(st: State, poolSize: nat, evs: seq<Event>)
    requires Inv(st, poolSize) && LegalRun(st, evs)
    ensures Inv(Run(st, evs), poolSize) && Run(st, evs).peak >= st.peak
    decreases |evs|
  {
    if evs != [] {
      NextKeepsInv(st, poolSize, evs[0]);
      RunKeepsInv(Next(st, evs[0]), poolSize, evs[1..]);
    }
  }

  // ----- Ids over whole runs -----

  /** A live entry keeps its slot in every step after which there still is one of its name. */
  lemma NameKeepsSlot(st: State, poolSize: nat, ev: Event, name: string, k: nat)
    requires Inv(st, poolSize) && Legal(st, ev) && Named(st.table.slots, k, name)
    requires HasName(Next(st, ev).table, name)
    ensures Named(Next(st, ev).table.slots, k, name)
  {
    var s := st.table.slots;
    match ev
    case EvGet(n, _, overwrite, _) =>
      if Installs(st.table, ev) {
        var e := NewEntry(st.tree, ev);
        GetShape(st.table, n, overwrite, e, st.peak);
        if n != name { assert Spot(st.table, n) != k; }
      }
    case EvAt(_) =>
    case EvDetach(a) =>
      var i: nat :| StartsAt(s, i, a);
      assert Counted(s[i], st.ledger);
      DetachKeepsInv(st, poolSize, a);
      DetachOne(s, 0, st.table.current, a, i);
      var j: nat :| Named(Next(st, ev).table.slots, j, name);
      assert j < k ==> Differ(s[j], s[k]);
      assert k < j ==> Differ(s[k], s[j]);
    case EvGrant(_) =>
    case EvRelease(_) =>
  }

  /** The name has a live entry now and after every step of the run. */
  ghost predicate StaysNamed(st: State, evs: seq<Event>, name: string)
    requires LegalRun(st, evs)
    decreases |evs|
  {
    HasName(st.table, name) && (evs == [] || StaysNamed(Next(st, evs[0]), evs[1..], name))
  }

  lemma {:induction false} IdStays(st: State, poolSize: nat, evs: seq<Event>, name: string, id: nat)
    requires Inv(st, poolSize) && LegalRun(st, evs) && StaysNamed(st, evs, name) && HasId(st.table, name, id)
    ensures HasId(Run(st, evs).table, name, id)
    decreases |evs|
  {
    if evs != [] {
      var k: nat :| Named(st.table.slots, k, name) && k + 1 == id;
      NextKeepsInv(st, poolSize, evs[0]);
      NameKeepsSlot(st, poolSize, evs[0], name, k);
      IdStays(Next(st, evs[0]), poolSize, evs[1..], name, id);
    }
  }

  /** The id that a call answers when its entry, if it builds one, has that name. */
  ghost predicate Answers(st: State, ev: Event, id: int)
    requires st.table.current <= |st.table.slots| && ev.EvGet?
  {
    && (Builds(st.table, ev.name, ev.overwrite) ==> ev.addrs.Some?)
    && forall e: Entry {:trigger Get(st.table, ev.name, ev.overwrite, e)} ::
         e.name == ev.name ==> Get(st.table, ev.name, ev.overwrite, e).1 == id
  }

  /**
  Whatever happens after shmget has answered an id for a name, as long as the name keeps an entry
  shmat of the id counts up that entry, answers its block and changes no other.
  */
  lemma AttachById(st: State, poolSize: nat, ev: Event, id: nat, evs: seq<Event>)
    requires Inv(st, poolSize) && ev.EvGet? && Legal(st, ev) && Answers(st, ev, id)
    requires LegalRun(Next(st, ev), evs) && StaysNamed(Next(st, ev), evs, ev.name)
    ensures Inv(Run(Next(st, ev), evs), poolSize)
    ensures var t := Run(Next(st, ev), evs).table;
            exists k: nat :: Named(t.slots, k, ev.name) && At(t, id) == (Raised(t, k), t.slots[k].value.start)
  {
    var e := if ev.addrs.Some? then NewEntry(st.tree, ev) else Entry(0, ev.name, 0, 0, 0);
    assert Get(st.table, ev.name, ev.overwrite, e).1 == id;
    GetId(st.table, ev.name, ev.overwrite, e);
    NextKeepsInv(st, poolSize, ev);
    IdStays(Next(st, ev), poolSize, evs, ev.name, id);
    RunKeepsInv(Next(st, ev), poolSize, evs);
    AtById(Run(Next(st, ev), evs).table, ev.name, id);
  }

  /** shmget turns every name away exactly when nine entries were live at once at some time of the run. */
  lemma GetRefusedIff(tree: T.Tree, poolSize: nat, evs: seq<Event>, name: string, overwrite: bool, e: Entry)
    requires Sound(tree, poolSize) && LegalRun(Start(tree), evs)
    ensures var st := Run(Start(tree), evs);
            Inv(st, poolSize) && (Get(st.table, name, overwrite, e).1 == -1 <==> st.peak == MAX_SHBLOCKS - 1)
  {
    StartInv(tree, poolSize);
    RunKeepsInv(Start(tree), poolSize, evs);
    SearchFindsRoom(Run(Start(tree), evs).table, name);
  }

  /** Once it refuses, it refuses for good: detaching every block does not bring the table back. */
  lemma RefusedForGood(st: State, poolSize: nat, evs: seq<Event>, name: string, overwrite: bool, e: Entry)
    requires Inv(st, poolSize) && st.peak == MAX_SHBLOCKS - 1 && LegalRun(st, evs)
    ensures Inv(Run(st, evs), poolSize) && Get(Run(st, evs).table, name, overwrite, e).1 == -1
  {
    RunKeepsInv(st, poolSize, evs);
  }
}
