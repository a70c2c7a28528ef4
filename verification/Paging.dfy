/**
  The address space that vmalloc, vfree and videntity maintain: page tables in
  physical memory, the batch of frames they are fed from, and the page
  allocator behind it.
*/
module Paging {
  import opened Machine
  import opened PageTree
  import opened PagePool
  import opened PageFormat

  const NUM_ALLOC: nat := 64

  // ---------- The accounts ----------

  /** The frames of the current batch that are still to be handed out; the last slot never is. */
  ghost function Rest(bulk: seq<nat>, curr: nat): (r: set<nat>)
    requires |bulk| == NUM_ALLOC
  {
    set i {:trigger bulk[i]} | curr <= i < NUM_ALLOC - 1 :: bulk[i]
  }

  ghost predicate RestDistinct(bulk: seq<nat>, curr: nat)
    requires |bulk| == NUM_ALLOC
  {
    forall i, j {:trigger bulk[i], bulk[j]} :: curr <= i < j < NUM_ALLOC - 1 ==> bulk[i] != bulk[j]
  }

  /** No frame is in two of these hands: the allocator's, the batch's, the tables', the mapped pages'. */
  ghost predicate Accounts(free: set<nat>, rest: set<nat>, root: nat, kind: Levels, owned: set<nat>, pages: nat) {
    && free !! rest && free !! kind.Keys && free !! owned
    && rest !! kind.Keys && rest !! owned && owned !! kind.Keys
    && (forall f {:trigger Usable(f, pages)} :: f in free + rest + owned + (kind.Keys - {root}) ==> Usable(f, pages))
  }

  ghost predicate Usable(f: nat, pages: nat) {
    0 < f < pages
  }

  /** A frame that reads as zero, its first word aside. */
  ghost predicate ReadsZero(ram: Ram, f: nat) {
    && f in ram && |ram[f]| == ENTRIES
    && forall i: nat {:trigger EntryAt(ram, f, i)} :: i > 0 ==> EntryAt(ram, f, i) == ZERO
  }

  ghost predicate AllReadZero(ram: Ram, s: set<nat>) {
    forall f {:trigger ReadsZero(ram, f)} :: f in s ==> ReadsZero(ram, f)
  }

  ghost predicate PageOk(v: Page) {
    v.p4 < ENTRIES && v.p3 < ENTRIES && v.p2 < ENTRIES && v.p1 < ENTRIES
  }

  /** The state as far as unmapping changes it: memory, and the frames of the tables, the allocator and the pages. */
  datatype Books = Books(ram: Ram, tables: set<nat>, free: set<nat>, owned: set<nat>)

  // ---------- The address space ----------

  class AddressSpace {
    const pool: PagePool
    const memSize: nat
    const root: nat
    const bulk: array<nat>
    var curr: nat
    var ram: Ram
    ghost var kind: Levels
    ghost var home: Homes
    /** The frames that vmalloc has mapped and vfree has not yet released. */
    ghost var owned: set<nat>

    /** The address space that the boot loader leaves: its tables are taken as found, the batch is used up. */
    constructor (pool: PagePool, memSize: nat, ram: Ram, root: nat, ghost kind: Levels, ghost home: Homes)
      requires pool.Valid() && pool.Pages() * PAGE_SIZE <= memSize && Tree(ram, root, kind, home)
      requires Accounts(pool.free, {}, root, kind, {}, pool.Pages())
      ensures Valid() && fresh(bulk) && this.pool == pool && this.memSize == memSize && this.root == root
      ensures this.ram == ram && this.kind == kind && this.home == home && owned == {} && Remaining() == {}
    {
      this.pool, this.memSize, this.root := pool, memSize, root;
      this.ram, this.kind, this.home, owned := ram, kind, home, {};
      bulk := new nat[NUM_ALLOC];
      curr := NUM_ALLOC - 1;
    }

    ghost predicate Batch()
      reads this, bulk
    {
      bulk.Length == NUM_ALLOC && curr <= NUM_ALLOC - 1 && RestDistinct(bulk[..], curr)
    }

    ghost function Remaining(): set<nat>
      requires Batch()
      reads this, bulk
    {
      Rest(bulk[..], curr)
    }

    ghost predicate Valid()
      reads this, bulk, pool, pool.pmm, pool.pmm.store
    {
      && Batch() && pool.Valid() && pool.Pages() * PAGE_SIZE <= memSize && bulk as object != pool.pmm.store
      && Tree(ram, root, kind, home)
      && Accounts(pool.free, Remaining(), root, kind, owned, pool.Pages())
    }

    ghost function Upper(): Tables
      reads this
    {
      Tables(ram, kind, home)
    }

    /** The frames that pmallocBulk can still hand out: the batch's, and 63 of each free block of 64. */
    ghost function Supply(): nat
      requires Batch() && pool.Valid()
      reads this, bulk, pool, pool.pmm, pool.pmm.store
    {
      (NUM_ALLOC - 1 - curr) + (NUM_ALLOC - 1) * pool.TopBlocks()
    }

    /** Frames that are not in use read as zero. */
    ghost predicate Clean()
      requires Batch()
      reads this, bulk, pool
    {
      AllReadZero(ram, pool.free + Remaining())
    }

    /** pmallocBulk: the next frame of the batch, after fetching a new batch if need be. */
    method PmallocBulk() returns (ok: bool, f: nat)
      requires Valid()
      modifies this`curr, bulk, pool, pool.pmm, pool.pmm.store
      ensures Valid() && (ok <==> old(Supply()) > 0) && Supply() == old(Supply()) - if ok then 1 else 0
      ensures !ok ==> pool.free == old(pool.free) && Remaining() == old(Remaining())
      ensures ok ==> f in old(pool.free + Remaining()) && f !in pool.free + Remaining()
      ensures ok ==> pool.free + Remaining() <= old(pool.free + Remaining())
    {
      ok, f := true, 0;
      if curr + 1 == NUM_ALLOC {
        ok := NewBatch();
        if !ok { return; }
      }
      f := NextFrame();
    }

    method NextFrame() returns (f: nat)
      requires Valid() && curr + 1 < NUM_ALLOC
      modifies this`curr
      ensures Valid() && f in old(Remaining()) && f !in Remaining() && Remaining() <= old(Remaining())
      ensures Supply() == old(Supply()) - 1
    {
      RestNext(bulk[..], curr);
      AccountsMove(pool.free, Remaining(), pool.free, Rest(bulk[..], curr + 1), root, kind, owned, pool.Pages());
      f := bulk[curr];
      curr := curr + 1;
    }

    /** A new batch is fetched from the page allocator; what is left of the old one is its last slot. */
    method NewBatch() returns (ok: bool)
      requires Valid() && curr + 1 == NUM_ALLOC
      modifies this`curr, bulk, pool, pool.pmm, pool.pmm.store
      ensures Valid() && (ok ==> curr == 0)
      ensures Supply() == old(Supply()) && (ok <==> old(Supply()) > 0)
      ensures !ok ==> pool.free == old(pool.free) && curr == old(curr) && Remaining() == old(Remaining())
      ensures ok ==> pool.free + Remaining() <= old(pool.free)
    {
      var addr;
      addr, ok := pool.Take(NUM_ALLOC);
      if ok {
        ghost var taken := Range(addr / PAGE_SIZE, NUM_ALLOC - 1);
        AccountsMove(old(pool.free), old(Remaining()), pool.free, taken, root, kind, owned, pool.Pages());
        FillBatch(addr / PAGE_SIZE);
      }
    }

    /** The batch becomes 64 consecutive frames. */
    method FillBatch(first: nat)
      requires bulk.Length == NUM_ALLOC
      modifies this`curr, bulk
      ensures Batch() && curr == 0 && Remaining() == Range(first, NUM_ALLOC - 1)
      ensures forall j {:trigger bulk[j]} :: 0 <= j < NUM_ALLOC ==> bulk[j] == first + j
    {
      for i := 0 to NUM_ALLOC
        invariant forall j {:trigger bulk[j]} :: 0 <= j < i ==> bulk[j] == first + j
      {
        bulk[i] := first + i;
      }
      curr := 0;
      RangeBatch(bulk[..], first);
    }

    /**
      pmallocBulk where pmalloc returns NULL: it does not look, takes NULL for a batch, and hands
      out frame 0 and then the 62 frames after it, whoever has them.
    */
    method PmallocBulkNull() returns (f: nat)
      requires Valid() && Supply() == 0
      modifies this`curr, bulk, pool, pool.pmm, pool.pmm.store
      ensures pool.Valid() && pool.free == old(pool.free)
      ensures f == 0 && Batch() && Remaining() == Range(1, NUM_ALLOC - 2)
      ensures (exists x :: x in Range(1, NUM_ALLOC - 2) && (x in kind || x in owned || x in pool.free)) ==> !Valid()
    {
      var addr, taken := pool.Take(NUM_ALLOC);
      FillBatch(addr / PAGE_SIZE);
      RestNext(bulk[..], curr);
      f := bulk[curr];
      curr := curr + 1;
      assert Range(0, NUM_ALLOC - 1) - {0} == Range(1, NUM_ALLOC - 2);
    }

    /** vmallocHelper there, with its tables in place: the page is bound to frame 0. */
    method BindNull(t: nat, v: Page, flags: bv64)
      requires Valid() && Supply() == 0 && PageOk(v) && Reach(ram, root, 4, 1, v) == Some(t) && MapFlags(flags)
      modifies this`curr, this`ram, bulk, pool, pool.pmm, pool.pmm.store
      ensures OneTranslation(old(ram), ram, root, v, Entry(0, flags)) && Batch() &&
                Remaining() == Range(1, NUM_ALLOC - 2)
    {
      ReachTable(ram, root, kind, home, root, 4, 1, v);
      assert TableOk(ram, kind, t);
      SetLeafKeeps(ram, root, kind, home, t, v, Entry(0, flags));
      var f := PmallocBulkNull();
      ram := WithEntry(ram, t, v.p1, Entry(f, flags));
    }

    /** pagingAllocTable: a new frame whose first word is cleared, 512 times over. */
    method AllocTable() returns (ok: bool, f: nat)
      requires Valid() && Clean()
      modifies this`curr, this`ram, bulk, pool, pool.pmm, pool.pmm.store
      ensures Valid() && Clean() && SameTables(old(ram), ram, kind) && SameTranslations(old(ram), ram, root)
      ensures (ok <==> old(Supply()) > 0) && Supply() == old(Supply()) - if ok then 1 else 0
      ensures pool.free + Remaining() <= old(pool.free + Remaining())
      ensures ok ==> FreshTable(f) && f in old(pool.free + Remaining()) && TablesWritten(old(ram), ram, {f})
      ensures !ok ==> ram == old(ram)
    {
      ok, f := PmallocBulk();
      if ok {
        assert ReadsZero(ram, f);
        AllReadZeroSome(ram, old(pool.free + Remaining()), pool.free + Remaining());
        ClearedFrame(ram, f);
        var cleared := ram[f := ram[f][0 := ZERO]];
        ReadZeroWith(ram, pool.free + Remaining(), f, ram[f][0 := ZERO]);
        OffTreeKeeps(ram, cleared, root, kind, home);
        ClearFrame(f);
      }
    }

    ghost predicate FreshTable(f: nat)
      requires Batch()
      reads this, bulk, pool
    {
      && f !in pool.free && f !in Remaining() && f !in kind && f !in owned && Usable(f, pool.Pages())
      && f in ram && |ram[f]| == ENTRIES && Empty(ram, f)
    }

    /** The clearing loop as it stands: it writes word 0 in every round. */
    method ClearFrame(f: nat)
      requires f in ram && |ram[f]| == ENTRIES
      modifies this`ram
      ensures ram == old(ram)[f := old(ram)[f][0 := ZERO]]
    {
      ghost var row := ram[f];
      for i := 0 to ENTRIES
        invariant f in ram && |ram[f]| == ENTRIES
        invariant ram == old(ram)[f := if i == 0 then row else row[0 := ZERO]]
      {
        assert ram[f][0 := ZERO] == row[0 := ZERO];
        ram := ram[f := ram[f][0 := ZERO]];
      }
    }

    /** The frames that are not in use only become fewer. */
    ghost predicate Spends(was: set<nat>)
      requires Batch()
      reads this, bulk, pool
    {
      pool.free + Remaining() <= was
    }

    /** The table of the next level below `t` for the page `v`, after linking a new one if there is none. */
    method Descend(t: nat, level: nat, v: Page, flags: bv64) returns (ok: bool, child: nat)
      requires Valid() && Clean() && PageOk(v) && MapFlags(flags)
      requires 2 <= level <= 4 && Reach(ram, root, 4, level, v) == Some(t)
      modifies this`curr, this`ram, this`kind, this`home, bulk, pool, pool.pmm, pool.pmm.store
      ensures Valid() && Clean() && Spends(old(pool.free + Remaining()))
      ensures SameTranslations(old(ram), ram, root)
      ensures old(kind.Keys) <= kind.Keys <= old(kind.Keys + pool.free + Remaining())
      ensures TablesWritten(old(ram), ram, kind.Keys)
      ensures ok ==> Reach(ram, root, 4, level - 1, v) == Some(child)
      ensures ok <==> old(Supply()) > 0 || old(HasTable(ram, root, level - 1, v))
      ensures Supply() == old(Supply()) - if ok && !old(HasTable(ram, root, level - 1, v)) then 1 else 0
      ensures if ok then TableAdded(old(ram), ram, root, v, level - 1) else SameHas(old(ram), ram, root)
      ensures ok && old(TightBut(ram, root, kind, t)) ==> TightBut(ram, root, kind, child)
      ensures Extends(old(Upper()), Upper(), flags)
    {
      ok := true;
      ReachStep(ram, root, 4, level, v);
      if EntryAt(ram, t, Index(v, level)) == ZERO {
        ok := AddTable(t, level, v, flags);
        if !ok { return false, 0; }
      } else {
        DescendStep(ram, root, kind, home, t, level, v);
        SameExtends(Upper(), Upper(), flags);
        AlreadyThere(ram, root, v, level - 1);
      }
      ReachStep(ram, root, 4, level, v);
      ReachTable(ram, root, kind, home, root, 4, level, v);
      child := EntryAt(ram, t, Index(v, level)).ppn;
    }

    /** pagingAllocTable and pagingAddEntry for a missing table. */
    method AddTable(t: nat, level: nat, v: Page, flags: bv64) returns (ok: bool)
      requires Valid() && Clean() && PageOk(v) && MapFlags(flags)
      requires 2 <= level <= 4 && Reach(ram, root, 4, level, v) == Some(t)
      requires EntryAt(ram, t, Index(v, level)) == ZERO
      modifies this`curr, this`ram, this`kind, this`home, bulk, pool, pool.pmm, pool.pmm.store
      ensures Valid() && Clean() && Spends(old(pool.free + Remaining()))
      ensures SameTranslations(old(ram), ram, root)
      ensures old(kind.Keys) <= kind.Keys <= old(kind.Keys + pool.free + Remaining())
      ensures TablesWritten(old(ram), ram, kind.Keys)
      ensures ok ==> Reach(ram, root, 4, level, v) == Some(t)
      ensures ok ==> EntryAt(ram, t, Index(v, level)) != ZERO
      ensures (ok <==> old(Supply()) > 0) && Supply() == old(Supply()) - if ok then 1 else 0
      ensures if ok then TableAdded(old(ram), ram, root, v, level - 1) else SameHas(old(ram), ram, root)
      ensures ok && old(TightBut(ram, root, kind, t)) ==>
                TightBut(ram, root, kind, EntryAt(ram, t, Index(v, level)).ppn)
      ensures Extends(old(Upper()), Upper(), flags)
    {
      var f;
      ReachTable(ram, root, kind, home, root, 4, level, v);
      ok, f := AllocTable();
      OffTreeHas(old(ram), ram, root, kind, home);
      OffTreeExtends(old(Upper()), Upper(), root, flags);
      if ok {
        ghost var upper := Upper();
        OffTreeReach(old(ram), ram, root, kind, home, root, 4, level, v);
        SameTight(old(ram), ram, root, kind, home, t);
        LinkFresh(t, level, v, f, Entry(f, flags));
        ExtendsMore(old(Upper()), upper, Upper(), root, flags);
      }
    }

    /** pagingAddEntry of a fresh table. */
    method LinkFresh(t: nat, level: nat, v: Page, f: nat, e: Entry)
      requires Valid() && Clean() && PageOk(v) && Present(e) && e.ppn == f && FreshTable(f)
      requires 2 <= level <= 4 && Reach(ram, root, 4, level, v) == Some(t) && EntryAt(ram, t, Index(v, level)) == ZERO
      modifies this`ram, this`kind, this`home
      ensures Valid() && Clean() && kind.Keys == old(kind.Keys) + {f} && Supply() == old(Supply())
      ensures TablesWritten(old(ram), ram, old(kind.Keys))
      ensures TableAdded(old(ram), ram, root, v, level - 1)
      ensures SameTranslations(old(ram), ram, root)
      ensures Reach(ram, root, 4, level, v) == Some(t) && EntryAt(ram, t, Index(v, level)) == e
      ensures old(TightBut(ram, root, kind, t)) ==> TightBut(ram, root, kind, f)
      ensures Extends(old(Upper()), Upper(), e.flags)
    {
      ReachTable(ram, root, kind, home, root, 4, level, v);
      assert TableOk(ram, kind, t);
      LinkStep(ram, root, kind, home, t, level, v, f, e);
      LinkAdds(ram, root, kind, home, t, level, v, f, e);
      LinkReach(ram, t, Index(v, level), e, root, 4, level, v);
      AccountsTable(pool.free, Remaining(), root, kind, owned, pool.Pages(), f, level - 1);
      ReadZeroWith(ram, pool.free + Remaining(), t, ram[t][Index(v, level) := e]);
      kind, home := kind[f := level - 1], home[f := Slot(t, Index(v, level))];
      ram := WithEntry(ram, t, Index(v, level), e);
      LinkExtends(old(Upper()), Upper(), t, Index(v, level), f, level - 1, e.flags);
    }

    /** pagingAddEntry in the last level: the page `v` comes to have the entry `e`. */
    method SetLeaf(t: nat, i: nat, e: Entry, ghost v: Page)
      requires Valid() && PageOk(v) && v.p1 == i && Reach(ram, root, 4, 1, v) == Some(t)
      modifies this`ram
      ensures Valid() && (old(Clean()) ==> Clean()) && OneTranslation(old(ram), ram, root, v, e)
      ensures Supply() == old(Supply()) && SameHas(old(ram), ram, root) && t in kind && kind[t] == 1
      ensures Reach(ram, root, 4, 1, v) == Some(t)
      ensures t in old(ram) && v.p1 < |old(ram)[t]| && ram == WithEntry(old(ram), t, v.p1, e)
      ensures old(TightBut(ram, root, kind, t)) && e != ZERO ==> Tight(ram, root, kind)
      ensures old(Tight(ram, root, kind)) ==> TightBut(ram, root, kind, t)
    {
      ReachTable(ram, root, kind, home, root, 4, 1, v);
      assert TableOk(ram, kind, t);
      SetLeafKeeps(ram, root, kind, home, t, v, e);
      EntryReach(ram, root, kind, home, t, v.p1, e, root, 4, 1, v);
      SetLeafHas(ram, root, kind, home, t, v.p1, e);
      if TightBut(ram, root, kind, t) { TightWith(ram, root, kind, t, v.p1, e); }
      if Clean() { ReadZeroWith(ram, pool.free + Remaining(), t, ram[t][v.p1 := e]); }
      ram := WithEntry(ram, t, i, e);
    }

    /** The table of level 2 on the way of `v`, after linking what is missing above it. */
    method UpperTables(v: Page, flags: bv64) returns (ok: bool, t: nat)
      requires Valid() && Clean() && PageOk(v) && MapFlags(flags)
      modifies this`curr, this`ram, this`kind, this`home, bulk, pool, pool.pmm, pool.pmm.store
      ensures Valid() && Clean() && Spends(old(pool.free + Remaining()))
      ensures SameTranslations(old(ram), ram, root)
      ensures old(kind.Keys) <= kind.Keys <= old(kind.Keys + pool.free + Remaining())
      ensures TablesWritten(old(ram), ram, kind.Keys)
      ensures ok ==> Reach(ram, root, 4, 2, v) == Some(t) && UpperAdded(old(ram), ram, root, v)
      ensures ok <==> old(Supply()) >= old(MissingUpper(ram, root, v))
      ensures Supply() == if ok then old(Supply()) - old(MissingUpper(ram, root, v)) else 0
      ensures ok && old(Tight(ram, root, kind)) ==> TightBut(ram, root, kind, t)
      ensures Extends(old(Upper()), Upper(), flags)
    {
      ok, t := Descend(root, 4, v, flags);
      if !ok { return; }
      ghost var ram1, tables, upper := ram, kind.Keys, Upper();
      ok, t := Descend(t, 3, v, flags);
      WrittenMore(old(ram), ram1, ram, tables, kind.Keys);
      ExtendsMore(old(Upper()), upper, Upper(), root, flags);
    }

    /** The last-level table for the page `v`, after linking the tables missing on the way. */
    method LastTable(v: Page, flags: bv64) returns (ok: bool, t: nat)
      requires Valid() && Clean() && PageOk(v) && MapFlags(flags)
      modifies this`curr, this`ram, this`kind, this`home, bulk, pool, pool.pmm, pool.pmm.store
      ensures Valid() && Clean() && Spends(old(pool.free + Remaining()))
      ensures SameTranslations(old(ram), ram, root)
      ensures old(kind.Keys) <= kind.Keys <= old(kind.Keys + pool.free + Remaining())
      ensures TablesWritten(old(ram), ram, kind.Keys)
      ensures ok ==> Reach(ram, root, 4, 1, v) == Some(t) && WayAdded(old(ram), ram, root, v)
      ensures ok <==> old(Supply()) >= old(Missing(ram, root, v))
      ensures Supply() == if ok then old(Supply()) - old(Missing(ram, root, v)) else 0
      ensures ok && old(Tight(ram, root, kind)) ==> TightBut(ram, root, kind, t)
      ensures Extends(old(Upper()), Upper(), flags)
    {
      ok, t := UpperTables(v, flags);
      if !ok { return; }
      ghost var ram1, tables, upper := ram, kind.Keys, Upper();
      ok, t := Descend(t, 2, v, flags);
      WrittenMore(old(ram), ram1, ram, tables, kind.Keys);
      ExtendsMore(old(Upper()), upper, Upper(), root, flags);
    }

    /** A fresh frame becomes the page's. */
    method BindFresh(t: nat, v: Page, flags: bv64) returns (ok: bool, f: nat)
      requires Valid() && Clean() && PageOk(v) && MapFlags(flags) && Reach(ram, root, 4, 1, v) == Some(t)
      modifies this`curr, this`ram, this`owned, bulk, pool, pool.pmm, pool.pmm.store
      ensures Valid() && Clean() && Spends(old(pool.free + Remaining()))
      ensures ok ==> OneTranslation(old(ram), ram, root, v, Entry(f, flags))
      ensures ok ==> f in old(pool.free + Remaining()) && owned == old(owned) + {f}
      ensures !ok ==> ram == old(ram) && owned == old(owned)
      ensures (ok <==> old(Supply()) > 0) && Supply() == old(Supply()) - if ok then 1 else 0
      ensures SameHas(old(ram), ram, root) && TablesWritten(old(ram), ram, kind.Keys)
      ensures ok && old(TightBut(ram, root, kind, t)) ==> Tight(ram, root, kind)
      ensures Extends(old(Upper()), Upper(), flags)
    {
      ok, f := PmallocBulk();
      AllReadZeroSome(ram, old(pool.free + Remaining()), pool.free + Remaining());
      if ok {
        assert Usable(f, pool.Pages());
        AccountsOwn(pool.free, Remaining(), root, kind, owned, pool.Pages(), f);
        owned := owned + {f};
        SetLeaf(t, v.p1, Entry(f, flags), v);
        LeafExtends(old(Upper()), Upper(), t, v.p1, Entry(f, flags), flags);
      } else {
        SameExtends(Upper(), Upper(), flags);
      }
    }

    /** vmallocHelper: the page `v` is bound to a fresh frame `f`. */
    method VmallocHelper(v: Page, flags: bv64) returns (ok: bool, f: nat)
      requires Valid() && Clean() && PageOk(v) && MapFlags(flags)
      modifies this`curr, this`ram, this`kind, this`home, this`owned, bulk, pool, pool.pmm, pool.pmm.store
      ensures Valid() && Clean() && Spends(old(pool.free + Remaining()))
      ensures ok ==> OneTranslation(old(ram), ram, root, v, Entry(f, flags))
      ensures ok ==> f in old(pool.free + Remaining()) && owned == old(owned) + {f}
      ensures !ok ==> SameTranslations(old(ram), ram, root) && owned == old(owned)
      ensures ok <==> old(Supply()) > old(Missing(ram, root, v))
      ensures Supply() == if ok then old(Supply()) - old(Missing(ram, root, v)) - 1 else 0
      ensures ok ==> WayAdded(old(ram), ram, root, v)
      ensures old(kind.Keys) <= kind.Keys <= old(kind.Keys + pool.free + Remaining())
      ensures TablesWritten(old(ram), ram, kind.Keys)
      ensures ok && old(Tight(ram, root, kind)) ==> Tight(ram, root, kind)
      ensures Extends(old(Upper()), Upper(), flags)
    {
      f := 0;
      var t;
      ok, t := LastTable(v, flags);
      if ok {
        ghost var upper := Upper();
        ok, f := BindFresh(t, v, flags);
        ExtendsMore(old(Upper()), upper, Upper(), root, flags);
      }
    }

    /** Stores through a mapping: the words of a frame that is mapped and no table. */
    method WriteFrame(f: nat, row: seq<Entry>)
      requires Valid() && f in owned && f in ram && |row| == ENTRIES
      modifies this`ram
      ensures Valid() && (old(Clean()) ==> Clean()) && ram == old(ram)[f := row]
      ensures SameTranslations(old(ram), ram, root) && SameHas(old(ram), ram, root) && Supply() == old(Supply())
    {
      if Clean() { ReadZeroWith(ram, pool.free + Remaining(), f, row); }
      assert SameTables(ram, ram[f := row], kind);
      OffTreeKeeps(ram, ram[f := row], root, kind, home);
      OffTreeHas(ram, ram[f := row], root, kind, home);
      ram := ram[f := row];
    }

    // ---------- Unmapping ----------

    /** An entry that pagingRemoveEntry clears: present, and within the memory of the machine. */
    ghost predicate Releasable(e: Entry) {
      Present(e) && e.ppn * PAGE_SIZE < memSize
    }

    /** A frame that may be given back: the allocator's, the batch's and the tables' are not. */
    ghost predicate Loose(f: nat)
      requires Batch()
      reads this, bulk, pool
    {
      Usable(f, pool.Pages()) && f !in pool.free && f !in Remaining() && f !in kind
    }

    ghost predicate AllLoose(s: set<nat>)
      requires Batch()
      reads this, bulk, pool
    {
      forall f {:trigger Loose(f)} :: f in s ==> Loose(f)
    }

    /** pfree of one frame. */
    method GiveOne(f: nat)
      requires pool.Valid() && Usable(f, pool.Pages()) && f !in pool.free
      modifies pool, pool.pmm, pool.pmm.store
      ensures pool.Valid() && pool.free == old(pool.free) + {f} && pool.TopBlocks() == old(pool.TopBlocks())
    {
      assert f * PAGE_SIZE / PAGE_SIZE == f && Range(f, 1) == {f};
      pool.Give(f * PAGE_SIZE, 1);
    }

    /** The level-1 case of pagingRemoveEntry. */
    method ReleaseLeaf(t: nat, i: nat, doPfree: bool, ghost v: Page)
      requires Valid() && PageOk(v) && v.p1 == i && Reach(ram, root, 4, 1, v) == Some(t)
      requires doPfree ==> Loose(EntryAt(ram, t, i).ppn)
      modifies this`ram, this`owned, pool, pool.pmm, pool.pmm.store
      ensures Valid()
      ensures t in old(ram) && i < |old(ram)[t]| && ram == WithEntry(old(ram), t, i, ZERO)
      ensures pool.free == old(pool.free) + Freed(doPfree, old(EntryAt(ram, t, i)))
      ensures owned == old(owned) - Freed(doPfree, old(EntryAt(ram, t, i)))
      ensures Supply() == old(Supply())
    {
      if doPfree {
        var f := EntryAt(ram, t, i).ppn;
        AccountsFree(pool.free, Remaining(), root, kind, owned, pool.Pages(), f);
        GiveOne(f);
        owned := owned - {f};
      }
      SetLeaf(t, i, ZERO, v);
    }

    /** pagingFreeTable and clearing the entry, for a table that is empty. */
    method ReleaseTable(t: nat, level: nat, i: nat, ghost v: Page)
      requires Valid() && PageOk(v) && Index(v, level) == i && 2 <= level <= 4 &&
                Reach(ram, root, 4, level, v) == Some(t)
      requires EntryAt(ram, t, i) != ZERO && Empty(ram, EntryAt(ram, t, i).ppn)
      modifies this`ram, this`kind, pool, pool.pmm, pool.pmm.store
      ensures Valid()
      ensures t in old(ram) && i < |old(ram)[t]| && ram == WithEntry(old(ram), t, i, ZERO)
      ensures kind == old(kind) - {old(EntryAt(ram, t, i).ppn)}
      ensures pool.free == old(pool.free) + {old(EntryAt(ram, t, i).ppn)}
      ensures Supply() == old(Supply())
    {
      var f := EntryAt(ram, t, i).ppn;
      ReachTable(ram, root, kind, home, root, 4, level, v);
      assert TableOk(ram, kind, t);
      assert ChildOk(ram, kind, home, t, i);
      UnlinkKeeps(ram, root, kind, home, t, i, f);
      AccountsReclaim(pool.free, Remaining(), root, kind, owned, pool.Pages(), f);
      GiveOne(f);
      kind := kind - {f};
      ram := WithEntry(ram, t, i, ZERO);
    }

    /**
      pagingRemoveEntry, for an entry of the last level or one that leads to an
      empty table. `v` is a page whose way leads through the entry.
    */
    method RemoveEntry(t: nat, level: nat, i: nat, doPfree: bool, ghost v: Page)
      requires Valid() && 1 <= level <= 4
      requires EntryAt(ram, t, i) != ZERO ==>
                 && PageOk(v) && Index(v, level) == i && Reach(ram, root, 4, level, v) == Some(t)
                 && (level > 1 ==> Empty(ram, EntryAt(ram, t, i).ppn))
                 && (level == 1 && doPfree && Releasable(EntryAt(ram, t, i)) ==> Loose(EntryAt(ram, t, i).ppn))
      modifies this`ram, this`kind, this`owned, pool, pool.pmm, pool.pmm.store
      ensures Valid()
      ensures !old(Releasable(EntryAt(ram, t, i))) ==>
                ram == old(ram) && kind == old(kind) && owned == old(owned) && pool.free == old(pool.free)
      ensures old(Releasable(EntryAt(ram, t, i))) ==>
                t in old(ram) && i < |old(ram)[t]| && ram == WithEntry(old(ram), t, i, ZERO)
      ensures old(Releasable(EntryAt(ram, t, i))) && level == 1 ==>
                && kind == old(kind) && owned == old(owned) - Freed(doPfree, old(EntryAt(ram, t, i)))
                && pool.free == old(pool.free) + Freed(doPfree, old(EntryAt(ram, t, i)))
      ensures old(Releasable(EntryAt(ram, t, i))) && level > 1 ==>
                && kind == old(kind) - {old(EntryAt(ram, t, i).ppn)} && owned == old(owned)
                && pool.free == old(pool.free) + {old(EntryAt(ram, t, i).ppn)}
      ensures Supply() == old(Supply())
      decreases level
    {
      var e := EntryAt(ram, t, i);
      if !Present(e) || e.ppn * PAGE_SIZE >= memSize {
        return;
      }
      if level == 1 {
        ReleaseLeaf(t, i, doPfree, v);
      } else {
        for k := 0 to ENTRIES
          invariant Valid() && ram == old(ram) && kind == old(kind) && owned == old(owned) &&
                    pool.free == old(pool.free) && Supply() == old(Supply())
        {
          assert EntryAt(ram, e.ppn, k) == ZERO;
          RemoveEntry(e.ppn, level - 1, k, doPfree, v);
        }
        ReleaseTable(t, level, i, v);
      }
    }

    /** The scan of a table for an entry that is not zero. */
    method AllZero(t: nat) returns (empty: bool)
      requires t in ram && |ram[t]| == ENTRIES
      ensures empty <==> Empty(ram, t)
    {
      for i := 0 to ENTRIES
        invariant forall k: nat {:trigger EntryAt(ram, t, k)} :: k < i ==> EntryAt(ram, t, k) == ZERO
      {
        if EntryAt(ram, t, i) != ZERO {
          return false;
        }
      }
      return true;
    }

    /** A table of the page `v` is given back if it is empty, and its entry in the table above is cleared. */
    method Reclaim(p: nat, level: nat, v: Page, t: nat, doPfree: bool) returns (gone: bool)
      requires Valid() && PageOk(v) && 2 <= level <= 4
      requires Reach(ram, root, 4, level, v) == Some(p) && Reach(ram, root, 4, level - 1, v) == Some(t)
      modifies this`ram, this`kind, this`owned, pool, pool.pmm, pool.pmm.store
      ensures Valid() && owned == old(owned) && SameTranslations(old(ram), ram, root)
      ensures gone <==> old(Empty(ram, t))
      ensures !gone ==> ram == old(ram) && kind == old(kind) && pool.free == old(pool.free)
      ensures gone ==> kind == old(kind) - {t} && pool.free == old(pool.free) + {t} && t in old(kind)
      ensures forall k {:trigger Reach(ram, root, 4, k, v)} ::
                level <= k <= 4 ==> Reach(ram, root, 4, k, v) == old(Reach(ram, root, 4, k, v))
      ensures forall x {:trigger Empty(ram, x)} :: old(Empty(ram, x)) ==> Empty(ram, x)
      ensures old(TightBut(ram, root, kind, t)) ==>
                if gone then TightBut(ram, root, kind, p) else Tight(ram, root, kind)
      ensures (old(Clean()) ==> Clean()) && TablesWritten(old(ram), ram, old(kind.Keys))
      ensures Supply() == old(Supply())
    {
      ReachTable(ram, root, kind, home, root, 4, level, v);
      ReachTable(ram, root, kind, home, root, 4, level - 1, v);
      ReachStep(ram, root, 4, level, v);
      assert TableOk(ram, kind, t) && TableOk(ram, kind, p);
      gone := AllZero(t);
      if gone {
        assert ChildOk(ram, kind, home, p, Index(v, level));
        ReleaseStep(ram, root, kind, home, p, level, v, t);
        assert Usable(t, pool.Pages());
        StillEmpty(ram, p, Index(v, level));
        if Clean() { CleanTable(ram, pool.free + Remaining(), t, p, Index(v, level)); }
        assert pool.free + {t} + Remaining() == pool.free + Remaining() + {t};
        RemoveEntry(p, level, Index(v, level), doPfree, v);
      }
    }

    /** The part of vfreeHelper that gives back the tables that are empty, from the lowest up. */
    method ReclaimWay(v: Page, p: nat, q: nat, t: nat, doPfree: bool)
      requires Valid() && PageOk(v) && Reach(ram, root, 4, 3, v) == Some(p)
      requires Reach(ram, root, 4, 2, v) == Some(q) && Reach(ram, root, 4, 1, v) == Some(t)
      modifies this`ram, this`kind, this`owned, pool, pool.pmm, pool.pmm.store
      ensures Valid() && owned == old(owned) && SameTranslations(old(ram), ram, root)
      ensures kind.Keys <= old(kind.Keys) && pool.free == old(pool.free) + (old(kind.Keys) - kind.Keys)
      ensures forall x {:trigger Empty(ram, x)} :: old(Empty(ram, x)) || x in old(kind.Keys) - kind.Keys ==>
                Empty(ram, x)
      ensures old(TightBut(ram, root, kind, t)) ==> Tight(ram, root, kind)
      ensures (old(Clean()) ==> Clean()) && TablesWritten(old(ram), ram, old(kind.Keys))
      ensures Supply() == old(Supply())
    {
      var gone := Reclaim(q, 2, v, t, doPfree);
      if gone { ReclaimUpper(v, p, q, doPfree); }
    }

    method ReclaimUpper(v: Page, p: nat, q: nat, doPfree: bool)
      requires Valid() && PageOk(v) && Reach(ram, root, 4, 3, v) == Some(p) && Reach(ram, root, 4, 2, v) == Some(q)
      modifies this`ram, this`kind, this`owned, pool, pool.pmm, pool.pmm.store
      ensures Valid() && owned == old(owned) && SameTranslations(old(ram), ram, root)
      ensures kind.Keys <= old(kind.Keys) && pool.free == old(pool.free) + (old(kind.Keys) - kind.Keys)
      ensures forall x {:trigger Empty(ram, x)} :: old(Empty(ram, x)) ==> Empty(ram, x)
      ensures forall x {:trigger Empty(ram, x)} :: x in old(kind.Keys) - kind.Keys ==> Empty(ram, x)
      ensures old(TightBut(ram, root, kind, q)) ==> Tight(ram, root, kind)
      ensures (old(Clean()) ==> Clean()) && TablesWritten(old(ram), ram, old(kind.Keys))
      ensures Supply() == old(Supply())
    {
      var gone := Reclaim(p, 3, v, q, doPfree);
      if gone { gone := Reclaim(root, 4, v, p, doPfree); }
    }

    /** The walk of vfreeHelper: the tables on the way of `v`, unless one is missing. */
    method FindWay(v: Page) returns (found: bool, p: nat, q: nat, t: nat)
      requires Valid()
      ensures found ==> Reach(ram, root, 4, 3, v) == Some(p) && Reach(ram, root, 4, 2, v) == Some(q)
      ensures found ==> Reach(ram, root, 4, 1, v) == Some(t) && Translate(ram, root, v) == EntryAt(ram, t, v.p1)
      ensures !found ==> Translate(ram, root, v) == ZERO
      ensures found <==> HasTable(ram, root, 1, v)
    {
      found, p, q, t := false, 0, 0, 0;
      ReachStep(ram, root, 4, 4, v);
      ReachStep(ram, root, 4, 3, v);
      ReachStep(ram, root, 4, 2, v);
      WalkFrom(ram, root, 4, 1, v);
      var e := EntryAt(ram, root, v.p4);
      if e == ZERO { return; }
      p := e.ppn;
      e := EntryAt(ram, p, v.p3);
      if e == ZERO { return; }
      q := e.ppn;
      e := EntryAt(ram, q, v.p2);
      if e == ZERO { return; }
      t := e.ppn;
      found := true;
    }

    /** The entry that unmapping leaves in place of `e`. */
    ghost function Unmapped(e: Entry): Entry {
      if Releasable(e) then ZERO else e
    }

    /** The frame that unmapping an entry gives back. */
    ghost function Data(doPfree: bool, e: Entry): set<nat> {
      if Releasable(e) then Freed(doPfree, e) else {}
    }

    /** pagingRemoveEntry for the page itself. */
    method RemoveLeaf(v: Page, p: nat, q: nat, t: nat, doPfree: bool)
      requires Valid() && PageOk(v) && Reach(ram, root, 4, 3, v) == Some(p)
      requires Reach(ram, root, 4, 2, v) == Some(q) && Reach(ram, root, 4, 1, v) == Some(t)
      requires AllLoose(Data(doPfree, EntryAt(ram, t, v.p1)))
      modifies this`ram, this`kind, this`owned, pool, pool.pmm, pool.pmm.store
      ensures Valid() && kind == old(kind)
      ensures OneTranslation(old(ram), ram, root, v, old(Unmapped(EntryAt(ram, t, v.p1))))
      ensures owned == old(owned) - Data(doPfree, old(EntryAt(ram, t, v.p1)))
      ensures pool.free == old(pool.free) + Data(doPfree, old(EntryAt(ram, t, v.p1)))
      ensures Reach(ram, root, 4, 3, v) == Some(p) && Reach(ram, root, 4, 2, v) == Some(q) &&
                Reach(ram, root, 4, 1, v) == Some(t)
      ensures forall x {:trigger Empty(ram, x)} :: old(Empty(ram, x)) ==> Empty(ram, x)
      ensures old(Tight(ram, root, kind)) ==> TightBut(ram, root, kind, t)
      ensures old(Clean() && AllReadZero(ram, Data(doPfree, EntryAt(ram, t, v.p1)))) ==> Clean()
      ensures TablesWritten(old(ram), ram, old(kind.Keys))
      ensures Supply() == old(Supply())
    {
      var e := EntryAt(ram, t, v.p1);
      LeafClean(ram, pool.free, Remaining(), Data(doPfree, e), t, v.p1);
      WalkFrom(ram, root, 4, 1, v);
      ReachTable(ram, root, kind, home, root, 4, 1, v);
      assert TableOk(ram, kind, t);
      LeafGone(ram, root, kind, home, t, v);
      StillEmpty(ram, t, v.p1);
      RemoveEntry(t, 1, v.p1, doPfree, v);
    }

    /** vfreeHelper: the page `v` is unmapped, and the tables that this leaves empty are given back. */
    method VfreeHelper(v: Page, doPfree: bool)
      requires Valid() && PageOk(v) && AllLoose(Data(doPfree, Translate(ram, root, v)))
      modifies this`ram, this`kind, this`owned, pool, pool.pmm, pool.pmm.store
      ensures Valid() && OneTranslation(old(ram), ram, root, v, old(Unmapped(Translate(ram, root, v))))
      ensures owned == old(owned) - Data(doPfree, old(Translate(ram, root, v)))
      ensures kind.Keys <= old(kind.Keys)
      ensures pool.free == old(pool.free) + Data(doPfree, old(Translate(ram, root, v))) + (old(kind.Keys) - kind.Keys)
      ensures forall x {:trigger Empty(ram, x)} :: old(Empty(ram, x)) || x in old(kind.Keys) - kind.Keys ==>
                Empty(ram, x)
      ensures old(Tight(ram, root, kind)) ==> Tight(ram, root, kind)
      ensures old(Clean() && AllReadZero(ram, Data(doPfree, Translate(ram, root, v)))) ==> Clean()
      ensures TablesWritten(old(ram), ram, old(kind.Keys))
      ensures Supply() == old(Supply())
    {
      var found, p, q, t := FindWay(v);
      if found {
        RemoveLeaf(v, p, q, t, doPfree);
        ReclaimWay(v, p, q, t, doPfree);
      }
    }

    // ---------- Ranges of pages ----------

    /**
      Where mapping stands after the pages of `fs`, from the state `was` on, at `per` frames a page.
      It is stuck where the frames left do not suffice for one page more.
    */
    ghost predicate Mapping(was: Start, vptr: nat, fs: seq<nat>, flags: bv64, per: nat, stuck: bool)
      reads this, bulk, pool, pool.pmm, pool.pmm.store
    {
      && Valid() && Clean() && Spends(was.unused) && was.tables <= kind.Keys <= was.tables + was.unused
      && TablesWritten(was.ram, ram, kind.Keys) && Extends(was.upper, Upper(), flags) && root in was.upper.kind
      && Mapped(was, ram, root, vptr, fs, flags, per, stuck, Supply())
    }

    ghost function Now(): Start
      requires Batch() && pool.Valid()
      reads this, bulk, pool, pool.pmm, pool.pmm.store
    {
      Start(ram, kind.Keys, pool.free + Remaining(), Supply(), Upper())
    }

    /** Where vmalloc stands: as for mapping, with frames that are fresh and now owned. */
    ghost predicate Vmallocing(was: Start, own: set<nat>, vptr: nat, fs: seq<nat>, flags: bv64, stuck: bool,
                               tight: bool)
      reads this, bulk, pool, pool.pmm, pool.pmm.store
    {
      && Mapping(was, vptr, fs, flags, 1, stuck)
      && FreshFrames(fs, was.unused) && owned == own + Frames(fs)
      && (tight && !stuck ==> Tight(ram, root, kind))
    }

    /** One round of vmalloc's loop. */
    method VmallocOne(vptr: nat, i: nat, flags: bv64, ghost was: Start, ghost own: set<nat>, ghost fs: seq<nat>,
                      ghost tight: bool)
      returns (stuck: bool, ghost fs': seq<nat>)
      requires Vmallocing(was, own, vptr, fs, flags, false, tight) && i == |fs| && MapFlags(flags)
      modifies this`curr, this`ram, this`kind, this`home, this`owned, bulk, pool, pool.pmm, pool.pmm.store
      ensures Vmallocing(was, own, vptr, fs', flags, stuck, tight) && |fs'| == if stuck then i else i + 1
    {
      ghost var ram0, supply, upper := ram, Supply(), Upper();
      var v := PageAt(vptr, i);
      var ok, f := VmallocHelper(v, flags);
      ExtendsMore(was.upper, upper, Upper(), root, flags);
      stuck, fs' := !ok, if ok then fs + [f] else fs;
      MappedMore(was, ram0, ram, root, vptr, fs, flags, 1, supply, Supply(), v, f, ok);
      if ok { FreshMore(fs, was.unused, f); }
    }

    /**
      vmalloc: the pages from `vptr` on are bound to the frames `fs`. It stops
      early, and returns NULL, after binding the page at address 0. The model
      stops, `stuck`, where the page allocator has no frames left: there the
      source goes on with what it takes to be frame 0 (see BindNull). That is
      so exactly if the frames left do not suffice for the pages and for the
      tables missing on their ways. The lock is not held on return.
    */
    method Vmalloc(vptr: nat, pages: nat, flags: bv64)
      returns (r: nat, stuck: bool, held: bool, ghost fs: seq<nat>)
      requires Valid() && Clean() && MapFlags(flags)
      modifies this`curr, this`ram, this`kind, this`home, this`owned, bulk, pool, pool.pmm, pool.pmm.store
      ensures Valid() && Clean() && Bound(old(ram), ram, root, vptr, fs, flags) && !held
      ensures FreshFrames(fs, old(pool.free + Remaining())) && owned == old(owned) + Frames(fs)
      ensures Spends(old(pool.free + Remaining())) &&
                old(kind.Keys) <= kind.Keys <= old(kind.Keys + pool.free + Remaining())
      ensures TablesWritten(old(ram), ram, kind.Keys)
      ensures stuck <==> old(Supply()) < Need(old(ram), root, vptr, Visits(vptr, pages), 1)
      ensures Supply() == if stuck then 0 else old(Supply()) - Need(old(ram), root, vptr, Visits(vptr, pages), 1)
      ensures if stuck then |fs| < Visits(vptr, pages) else |fs| == Visits(vptr, pages)
      ensures stuck ==> Need(old(ram), root, vptr, |fs|, 1) <= old(Supply()) < Need(old(ram), root, vptr, |fs| + 1, 1)
      ensures !stuck ==> Grown(old(ram), ram, root, vptr, |fs|)
      ensures !stuck ==> r == if NoneZero(vptr, pages) then vptr else 0
      ensures !stuck && old(Tight(ram, root, kind)) ==> Tight(ram, root, kind)
      ensures Extends(old(Upper()), Upper(), flags)
    {
      held := true;
      ghost var was := Now();
      var n, zero := CountVisits(vptr, pages);
      stuck, fs := VmallocLoop(vptr, n, flags, was, owned, Tight(ram, root, kind));
      MappedEnd(was, ram, root, vptr, fs, flags, 1, stuck, Supply(), n);
      if stuck || zero {
        held := false;
        r := 0;
      } else {
        held := false;
        r := vptr;
      }
    }

    /** The first `n` rounds of vmalloc's loop, or as many as there are frames for. */
    method VmallocLoop(vptr: nat, n: nat, flags: bv64, ghost was: Start, ghost own: set<nat>, ghost tight: bool)
      returns (stuck: bool, ghost fs: seq<nat>)
      requires Valid() && Clean() && MapFlags(flags) && was == Now() && own == owned && tight == Tight(ram, root, kind)
      modifies this`curr, this`ram, this`kind, this`home, this`owned, bulk, pool, pool.pmm, pool.pmm.store
      ensures Vmallocing(was, own, vptr, fs, flags, stuck, tight) && if stuck then |fs| < n else |fs| == n
    {
      var i := 0;
      fs, stuck := [], false;
      GrownStart(ram, root, vptr);
      SameExtends(Upper(), Upper(), flags);
      while i < n && !stuck
        invariant Vmallocing(was, own, vptr, fs, flags, stuck, tight)
        invariant i <= n && |fs| == if stuck then i - 1 else i
        decreases n - i
      {
        stuck, fs := VmallocOne(vptr, i, flags, was, own, fs, tight);
        i := i + 1;
      }
    }

    /**
      The rounds of a mapping loop: it ends when the address of a page is 0, which it takes for
      NULL, after mapping the page.
    */
    method CountVisits(vptr: nat, pages: nat) returns (n: nat, zero: bool)
      ensures n == Visits(vptr, pages) && (zero <==> !NoneZero(vptr, pages))
    {
      n, zero := 0, false;
      while n < pages && !zero
        invariant n <= pages && NoneZero(vptr, n - 1) && (zero <==> n > 0 && AtZero(vptr, n - 1))
        decreases pages - n
      {
        zero := AtZero(vptr, n);
        n := n + 1;
      }
      if zero { VisitsZero(vptr, n - 1, pages); }
    }

    /** The frames that unmapping the `n` pages from `vptr` on gives back. */
    ghost function Gone(ram: Ram, vptr: nat, n: nat, doPfree: bool): set<nat> {
      if n == 0 then {} else Gone(ram, vptr, n - 1, doPfree) + Data(doPfree, Translate(ram, root, PageAt(vptr, n - 1)))
    }

    /** What pfree demands: every frame given back is owned, and no two pages give back the same. */
    ghost predicate Freeable(ram: Ram, vptr: nat, n: nat, doPfree: bool, own: set<nat>) {
      && (forall i: nat {:trigger PageAt(vptr, i)} :: i < n ==>
          Data(doPfree, Translate(ram, root, PageAt(vptr, i))) <= own)
      && (forall i: nat, j: nat {:trigger PageAt(vptr, i), PageAt(vptr, j)} ::
            i < j < n && PageAt(vptr, i) != PageAt(vptr, j) ==>
              Data(doPfree, Translate(ram, root, PageAt(vptr, i))) !!
              Data(doPfree, Translate(ram, root, PageAt(vptr, j))))
    }

    /** The `n` pages from `vptr` on are unmapped where that is possible, and no other translation differs. */
    ghost predicate Unbound(ram: Ram, ram': Ram, vptr: nat, n: nat) {
      forall w {:trigger Translate(ram', root, w)} ::
        Translate(ram', root, w) ==
          if InRange(vptr, n, w) then Unmapped(Translate(ram, root, w)) else Translate(ram, root, w)
    }

    lemma {:induction false} GoneWhere(ram: Ram, vptr: nat, n: nat, doPfree: bool, f: nat) returns (i: nat)
      requires f in Gone(ram, vptr, n, doPfree)
      ensures i < n && f in Data(doPfree, Translate(ram, root, PageAt(vptr, i)))
    {
      if f in Data(doPfree, Translate(ram, root, PageAt(vptr, n - 1))) {
        i := n - 1;
      } else {
        i := GoneWhere(ram, vptr, n - 1, doPfree, f);
      }
    }

    /** One page more: what it gives back is still owned, and only once. */
    lemma FreeMore(ram: Ram, ram1: Ram, vptr: nat, n: nat, m: nat, doPfree: bool, own: set<nat>)
      requires Freeable(ram, vptr, m, doPfree, own) && n < m && Unbound(ram, ram1, vptr, n)
      ensures var d := Data(doPfree, Translate(ram1, root, PageAt(vptr, n)));
              && d <= own - Gone(ram, vptr, n, doPfree)
              && Gone(ram, vptr, n, doPfree) + d == Gone(ram, vptr, n + 1, doPfree)
    {
      var v := PageAt(vptr, n);
      if InRange(vptr, n, v) {
        var i: nat :| i < n && PageAt(vptr, i) == v;
        GoneHas(ram, vptr, n, doPfree, i);
      } else {
        forall f | f in Data(doPfree, Translate(ram, root, v)) ensures f !in Gone(ram, vptr, n, doPfree) {
          if f in Gone(ram, vptr, n, doPfree) {
            var i := GoneWhere(ram, vptr, n, doPfree, f);
            assert false;
          }
        }
      }
    }

    lemma {:induction false} GoneHas(ram: Ram, vptr: nat, n: nat, doPfree: bool, i: nat)
      requires i < n
      ensures Data(doPfree, Translate(ram, root, PageAt(vptr, i))) <= Gone(ram, vptr, n, doPfree)
    {
      if i < n - 1 { GoneHas(ram, vptr, n - 1, doPfree, i); }
    }

    lemma UnboundMore(ram: Ram, ram1: Ram, ram2: Ram, vptr: nat, n: nat)
      requires Unbound(ram, ram1, vptr, n)
      requires OneTranslation(ram1, ram2, root, PageAt(vptr, n), Unmapped(Translate(ram1, root, PageAt(vptr, n))))
      ensures Unbound(ram, ram2, vptr, n + 1)
    {
      forall w ensures Translate(ram2, root, w) ==
        if InRange(vptr, n + 1, w) then Unmapped(Translate(ram, root, w)) else Translate(ram, root, w)
      {
        assert Translate(ram1, root, w) ==
          if InRange(vptr, n, w) then Unmapped(Translate(ram, root, w)) else Translate(ram, root, w);
        RangeMore(vptr, n, w);
      }
    }

    /**
      vfree: each page of the range is unmapped if its entry is present and in
      the memory of the machine; its frame is given back if asked for, and so
      are exactly the tables that this leaves empty.
    */
    method Vfree(vptr: nat, pages: nat, doPfree: bool)
      requires Valid() && Freeable(ram, vptr, pages, doPfree, Busy())
      modifies this`ram, this`kind, this`owned, pool, pool.pmm, pool.pmm.store
      ensures Valid() && Unbound(old(ram), ram, vptr, pages)
      ensures owned == old(owned) - Gone(old(ram), vptr, pages, doPfree)
      ensures kind.Keys <= old(kind.Keys) && TablesWritten(old(ram), ram, old(kind.Keys))
      ensures pool.free == old(pool.free) + Gone(old(ram), vptr, pages, doPfree) + (old(kind.Keys) - kind.Keys)
      ensures old(Tight(ram, root, kind)) ==>
                && Tight(ram, root, kind)
                && forall t {:trigger Empty(ram, t)} :: t in old(kind) && t != root ==> (t in kind <==> !Empty(ram, t))
      ensures old(Clean()) && AllReadZero(old(ram), Gone(old(ram), vptr, pages, doPfree)) ==> Clean()
      ensures Supply() == old(Supply())
    {
      ghost var was, busy := Books(ram, kind.Keys, pool.free, owned), Busy();
      ghost var clean := Clean() && AllReadZero(ram, Gone(ram, vptr, pages, doPfree));
      VfreeLoop(vptr, pages, doPfree, was, busy, clean, Tight(ram, root, kind));
    }

    method VfreeLoop(vptr: nat, pages: nat, doPfree: bool, ghost was: Books, ghost busy: set<nat>, ghost clean: bool,
                     ghost tight: bool)
      requires Vfreeing(was, busy, vptr, pages, 0, doPfree, clean, tight)
      modifies this`ram, this`kind, this`owned, pool, pool.pmm, pool.pmm.store
      ensures Vfreeing(was, busy, vptr, pages, pages, doPfree, clean, tight)
      ensures Supply() == old(Supply())
    {
      for i := 0 to pages
        invariant Vfreeing(was, busy, vptr, pages, i, doPfree, clean, tight) && Supply() == old(Supply())
      {
        VfreeOne(vptr, i, pages, doPfree, was, busy, clean, tight);
      }
    }

    /** Where vfree stands after the first `i` of its pages. */
    ghost predicate Vfreeing(was: Books, busy: set<nat>, vptr: nat, pages: nat, i: nat, doPfree: bool, clean: bool,
                             tight: bool)
      reads this, bulk, pool, pool.pmm, pool.pmm.store
    {
      && Valid() && Freeing(was, Books(ram, kind.Keys, pool.free, owned), vptr, i, doPfree)
      && Freeable(was.ram, vptr, pages, doPfree, busy)
      && busy !! was.tables && busy !! was.free && busy !! Remaining()
      && (forall f {:trigger Usable(f, pool.Pages())} :: f in busy ==> Usable(f, pool.Pages()))
      && (clean ==> Clean() && AllReadZero(was.ram, Gone(was.ram, vptr, pages, doPfree)))
      && (tight ==> Tight(ram, root, kind))
    }

    /** The frames in use that may be given back. */
    ghost function Busy(): set<nat>
      requires Batch()
      reads this, bulk, pool
    {
      set f {:trigger Loose(f)} | 0 < f < pool.Pages() && Loose(f)
    }

    /** One round of vfree's loop. */
    method VfreeOne(vptr: nat, i: nat, pages: nat, doPfree: bool,
                    ghost was: Books, ghost busy: set<nat>, ghost clean: bool, ghost tight: bool)
      requires Vfreeing(was, busy, vptr, pages, i, doPfree, clean, tight) && i < pages
      modifies this`ram, this`kind, this`owned, pool, pool.pmm, pool.pmm.store
      ensures Vfreeing(was, busy, vptr, pages, i + 1, doPfree, clean, tight)
      ensures Supply() == old(Supply())
    {
      ghost var now, d := Books(ram, kind.Keys, pool.free, owned), Data(doPfree, Translate(ram, root, PageAt(vptr, i)));
      FreeMore(was.ram, ram, vptr, i, pages, doPfree, busy);
      forall f | f in d ensures Loose(f) {
        assert f in busy - Gone(was.ram, vptr, i, doPfree);
        assert Usable(f, pool.Pages());
      }
      if clean {
        GoneMore(was.ram, vptr, i + 1, pages, doPfree);
        StillReadsZero(was.ram, ram, was.tables, d);
      }
      VfreeHelper(PageAt(vptr, i), doPfree);
      FreeingMore(was, now, Books(ram, kind.Keys, pool.free, owned), vptr, i, pages, doPfree, busy);
    }

    lemma {:induction false} GoneMore(ram: Ram, vptr: nat, n: nat, m: nat, doPfree: bool)
      requires n <= m
      ensures Gone(ram, vptr, n, doPfree) <= Gone(ram, vptr, m, doPfree)
      decreases m - n
    {
      if n < m { GoneMore(ram, vptr, n, m - 1, doPfree); }
    }

    /** The books after the first `n` pages of a vfree: what is unmapped, and who has which frame. */
    ghost predicate Freeing(was: Books, now: Books, vptr: nat, n: nat, doPfree: bool) {
      && Unbound(was.ram, now.ram, vptr, n)
      && now.owned == was.owned - Gone(was.ram, vptr, n, doPfree)
      && now.tables <= was.tables && TablesWritten(was.ram, now.ram, was.tables)
      && now.free == was.free + Gone(was.ram, vptr, n, doPfree) + (was.tables - now.tables)
      && forall t {:trigger Empty(now.ram, t)} :: t in was.tables - now.tables ==> Empty(now.ram, t)
    }

    lemma FreeingMore(was: Books, now: Books, next: Books, vptr: nat, n: nat, m: nat, doPfree: bool, busy: set<nat>)
      requires Freeing(was, now, vptr, n, doPfree) && n < m && Freeable(was.ram, vptr, m, doPfree, busy)
      requires var e := Translate(now.ram, root, PageAt(vptr, n));
               && OneTranslation(now.ram, next.ram, root, PageAt(vptr, n), Unmapped(e))
               && next.owned == now.owned - Data(doPfree, e)
               && next.tables <= now.tables && TablesWritten(now.ram, next.ram, now.tables)
               && next.free == now.free + Data(doPfree, e) + (now.tables - next.tables)
      requires forall t {:trigger Empty(next.ram, t)} ::
                 Empty(now.ram, t) || t in now.tables - next.tables ==> Empty(next.ram, t)
      ensures Freeing(was, next, vptr, n + 1, doPfree)
    {
      FreeMore(was.ram, now.ram, vptr, n, m, doPfree, busy);
      UnboundMore(was.ram, now.ram, next.ram, vptr, n);
      assert was.tables - next.tables == (was.tables - now.tables) + (now.tables - next.tables);
      forall x {:trigger x in next.ram} | x !in was.tables
        ensures (x in next.ram <==> x in was.ram) && (x in was.ram ==> next.ram[x] == was.ram[x])
      {
        assert x in now.ram <==> x in was.ram;
      }
    }

    // ---------- Unmapping what was mapped ----------

    lemma {:induction false} GoneIsFrames(ram: Ram, vptr: nat, fs: seq<nat>, n: nat, flags: bv64)
      requires n <= |fs| <= SPAN && flags & 1 == 1
      requires forall i: nat {:trigger PageAt(vptr, i)} :: i < |fs| ==>
                Translate(ram, root, PageAt(vptr, i)) == Entry(fs[i], flags)
      requires forall f {:trigger f in fs} :: f in fs ==> f * PAGE_SIZE < memSize
      ensures Gone(ram, vptr, n, true) == Frames(fs[..n])
    {
      if n > 0 {
        GoneIsFrames(ram, vptr, fs, n - 1, flags);
        assert Translate(ram, root, PageAt(vptr, n - 1)) == Entry(fs[n - 1], flags);
        assert fs[n - 1] in fs;
        assert fs[..n] == fs[..n - 1] + [fs[n - 1]];
      }
    }

    /** What vmalloc has just bound meets what vfree demands, and vfree gives back just these frames. */
    lemma BoundIsFreeable(ram: Ram, ram': Ram, vptr: nat, fs: seq<nat>, flags: bv64, unused: set<nat>, own: set<nat>)
      requires Bound(ram, ram', root, vptr, fs, flags) && |fs| <= SPAN && flags & 1 == 1
      requires FreshFrames(fs, unused) && forall f {:trigger f in fs} :: f in fs ==> f * PAGE_SIZE < memSize
      ensures Freeable(ram', vptr, |fs|, true, own + Frames(fs))
      ensures Gone(ram', vptr, |fs|, true) == Frames(fs)
    {
      GoneIsFrames(ram', vptr, fs, |fs|, flags);
      assert fs[..|fs|] == fs;
      forall i: nat | i < |fs| ensures Data(true, Translate(ram', root, PageAt(vptr, i))) == {fs[i]} {
        assert fs[i] in fs;
      }
    }

    /** Mapping pages that were not mapped and unmapping them again restores every translation. */
    lemma UnboundUndoesBound(ram: Ram, ram1: Ram, ram2: Ram, vptr: nat, fs: seq<nat>, flags: bv64)
      requires Bound(ram, ram1, root, vptr, fs, flags) && |fs| <= SPAN && flags & 1 == 1
      requires forall f {:trigger f in fs} :: f in fs ==> f * PAGE_SIZE < memSize
      requires forall i: nat {:trigger PageAt(vptr, i)} :: i < |fs| ==> Translate(ram, root, PageAt(vptr, i)) == ZERO
      requires Unbound(ram1, ram2, vptr, |fs|)
      ensures SameTranslations(ram, ram2, root)
    {
      forall w ensures Translate(ram2, root, w) == Translate(ram, root, w) {
        assert Translate(ram2, root, w) ==
          if InRange(vptr, |fs|, w) then Unmapped(Translate(ram1, root, w)) else Translate(ram1, root, w);
        if InRange(vptr, |fs|, w) {
          var i: nat :| i < |fs| && PageAt(vptr, i) == w;
          assert Translate(ram1, root, PageAt(vptr, i)) == Entry(fs[i], flags);
          assert fs[i] in fs;
        }
      }
    }

    // ---------- Mapping given frames ----------

    /** videntityHelper: the page `v` is bound to the frame it is given. */
    method VidentityHelper(v: Page, ppn: nat, flags: bv64) returns (ok: bool)
      requires Valid() && Clean() && PageOk(v) && MapFlags(flags)
      modifies this`curr, this`ram, this`kind, this`home, bulk, pool, pool.pmm, pool.pmm.store
      ensures Valid() && Clean() && Spends(old(pool.free + Remaining()))
      ensures ok ==> OneTranslation(old(ram), ram, root, v, Entry(ppn, flags))
      ensures !ok ==> SameTranslations(old(ram), ram, root)
      ensures ok <==> old(Supply()) >= old(Missing(ram, root, v))
      ensures Supply() == if ok then old(Supply()) - old(Missing(ram, root, v)) else 0
      ensures ok ==> WayAdded(old(ram), ram, root, v)
      ensures old(kind.Keys) <= kind.Keys <= old(kind.Keys + pool.free + Remaining())
      ensures TablesWritten(old(ram), ram, kind.Keys)
      ensures ok && old(Tight(ram, root, kind)) ==> Tight(ram, root, kind)
      ensures Extends(old(Upper()), Upper(), flags)
    {
      var t;
      ok, t := LastTable(v, flags);
      if ok {
        ghost var upper := Upper();
        SetLeaf(t, v.p1, Entry(ppn, flags), v);
        LeafExtends(upper, Upper(), t, v.p1, Entry(ppn, flags), flags);
        ExtendsMore(old(Upper()), upper, Upper(), root, flags);
      }
    }

    ghost predicate Videntifying(was: Start, vptr: nat, ppn: nat, fs: seq<nat>, flags: bv64, stuck: bool, tight: bool)
      reads this, bulk, pool, pool.pmm, pool.pmm.store
    {
      && Mapping(was, vptr, fs, flags, 0, stuck)
      && Consecutive(fs, ppn)
      && (tight && !stuck ==> Tight(ram, root, kind))
    }

    /** One round of videntity's loop. */
    method VidentityOne(vptr: nat, i: nat, ppn: nat, flags: bv64, ghost was: Start, ghost fs: seq<nat>,
                        ghost tight: bool)
      returns (stuck: bool, ghost fs': seq<nat>)
      requires Videntifying(was, vptr, ppn, fs, flags, false, tight) && i == |fs| && MapFlags(flags)
      modifies this`curr, this`ram, this`kind, this`home, bulk, pool, pool.pmm, pool.pmm.store
      ensures Videntifying(was, vptr, ppn, fs', flags, stuck, tight) && |fs'| == if stuck then i else i + 1
    {
      ghost var ram0, tables, supply, upper := ram, kind.Keys, Supply(), Upper();
      var v, f := PageAt(vptr, i), ppn + i;
      var ok := VidentityHelper(v, f, flags);
      ExtendsMore(was.upper, upper, Upper(), root, flags);
      stuck, fs' := !ok, if ok then fs + [f] else fs;
      ConsecutiveMore(fs, ppn, f);
      WrittenMore(was.ram, ram0, ram, tables, kind.Keys);
      MappedMore(was, ram0, ram, root, vptr, fs, flags, 0, supply, Supply(), v, f, ok);
    }

    /**
      videntity: the pages from `vptr` on are bound to consecutive frames, with the early ends of
      vmalloc. Where it returns NULL after the page at address 0 the lock is still held.
    */
    method Videntity(vptr: nat, ppn: nat, pages: nat, flags: bv64)
      returns (r: nat, stuck: bool, held: bool, ghost fs: seq<nat>)
      requires Valid() && Clean() && MapFlags(flags) && ppn + pages <= MAX_FRAMES
      modifies this`curr, this`ram, this`kind, this`home, bulk, pool, pool.pmm, pool.pmm.store
      ensures Valid() && Clean() && Bound(old(ram), ram, root, vptr, fs, flags)
      ensures !stuck ==> (held <==> !NoneZero(vptr, pages))
      ensures Consecutive(fs, ppn)
      ensures stuck <==> old(Supply()) < Need(old(ram), root, vptr, Visits(vptr, pages), 0)
      ensures Supply() == if stuck then 0 else old(Supply()) - Need(old(ram), root, vptr, Visits(vptr, pages), 0)
      ensures if stuck then |fs| < Visits(vptr, pages) else |fs| == Visits(vptr, pages)
      ensures !stuck ==> Grown(old(ram), ram, root, vptr, |fs|)
      ensures !stuck ==> r == if NoneZero(vptr, pages) then vptr else 0
      ensures !stuck && old(Tight(ram, root, kind)) ==> Tight(ram, root, kind)
      ensures Extends(old(Upper()), Upper(), flags)
    {
      held := true;
      ghost var was := Now();
      var n, zero := CountVisits(vptr, pages);
      stuck, fs := VidentityLoop(vptr, ppn, n, flags, was, Tight(ram, root, kind));
      MappedEnd(was, ram, root, vptr, fs, flags, 0, stuck, Supply(), n);
      if stuck || zero {
        return 0, stuck, held, fs;
      }
      held := false;
      r := vptr;
    }

    method VidentityLoop(vptr: nat, ppn: nat, n: nat, flags: bv64, ghost was: Start, ghost tight: bool)
      returns (stuck: bool, ghost fs: seq<nat>)
      requires Valid() && Clean() && MapFlags(flags) && was == Now() && tight == Tight(ram, root, kind)
      modifies this`curr, this`ram, this`kind, this`home, bulk, pool, pool.pmm, pool.pmm.store
      ensures Videntifying(was, vptr, ppn, fs, flags, stuck, tight) && if stuck then |fs| < n else |fs| == n
    {
      var i := 0;
      fs, stuck := [], false;
      GrownStart(ram, root, vptr);
      SameExtends(Upper(), Upper(), flags);
      while i < n && !stuck
        invariant Videntifying(was, vptr, ppn, fs, flags, stuck, tight)
        invariant i <= n && |fs| == if stuck then i - 1 else i
        decreases n - i
      {
        stuck, fs := VidentityOne(vptr, i, ppn, flags, was, fs, tight);
        i := i + 1;
      }
    }

    // ---------- Changing flags ----------

    /** vflagsHelper: where the last-level table exists, its entry gets the flags, mapped or not. */
    method VflagsHelper(v: Page, flags: bv64)
      requires Valid() && PageOk(v) && FlagsOnly(flags)
      modifies this`ram
      ensures Valid() && (old(Clean()) ==> Clean()) && SameHas(old(ram), ram, root)
      ensures OneTranslation(old(ram), ram, root, v, WithFlags(old(ram), root, v, flags))
    {
      var found, p, q, t := FindWay(v);
      if found { SetLeaf(t, v.p1, Reflagged(EntryAt(ram, t, v.p1), flags), v); }
    }

    /** vflags. */
    method Vflags(vptr: nat, pages: nat, flags: bv64)
      requires Valid() && FlagsOnly(flags)
      modifies this`ram
      ensures Valid() && (old(Clean()) ==> Clean()) && SameHas(old(ram), ram, root)
      ensures RangeReflagged(old(ram), ram, root, vptr, pages, flags)
    {
      for i := 0 to pages
        invariant Valid() && (old(Clean()) ==> Clean()) && SameHas(old(ram), ram, root)
        invariant RangeReflagged(old(ram), ram, root, vptr, i, flags)
      {
        ghost var ram0 := ram;
        VflagsHelper(PageAt(vptr, i), flags);
        ReflaggedMore(old(ram), ram0, ram, root, vptr, i, flags);
      }
    }
  }

  // ---------- Ranges of pages ----------

  /** The page `w` is one of the `n` pages from `vptr` on. */
  ghost predicate InRange(vptr: nat, n: nat, w: Page) {
    exists i: nat {:trigger PageAt(vptr, i)} :: i < n && PageAt(vptr, i) == w
  }

  /** The pages from `vptr` on are bound to the frames `fs`, and no other translation differs. */
  ghost predicate Bound(ram: Ram, ram': Ram, root: nat, vptr: nat, fs: seq<nat>, flags: bv64) {
    && (forall w {:trigger Translate(ram', root, w)} ::
          !InRange(vptr, |fs|, w) ==> Translate(ram', root, w) == Translate(ram, root, w))
    && (|fs| <= SPAN ==> forall i: nat {:trigger PageAt(vptr, i)} ::
          i < |fs| ==> Translate(ram', root, PageAt(vptr, i)) == Entry(fs[i], flags))
  }

  lemma BoundSame(ram: Ram, ram1: Ram, ram2: Ram, root: nat, vptr: nat, fs: seq<nat>, flags: bv64)
    requires Bound(ram, ram1, root, vptr, fs, flags) && SameTranslations(ram1, ram2, root)
    ensures Bound(ram, ram2, root, vptr, fs, flags)
  {
  }

  lemma BoundMore(ram: Ram, ram1: Ram, ram2: Ram, root: nat, vptr: nat, fs: seq<nat>, flags: bv64, f: nat)
    requires Bound(ram, ram1, root, vptr, fs, flags)
    requires OneTranslation(ram1, ram2, root, PageAt(vptr, |fs|), Entry(f, flags))
    ensures Bound(ram, ram2, root, vptr, fs + [f], flags)
  {
    var n, gs := |fs|, fs + [f];
    forall w | !InRange(vptr, n + 1, w) ensures Translate(ram2, root, w) == Translate(ram, root, w) {
      assert PageAt(vptr, n) != w;
      assert !InRange(vptr, n, w);
      assert Translate(ram1, root, w) == Translate(ram, root, w);
    }
    if n + 1 <= SPAN {
      forall i: nat | i < n + 1 ensures Translate(ram2, root, PageAt(vptr, i)) == Entry(gs[i], flags) {
        if i < n { PagesDiffer(vptr, i, n); }
        assert i < n ==> Translate(ram1, root, PageAt(vptr, i)) == Entry(fs[i], flags);
      }
    }
  }

  lemma RangeMore(vptr: nat, n: nat, w: Page)
    ensures InRange(vptr, n + 1, w) <==> InRange(vptr, n, w) || w == PageAt(vptr, n)
  {
    if InRange(vptr, n + 1, w) {
      var i: nat :| i < n + 1 && PageAt(vptr, i) == w;
    }
  }

  /** Frames one after the other, from `first` on. */
  ghost predicate Consecutive(fs: seq<nat>, first: nat) {
    forall i {:trigger fs[i]} :: 0 <= i < |fs| ==> fs[i] == first + i
  }

  lemma ConsecutiveMore(fs: seq<nat>, first: nat, f: nat)
    requires Consecutive(fs, first) && f == first + |fs|
    ensures Consecutive(fs + [f], first)
  {
  }

  ghost function Frames(fs: seq<nat>): set<nat> {
    set f | f in fs
  }

  /** Different frames, all of them out of `unused`. */
  ghost predicate FreshFrames(fs: seq<nat>, unused: set<nat>) {
    && Frames(fs) <= unused
    && forall i, j {:trigger fs[i], fs[j]} :: 0 <= i < j < |fs| ==> fs[i] != fs[j]
  }

  lemma FreshMore(fs: seq<nat>, unused: set<nat>, f: nat)
    requires FreshFrames(fs, unused) && f in unused && f !in Frames(fs)
    ensures FreshFrames(fs + [f], unused) && Frames(fs + [f]) == Frames(fs) + {f}
  {
    forall i | 0 <= i < |fs| ensures fs[i] != f { assert fs[i] in fs; }
  }

  predicate AtZero(vptr: nat, i: nat) {
    AddrAt(vptr, i) == 0
  }

  ghost predicate NoneZero(vptr: nat, n: int) {
    n <= 0 || (NoneZero(vptr, n - 1) && !AtZero(vptr, n - 1))
  }

  /** The calls in which videntity keeps the lock: some page of the range begins at address 0. */
  lemma {:induction false} NoneZeroIs(vptr: nat, n: nat)
    ensures NoneZero(vptr, n) <==> forall i: nat {:trigger AtZero(vptr, i)} :: i < n ==> !AtZero(vptr, i)
  {
    if n > 0 {
      NoneZeroIs(vptr, n - 1);
      if NoneZero(vptr, n) {
        forall i: nat {:trigger AtZero(vptr, i)} | i < n ensures !AtZero(vptr, i) {
          assert i < n - 1 || i == n - 1;
        }
      }
    }
  }

  /** videntity of any pages from address 0 on keeps it. */
  lemma IdentityAtZero(n: nat)
    requires n > 0
    ensures AtZero(0, 0) && !NoneZero(0, n)
  {
    NotNoneZero(0, 0, n);
  }

  lemma {:induction false} NotNoneZero(vptr: nat, i: nat, n: nat)
    requires i < n && AtZero(vptr, i)
    ensures !NoneZero(vptr, n)
  {
    if i < n - 1 { NotNoneZero(vptr, i, n - 1); }
  }

  /** The pages that the loop visits: all, or those up to the one at address 0. */
  ghost function Visits(vptr: nat, pages: nat): (n: nat)
    ensures n <= pages && (NoneZero(vptr, pages) ==> n == pages)
  {
    if pages == 0 || NoneZero(vptr, pages - 1) then pages else Visits(vptr, pages - 1)
  }

  lemma {:induction false} VisitsZero(vptr: nat, i: nat, pages: nat)
    requires i < pages && NoneZero(vptr, i) && AtZero(vptr, i)
    ensures Visits(vptr, pages) == i + 1 && !NoneZero(vptr, pages)
  {
    NotNoneZero(vptr, i, pages);
    if i + 1 < pages {
      NotNoneZero(vptr, i, pages - 1);
      VisitsZero(vptr, i, pages - 1);
    }
  }

  // ---------- Changing flags ----------

  /** The entry of `v` after vflags: changed where there is a last-level table, even if it was zero. */
  function WithFlags(ram: Ram, root: nat, v: Page, flags: bv64): Entry {
    if HasTable(ram, root, 1, v) then Reflagged(Translate(ram, root, v), flags) else Translate(ram, root, v)
  }

  ghost predicate RangeReflagged(ram: Ram, ram': Ram, root: nat, vptr: nat, n: nat, flags: bv64) {
    forall w {:trigger Translate(ram', root, w)} :: Translate(ram', root, w) ==
      if InRange(vptr, n, w) then WithFlags(ram, root, w, flags) else Translate(ram, root, w)
  }

  lemma ReflaggedMore(ram: Ram, ram1: Ram, ram2: Ram, root: nat, vptr: nat, n: nat, flags: bv64)
    requires RangeReflagged(ram, ram1, root, vptr, n, flags) && SameHas(ram, ram1, root)
    requires OneTranslation(ram1, ram2, root, PageAt(vptr, n), WithFlags(ram1, root, PageAt(vptr, n), flags))
    ensures RangeReflagged(ram, ram2, root, vptr, n + 1, flags)
  {
    var v := PageAt(vptr, n);
    assert HasTable(ram1, root, 1, v) <==> HasTable(ram, root, 1, v);
    ReflaggedPresent(Translate(ram, root, v), flags);
    forall w ensures Translate(ram2, root, w) ==
      if InRange(vptr, n + 1, w) then WithFlags(ram, root, w, flags) else Translate(ram, root, w)
    {
      RangeMore(vptr, n, w);
      assert Translate(ram1, root, w) ==
        if InRange(vptr, n, w) then WithFlags(ram, root, w, flags) else Translate(ram, root, w);
    }
  }

  /** vflags changes no frame. */
  lemma VflagsKeepsFrames(ram: Ram, ram': Ram, root: nat, vptr: nat, n: nat, flags: bv64, w: Page)
    requires RangeReflagged(ram, ram', root, vptr, n, flags) && FlagsOnly(flags)
    ensures Translate(ram', root, w).ppn == Translate(ram, root, w).ppn
  {
  }

  /** A page of the range that is not mapped though its last-level table is there. */
  ghost predicate Exposed(ram: Ram, root: nat, vptr: nat, n: nat, w: Page) {
    InRange(vptr, n, w) && HasTable(ram, root, 1, w) && !Present(Translate(ram, root, w))
  }

  /** No page is mapped that was not. */
  ghost predicate NoneAppears(ram: Ram, ram': Ram, root: nat) {
    forall w {:trigger Translate(ram', root, w)} :: Present(Translate(ram', root, w)) ==>
        Present(Translate(ram, root, w))
  }

  /**
    vflags maps no page that was not mapped if and only if the flags lack the present bit or every
    page of the range that has a last-level table is mapped.
  */
  lemma VflagsExactly(ram: Ram, ram': Ram, root: nat, vptr: nat, n: nat, flags: bv64)
    requires RangeReflagged(ram, ram', root, vptr, n, flags) && FlagsOnly(flags)
    ensures NoneAppears(ram, ram', root) <==>
            flags & 1 == 0 || forall w {:trigger Exposed(ram, root, vptr, n, w)} :: !Exposed(ram, root, vptr, n, w)
  {
    PresentOr(flags);
    forall w
      ensures Present(Translate(ram', root, w)) && !Present(Translate(ram, root, w)) <==>
              flags & 1 == 1 && Exposed(ram, root, vptr, n, w)
    {
      ReflaggedPresent(Translate(ram, root, w), flags);
    }
    if flags & 1 == 1 && exists w :: Exposed(ram, root, vptr, n, w) {
      var w :| Exposed(ram, root, vptr, n, w);
      assert Present(Translate(ram', root, w)) && !Present(Translate(ram, root, w));
    }
  }

  lemma PresentOr(flags: bv64)
    ensures flags & 1 == 0 || flags & 1 == 1
  {
  }

  /** Such a page comes to be mapped to frame 0. */
  lemma VflagsMapsZero(ram: Ram, ram': Ram, root: nat, vptr: nat, n: nat, flags: bv64, w: Page)
    requires RangeReflagged(ram, ram', root, vptr, n, flags) && FlagsOnly(flags) && InRange(vptr, n, w)
    requires HasTable(ram, root, 1, w) && Translate(ram, root, w) == ZERO
    ensures Translate(ram', root, w) == Entry(0, flags)
  {
    ReflaggedPresent(ZERO, flags);
  }

  // ---------- The frames that mapping needs ----------

  /** The state that mapping starts from: memory, tables, unused frames, and how many can be handed out. */
  datatype Start = Start(ram: Ram, tables: set<nat>, unused: set<nat>, supply: nat, upper: Tables)

  /** One of the `n` pages from `vptr` on has the table of level `k` that `w` has. */
  ghost predicate Led(vptr: nat, n: nat, w: Page, k: nat) {
    exists j: nat {:trigger Leads(vptr, j, w, k)} :: j < n && Leads(vptr, j, w, k)
  }

  ghost predicate Leads(vptr: nat, j: nat, w: Page, k: nat) {
    Prefix(w, k) == Prefix(PageAt(vptr, j), k)
  }

  /** The table of level `k` is missing for page `i` of a range, and for all pages of the range before it. */
  ghost function NewTable(ram: Ram, root: nat, vptr: nat, i: nat, k: nat): nat {
    if HasTable(ram, root, k, PageAt(vptr, i)) || Led(vptr, i, PageAt(vptr, i), k) then 0 else 1
  }

  /** The frames that the first `n` pages of a range need: `per` each, and one for each table missing. */
  ghost function Need(ram: Ram, root: nat, vptr: nat, n: nat, per: nat): nat {
    if n == 0 then 0
    else
      Need(ram, root, vptr, n - 1, per) + per + NewTable(ram, root, vptr, n - 1, 3)
      + NewTable(ram, root, vptr, n - 1, 2) + NewTable(ram, root, vptr, n - 1, 1)
  }

  /** Four frames a page are always enough. */
  lemma {:induction false} NeedAtMost(ram: Ram, root: nat, vptr: nat, n: nat)
    ensures Need(ram, root, vptr, n, 1) <= 4 * n && Need(ram, root, vptr, n, 0) <= 3 * n
  {
    if n > 0 { NeedAtMost(ram, root, vptr, n - 1); }
  }

  lemma {:induction false} NeedMore(ram: Ram, root: nat, vptr: nat, n: nat, m: nat, per: nat)
    requires n <= m
    ensures Need(ram, root, vptr, n, per) <= Need(ram, root, vptr, m, per)
    decreases m - n
  {
    if n < m { NeedMore(ram, root, vptr, n, m - 1, per); }
  }

  /** After the first `n` pages, their tables are there too, and no other is new. */
  ghost predicate Grown(was: Ram, ram: Ram, root: nat, vptr: nat, n: nat) {
    forall w, k: nat {:trigger HasTable(ram, root, k, w)} :: 1 <= k <= 3 ==>
      (HasTable(ram, root, k, w) <==> HasTable(was, root, k, w) || Led(vptr, n, w, k))
  }

  /** The pages of `fs` are bound and `supply` frames are left; or none is, and one page more was wanted. */
  ghost predicate Mapped(was: Start, ram: Ram, root: nat, vptr: nat, fs: seq<nat>, flags: bv64, per: nat,
                         stuck: bool, supply: nat)
  {
    && Bound(was.ram, ram, root, vptr, fs, flags)
    && (if stuck then
          supply == 0 && Need(was.ram, root, vptr, |fs|, per) <= was.supply < Need(was.ram, root, vptr, |fs| + 1, per)
        else Grown(was.ram, ram, root, vptr, |fs|) && supply + Need(was.ram, root, vptr, |fs|, per) == was.supply)
  }

  lemma MappedMore(was: Start, ram0: Ram, ram: Ram, root: nat, vptr: nat, fs: seq<nat>, flags: bv64, per: nat,
                   supply0: nat, supply: nat, v: Page, f: nat, ok: bool)
    requires Mapped(was, ram0, root, vptr, fs, flags, per, false, supply0) && v == PageAt(vptr, |fs|)
    requires ok <==> supply0 >= Missing(ram0, root, v) + per
    requires supply == if ok then supply0 - Missing(ram0, root, v) - per else 0
    requires ok ==> OneTranslation(ram0, ram, root, v, Entry(f, flags)) && WayAdded(ram0, ram, root, v)
    requires !ok ==> SameTranslations(ram0, ram, root)
    ensures Mapped(was, ram, root, vptr, if ok then fs + [f] else fs, flags, per, !ok, supply)
  {
    MissingIsNew(was.ram, ram0, root, vptr, |fs|);
    if ok {
      BoundMore(was.ram, ram0, ram, root, vptr, fs, flags, f);
      GrownMore(was.ram, ram0, ram, root, vptr, |fs|);
    } else {
      BoundSame(was.ram, ram0, ram, root, vptr, fs, flags);
    }
  }

  lemma MappedEnd(was: Start, ram: Ram, root: nat, vptr: nat, fs: seq<nat>, flags: bv64, per: nat,
                  stuck: bool, supply: nat, n: nat)
    requires Mapped(was, ram, root, vptr, fs, flags, per, stuck, supply) && if stuck then |fs| < n else |fs| == n
    ensures stuck <==> was.supply < Need(was.ram, root, vptr, n, per)
    ensures supply == if stuck then 0 else was.supply - Need(was.ram, root, vptr, n, per)
  {
    if stuck { NeedMore(was.ram, root, vptr, |fs| + 1, n, per); }
  }

  lemma GrownStart(ram: Ram, root: nat, vptr: nat)
    ensures Grown(ram, ram, root, vptr, 0)
  {
  }

  lemma GrownMore(was: Ram, ram1: Ram, ram2: Ram, root: nat, vptr: nat, n: nat)
    requires Grown(was, ram1, root, vptr, n) && WayAdded(ram1, ram2, root, PageAt(vptr, n))
    ensures Grown(was, ram2, root, vptr, n + 1)
  {
    forall w, k: nat {:trigger HasTable(ram2, root, k, w)} | 1 <= k <= 3
      ensures HasTable(ram2, root, k, w) <==> HasTable(was, root, k, w) || Led(vptr, n + 1, w, k)
    {
      assert HasTable(ram1, root, k, w) <==> HasTable(was, root, k, w) || Led(vptr, n, w, k);
      LedMore(vptr, n, w, k);
    }
  }

  lemma LedMore(vptr: nat, n: nat, w: Page, k: nat)
    ensures Led(vptr, n + 1, w, k) <==> Led(vptr, n, w, k) || Prefix(w, k) == Prefix(PageAt(vptr, n), k)
  {
    if Led(vptr, n + 1, w, k) {
      var j: nat :| j < n + 1 && Leads(vptr, j, w, k);
      assert j < n ==> Led(vptr, n, w, k);
    }
    if Led(vptr, n, w, k) {
      var j: nat :| j < n && Leads(vptr, j, w, k);
      assert Led(vptr, n + 1, w, k);
    }
    assert Leads(vptr, n, w, k) ==> Led(vptr, n + 1, w, k);
  }

  lemma MissingIsNew(was: Ram, ram: Ram, root: nat, vptr: nat, i: nat)
    requires Grown(was, ram, root, vptr, i)
    ensures Missing(ram, root, PageAt(vptr, i)) ==
            NewTable(was, root, vptr, i, 3) + NewTable(was, root, vptr, i, 2) + NewTable(was, root, vptr, i, 1)
  {
  }

  // ---------- The steps on values ----------

  lemma ReadZeroWith(ram: Ram, s: set<nat>, t: nat, row: seq<Entry>)
    requires AllReadZero(ram, s) && t !in s
    ensures AllReadZero(ram[t := row], s)
  {
    forall f | f in s ensures ReadsZero(ram[t := row], f) {
      assert ReadsZero(ram, f);
      var ram' := ram[t := row];
      forall i: nat | i > 0 ensures EntryAt(ram', f, i) == ZERO { assert EntryAt(ram, f, i) == ZERO; }
    }
  }

  lemma AccountsTable(free: set<nat>, rest: set<nat>, root: nat, kind: Levels, owned: set<nat>, pages: nat, f: nat,
                      l: nat)
    requires Accounts(free, rest, root, kind, owned, pages) && Usable(f, pages)
    requires f !in free && f !in rest && f !in kind && f !in owned
    ensures Accounts(free, rest, root, kind[f := l], owned, pages)
  {
    assert kind[f := l].Keys == kind.Keys + {f};
  }

  lemma AccountsOwn(free: set<nat>, rest: set<nat>, root: nat, kind: Levels, owned: set<nat>, pages: nat, f: nat)
    requires Accounts(free, rest, root, kind, owned, pages) && Usable(f, pages)
    requires f !in free && f !in rest && f !in kind && f !in owned
    ensures Accounts(free, rest, root, kind, owned + {f}, pages)
  {
  }

  /** All that linking the empty frame `f` for the page `v` below its table `t` of level `l` does. */
  lemma LinkStep(ram: Ram, root: nat, kind: Levels, home: Homes, t: nat, l: nat, v: Page, f: nat, e: Entry)
    requires 2 <= l <= 4 && PageOk(v) && Linkable(ram, root, kind, home, t, Index(v, l), f, e) && TableOk(ram, kind, t)
    requires kind[t] == l && Reach(ram, root, 4, l, v) == Some(t)
    ensures var ram' := WithEntry(ram, t, Index(v, l), e);
            && Tree(ram', root, kind[f := l - 1], home[f := Slot(t, Index(v, l))])
            && SameTranslations(ram, ram', root)
            && Reach(ram', root, 4, l - 1, v) == Some(f)
            && (TightBut(ram, root, kind, t) ==> TightBut(ram', root, kind[f := l - 1], f))
  {
    var i := Index(v, l);
    var ram' := WithEntry(ram, t, i, e);
    LinkKeeps(ram, root, kind, home, t, i, f, e);
    LinkReach(ram, t, i, e, root, 4, l, v);
    ReachStep(ram', root, 4, l, v);
    EntryAtWith(ram, t, i, e, t, i);
    if TightBut(ram, root, kind, t) { TightWith(ram, root, kind, t, i, e); }
  }

  lemma AllReadZeroSome(ram: Ram, s: set<nat>, t: set<nat>)
    requires AllReadZero(ram, s) && t <= s
    ensures AllReadZero(ram, t)
  {
  }

  lemma ClearedFrame(ram: Ram, f: nat)
    requires ReadsZero(ram, f)
    ensures Empty(ram[f := ram[f][0 := ZERO]], f)
  {
    var ram' := ram[f := ram[f][0 := ZERO]];
    forall i: nat ensures EntryAt(ram', f, i) == ZERO {
      assert i > 0 ==> EntryAt(ram, f, i) == ZERO;
    }
  }

  /** Where there is an entry already, its table is not empty. */
  lemma DescendStep(ram: Ram, root: nat, kind: Levels, home: Homes, t: nat, l: nat, v: Page)
    requires Tree(ram, root, kind, home) && 2 <= l <= 4 && EntryAt(ram, t, Index(v, l)) != ZERO
    ensures TightBut(ram, root, kind, t) ==> TightBut(ram, root, kind, EntryAt(ram, t, Index(v, l)).ppn)
  {
    assert !Empty(ram, t);
  }

  lemma SameTight(ram: Ram, ram': Ram, root: nat, kind: Levels, home: Homes, t: nat)
    requires Tree(ram, root, kind, home) && SameTables(ram, ram', kind)
    ensures TightBut(ram, root, kind, t) ==> TightBut(ram', root, kind, t)
    ensures t in kind ==> forall i: nat :: EntryAt(ram', t, i) == EntryAt(ram, t, i)
  {
    forall x | x in kind ensures Empty(ram', x) <==> Empty(ram, x) {
      assert TableOk(ram, kind, x);
      assert x in ram' && ram'[x] == ram[x];
      forall i: nat ensures EntryAt(ram', x, i) == EntryAt(ram, x, i) {}
    }
    if t in kind {
      assert TableOk(ram, kind, t);
      assert t in ram' && ram'[t] == ram[t];
    }
  }

  ghost function Freed(doPfree: bool, e: Entry): set<nat> {
    if doPfree then {e.ppn} else {}
  }

  lemma AccountsFree(free: set<nat>, rest: set<nat>, root: nat, kind: Levels, owned: set<nat>, pages: nat, f: nat)
    requires Accounts(free, rest, root, kind, owned, pages) && Usable(f, pages)
    requires f !in free && f !in rest && f !in kind
    ensures Accounts(free + {f}, rest, root, kind, owned - {f}, pages)
  {
  }

  lemma AccountsReclaim(free: set<nat>, rest: set<nat>, root: nat, kind: Levels, owned: set<nat>, pages: nat, f: nat)
    requires Accounts(free, rest, root, kind, owned, pages) && f in kind && f != root
    ensures Accounts(free + {f}, rest, root, kind - {f}, owned, pages)
    ensures Usable(f, pages) && f !in free
  {
    assert f in kind.Keys - {root};
    assert (kind - {f}).Keys == kind.Keys - {f};
  }

  /** All that unlinking the empty table `f` of the page `v` from its table `t` of level `l` does. */
  lemma ReleaseStep(ram: Ram, root: nat, kind: Levels, home: Homes, t: nat, l: nat, v: Page, f: nat)
    requires Tree(ram, root, kind, home) && PageOk(v) && 2 <= l <= 4 && t in kind && kind[t] == l &&
              TableOk(ram, kind, t)
    requires EntryAt(ram, t, Index(v, l)) != ZERO && EntryAt(ram, t, Index(v, l)).ppn == f && Empty(ram, f)
    ensures var ram' := WithEntry(ram, t, Index(v, l), ZERO);
            && Tree(ram', root, kind - {f}, home) && SameTranslations(ram, ram', root)
            && (forall k :: l <= k <= 4 ==> Reach(ram', root, 4, k, v) == Reach(ram, root, 4, k, v))
            && (TightBut(ram, root, kind, f) ==> TightBut(ram', root, kind - {f}, t))
  {
    var i := Index(v, l);
    UnlinkKeeps(ram, root, kind, home, t, i, f);
    forall k | l <= k <= 4
      ensures Reach(WithEntry(ram, t, i, ZERO), root, 4, k, v) == Reach(ram, root, 4, k, v)
    {
      EntryReach(ram, root, kind, home, t, i, ZERO, root, 4, k, v);
    }
    if TightBut(ram, root, kind, f) {
      assert TightBut(ram, root, kind - {f}, t);
      TightWith(ram, root, kind - {f}, t, i, ZERO);
    }
  }

  /** No frame but the tables was written. */
  ghost predicate TablesWritten(ram: Ram, ram': Ram, tables: set<nat>) {
    forall x {:trigger x in ram'} :: x !in tables ==> (x in ram' <==> x in ram) && (x in ram ==> ram'[x] == ram[x])
  }

  lemma WrittenMore(ram: Ram, ram1: Ram, ram2: Ram, tables: set<nat>, tables': set<nat>)
    requires TablesWritten(ram, ram1, tables) && TablesWritten(ram1, ram2, tables') && tables <= tables'
    ensures TablesWritten(ram, ram2, tables')
  {
    forall x | x !in tables' ensures (x in ram2 <==> x in ram) && (x in ram ==> ram2[x] == ram[x]) {
      assert x in ram1 <==> x in ram;
    }
  }

  lemma StillReadsZero(ram: Ram, ram': Ram, tables: set<nat>, s: set<nat>)
    requires TablesWritten(ram, ram', tables) && AllReadZero(ram, s) && s !! tables
    ensures AllReadZero(ram', s)
  {
    forall f | f in s ensures ReadsZero(ram', f) {
      assert ReadsZero(ram, f);
      assert f in ram' && ram'[f] == ram[f];
      forall i: nat | i > 0 ensures EntryAt(ram', f, i) == ZERO { assert EntryAt(ram, f, i) == ZERO; }
    }
  }

  /** An empty table given back reads as zero, like the frames that are not in use. */
  lemma CleanTable(ram: Ram, s: set<nat>, t: nat, p: nat, i: nat)
    requires AllReadZero(ram, s) && Empty(ram, t) && t in ram && |ram[t]| == ENTRIES
    requires p in ram && i < |ram[p]| && p !in s && p != t
    ensures AllReadZero(WithEntry(ram, p, i, ZERO), s + {t})
  {
    assert ReadsZero(ram, t);
    assert AllReadZero(ram, s + {t});
    ReadZeroWith(ram, s + {t}, p, ram[p][i := ZERO]);
  }

  lemma LeafClean(ram: Ram, free: set<nat>, rest: set<nat>, d: set<nat>, t: nat, i: nat)
    ensures AllReadZero(ram, free + rest) && AllReadZero(ram, d) && t in ram && i < |ram[t]| &&
              t !in free + rest + d ==>
              AllReadZero(WithEntry(ram, t, i, ZERO), free + d + rest)
    ensures AllReadZero(ram, free + rest) && AllReadZero(ram, d) ==> AllReadZero(ram, free + d + rest)
  {
    if AllReadZero(ram, free + rest) && AllReadZero(ram, d) {
      assert AllReadZero(ram, free + d + rest);
      if t in ram && i < |ram[t]| && t !in free + rest + d {
        ReadZeroWith(ram, free + d + rest, t, ram[t][i := ZERO]);
      }
    }
  }

  /** Clearing an entry empties no table that was not empty, other than its own. */
  lemma StillEmpty(ram: Ram, t: nat, i: nat)
    requires t in ram && i < |ram[t]|
    ensures forall x {:trigger Empty(ram, x)} {:trigger Empty(WithEntry(ram, t, i, ZERO), x)} ::
              Empty(ram, x) ==> Empty(WithEntry(ram, t, i, ZERO), x)
  {
    forall x | Empty(ram, x) ensures Empty(WithEntry(ram, t, i, ZERO), x) {
      forall j: nat ensures EntryAt(WithEntry(ram, t, i, ZERO), x, j) == ZERO {
        EntryAtWith(ram, t, i, ZERO, x, j);
        assert EntryAt(ram, x, j) == ZERO;
      }
    }
  }

  /** All that clearing the last-level entry of `v` does. */
  lemma LeafGone(ram: Ram, root: nat, kind: Levels, home: Homes, t: nat, v: Page)
    requires Tree(ram, root, kind, home) && PageOk(v) && Reach(ram, root, 4, 1, v) == Some(t)
    requires t in kind && kind[t] == 1 && TableOk(ram, kind, t)
    ensures var ram' := WithEntry(ram, t, v.p1, ZERO);
            && OneTranslation(ram, ram', root, v, ZERO)
            && (forall k {:trigger Reach(ram', root, 4, k, v)} ::
                  1 <= k <= 4 ==> Reach(ram', root, 4, k, v) == Reach(ram, root, 4, k, v))
            && (Tight(ram, root, kind) ==> TightBut(ram', root, kind, t))
  {
    var ram' := WithEntry(ram, t, v.p1, ZERO);
    SetLeafKeeps(ram, root, kind, home, t, v, ZERO);
    forall k | 1 <= k <= 4 ensures Reach(ram', root, 4, k, v) == Reach(ram, root, 4, k, v) {
      EntryReach(ram, root, kind, home, t, v.p1, ZERO, root, 4, k, v);
    }
    if Tight(ram, root, kind) { TightWith(ram, root, kind, t, v.p1, ZERO); }
  }

  /** All tables on the way of v are there too, and no other is new. */
  function MissingUpper(ram: Ram, root: nat, v: Page): nat {
    (if HasTable(ram, root, 3, v) then 0 else 1) + if HasTable(ram, root, 2, v) then 0 else 1
  }

  ghost predicate UpperAdded(ram: Ram, ram': Ram, root: nat, v: Page) {
    forall w, k: nat {:trigger HasTable(ram', root, k, w)} :: 1 <= k <= 3 ==>
      (HasTable(ram', root, k, w) <==> HasTable(ram, root, k, w) || (k >= 2 && Prefix(w, k) == Prefix(v, k)))
  }

  ghost predicate WayAdded(ram: Ram, ram': Ram, root: nat, v: Page) {
    forall w, k: nat {:trigger HasTable(ram', root, k, w)} :: 1 <= k <= 3 ==>
      (HasTable(ram', root, k, w) <==> HasTable(ram, root, k, w) || Prefix(w, k) == Prefix(v, k))
  }

  lemma AlreadyThere(ram: Ram, root: nat, v: Page, c: nat)
    requires 1 <= c <= 3 && HasTable(ram, root, c, v)
    ensures TableAdded(ram, ram, root, v, c)
  {
    forall w, k: nat {:trigger HasTable(ram, root, k, w)} | k == c && Prefix(w, k) == Prefix(v, k)
      ensures HasTable(ram, root, k, w)
    {
      SamePrefix(v, w, k);
      ReachSame(ram, root, 4, k, v, w);
    }
  }

  lemma OffTreeHas(ram: Ram, ram': Ram, root: nat, kind: Levels, home: Homes)
    requires Tree(ram, root, kind, home) && SameTables(ram, ram', kind)
    ensures SameHas(ram, ram', root)
  {
    forall w, k: nat {:trigger HasTable(ram', root, k, w)} | 1 <= k <= 3
      ensures HasTable(ram', root, k, w) <==> HasTable(ram, root, k, w)
    {
      OffTreeReach(ram, ram', root, kind, home, root, 4, k, w);
    }
  }

  lemma SetLeafHas(ram: Ram, root: nat, kind: Levels, home: Homes, t: nat, i: nat, e: Entry)
    requires Tree(ram, root, kind, home) && t in kind && kind[t] == 1 && i < ENTRIES && TableOk(ram, kind, t)
    ensures SameHas(ram, WithEntry(ram, t, i, e), root)
  {
    var ram' := WithEntry(ram, t, i, e);
    forall w, k: nat {:trigger HasTable(ram', root, k, w)} | 1 <= k <= 3
      ensures HasTable(ram', root, k, w) <==> HasTable(ram, root, k, w)
    {
      EntryReach(ram, root, kind, home, t, i, e, root, 4, k, w);
    }
  }

  lemma RangeBatch(bulk: seq<nat>, first: nat)
    requires |bulk| == NUM_ALLOC && forall j {:trigger bulk[j]} :: 0 <= j < NUM_ALLOC ==> bulk[j] == first + j
    ensures RestDistinct(bulk, 0) && Rest(bulk, 0) == Range(first, NUM_ALLOC - 1)
  {
    forall x | x in Range(first, NUM_ALLOC - 1) ensures x in Rest(bulk, 0) {
      assert bulk[x - first] == x;
    }
  }

  /** Frames only leave the allocator and the batch, or pass from the one to the other. */
  lemma AccountsMove(free: set<nat>, rest: set<nat>, free': set<nat>, rest': set<nat>,
                     root: nat, kind: Levels, owned: set<nat>, pages: nat)
    requires Accounts(free, rest, root, kind, owned, pages) && free' + rest' <= free + rest && free' !! rest'
    ensures Accounts(free', rest', root, kind, owned, pages)
  {
    assert forall f :: f in free' || f in rest' ==> f in free' + rest' && f in free + rest;
  }

  lemma RestNext(bulk: seq<nat>, curr: nat)
    requires |bulk| == NUM_ALLOC && curr < NUM_ALLOC - 1 && RestDistinct(bulk, curr)
    ensures RestDistinct(bulk, curr + 1) && bulk[curr] in Rest(bulk, curr)
    ensures Rest(bulk, curr + 1) == Rest(bulk, curr) - {bulk[curr]}
  {
  }
}
