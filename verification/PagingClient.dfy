/**
  What page tables are for: a client that maps pages where nothing is mapped, stores into them, and
  wipes and unmaps them, sees a plain table of pages that do not touch each other, in every run.
*/
module PagingClient {
  import opened Machine
  import opened PageTree
  import opened PageFormat
  import opened Paging

  datatype Request =
    | Map(vptr: nat, pages: nat, flags: bv64)
    | Unmap(vptr: nat, pages: nat)
    | Store(page: Page, index: nat, word: Entry)

  /** The pages that the client has mapped, and the 512 words of each. */
  type Table = map<Page, seq<Entry>>

  // ---------- The specification ----------

  /** The first `k` pages of a range are new in the table, and read as zero from word 1 on. */
  ghost predicate Added(t: Table, vptr: nat, k: nat, t': Table) {
    && (forall v {:trigger v in t'} :: v in t' <==> v in t || InRange(vptr, k, v))
    && (forall v {:trigger v in t} :: v in t ==> t'[v] == t[v])
    && (forall v {:trigger InRange(vptr, k, v)} :: InRange(vptr, k, v) ==> v !in t && Blank(t'[v]))
  }

  ghost predicate Blank(words: seq<Entry>) {
    |words| == ENTRIES && forall i {:trigger words[i]} :: 0 < i < ENTRIES ==> words[i] == ZERO
  }

  ghost predicate Removed(t: Table, vptr: nat, n: nat, t': Table) {
    && (forall v {:trigger v in t'} :: v in t' <==> v in t && !InRange(vptr, n, v))
    && (forall v {:trigger v in t'} :: v in t' ==> t'[v] == t[v])
  }

  /** What a run is seen to pass through: the table, memory, and the frames still to be had. */
  datatype Shot = Shot(table: Table, ram: Ram, supply: nat)

  /** Pages may be mapped where nothing is, the client's pages unmapped; `base` is what is mapped beside the table. */
  predicate MayMap(base: Ram, root: nat, t: Table, vptr: nat, pages: nat, flags: bv64) {
    && MapFlags(flags) && pages <= SPAN
    && forall i {:trigger PageAt(vptr, i)} :: 0 <= i < pages ==>
         PageAt(vptr, i) !in t && Translate(base, root, PageAt(vptr, i)) == ZERO
  }

  predicate MayUnmap(t: Table, vptr: nat, pages: nat) {
    pages <= SPAN && forall i {:trigger PageAt(vptr, i)} :: 0 <= i < pages ==> PageAt(vptr, i) in t
  }

  /** What is mapped, which tables there are and how many frames are left after pages are mapped to the frames `fs`. */
  ghost predicate Maps(root: nat, vptr: nat, n: nat, flags: bv64, fs: seq<nat>, s: Shot, s': Shot) {
    && |fs| <= n && Bound(s.ram, s'.ram, root, vptr, fs, flags) && Need(s.ram, root, vptr, |fs|, 1) <= s.supply
    && if |fs| == n then Grown(s.ram, s'.ram, root, vptr, n) && s'.supply == s.supply - Need(s.ram, root, vptr, n, 1)
       else s.supply < Need(s.ram, root, vptr, |fs| + 1, 1) && s'.supply == 0
  }

  /** The same after pages are unmapped: no frame comes back to be handed out. */
  ghost predicate Unmaps(root: nat, vptr: nat, n: nat, s: Shot, s': Shot) {
    && (forall w {:trigger Translate(s'.ram, root, w)} ::
          Translate(s'.ram, root, w) == if InRange(vptr, n, w) then ZERO else Translate(s.ram, root, w))
    && (Snug(s.ram, root) ==> Snug(s'.ram, root)) && s'.supply == s.supply
  }

  /** The same after a store. */
  ghost predicate Stores(root: nat, s: Shot, s': Shot) {
    SameTranslations(s.ram, s'.ram, root) && SameHas(s.ram, s'.ram, root) && s'.supply == s.supply
  }

  /**
    One request: what may not be done changes nothing, a range is mapped in part only for want of
    frames, and how many frames are left is determined.
  */
  ghost predicate Step(base: Ram, root: nat, r: Request, s: Shot, s': Shot) {
    match r
    case Map(vptr, pages, flags) =>
      if !MayMap(base, root, s.table, vptr, pages, flags) then s' == s
      else exists fs {:trigger Maps(root, vptr, Visits(vptr, pages), flags, fs, s, s')} ::
        Maps(root, vptr, Visits(vptr, pages), flags, fs, s, s') && Added(s.table, vptr, |fs|, s'.table)
    case Unmap(vptr, pages) =>
      if !MayUnmap(s.table, vptr, pages) then s' == s
      else Removed(s.table, vptr, pages, s'.table) && Unmaps(root, vptr, pages, s, s')
    case Store(v, i, e) =>
      if v in s.table && i < |s.table[v]| then
        s'.table == s.table[v := s.table[v][i := e]] && Stores(root, s, s')
      else s' == s
  }

  /** The trace is a run of the first `n` requests. */
  ghost predicate IsRun(base: Ram, root: nat, rs: seq<Request>, trace: seq<Shot>, n: nat) {
    && |trace| == n + 1 && n <= |rs|
    && forall i: nat {:trigger StepAt(base, root, rs, trace, i)} :: i < n ==> StepAt(base, root, rs, trace, i)
  }

  ghost predicate StepAt(base: Ram, root: nat, rs: seq<Request>, trace: seq<Shot>, i: nat) {
    i < |rs| && i + 1 < |trace| && Step(base, root, rs[i], trace[i], trace[i + 1])
  }

  lemma RunMore(base: Ram, root: nat, rs: seq<Request>, trace: seq<Shot>, n: nat, s: Shot)
    requires IsRun(base, root, rs, trace, n) && n < |rs| && Step(base, root, rs[n], trace[n], s)
    ensures IsRun(base, root, rs, trace + [s], n + 1)
  {
    var more := trace + [s];
    forall i: nat {:trigger StepAt(base, root, rs, more, i)} | i < n + 1 ensures StepAt(base, root, rs, more, i) {
      if i < n { assert StepAt(base, root, rs, trace, i); }
      assert more[n] == trace[n] && more[n + 1] == s;
    }
  }

  // ---------- The table in memory ----------

  /** The page `v` is mapped to a frame of its own that holds `words`. */
  ghost predicate Holds(ram: Ram, root: nat, owned: set<nat>, v: Page, words: seq<Entry>) {
    var e := Translate(ram, root, v);
    PageOk(v) && Present(e) && e.ppn in owned && e.ppn in ram && ram[e.ppn] == words && |words| == ENTRIES
  }

  /** The pages of the table are mapped to different frames with their words, and all others as in `base`. */
  ghost predicate Represents(base: Ram, ram: Ram, root: nat, owned: set<nat>, t: Table) {
    && (forall v {:trigger v in t} :: v in t ==> Holds(ram, root, owned, v, t[v]) && Translate(base, root, v) == ZERO)
    && (forall v, w {:trigger v in t, w in t} :: v in t && w in t && v != w ==>
          Translate(ram, root, v).ppn != Translate(ram, root, w).ppn)
    && (forall w {:trigger Translate(ram, root, w)} :: w !in t ==> Translate(ram, root, w) == Translate(base, root, w))
  }

  /** The first `k` pages of a range, with the words of their frames. */
  ghost function FirstPages(ram: Ram, vptr: nat, fs: seq<nat>, k: nat): (t: Table)
    requires k <= |fs| && forall i {:trigger fs[i]} :: 0 <= i < |fs| ==> fs[i] in ram
    ensures forall v {:trigger v in t} :: v in t <==> InRange(vptr, k, v)
  {
    if k == 0 then map[]
    else
      assert forall v :: InRange(vptr, k, v) <==> InRange(vptr, k - 1, v) || v == PageAt(vptr, k - 1) by {
        forall v ensures InRange(vptr, k, v) <==> InRange(vptr, k - 1, v) || v == PageAt(vptr, k - 1) {
          RangeMore(vptr, k - 1, v);
        }
      }
      FirstPages(ram, vptr, fs, k - 1)[PageAt(vptr, k - 1) := ram[fs[k - 1]]]
  }

  lemma {:induction false} FirstPagesAt(ram: Ram, vptr: nat, fs: seq<nat>, k: nat, i: nat)
    requires i < k <= |fs| <= SPAN && forall i {:trigger fs[i]} :: 0 <= i < |fs| ==> fs[i] in ram
    ensures InRange(vptr, k, PageAt(vptr, i)) && FirstPages(ram, vptr, fs, k)[PageAt(vptr, i)] == ram[fs[i]]
  {
    assert InRange(vptr, k, PageAt(vptr, i));
    if i < k - 1 {
      FirstPagesAt(ram, vptr, fs, k - 1, i);
      PagesDiffer(vptr, i, k - 1);
    }
  }

  /** The pages of a range, with the words of their frames. */
  ghost function NewPages(ram: Ram, vptr: nat, fs: seq<nat>): (t: Table)
    requires forall f {:trigger f in fs} :: f in fs ==> f in ram
    ensures forall v {:trigger v in t} :: v in t <==> InRange(vptr, |fs|, v)
  {
    assert forall i {:trigger fs[i]} :: 0 <= i < |fs| ==> fs[i] in ram by {
      forall i | 0 <= i < |fs| ensures fs[i] in ram { assert fs[i] in fs; }
    }
    FirstPages(ram, vptr, fs, |fs|)
  }

  lemma NewPagesAt(ram: Ram, vptr: nat, fs: seq<nat>, i: nat)
    requires i < |fs| <= SPAN && forall f {:trigger f in fs} :: f in fs ==> f in ram
    ensures fs[i] in fs && PageAt(vptr, i) in NewPages(ram, vptr, fs) &&
              NewPages(ram, vptr, fs)[PageAt(vptr, i)] == ram[fs[i]]
  {
    forall i {:trigger fs[i]} | 0 <= i < |fs| ensures fs[i] in ram { assert fs[i] in fs; }
    FirstPagesAt(ram, vptr, fs, |fs|, i);
  }

  // ---------- Mapping ----------

  /** What vmalloc leaves when it starts where nothing is mapped. */
  ghost predicate MapFacts(base: Ram, ram: Ram, ram': Ram, root: nat, owned: set<nat>, tables: set<nat>, t: Table,
                           vptr: nat, fs: seq<nat>, flags: bv64)
  {
    && Represents(base, ram, root, owned, t) && MayMap(base, root, t, vptr, |fs|, flags)
    && Bound(ram, ram', root, vptr, fs, flags) && TablesWritten(ram, ram', tables)
    && (forall i, j {:trigger fs[i], fs[j]} :: 0 <= i < j < |fs| ==> fs[i] != fs[j])
    && owned !! tables && (forall f {:trigger f in fs} :: f in fs ==> ReadsZero(ram, f) && f !in owned && f !in tables)
  }

  lemma MapFrames(base: Ram, ram: Ram, ram': Ram, root: nat, owned: set<nat>, tables: set<nat>, t: Table, vptr: nat,
                  fs: seq<nat>, flags: bv64)
    requires MapFacts(base, ram, ram', root, owned, tables, t, vptr, fs, flags)
    ensures forall f {:trigger f in fs} :: f in fs ==> f in ram' && ram'[f] == ram[f] && Blank(ram'[f])
  {
    forall f {:trigger f in fs} | f in fs ensures f in ram' && ram'[f] == ram[f] && Blank(ram'[f]) {
      assert ReadsZero(ram, f);
      assert f in ram';
      forall i | 0 < i < ENTRIES ensures ram'[f][i] == ZERO { assert EntryAt(ram, f, i) == ZERO; }
    }
  }

  /** A page that the table had is held as before. */
  lemma MapOld(base: Ram, ram: Ram, ram': Ram, root: nat, owned: set<nat>, tables: set<nat>, t: Table, vptr: nat,
               fs: seq<nat>, flags: bv64, v: Page)
    requires MapFacts(base, ram, ram', root, owned, tables, t, vptr, fs, flags) && v in t
    ensures !InRange(vptr, |fs|, v) && Translate(ram', root, v) == Translate(ram, root, v)
    ensures Holds(ram', root, owned + Frames(fs), v, t[v]) && Translate(ram', root, v).ppn in owned
  {
    assert !InRange(vptr, |fs|, v);
    assert Holds(ram, root, owned, v, t[v]);
    assert Translate(ram', root, v) == Translate(ram, root, v);
    assert Translate(ram, root, v).ppn in ram';
  }

  /** A new page is held with the words of its frame. */
  lemma MapNew(base: Ram, ram: Ram, ram': Ram, root: nat, owned: set<nat>, tables: set<nat>, t: Table, vptr: nat,
               fs: seq<nat>, flags: bv64, v: Page) returns (i: nat)
    requires MapFacts(base, ram, ram', root, owned, tables, t, vptr, fs, flags) && InRange(vptr, |fs|, v)
    requires forall f {:trigger f in fs} :: f in fs ==> f in ram' && Blank(ram'[f])
    ensures i < |fs| && v == PageAt(vptr, i) && fs[i] in fs && Translate(ram', root, v) == Entry(fs[i], flags) &&
              v !in t
    ensures Holds(ram', root, owned + Frames(fs), v, NewPages(ram', vptr, fs)[v]) && Blank(NewPages(ram', vptr, fs)[v])
    ensures Translate(base, root, v) == ZERO
  {
    i :| i < |fs| && PageAt(vptr, i) == v;
    NewPagesAt(ram', vptr, fs, i);
    assert fs[i] in Frames(fs);
  }

  lemma MapKeeps(base: Ram, ram: Ram, ram': Ram, root: nat, owned: set<nat>, tables: set<nat>, t: Table, vptr: nat,
                 fs: seq<nat>, flags: bv64)
    requires MapFacts(base, ram, ram', root, owned, tables, t, vptr, fs, flags)
    requires forall f {:trigger f in fs} :: f in fs ==> f in ram' && Blank(ram'[f])
    ensures Represents(base, ram', root, owned + Frames(fs), t + NewPages(ram', vptr, fs))
    ensures Added(t, vptr, |fs|, t + NewPages(ram', vptr, fs))
  {
    var p := NewPages(ram', vptr, fs);
    var t' := t + p;
    forall v {:trigger v in t} | v in t ensures v !in p && t'[v] == t[v] {
      MapOld(base, ram, ram', root, owned, tables, t, vptr, fs, flags, v);
    }
    forall v {:trigger v in t'} | v in t'
      ensures Holds(ram', root, owned + Frames(fs), v, t'[v]) && Translate(base, root, v) == ZERO
    {
      if v in t {
        MapOld(base, ram, ram', root, owned, tables, t, vptr, fs, flags, v);
      } else {
        var i := MapNew(base, ram, ram', root, owned, tables, t, vptr, fs, flags, v);
      }
    }
    forall v, w | v in t' && w in t' && v != w
      ensures Translate(ram', root, v).ppn != Translate(ram', root, w).ppn
    {
      MapApart(base, ram, ram', root, owned, tables, t, vptr, fs, flags, v, w);
    }
    forall v {:trigger InRange(vptr, |fs|, v)} | InRange(vptr, |fs|, v) ensures v !in t && Blank(t'[v]) {
      var i := MapNew(base, ram, ram', root, owned, tables, t, vptr, fs, flags, v);
    }
  }

  lemma MapApart(base: Ram, ram: Ram, ram': Ram, root: nat, owned: set<nat>, tables: set<nat>, t: Table, vptr: nat,
                 fs: seq<nat>, flags: bv64, v: Page, w: Page)
    requires MapFacts(base, ram, ram', root, owned, tables, t, vptr, fs, flags) && v != w
    requires forall f {:trigger f in fs} :: f in fs ==> f in ram' && Blank(ram'[f])
    requires (v in t || InRange(vptr, |fs|, v)) && (w in t || InRange(vptr, |fs|, w))
    ensures Translate(ram', root, v).ppn != Translate(ram', root, w).ppn
  {
    if v in t {
      MapOld(base, ram, ram', root, owned, tables, t, vptr, fs, flags, v);
      if w in t {
        MapOld(base, ram, ram', root, owned, tables, t, vptr, fs, flags, w);
      } else {
        var j := MapNew(base, ram, ram', root, owned, tables, t, vptr, fs, flags, w);
      }
    } else {
      var i := MapNew(base, ram, ram', root, owned, tables, t, vptr, fs, flags, v);
      if w in t {
        MapOld(base, ram, ram', root, owned, tables, t, vptr, fs, flags, w);
      } else {
        var j := MapNew(base, ram, ram', root, owned, tables, t, vptr, fs, flags, w);
        assert i < j || j < i;
      }
    }
  }

  // ---------- Storing ----------

  /** New words for a page change that page of the table and nothing else. */
  lemma StoreKeeps(base: Ram, ram: Ram, ram': Ram, root: nat, owned: set<nat>, t: Table, v: Page, row: seq<Entry>)
    requires Represents(base, ram, root, owned, t) && v in t && |row| == ENTRIES
    requires ram' == ram[Translate(ram, root, v).ppn := row] && SameTranslations(ram, ram', root)
    ensures Represents(base, ram', root, owned, t[v := row])
  {
    var t' := t[v := row];
    forall w {:trigger w in t'} | w in t'
      ensures Holds(ram', root, owned, w, t'[w]) && Translate(base, root, w) == ZERO
      ensures Translate(ram', root, w) == Translate(ram, root, w)
    {
      assert w in t;
      assert Holds(ram, root, owned, w, t[w]);
      assert Translate(ram', root, w) == Translate(ram, root, w);
    }
    forall v, w | v in t' && w in t' && v != w
      ensures Translate(ram', root, v).ppn != Translate(ram', root, w).ppn
    {
      assert v in t && w in t;
    }
  }

  // ---------- Unmapping ----------

  /** What vfree leaves of a table whose pages from `vptr` on it was given. */
  ghost predicate UnmapFacts(space: AddressSpace, base: Ram, ram: Ram, ram': Ram, owned: set<nat>, tables: set<nat>,
                             t: Table, vptr: nat, n: nat)
  {
    && Represents(base, ram, space.root, owned, t) && MayUnmap(t, vptr, n) && owned !! tables
    && (forall f {:trigger f in owned} :: f in owned ==> f * PAGE_SIZE < space.memSize)
    && space.Unbound(ram, ram', vptr, n) && TablesWritten(ram, ram', tables)
  }

  /** A page outside the range keeps its frame and words; its frame is not given back. */
  lemma UnmapOther(space: AddressSpace, base: Ram, ram: Ram, ram': Ram, owned: set<nat>, tables: set<nat>,
                   t: Table, vptr: nat, n: nat, v: Page)
    requires UnmapFacts(space, base, ram, ram', owned, tables, t, vptr, n) && v in t && !InRange(vptr, n, v)
    ensures Translate(ram', space.root, v) == Translate(ram, space.root, v)
    ensures Holds(ram', space.root, owned - space.Gone(ram, vptr, n, true), v, t[v])
  {
    assert Holds(ram, space.root, owned, v, t[v]);
    assert Translate(ram', space.root, v) == Translate(ram, space.root, v);
    var f := Translate(ram, space.root, v).ppn;
    assert f in ram';
    if f in space.Gone(ram, vptr, n, true) {
      var i := space.GoneWhere(ram, vptr, n, true, f);
    }
  }

  /** A page of the range is as in `base` again. */
  lemma UnmapThis(space: AddressSpace, base: Ram, ram: Ram, ram': Ram, owned: set<nat>, tables: set<nat>,
                  t: Table, vptr: nat, n: nat, v: Page)
    requires UnmapFacts(space, base, ram, ram', owned, tables, t, vptr, n) && InRange(vptr, n, v)
    ensures v in t && Translate(ram', space.root, v) == ZERO == Translate(base, space.root, v)
  {
    var i: nat :| i < n && PageAt(vptr, i) == v;
    assert v in t;
    assert Holds(ram, space.root, owned, v, t[v]);
    assert Translate(ram', space.root, v) == space.Unmapped(Translate(ram, space.root, v));
  }

  lemma UnmapZero(space: AddressSpace, base: Ram, ram: Ram, ram': Ram, owned: set<nat>, tables: set<nat>,
                  t: Table, vptr: nat, n: nat)
    requires UnmapFacts(space, base, ram, ram', owned, tables, t, vptr, n)
    ensures forall w {:trigger Translate(ram', space.root, w)} ::
              Translate(ram', space.root, w) == if InRange(vptr, n, w) then ZERO else Translate(ram, space.root, w)
  {
    forall w {:trigger Translate(ram', space.root, w)}
      ensures Translate(ram', space.root, w) == if InRange(vptr, n, w) then ZERO else Translate(ram, space.root, w)
    {
      if InRange(vptr, n, w) { UnmapThis(space, base, ram, ram', owned, tables, t, vptr, n, w); }
    }
  }

  lemma SnugSame(ram: Ram, ram': Ram, root: nat)
    requires SameTranslations(ram, ram', root) && SameHas(ram, ram', root) && Snug(ram, root)
    ensures Snug(ram', root)
  {
    forall w, k: nat {:trigger HasTable(ram', root, k, w)} | 1 <= k <= 3
      ensures HasTable(ram', root, k, w) <==> MappedUnder(ram', root, k, w)
    {
      assert HasTable(ram', root, k, w) <==> HasTable(ram, root, k, w);
      if MappedUnder(ram, root, k, w) {
        var v :| Prefix(v, k) == Prefix(w, k) && Translate(ram, root, v) != ZERO;
        assert Translate(ram', root, v) != ZERO;
      }
    }
  }

  lemma WipedThenUnmapped(root: nat, vptr: nat, n: nat, s: Shot, s1: Shot, s': Shot)
    requires Stores(root, s, s1) && Unmaps(root, vptr, n, s1, s')
    ensures Unmaps(root, vptr, n, s, s')
  {
    if Snug(s.ram, root) { SnugSame(s.ram, s1.ram, root); }
    forall w {:trigger Translate(s'.ram, root, w)}
      ensures Translate(s'.ram, root, w) == if InRange(vptr, n, w) then ZERO else Translate(s.ram, root, w)
    {
      assert Translate(s1.ram, root, w) == Translate(s.ram, root, w);
    }
  }

  ghost function Without(t: Table, vptr: nat, n: nat): Table {
    map v {:trigger v in t} | v in t && !InRange(vptr, n, v) :: t[v]
  }

  lemma UnmapKeeps(space: AddressSpace, base: Ram, ram: Ram, ram': Ram, owned: set<nat>, tables: set<nat>,
                   t: Table, vptr: nat, n: nat)
    requires UnmapFacts(space, base, ram, ram', owned, tables, t, vptr, n)
    ensures Represents(base, ram', space.root, owned - space.Gone(ram, vptr, n, true), Without(t, vptr, n))
  {
    var t', root := Without(t, vptr, n), space.root;
    forall v {:trigger v in t'} | v in t'
      ensures Holds(ram', root, owned - space.Gone(ram, vptr, n, true), v, t'[v]) && Translate(base, root, v) == ZERO
      ensures Translate(ram', root, v) == Translate(ram, root, v)
    {
      UnmapOther(space, base, ram, ram', owned, tables, t, vptr, n, v);
    }
    forall v, w | v in t' && w in t' && v != w
      ensures Translate(ram', root, v).ppn != Translate(ram', root, w).ppn
    {
      assert v in t && w in t;
    }
    forall w {:trigger Translate(ram', root, w)} | w !in t'
      ensures Translate(ram', root, w) == Translate(base, root, w)
    {
      if InRange(vptr, n, w) {
        UnmapThis(space, base, ram, ram', owned, tables, t, vptr, n, w);
      } else {
        assert Translate(ram', root, w) == Translate(ram, root, w);
      }
    }
  }

  ghost predicate AllZero(t: Table, vptr: nat, n: nat) {
    forall i {:trigger PageAt(vptr, i)} :: 0 <= i < n ==> PageAt(vptr, i) in t && t[PageAt(vptr, i)] == ZeroRow()
  }

  /** The first `n` pages of the range are wiped, and no other page is touched. */
  ghost predicate Wiped(was: Table, t: Table, vptr: nat, n: nat) {
    && t.Keys == was.Keys && AllZero(t, vptr, n)
    && forall v {:trigger v in t} :: v in t && !InRange(vptr, n, v) ==> t[v] == was[v]
  }

  lemma WipedMore(was: Table, t: Table, vptr: nat, n: nat, pages: nat)
    requires Wiped(was, t, vptr, n) && n < pages && MayUnmap(was, vptr, pages)
    ensures PageAt(vptr, n) in t && Wiped(was, t[PageAt(vptr, n) := ZeroRow()], vptr, n + 1)
  {
    var v := PageAt(vptr, n);
    assert v in was;
    var t' := t[v := ZeroRow()];
    forall w {:trigger w in t'} | w in t' && !InRange(vptr, n + 1, w) ensures t'[w] == was[w] {
      RangeMore(vptr, n, w);
      assert w in t;
    }
  }

  /** What vfree demands, for pages of the table that have been wiped. */
  lemma UnmapFreeable(space: AddressSpace, base: Ram, ram: Ram, owned: set<nat>, t: Table, vptr: nat, n: nat)
    requires Represents(base, ram, space.root, owned, t) && MayUnmap(t, vptr, n)
    requires forall f {:trigger f in owned} :: f in owned ==> f * PAGE_SIZE < space.memSize
    requires AllZero(t, vptr, n)
    ensures space.Freeable(ram, vptr, n, true, owned)
    ensures AllReadZero(ram, space.Gone(ram, vptr, n, true))
  {
    var root := space.root;
    forall i: nat {:trigger PageAt(vptr, i)} | i < n
      ensures PageAt(vptr, i) in t && Holds(ram, root, owned, PageAt(vptr, i), ZeroRow())
      ensures space.Data(true, Translate(ram, root, PageAt(vptr, i))) == {Translate(ram, root, PageAt(vptr, i)).ppn}
    {
      assert PageAt(vptr, i) in t;
      assert Holds(ram, root, owned, PageAt(vptr, i), t[PageAt(vptr, i)]);
    }
    forall f | f in space.Gone(ram, vptr, n, true) ensures ReadsZero(ram, f) {
      var i := space.GoneWhere(ram, vptr, n, true, f);
      assert Holds(ram, root, owned, PageAt(vptr, i), ZeroRow());
    }
  }

  // ---------- The client ----------

  class Client {
    const space: AddressSpace
    /** The pages that the client has mapped; their words are in memory. */
    var mine: set<Page>
    ghost var table: Table
    /** Memory as it was found: what is mapped beside the table. */
    ghost const base: Ram

    ghost predicate Valid()
      reads this, space, space.bulk, space.pool, space.pool.pmm, space.pool.pmm.store
    {
      && space.Valid() && space.Clean() && mine == table.Keys
      && Represents(base, space.ram, space.root, space.owned, table)
    }

    ghost function Now(): Shot
      requires space.Valid()
      reads this, space, space.bulk, space.pool, space.pool.pmm, space.pool.pmm.store
    {
      Shot(table, space.ram, space.Supply())
    }

    constructor (space: AddressSpace)
      requires space.Valid() && space.Clean()
      ensures Valid() && this.space == space && table == map[] && base == space.ram
    {
      this.space, mine, table, base := space, {}, map[], space.ram;
    }

    /** The client may map the range: none of its pages is mapped. */
    method CheckMap(vptr: nat, pages: nat, flags: bv64) returns (ok: bool)
      requires Valid()
      ensures ok == MayMap(base, space.root, table, vptr, pages, flags)
    {
      if !MapFlags(flags) || pages > SPAN {
        return false;
      }
      for i := 0 to pages
        invariant forall k {:trigger PageAt(vptr, k)} :: 0 <= k < i ==>
                    PageAt(vptr, k) !in table && Translate(base, space.root, PageAt(vptr, k)) == ZERO
      {
        var v := PageAt(vptr, i);
        assert v !in table ==> Translate(space.ram, space.root, v) == Translate(base, space.root, v);
        if v in mine || Translate(space.ram, space.root, v) != ZERO {
          return false;
        }
      }
      ok := true;
    }

    method CheckUnmap(vptr: nat, pages: nat) returns (ok: bool)
      requires Valid()
      ensures ok == MayUnmap(table, vptr, pages)
    {
      if pages > SPAN {
        return false;
      }
      for i := 0 to pages
        invariant forall k {:trigger PageAt(vptr, k)} :: 0 <= k < i ==> PageAt(vptr, k) in table
      {
        if PageAt(vptr, i) !in mine {
          return false;
        }
      }
      ok := true;
    }

    /** vmalloc, where it may be. */
    method DoMap(vptr: nat, pages: nat, flags: bv64)
      requires Valid()
      modifies this, space, space.bulk, space.pool, space.pool.pmm, space.pool.pmm.store
      ensures Valid() && Step(base, space.root, Map(vptr, pages, flags), old(Now()), Now())
    {
      var ok := CheckMap(vptr, pages, flags);
      if ok {
        MapRange(vptr, pages, flags);
      }
    }

    method MapRange(vptr: nat, pages: nat, flags: bv64)
      requires Valid() && MayMap(base, space.root, table, vptr, pages, flags)
      modifies this, space, space.bulk, space.pool, space.pool.pmm, space.pool.pmm.store
      ensures Valid() && Step(base, space.root, Map(vptr, pages, flags), old(Now()), Now())
    {
      ghost var s, owned0 := Now(), space.owned;
      ghost var fs := TakeRange(vptr, pages, flags);
      MapFrames(base, s.ram, space.ram, space.root, owned0, space.kind.Keys, table, vptr, fs, flags);
      MapKeeps(base, s.ram, space.ram, space.root, owned0, space.kind.Keys, table, vptr, fs, flags);
      table := table + NewPages(space.ram, vptr, fs);
      RecordNew(vptr, pages, |fs|);
      assert Maps(space.root, vptr, Visits(vptr, pages), flags, fs, s, Now());
    }

    /** vmalloc of pages where nothing is mapped. */
    method TakeRange(vptr: nat, pages: nat, flags: bv64) returns (ghost fs: seq<nat>)
      requires Valid() && MayMap(base, space.root, table, vptr, pages, flags)
      modifies space, space.bulk, space.pool, space.pool.pmm, space.pool.pmm.store
      ensures space.Valid() && space.Clean() && |fs| <= pages && space.owned == old(space.owned) + Frames(fs)
      ensures MapFacts(base, old(space.ram), space.ram, space.root, old(space.owned), space.kind.Keys, table, vptr, fs,
                       flags)
      ensures Maps(space.root, vptr, Visits(vptr, pages), flags, fs, old(Now()), Shot(table, space.ram, space.Supply()))
    {
      ghost var ram0, owned0, unused := space.ram, space.owned, space.pool.free + space.Remaining();
      var r, stuck, held;
      r, stuck, held, fs := space.Vmalloc(vptr, pages, flags);
      MapFacted(base, ram0, space.ram, space.root, owned0, unused, space.kind.Keys, table, vptr, pages, fs, flags);
    }

    /** The pages of the range that are mapped now are the client's. */
    method RecordNew(vptr: nat, pages: nat, ghost k: nat)
      requires Represents(base, space.ram, space.root, space.owned, table) && k <= pages
      requires forall v {:trigger v in table} :: v in table <==> v in mine || InRange(vptr, k, v)
      requires forall i {:trigger PageAt(vptr, i)} :: 0 <= i < pages ==>
                Translate(base, space.root, PageAt(vptr, i)) == ZERO
      modifies this`mine
      ensures mine == table.Keys
    {
      ghost var was := mine;
      NewOnes(base, space.ram, space.root, space.owned, table, vptr, pages);
      mine := mine + set i {:trigger PageAt(vptr, i)} |
        0 <= i < pages && Translate(space.ram, space.root, PageAt(vptr, i)) != ZERO :: PageAt(vptr, i);
      forall v | v in table ensures v in mine {
        if v !in was {
          var i: nat :| i < k && PageAt(vptr, i) == v;
          assert PageAt(vptr, i) in table;
        }
      }
    }

    /** Every page of the range is wiped. */
    method WipeRange(vptr: nat, pages: nat)
      requires Valid() && MayUnmap(table, vptr, pages)
      modifies this`table, space`ram
      ensures Valid() && Wiped(old(table), table, vptr, pages) && Stores(space.root, old(Now()), Now())
    {
      for i := 0 to pages
        invariant Valid() && Wiped(old(table), table, vptr, i) && Stores(space.root, old(Now()), Now())
      {
        WipedMore(old(table), table, vptr, i, pages);
        Overwrite(PageAt(vptr, i), ZeroRow());
      }
    }

    /** The words of a page of the client are replaced. */
    method Overwrite(v: Page, row: seq<Entry>)
      requires Valid() && v in table && |row| == ENTRIES
      modifies this`table, space`ram
      ensures Valid() && table == old(table)[v := row] && Stores(space.root, old(Now()), Now())
    {
      ghost var ram0 := space.ram;
      assert Holds(space.ram, space.root, space.owned, v, table[v]);
      var f := Translate(space.ram, space.root, v).ppn;
      space.WriteFrame(f, row);
      StoreKeeps(base, ram0, space.ram, space.root, space.owned, table, v, row);
      table := table[v := row];
    }

    /** The pages are wiped and then given to vfree, where they are the client's. */
    method DoUnmap(vptr: nat, pages: nat)
      requires Valid()
      modifies this, space, space.pool, space.pool.pmm, space.pool.pmm.store
      ensures Valid() && Step(base, space.root, Unmap(vptr, pages), old(Now()), Now())
    {
      var ok := CheckUnmap(vptr, pages);
      if ok {
        ghost var s := Now();
        WipeRange(vptr, pages);
        ghost var s1 := Now();
        UnmapRange(vptr, pages);
        WipedThenUnmapped(space.root, vptr, pages, s, s1, Now());
      }
    }

    method UnmapRange(vptr: nat, pages: nat)
      requires Valid() && MayUnmap(table, vptr, pages)
      requires AllZero(table, vptr, pages)
      modifies this, space, space.pool, space.pool.pmm, space.pool.pmm.store
      ensures Valid() && table == Without(old(table), vptr, pages) && Unmaps(space.root, vptr, pages, old(Now()), Now())
    {
      ghost var ram0, owned0, tables := space.ram, space.owned, space.kind.Keys;
      FreeRange(vptr, pages);
      UnmapZero(space, base, ram0, space.ram, owned0, tables, table, vptr, pages);
      UnmapKeeps(space, base, ram0, space.ram, owned0, tables, table, vptr, pages);
      table := Without(table, vptr, pages);
      var gone := set i {:trigger PageAt(vptr, i)} | 0 <= i < pages :: PageAt(vptr, i);
      assert forall v :: v in gone <==> InRange(vptr, pages, v);
      mine := mine - gone;
    }

    /** vfree of pages of the client that are wiped. */
    method FreeRange(vptr: nat, pages: nat)
      requires Valid() && MayUnmap(table, vptr, pages) && AllZero(table, vptr, pages)
      modifies space, space.pool, space.pool.pmm, space.pool.pmm.store
      ensures space.Valid() && space.Clean() && space.Supply() == old(space.Supply())
      ensures UnmapFacts(space, base, old(space.ram), space.ram, old(space.owned), old(space.kind.Keys), table, vptr,
                         pages)
      ensures space.owned == old(space.owned) - space.Gone(old(space.ram), vptr, pages, true)
      ensures old(Snug(space.ram, space.root)) ==> Snug(space.ram, space.root)
    {
      ghost var ram0, owned0, root := space.ram, space.owned, space.root;
      OwnedBelow();
      UnmapFreeable(space, base, ram0, owned0, table, vptr, pages);
      FreeableBusy(vptr, pages);
      if Snug(ram0, root) { SnugIsTight(ram0, root, space.kind, space.home); }
      space.Vfree(vptr, pages, true);
      if Tight(space.ram, root, space.kind) { TightIsSnug(space.ram, root, space.kind, space.home); }
    }

    lemma OwnedBelow()
      requires space.Valid()
      ensures forall f {:trigger f in space.owned} :: f in space.owned ==> f * PAGE_SIZE < space.memSize
    {
      forall f | f in space.owned ensures f * PAGE_SIZE < space.memSize { assert Usable(f, space.pool.Pages()); }
    }

    lemma FreeableBusy(vptr: nat, pages: nat)
      requires space.Valid() && space.Freeable(space.ram, vptr, pages, true, space.owned)
      ensures space.Freeable(space.ram, vptr, pages, true, space.Busy())
    {
      forall f | f in space.owned ensures f in space.Busy() {
        assert Usable(f, space.pool.Pages());
        assert space.Loose(f);
      }
    }

    /** A store into a page of the client. */
    method DoStore(v: Page, i: nat, e: Entry)
      requires Valid()
      modifies this, space`ram
      ensures Valid() && Step(base, space.root, Store(v, i, e), old(Now()), Now())
    {
      if v in mine && i < ENTRIES {
        assert Holds(space.ram, space.root, space.owned, v, table[v]);
        var row := space.ram[Translate(space.ram, space.root, v).ppn];
        Overwrite(v, row[i := e]);
      } else if v in mine {
        assert Holds(space.ram, space.root, space.owned, v, table[v]);
      }
    }

    method Do(r: Request)
      requires Valid()
      modifies this, space, space.bulk, space.pool, space.pool.pmm, space.pool.pmm.store
      ensures Valid() && Step(base, space.root, r, old(Now()), Now())
    {
      match r
      case Map(vptr, pages, flags) => DoMap(vptr, pages, flags);
      case Unmap(vptr, pages) => DoUnmap(vptr, pages);
      case Store(v, i, e) => DoStore(v, i, e);
    }

    /** Every run of requests is a run of the table. */
    method Run(rs: seq<Request>) returns (ghost trace: seq<Shot>)
      requires Valid()
      modifies this, space, space.bulk, space.pool, space.pool.pmm, space.pool.pmm.store
      ensures Valid() && IsRun(base, space.root, rs, trace, |rs|) && trace[0] == old(Now()) && trace[|rs|] == Now()
    {
      trace := [Now()];
      for k := 0 to |rs|
        invariant Valid() && IsRun(base, space.root, rs, trace, k) && trace[0] == old(Now()) && trace[k] == Now()
      {
        Do(rs[k]);
        RunMore(base, space.root, rs, trace, k, Now());
        trace := trace + [Now()];
      }
    }
  }

  lemma NewOnes(base: Ram, ram: Ram, root: nat, owned: set<nat>, t: Table, vptr: nat, pages: nat)
    requires Represents(base, ram, root, owned, t)
    requires forall i {:trigger PageAt(vptr, i)} :: 0 <= i < pages ==> Translate(base, root, PageAt(vptr, i)) == ZERO
    ensures forall i {:trigger PageAt(vptr, i)} :: 0 <= i < pages ==>
              (Translate(ram, root, PageAt(vptr, i)) != ZERO <==> PageAt(vptr, i) in t)
  {
    forall i {:trigger PageAt(vptr, i)} | 0 <= i < pages
      ensures Translate(ram, root, PageAt(vptr, i)) != ZERO <==> PageAt(vptr, i) in t
    {
      var v := PageAt(vptr, i);
      if v in t {
        assert Holds(ram, root, owned, v, t[v]);
      } else {
        assert Translate(ram, root, v) == Translate(base, root, v);
      }
    }
  }

  lemma MapFacted(base: Ram, ram: Ram, ram': Ram, root: nat, owned: set<nat>, unused: set<nat>, tables: set<nat>,
                  t: Table, vptr: nat, pages: nat, fs: seq<nat>, flags: bv64)
    requires Represents(base, ram, root, owned, t) && MayMap(base, root, t, vptr, pages, flags) && |fs| <= pages
    requires Bound(ram, ram', root, vptr, fs, flags) && TablesWritten(ram, ram', tables) && FreshFrames(fs, unused)
    requires AllReadZero(ram, unused) && unused !! owned && owned + Frames(fs) !! tables
    ensures MapFacts(base, ram, ram', root, owned, tables, t, vptr, fs, flags)
  {
    forall f {:trigger f in fs} | f in fs ensures ReadsZero(ram, f) && f !in owned && f !in tables {
      assert f in Frames(fs);
    }
  }

  // ---------- What every run spends ----------

  lemma {:induction false} NeedAtLeast(ram: Ram, root: nat, vptr: nat, n: nat)
    ensures n <= Need(ram, root, vptr, n, 1)
  {
    if n > 0 { NeedAtLeast(ram, root, vptr, n - 1); }
  }

  ghost function RangeSet(vptr: nat, n: nat): (r: set<Page>)
    ensures |r| <= n && forall v {:trigger v in r} :: v in r <==> InRange(vptr, n, v)
  {
    if n == 0 then {}
    else
      var r := RangeSet(vptr, n - 1);
      assert forall v :: InRange(vptr, n, v) <==> InRange(vptr, n - 1, v) || v == PageAt(vptr, n - 1) by {
        forall v ensures InRange(vptr, n, v) <==> InRange(vptr, n - 1, v) || v == PageAt(vptr, n - 1) {
          RangeMore(vptr, n - 1, v);
        }
      }
      r + {PageAt(vptr, n - 1)}
  }

  lemma FewerIn(r: set<Page>, t: set<Page>)
    requires r <= t
    ensures |r| <= |t|
  {
    assert t == r + (t - r);
  }

  /** A step uses up a frame for each page that it maps, at least, and no step brings one back. */
  lemma StepSpends(base: Ram, root: nat, r: Request, s: Shot, s': Shot)
    requires Step(base, root, r, s, s')
    ensures |s'.table.Keys - s.table.Keys| + s'.supply <= s.supply
  {
    var added := s'.table.Keys - s.table.Keys;
    match r
    case Map(vptr, pages, flags) =>
      if MayMap(base, root, s.table, vptr, pages, flags) {
        var fs :| Maps(root, vptr, Visits(vptr, pages), flags, fs, s, s') && Added(s.table, vptr, |fs|, s'.table);
        NeedAtLeast(s.ram, root, vptr, |fs|);
        FewerIn(added, RangeSet(vptr, |fs|));
      } else {
        assert added == {};
      }
    case Unmap(vptr, pages) =>
      assert added == {};
    case Store(v, i, e) =>
      assert added == {};
  }

  /** The pages that a step maps. */
  ghost function Gain(s: Shot, s': Shot): nat {
    |s'.table.Keys - s.table.Keys|
  }

  /** The pages that the first `n` steps of a run map, counted again where they are mapped again. */
  ghost function PagesMapped(trace: seq<Shot>, n: nat): nat
    requires n < |trace|
  {
    if n == 0 then 0 else PagesMapped(trace, n - 1) + Gain(trace[n - 1], trace[n])
  }

  /** The i-th step uses up a frame for each page that it maps. */
  ghost predicate SpendsAt(trace: seq<Shot>, i: nat) {
    i + 1 < |trace| && Gain(trace[i], trace[i + 1]) + trace[i + 1].supply <= trace[i].supply
  }

  lemma EveryStepSpends(base: Ram, root: nat, rs: seq<Request>, trace: seq<Shot>)
    requires IsRun(base, root, rs, trace, |rs|)
    ensures forall i: nat {:trigger SpendsAt(trace, i)} :: i < |rs| ==> SpendsAt(trace, i)
  {
    forall i: nat {:trigger SpendsAt(trace, i)} | i < |rs| ensures SpendsAt(trace, i) {
      assert StepAt(base, root, rs, trace, i);
      StepSpends(base, root, rs[i], trace[i], trace[i + 1]);
    }
  }

  lemma {:induction false} StepsSpend(trace: seq<Shot>, n: nat)
    requires n < |trace| && forall i: nat {:trigger SpendsAt(trace, i)} :: i < n ==> SpendsAt(trace, i)
    ensures PagesMapped(trace, n) + trace[n].supply <= trace[0].supply
  {
    if n > 0 {
      StepsSpend(trace, n - 1);
      assert SpendsAt(trace, n - 1);
    }
  }

  /**
    Over every run the pages mapped are at most the frames that could be had at its start: mapping
    and unmapping in turns runs out.
  */
  lemma RunSpends(base: Ram, root: nat, rs: seq<Request>, trace: seq<Shot>)
    requires IsRun(base, root, rs, trace, |rs|)
    ensures PagesMapped(trace, |rs|) + trace[|rs|].supply <= trace[0].supply
  {
    EveryStepSpends(base, root, rs, trace);
    StepsSpend(trace, |rs|);
  }

  // ---------- Runs are determined ----------

  /** The same pages are mapped and the same number of frames is left; and tables are there for mapped pages. */
  ghost predicate Alike(root: nat, s: Shot, u: Shot) {
    && s.table.Keys == u.table.Keys && s.supply == u.supply
    && (forall v {:trigger v in s.table} {:trigger v in u.table} :: v in s.table ==> |s.table[v]| == |u.table[v]|)
    && (forall v {:trigger Translate(s.ram, root, v)} {:trigger Translate(u.ram, root, v)} ::
          Translate(s.ram, root, v) == ZERO <==> Translate(u.ram, root, v) == ZERO)
    && (s.supply == 0 || (Snug(s.ram, root) && Snug(u.ram, root)))
  }

  /** Where tables are there for mapped pages, the mapped pages tell which there are. */
  lemma SnugTables(ram: Ram, other: Ram, root: nat, k: nat, w: Page)
    requires Snug(ram, root) && Snug(other, root) && 1 <= k <= 3
    requires forall v {:trigger Translate(ram, root, v)} {:trigger Translate(other, root, v)} ::
               Translate(ram, root, v) == ZERO <==> Translate(other, root, v) == ZERO
    ensures HasTable(ram, root, k, w) <==> HasTable(other, root, k, w)
  {
    if HasTable(ram, root, k, w) {
      var v :| Prefix(v, k) == Prefix(w, k) && Translate(ram, root, v) != ZERO;
      assert Translate(other, root, v) != ZERO;
    }
    if HasTable(other, root, k, w) {
      var v :| Prefix(v, k) == Prefix(w, k) && Translate(other, root, v) != ZERO;
      assert Translate(ram, root, v) != ZERO;
    }
  }

  lemma {:induction false} NeedSame(ram: Ram, other: Ram, root: nat, vptr: nat, n: nat)
    requires Snug(ram, root) && Snug(other, root)
    requires forall v {:trigger Translate(ram, root, v)} {:trigger Translate(other, root, v)} ::
               Translate(ram, root, v) == ZERO <==> Translate(other, root, v) == ZERO
    ensures Need(ram, root, vptr, n, 1) == Need(other, root, vptr, n, 1)
  {
    if n > 0 {
      NeedSame(ram, other, root, vptr, n - 1);
      SnugTables(ram, other, root, 3, PageAt(vptr, n - 1));
      SnugTables(ram, other, root, 2, PageAt(vptr, n - 1));
      SnugTables(ram, other, root, 1, PageAt(vptr, n - 1));
    }
  }

  /** Mapping keeps tables there for mapped pages. */
  lemma GrownSnug(ram: Ram, ram': Ram, root: nat, vptr: nat, fs: seq<nat>, flags: bv64)
    requires Snug(ram, root) && Grown(ram, ram', root, vptr, |fs|) && Bound(ram, ram', root, vptr, fs, flags)
    requires |fs| <= SPAN && MapFlags(flags)
    ensures Snug(ram', root)
  {
    forall w, k: nat {:trigger HasTable(ram', root, k, w)} | 1 <= k <= 3
      ensures HasTable(ram', root, k, w) <==> MappedUnder(ram', root, k, w)
    {
      if HasTable(ram', root, k, w) { GrownMapped(ram, ram', root, vptr, fs, flags, w, k); }
      if MappedUnder(ram', root, k, w) {
        var v :| Prefix(v, k) == Prefix(w, k) && Translate(ram', root, v) != ZERO;
        MappedHasTable(ram', root, k, v, w);
      }
    }
  }

  lemma GrownMapped(ram: Ram, ram': Ram, root: nat, vptr: nat, fs: seq<nat>, flags: bv64, w: Page, k: nat)
    requires Snug(ram, root) && Grown(ram, ram', root, vptr, |fs|) && Bound(ram, ram', root, vptr, fs, flags)
    requires |fs| <= SPAN && MapFlags(flags) && 1 <= k <= 3 && HasTable(ram', root, k, w)
    ensures MappedUnder(ram', root, k, w)
  {
    if Led(vptr, |fs|, w, k) {
      var j: nat :| j < |fs| && Leads(vptr, j, w, k);
      assert Translate(ram', root, PageAt(vptr, j)) == Entry(fs[j], flags);
    } else {
      assert HasTable(ram, root, k, w);
      var v :| Prefix(v, k) == Prefix(w, k) && Translate(ram, root, v) != ZERO;
      BoundMapped(ram, ram', root, vptr, fs, flags, v);
    }
  }

  /** A page is mapped afterwards if and only if it was or is in the range. */
  lemma BoundMapped(ram: Ram, ram': Ram, root: nat, vptr: nat, fs: seq<nat>, flags: bv64, v: Page)
    requires Bound(ram, ram', root, vptr, fs, flags) && |fs| <= SPAN && MapFlags(flags)
    ensures Translate(ram', root, v) != ZERO <==> Translate(ram, root, v) != ZERO || InRange(vptr, |fs|, v)
  {
    assert flags != 0;
    if InRange(vptr, |fs|, v) {
      var i: nat :| i < |fs| && PageAt(vptr, i) == v;
      assert Translate(ram', root, PageAt(vptr, i)) == Entry(fs[i], flags);
    }
  }

  /** As many pages are mapped. */
  lemma AsMany(root: nat, vptr: nat, n: nat, flags: bv64, fs: seq<nat>, gs: seq<nat>,
               s: Shot, s': Shot, u: Shot, u': Shot)
    requires Alike(root, s, u) && Maps(root, vptr, n, flags, fs, s, s') && Maps(root, vptr, n, flags, gs, u, u')
    ensures |fs| <= |gs| && (|fs| == |gs| ==> s'.supply == u'.supply)
  {
    NotFewer(root, vptr, |fs|, |gs|, n, s, u);
    SameNeed(root, vptr, n, s, u);
  }

  lemma NotFewer(root: nat, vptr: nat, k: nat, l: nat, n: nat, s: Shot, u: Shot)
    requires Alike(root, s, u) && k <= n && Need(s.ram, root, vptr, k, 1) <= s.supply
    requires l == n || u.supply < Need(u.ram, root, vptr, l + 1, 1)
    ensures k <= l
  {
    NeedAtLeast(s.ram, root, vptr, k);
    if l < k { NeedAcross(root, vptr, l + 1, k, s, u); }
  }

  lemma NeedAcross(root: nat, vptr: nat, l: nat, k: nat, s: Shot, u: Shot)
    requires Alike(root, s, u) && s.supply > 0 && l <= k
    ensures Need(u.ram, root, vptr, l, 1) <= Need(s.ram, root, vptr, k, 1)
  {
    NeedSame(s.ram, u.ram, root, vptr, l);
    NeedMore(s.ram, root, vptr, l, k, 1);
  }

  lemma SameNeed(root: nat, vptr: nat, n: nat, s: Shot, u: Shot)
    requires Alike(root, s, u)
    ensures Need(s.ram, root, vptr, n, 1) <= s.supply && Need(u.ram, root, vptr, n, 1) <= u.supply ==>
              Need(s.ram, root, vptr, n, 1) == Need(u.ram, root, vptr, n, 1)
  {
    if s.supply > 0 {
      NeedSame(s.ram, u.ram, root, vptr, n);
    } else {
      NeedAtLeast(s.ram, root, vptr, n);
      NeedAtLeast(u.ram, root, vptr, n);
    }
  }

  lemma MapAlike(base: Ram, root: nat, vptr: nat, n: nat, flags: bv64, fs: seq<nat>, gs: seq<nat>,
                 s: Shot, s': Shot, u: Shot, u': Shot)
    requires Alike(root, s, u) && Maps(root, vptr, n, flags, fs, s, s') && Maps(root, vptr, n, flags, gs, u, u')
    requires Added(s.table, vptr, |fs|, s'.table) && Added(u.table, vptr, |gs|, u'.table)
    requires n <= SPAN && MapFlags(flags)
    ensures Alike(root, s', u')
  {
    AsMany(root, vptr, n, flags, fs, gs, s, s', u, u');
    AsMany(root, vptr, n, flags, gs, fs, u, u', s, s');
    forall v {:trigger Translate(s'.ram, root, v)} {:trigger Translate(u'.ram, root, v)}
      ensures Translate(s'.ram, root, v) == ZERO <==> Translate(u'.ram, root, v) == ZERO
    {
      BoundMapped(s.ram, s'.ram, root, vptr, fs, flags, v);
      BoundMapped(u.ram, u'.ram, root, vptr, gs, flags, v);
    }
    AddedAlike(vptr, |fs|, s.table, s'.table, u.table, u'.table);
    if s'.supply > 0 {
      GrownSnug(s.ram, s'.ram, root, vptr, fs, flags);
      GrownSnug(u.ram, u'.ram, root, vptr, gs, flags);
    }
  }

  lemma AddedAlike(vptr: nat, k: nat, t: Table, t': Table, u: Table, u': Table)
    requires t.Keys == u.Keys && Added(t, vptr, k, t') && Added(u, vptr, k, u')
    requires forall v {:trigger v in t} {:trigger v in u} :: v in t ==> |t[v]| == |u[v]|
    ensures t'.Keys == u'.Keys
    ensures forall v {:trigger v in t'} {:trigger v in u'} :: v in t' ==> |t'[v]| == |u'[v]|
  {
    forall v ensures v in t' <==> v in u' { assert v in t <==> v in u; }
    forall v {:trigger v in t'} | v in t' ensures |t'[v]| == |u'[v]| {
      if v in t { assert v in u; } else { assert InRange(vptr, k, v); }
    }
  }

  lemma UnmapAlike(root: nat, vptr: nat, n: nat, s: Shot, s': Shot, u: Shot, u': Shot)
    requires Alike(root, s, u) && Unmaps(root, vptr, n, s, s') && Unmaps(root, vptr, n, u, u')
    requires Removed(s.table, vptr, n, s'.table) && Removed(u.table, vptr, n, u'.table)
    ensures Alike(root, s', u')
  {
    forall v ensures v in s'.table <==> v in u'.table { assert v in s.table <==> v in u.table; }
    forall v {:trigger Translate(s'.ram, root, v)} {:trigger Translate(u'.ram, root, v)}
      ensures Translate(s'.ram, root, v) == ZERO <==> Translate(u'.ram, root, v) == ZERO
    {
      assert Translate(s.ram, root, v) == ZERO <==> Translate(u.ram, root, v) == ZERO;
    }
    forall v {:trigger v in s'.table} | v in s'.table ensures |s'.table[v]| == |u'.table[v]| {
      assert v in s.table && v in u'.table && v in u.table;
    }
  }

  lemma StoreAlike(root: nat, v: Page, i: nat, e: Entry, s: Shot, s': Shot, u: Shot, u': Shot)
    requires Alike(root, s, u) && Stores(root, s, s') && Stores(root, u, u') && v in s.table && v in u.table
    requires i < |s.table[v]| && s'.table == s.table[v := s.table[v][i := e]]
    requires i < |u.table[v]| && u'.table == u.table[v := u.table[v][i := e]]
    ensures Alike(root, s', u')
  {
    forall w {:trigger Translate(s'.ram, root, w)} {:trigger Translate(u'.ram, root, w)}
      ensures Translate(s'.ram, root, w) == ZERO <==> Translate(u'.ram, root, w) == ZERO
    {
      assert Translate(s'.ram, root, w) == Translate(s.ram, root, w);
      assert Translate(u'.ram, root, w) == Translate(u.ram, root, w);
    }
    forall w {:trigger w in s'.table} | w in s'.table ensures |s'.table[w]| == |u'.table[w]| {
      assert w in s.table && w in u.table;
    }
    if s.supply > 0 {
      SnugSame(s.ram, s'.ram, root);
      SnugSame(u.ram, u'.ram, root);
    }
  }

  lemma StepAlike(base: Ram, root: nat, r: Request, s: Shot, s': Shot, u: Shot, u': Shot)
    requires Alike(root, s, u) && Step(base, root, r, s, s') && Step(base, root, r, u, u')
    ensures Alike(root, s', u')
  {
    match r
    case Map(vptr, pages, flags) =>
      assert MayMap(base, root, s.table, vptr, pages, flags) == MayMap(base, root, u.table, vptr, pages, flags);
      if MayMap(base, root, s.table, vptr, pages, flags) {
        var n := Visits(vptr, pages);
        var fs :| Maps(root, vptr, n, flags, fs, s, s') && Added(s.table, vptr, |fs|, s'.table);
        var gs :| Maps(root, vptr, n, flags, gs, u, u') && Added(u.table, vptr, |gs|, u'.table);
        MapAlike(base, root, vptr, n, flags, fs, gs, s, s', u, u');
      }
    case Unmap(vptr, pages) =>
      assert MayUnmap(s.table, vptr, pages) == MayUnmap(u.table, vptr, pages);
      if MayUnmap(s.table, vptr, pages) { UnmapAlike(root, vptr, pages, s, s', u, u'); }
    case Store(v, i, e) =>
      if v in s.table && i < |s.table[v]| {
        assert v in u.table;
        StoreAlike(root, v, i, e, s, s', u, u');
      }
  }

  /**
    Two runs of the same requests from the same start, in which tables are there for mapped pages,
    map the same pages at every step and have the same number of frames left.
  */
  lemma {:induction false} RunsAlike(base: Ram, root: nat, rs: seq<Request>, trace: seq<Shot>, other: seq<Shot>, k: nat)
    requires IsRun(base, root, rs, trace, |rs|) && IsRun(base, root, rs, other, |rs|) && k <= |rs|
    requires Alike(root, trace[0], other[0])
    ensures Alike(root, trace[k], other[k])
  {
    if k > 0 {
      RunsAlike(base, root, rs, trace, other, k - 1);
      assert StepAt(base, root, rs, trace, k - 1) && StepAt(base, root, rs, other, k - 1);
      StepAlike(base, root, rs[k - 1], trace[k - 1], trace[k], other[k - 1], other[k]);
    }
  }
}
