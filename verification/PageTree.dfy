/**
  The 4-level page tables as a tree of frames, and the flat map from virtual
  page to entry that a walk of the tree computes. The three ways in which the
  kernel changes the tree (linking an empty table, setting a last-level entry,
  unlinking an empty table) are shown here to change the flat map nowhere, in
  one page, and nowhere.
*/
module PageTree {

  /** A 64-bit table entry: the frame number in bits 12 to 51, and all other bits. */
  datatype Entry = Entry(ppn: nat, flags: bv64)

  const ZERO: Entry := Entry(0, 0)
  const ENTRIES: nat := 512

  predicate Present(e: Entry) {
    e.flags & 1 == 1
  }

  /** A virtual page: its index in each of the four levels. */
  datatype Page = Page(p4: nat, p3: nat, p2: nat, p1: nat)

  function Index(v: Page, level: nat): nat {
    if level >= 4 then v.p4 else if level == 3 then v.p3 else if level == 2 then v.p2 else v.p1
  }

  /** Physical memory, frame by frame, read as tables. */
  type Ram = map<nat, seq<Entry>>

  function EntryAt(ram: Ram, t: nat, i: nat): Entry {
    if t in ram && i < |ram[t]| then ram[t][i] else ZERO
  }

  function WithEntry(ram: Ram, t: nat, i: nat, e: Entry): Ram
    requires t in ram && i < |ram[t]|
  {
    ram[t := ram[t][i := e]]
  }

  ghost predicate Empty(ram: Ram, t: nat) {
    forall i: nat {:trigger EntryAt(ram, t, i)} :: EntryAt(ram, t, i) == ZERO
  }

  // ---------- Walking ----------

  /** The last-level entry that a walk for `v` from the table `t` of level `l` ends at. */
  function Walk(ram: Ram, t: nat, l: nat, v: Page): Entry
    decreases l, t
  {
    var e := EntryAt(ram, t, Index(v, l));
    if l <= 1 then e else if e == ZERO then ZERO else Walk(ram, e.ppn, l - 1, v)
  }

  datatype Option<T> = None | Some(value: T)

  /** The table of level `k` on the way of `v` from the table `t` of level `l`. */
  function Reach(ram: Ram, t: nat, l: nat, k: nat, v: Page): Option<nat>
    requires k <= l
    decreases l, t
  {
    if l == k then Some(t)
    else
      var e := EntryAt(ram, t, Index(v, l));
      if e == ZERO then None else Reach(ram, e.ppn, l - 1, k, v)
  }

  /** The flat map of an address space. */
  function Translate(ram: Ram, root: nat, v: Page): Entry {
    Walk(ram, root, 4, v)
  }

  ghost predicate SameTranslations(ram: Ram, ram': Ram, root: nat) {
    forall v {:trigger Translate(ram', root, v)} :: Translate(ram', root, v) == Translate(ram, root, v)
  }

  /** The flat map changes in the page `v` alone, to `e`. */
  ghost predicate OneTranslation(ram: Ram, ram': Ram, root: nat, v: Page, e: Entry) {
    forall w {:trigger Translate(ram', root, w)} ::
      Translate(ram', root, w) == if w == v then e else Translate(ram, root, w)
  }

  // ---------- The tree ----------

  datatype Slot = Slot(table: nat, index: nat)

  /** Which frames are tables, of which level, and which entry points to each. */
  type Levels = map<nat, nat>
  type Homes = map<nat, Slot>

  ghost predicate TableOk(ram: Ram, kind: Levels, t: nat)
    requires t in kind
  {
    t in ram && |ram[t]| == ENTRIES && 1 <= kind[t] <= 4
  }

  /** An upper entry that is not zero is present and points to a table of the next level. */
  ghost predicate ChildOk(ram: Ram, kind: Levels, home: Homes, t: nat, i: nat)
    requires t in kind
  {
    var e := EntryAt(ram, t, i);
    && Present(e) && e.ppn in kind && kind[e.ppn] + 1 == kind[t]
    && e.ppn in home && home[e.ppn] == Slot(t, i)
  }

  /** A table other than the root is pointed to by its home. */
  ghost predicate HomeOk(ram: Ram, kind: Levels, home: Homes, c: nat)
    requires c in kind
  {
    && c in home
    && var h := home[c];
       && h.table in kind && kind[h.table] == kind[c] + 1 && h.index < ENTRIES
       && EntryAt(ram, h.table, h.index) != ZERO && EntryAt(ram, h.table, h.index).ppn == c
  }

  ghost predicate Tree(ram: Ram, root: nat, kind: Levels, home: Homes) {
    && root in kind && kind[root] == 4
    && (forall t {:trigger TableOk(ram, kind, t)} :: t in kind ==> TableOk(ram, kind, t))
    && (forall t, i: nat {:trigger ChildOk(ram, kind, home, t, i)} ::
          t in kind && kind[t] > 1 && EntryAt(ram, t, i) != ZERO ==> ChildOk(ram, kind, home, t, i))
    && (forall c {:trigger HomeOk(ram, kind, home, c)} :: c in kind && c != root ==> HomeOk(ram, kind, home, c))
  }

  lemma EntryAtWith(ram: Ram, t: nat, i: nat, e: Entry, t': nat, i': nat)
    requires t in ram && i < |ram[t]|
    ensures EntryAt(WithEntry(ram, t, i, e), t', i') == if t' == t && i' == i then e else EntryAt(ram, t', i')
  {
  }

  // ---------- Linking an empty table ----------

  /** What linking the frame `f`, which reads as zero, below (t, i) needs. */
  ghost predicate Linkable(ram: Ram, root: nat, kind: Levels, home: Homes, t: nat, i: nat, f: nat, e: Entry) {
    && Tree(ram, root, kind, home) && t in kind && kind[t] > 1 && i < ENTRIES
    && EntryAt(ram, t, i) == ZERO
    && f !in kind && f in ram && |ram[f]| == ENTRIES && Empty(ram, f)
    && Present(e) && e.ppn == f
  }

  lemma {:induction false} LinkWalk(ram: Ram, root: nat, kind: Levels, home: Homes, t: nat, i: nat, f: nat, e: Entry,
                 x: nat, l: nat, v: Page)
    requires Linkable(ram, root, kind, home, t, i, f, e) && x in kind && kind[x] == l && TableOk(ram, kind, t)
    ensures Walk(WithEntry(ram, t, i, e), x, l, v) == Walk(ram, x, l, v)
    decreases l
  {
    assert TableOk(ram, kind, x);
    var ram' := WithEntry(ram, t, i, e);
    var j := Index(v, l);
    EntryAtWith(ram, t, i, e, x, j);
    if l > 1 {
      if x == t && j == i {
        EntryAtWith(ram, t, i, e, f, Index(v, l - 1));
        assert EntryAt(ram, f, Index(v, l - 1)) == ZERO;
      } else if EntryAt(ram, x, j) != ZERO {
        assert ChildOk(ram, kind, home, x, j);
        LinkWalk(ram, root, kind, home, t, i, f, e, EntryAt(ram, x, j).ppn, l - 1, v);
      }
    }
  }

  /** Linking an empty table keeps the tree a tree and changes no translation. */
  lemma LinkKeeps(ram: Ram, root: nat, kind: Levels, home: Homes, t: nat, i: nat, f: nat, e: Entry)
    requires Linkable(ram, root, kind, home, t, i, f, e) && TableOk(ram, kind, t)
    ensures Tree(WithEntry(ram, t, i, e), root, kind[f := kind[t] - 1], home[f := Slot(t, i)])
    ensures SameTranslations(ram, WithEntry(ram, t, i, e), root)
  {
    var ram', kind', home' := WithEntry(ram, t, i, e), kind[f := kind[t] - 1], home[f := Slot(t, i)];
    forall x | x in kind' ensures TableOk(ram', kind', x) {
      if x != f { assert TableOk(ram, kind, x); }
    }
    forall x, j: nat | x in kind' && kind'[x] > 1 && EntryAt(ram', x, j) != ZERO
      ensures ChildOk(ram', kind', home', x, j)
    {
      EntryAtWith(ram, t, i, e, x, j);
      assert EntryAt(ram, f, j) == ZERO;
      if x != f && !(x == t && j == i) {
        assert ChildOk(ram, kind, home, x, j);
      }
    }
    forall c | c in kind' && c != root ensures HomeOk(ram', kind', home', c) {
      if c == f {
        EntryAtWith(ram, t, i, e, t, i);
      } else {
        assert HomeOk(ram, kind, home, c);
        EntryAtWith(ram, t, i, e, home[c].table, home[c].index);
      }
    }
    forall v ensures Translate(ram', root, v) == Translate(ram, root, v) {
      LinkWalk(ram, root, kind, home, t, i, f, e, root, 4, v);
    }
  }

  /** What was reached before linking is still reached. */
  lemma {:induction false} LinkReach(ram: Ram, t: nat, i: nat, e: Entry, x: nat, l: nat, k: nat, v: Page)
    requires t in ram && i < |ram[t]| && EntryAt(ram, t, i) == ZERO && k <= l && Reach(ram, x, l, k, v).Some?
    ensures Reach(WithEntry(ram, t, i, e), x, l, k, v) == Reach(ram, x, l, k, v)
    decreases l
  {
    if k < l {
      EntryAtWith(ram, t, i, e, x, Index(v, l));
      LinkReach(ram, t, i, e, EntryAt(ram, x, Index(v, l)).ppn, l - 1, k, v);
    }
  }

  // ---------- Reaching ----------

  /** The way to level k - 1 is the way to level k and one entry more. */
  lemma {:induction false} ReachStep(ram: Ram, x: nat, l: nat, k: nat, v: Page)
    requires 0 < k <= l
    ensures var r := Reach(ram, x, l, k, v);
            Reach(ram, x, l, k - 1, v) ==
              if r.None? || EntryAt(ram, r.value, Index(v, k)) == ZERO then None
              else Some(EntryAt(ram, r.value, Index(v, k)).ppn)
    decreases l
  {
    if k < l && EntryAt(ram, x, Index(v, l)) != ZERO {
      ReachStep(ram, EntryAt(ram, x, Index(v, l)).ppn, l - 1, k, v);
    }
  }

  /** A walk is the way to some level and a walk from there. */
  lemma {:induction false} WalkFrom(ram: Ram, x: nat, l: nat, k: nat, v: Page)
    requires 1 <= k <= l
    ensures var r := Reach(ram, x, l, k, v);
            Walk(ram, x, l, v) == if r.None? then ZERO else Walk(ram, r.value, k, v)
    decreases l
  {
    if k < l && EntryAt(ram, x, Index(v, l)) != ZERO {
      WalkFrom(ram, EntryAt(ram, x, Index(v, l)).ppn, l - 1, k, v);
    }
  }

  /** What is reached is a table of that level. */
  lemma {:induction false} ReachTable(ram: Ram, root: nat, kind: Levels, home: Homes, x: nat, l: nat, k: nat, v: Page)
    requires Tree(ram, root, kind, home) && x in kind && kind[x] == l && 1 <= k <= l
    requires Reach(ram, x, l, k, v).Some?
    ensures var t := Reach(ram, x, l, k, v).value; t in kind && kind[t] == k
    decreases l
  {
    if k < l {
      assert ChildOk(ram, kind, home, x, Index(v, l));
      ReachTable(ram, root, kind, home, EntryAt(ram, x, Index(v, l)).ppn, l - 1, k, v);
    }
  }

  /** The n-th table above `t`. */
  ghost function Above(home: Homes, t: nat, n: nat): nat {
    if n == 0 then t else
      var c := Above(home, t, n - 1);
      if c in home then home[c].table else c
  }

  lemma {:induction false} AboveReached(ram: Ram, root: nat, kind: Levels, home: Homes, x: nat, l: nat, k: nat, v: Page)
    requires Tree(ram, root, kind, home) && x in kind && kind[x] == l && 1 <= k <= l
    requires Reach(ram, x, l, k, v).Some?
    ensures Above(home, Reach(ram, x, l, k, v).value, l - k) == x
    decreases l
  {
    if k < l {
      assert ChildOk(ram, kind, home, x, Index(v, l));
      AboveReached(ram, root, kind, home, EntryAt(ram, x, Index(v, l)).ppn, l - 1, k, v);
    }
  }

  /** Two pages reach the same table only by the same indices. */
  lemma {:induction false} SameWay(ram: Ram, root: nat, kind: Levels, home: Homes, x: nat, l: nat, k: nat, v: Page,
                                   w: Page)
    requires Tree(ram, root, kind, home) && x in kind && kind[x] == l && 1 <= k <= l
    requires Reach(ram, x, l, k, v).Some? && Reach(ram, x, l, k, w) == Reach(ram, x, l, k, v)
    ensures forall m :: k < m <= l ==> Index(v, m) == Index(w, m)
    decreases l
  {
    if k < l {
      assert ChildOk(ram, kind, home, x, Index(v, l));
      assert ChildOk(ram, kind, home, x, Index(w, l));
      var c, d := EntryAt(ram, x, Index(v, l)).ppn, EntryAt(ram, x, Index(w, l)).ppn;
      AboveReached(ram, root, kind, home, c, l - 1, k, v);
      AboveReached(ram, root, kind, home, d, l - 1, k, w);
      SameWay(ram, root, kind, home, c, l - 1, k, v, w);
    }
  }

  // ---------- Setting a last-level entry ----------

  lemma {:induction false} SetLeafWalk(ram: Ram, root: nat, kind: Levels, home: Homes, t: nat, i: nat, e: Entry,
                    x: nat, l: nat, v: Page)
    requires Tree(ram, root, kind, home) && t in kind && kind[t] == 1 && i < ENTRIES && TableOk(ram, kind, t)
    requires x in kind && kind[x] == l
    ensures Walk(WithEntry(ram, t, i, e), x, l, v) ==
            if l >= 1 && Reach(ram, x, l, 1, v) == Some(t) && v.p1 == i then e else Walk(ram, x, l, v)
    decreases l
  {
    assert TableOk(ram, kind, x);
    var j := Index(v, l);
    EntryAtWith(ram, t, i, e, x, j);
    if l > 1 && EntryAt(ram, x, j) != ZERO {
      assert ChildOk(ram, kind, home, x, j);
      SetLeafWalk(ram, root, kind, home, t, i, e, EntryAt(ram, x, j).ppn, l - 1, v);
    }
  }

  /** An entry of the table `t` matters to the way below `t` only. */
  lemma {:induction false} EntryReach(ram: Ram, root: nat, kind: Levels, home: Homes, t: nat, i: nat, e: Entry,
                   x: nat, l: nat, k: nat, v: Page)
    requires Tree(ram, root, kind, home) && t in kind && kind[t] <= k && i < ENTRIES && TableOk(ram, kind, t)
    requires x in kind && kind[x] == l && 1 <= k <= l
    ensures Reach(WithEntry(ram, t, i, e), x, l, k, v) == Reach(ram, x, l, k, v)
    decreases l
  {
    var j := Index(v, l);
    EntryAtWith(ram, t, i, e, x, j);
    if k < l && EntryAt(ram, x, j) != ZERO {
      assert ChildOk(ram, kind, home, x, j);
      EntryReach(ram, root, kind, home, t, i, e, EntryAt(ram, x, j).ppn, l - 1, k, v);
    }
  }

  /** Setting the last-level entry of `v` changes the translation of `v` and no other. */
  lemma SetLeafKeeps(ram: Ram, root: nat, kind: Levels, home: Homes, t: nat, v: Page, e: Entry)
    requires Tree(ram, root, kind, home) && v.p1 < ENTRIES
    requires Reach(ram, root, 4, 1, v) == Some(t) && t in kind && kind[t] == 1 && TableOk(ram, kind, t)
    ensures Tree(WithEntry(ram, t, v.p1, e), root, kind, home)
    ensures OneTranslation(ram, WithEntry(ram, t, v.p1, e), root, v, e)
  {
    var ram' := WithEntry(ram, t, v.p1, e);
    forall x | x in kind ensures TableOk(ram', kind, x) { assert TableOk(ram, kind, x); }
    forall x, j: nat | x in kind && kind[x] > 1 && EntryAt(ram', x, j) != ZERO ensures ChildOk(ram', kind, home, x, j) {
      EntryAtWith(ram, t, v.p1, e, x, j);
      assert ChildOk(ram, kind, home, x, j);
    }
    forall c | c in kind && c != root ensures HomeOk(ram', kind, home, c) {
      assert HomeOk(ram, kind, home, c);
      EntryAtWith(ram, t, v.p1, e, home[c].table, home[c].index);
    }
    forall w ensures Translate(ram', root, w) == if w == v then e else Translate(ram, root, w) {
      SetLeafWalk(ram, root, kind, home, t, v.p1, e, root, 4, w);
      if Reach(ram, root, 4, 1, w) == Some(t) && w.p1 == v.p1 {
        SameWay(ram, root, kind, home, root, 4, 1, v, w);
        assert Index(v, 4) == Index(w, 4) && Index(v, 3) == Index(w, 3) && Index(v, 2) == Index(w, 2);
      }
    }
  }

  // ---------- Unlinking an empty table ----------

  lemma {:induction false} UnlinkWalk(ram: Ram, root: nat, kind: Levels, home: Homes, t: nat, i: nat,
                   x: nat, l: nat, v: Page)
    requires Tree(ram, root, kind, home) && t in kind && kind[t] > 1 && i < ENTRIES && TableOk(ram, kind, t)
    requires Empty(ram, EntryAt(ram, t, i).ppn)
    requires x in kind && kind[x] == l
    ensures Walk(WithEntry(ram, t, i, ZERO), x, l, v) == Walk(ram, x, l, v)
    decreases l
  {
    assert TableOk(ram, kind, x);
    var j := Index(v, l);
    EntryAtWith(ram, t, i, ZERO, x, j);
    if l > 1 && EntryAt(ram, x, j) != ZERO {
      if x == t && j == i {
        assert EntryAt(ram, EntryAt(ram, t, i).ppn, Index(v, l - 1)) == ZERO;
      } else {
        assert ChildOk(ram, kind, home, x, j);
        UnlinkWalk(ram, root, kind, home, t, i, EntryAt(ram, x, j).ppn, l - 1, v);
      }
    }
  }

  /** Unlinking an empty table keeps the tree a tree and changes no translation. */
  lemma UnlinkKeeps(ram: Ram, root: nat, kind: Levels, home: Homes, t: nat, i: nat, f: nat)
    requires Tree(ram, root, kind, home) && t in kind && kind[t] > 1 && i < ENTRIES && TableOk(ram, kind, t)
    requires EntryAt(ram, t, i) != ZERO && EntryAt(ram, t, i).ppn == f && Empty(ram, f)
    ensures Tree(WithEntry(ram, t, i, ZERO), root, kind - {f}, home)
    ensures SameTranslations(ram, WithEntry(ram, t, i, ZERO), root)
  {
    var ram', kind' := WithEntry(ram, t, i, ZERO), kind - {f};
    assert ChildOk(ram, kind, home, t, i);
    forall x | x in kind' ensures TableOk(ram', kind', x) { assert TableOk(ram, kind, x); }
    forall x, j: nat | x in kind' && kind'[x] > 1 && EntryAt(ram', x, j) != ZERO
      ensures ChildOk(ram', kind', home, x, j)
    {
      EntryAtWith(ram, t, i, ZERO, x, j);
      assert ChildOk(ram, kind, home, x, j);
    }
    forall c | c in kind' && c != root ensures HomeOk(ram', kind', home, c) {
      assert HomeOk(ram, kind, home, c);
      EntryAtWith(ram, t, i, ZERO, home[c].table, home[c].index);
      assert EntryAt(ram, f, home[c].index) == ZERO;
    }
    forall v ensures Translate(ram', root, v) == Translate(ram, root, v) {
      UnlinkWalk(ram, root, kind, home, t, i, root, 4, v);
    }
  }

  // ---------- Frames outside the tree ----------

  ghost predicate SameTables(ram: Ram, ram': Ram, kind: Levels) {
    forall t {:trigger t in ram'} :: t in kind && t in ram ==> t in ram' && ram'[t] == ram[t]
  }

  lemma {:induction false} OffTreeReach(ram: Ram, ram': Ram, root: nat, kind: Levels, home: Homes,
                                        x: nat, l: nat, k: nat, v: Page)
    requires Tree(ram, root, kind, home) && SameTables(ram, ram', kind) && x in kind && kind[x] == l && 1 <= k <= l
    ensures Reach(ram', x, l, k, v) == Reach(ram, x, l, k, v)
    ensures k == 1 ==> Walk(ram', x, l, v) == Walk(ram, x, l, v)
    decreases l
  {
    assert TableOk(ram, kind, x);
    var j := Index(v, l);
    assert EntryAt(ram', x, j) == EntryAt(ram, x, j);
    if k < l && EntryAt(ram, x, j) != ZERO {
      assert ChildOk(ram, kind, home, x, j);
      OffTreeReach(ram, ram', root, kind, home, EntryAt(ram, x, j).ppn, l - 1, k, v);
    }
  }

  /** A write to a frame that is no table changes nothing. */
  lemma OffTreeKeeps(ram: Ram, ram': Ram, root: nat, kind: Levels, home: Homes)
    requires Tree(ram, root, kind, home) && SameTables(ram, ram', kind)
    ensures Tree(ram', root, kind, home) && SameTranslations(ram, ram', root)
  {
    forall x | x in kind
      ensures TableOk(ram', kind, x)
      ensures forall j :: EntryAt(ram', x, j) == EntryAt(ram, x, j)
    {
      assert TableOk(ram, kind, x);
    }
    forall x, j: nat | x in kind && kind[x] > 1 && EntryAt(ram', x, j) != ZERO ensures ChildOk(ram', kind, home, x, j) {
      assert ChildOk(ram, kind, home, x, j);
    }
    forall c | c in kind && c != root ensures HomeOk(ram', kind, home, c) { assert HomeOk(ram, kind, home, c); }
    forall v ensures Translate(ram', root, v) == Translate(ram, root, v) {
      OffTreeReach(ram, ram', root, kind, home, root, 4, 1, v);
    }
  }

  // ---------- No table without an entry ----------

  /** Every table but the root, and but `x`, has an entry. */
  ghost predicate TightBut(ram: Ram, root: nat, kind: Levels, x: nat) {
    forall t {:trigger Empty(ram, t)} :: t in kind && t != root && t != x ==> !Empty(ram, t)
  }

  /** No table but the root is empty. */
  ghost predicate Tight(ram: Ram, root: nat, kind: Levels) {
    TightBut(ram, root, kind, root)
  }

  lemma EmptyWith(ram: Ram, t: nat, i: nat, e: Entry, x: nat)
    requires t in ram && i < |ram[t]|
    ensures x != t ==> (Empty(WithEntry(ram, t, i, e), x) <==> Empty(ram, x))
    ensures e != ZERO ==> !Empty(WithEntry(ram, t, i, e), t)
  {
    var ram' := WithEntry(ram, t, i, e);
    if x != t {
      forall j: nat ensures EntryAt(ram', x, j) == EntryAt(ram, x, j) { EntryAtWith(ram, t, i, e, x, j); }
    }
    EntryAtWith(ram, t, i, e, t, i);
  }

  /** Writing to the table that may be empty keeps the others filled; a non-zero entry fills it too. */
  lemma TightWith(ram: Ram, root: nat, kind: Levels, t: nat, i: nat, e: Entry)
    requires t in ram && i < |ram[t]| && TightBut(ram, root, kind, t)
    ensures TightBut(WithEntry(ram, t, i, e), root, kind, t)
    ensures e != ZERO ==> Tight(WithEntry(ram, t, i, e), root, kind)
  {
    forall x | x in kind && x != root && (x != t || e != ZERO) ensures !Empty(WithEntry(ram, t, i, e), x) {
      EmptyWith(ram, t, i, e, x);
      assert x != t ==> !Empty(ram, x);
    }
  }

  // ---------- A tight tree is no larger than its flat map ----------

  function WithIndex(v: Page, l: nat, i: nat): (w: Page)
    requires 1 <= l <= 4
    ensures Index(w, l) == i
    ensures forall m :: 1 <= m <= 4 && m != l ==> Index(w, m) == Index(v, m)
  {
    if l >= 4 then v.(p4 := i) else if l == 3 then v.(p3 := i) else if l == 2 then v.(p2 := i) else v.(p1 := i)
  }

  lemma {:induction false} ReachSame(ram: Ram, x: nat, l: nat, k: nat, v: Page, w: Page)
    requires k <= l && forall m :: k < m <= l ==> Index(v, m) == Index(w, m)
    ensures Reach(ram, x, l, k, v) == Reach(ram, x, l, k, w)
    decreases l
  {
    if k < l {
      assert Index(v, l) == Index(w, l);
      ReachSame(ram, EntryAt(ram, x, Index(v, l)).ppn, l - 1, k, v, w);
    }
  }

  /** Every table is on the way of some page. */
  lemma {:induction false} EveryTableReached(ram: Ram, root: nat, kind: Levels, home: Homes, t: nat) returns (v: Page)
    requires Tree(ram, root, kind, home) && t in kind && TableOk(ram, kind, t)
    ensures Reach(ram, root, 4, kind[t], v) == Some(t)
    decreases 4 - kind[t]
  {
    if t == root {
      v := Page(0, 0, 0, 0);
    } else {
      assert HomeOk(ram, kind, home, t);
      var h := home[t];
      assert TableOk(ram, kind, h.table);
      var u := EveryTableReached(ram, root, kind, home, h.table);
      var k := kind[h.table];
      v := WithIndex(u, k, h.index);
      ReachSame(ram, root, 4, k, u, v);
      ReachStep(ram, root, 4, k, v);
    }
  }

  /** Below a filled table of a tight tree there is a mapped page. */
  lemma {:induction false} FilledIsMapped(ram: Ram, root: nat, kind: Levels, home: Homes, t: nat, l: nat, u: Page)
    returns (v: Page)
    requires Tree(ram, root, kind, home) && Tight(ram, root, kind)
    requires t in kind && kind[t] == l && !Empty(ram, t) && 1 <= l <= 4
    ensures Walk(ram, t, l, v) != ZERO
    ensures forall m :: l < m <= 4 ==> Index(v, m) == Index(u, m)
    decreases l
  {
    var i: nat :| EntryAt(ram, t, i) != ZERO;
    v := WithIndex(u, l, i);
    if l > 1 {
      assert ChildOk(ram, kind, home, t, i);
      var c := EntryAt(ram, t, i).ppn;
      assert !Empty(ram, c);
      v := FilledIsMapped(ram, root, kind, home, c, l - 1, v);
      assert Index(v, l) == i;
    }
  }

  /** In a tight tree every table but the root is there for some mapped page that it leads to. */
  lemma NoIdleTable(ram: Ram, root: nat, kind: Levels, home: Homes, t: nat) returns (v: Page)
    requires Tree(ram, root, kind, home) && Tight(ram, root, kind) && t in kind && t != root && TableOk(ram, kind, t)
    ensures Reach(ram, root, 4, kind[t], v) == Some(t) && Translate(ram, root, v) != ZERO
  {
    var u := EveryTableReached(ram, root, kind, home, t);
    assert !Empty(ram, t);
    v := FilledIsMapped(ram, root, kind, home, t, kind[t], u);
    ReachSame(ram, root, 4, kind[t], u, v);
    WalkFrom(ram, root, 4, kind[t], v);
  }

  // ---------- Linking a frame that is not cleared ----------

  /** The memory after a frame `f` is cleared in word 0 alone and linked below (t, i). */
  function LinkedUncleared(ram: Ram, t: nat, i: nat, f: nat, e: Entry): Ram
    requires t in ram && i < |ram[t]| && f in ram && 0 < |ram[f]| && f != t
  {
    WithEntry(ram[f := ram[f][0 := ZERO]], t, i, e)
  }

  ghost predicate Unclearable(ram: Ram, root: nat, kind: Levels, home: Homes, t: nat, i: nat, f: nat, e: Entry) {
    && Tree(ram, root, kind, home) && t in kind && kind[t] > 1 && i < ENTRIES && TableOk(ram, kind, t)
    && EntryAt(ram, t, i) == ZERO && f !in kind && f in ram && |ram[f]| == ENTRIES && Present(e) && e.ppn == f
  }

  lemma {:induction false} UnclearedWalk(ram: Ram, root: nat, kind: Levels, home: Homes, t: nat, i: nat, f: nat,
                                         e: Entry, x: nat, l: nat, v: Page)
    requires Unclearable(ram, root, kind, home, t, i, f, e) && kind[t] == 2 && x in kind && kind[x] == l
    ensures Walk(LinkedUncleared(ram, t, i, f, e), x, l, v) ==
            if l >= 2 && Reach(ram, x, l, 2, v) == Some(t) && v.p2 == i
            then (if v.p1 == 0 then ZERO else EntryAt(ram, f, v.p1))
            else Walk(ram, x, l, v)
    decreases l
  {
    assert TableOk(ram, kind, x);
    var ram1 := ram[f := ram[f][0 := ZERO]];
    var ram' := LinkedUncleared(ram, t, i, f, e);
    var j := Index(v, l);
    EntryAtWith(ram1, t, i, e, x, j);
    assert EntryAt(ram1, x, j) == EntryAt(ram, x, j);
    if l > 1 {
      if x == t && j == i {
        EntryAtWith(ram1, t, i, e, f, v.p1);
      } else if EntryAt(ram, x, j) != ZERO {
        assert ChildOk(ram, kind, home, x, j);
        UnclearedWalk(ram, root, kind, home, t, i, f, e, EntryAt(ram, x, j).ppn, l - 1, v);
      }
    }
  }

  /** A new last-level table brings its words from 1 on into the flat map. */
  lemma UnclearedLeaf(ram: Ram, root: nat, kind: Levels, home: Homes, t: nat, i: nat, f: nat, e: Entry)
    requires Unclearable(ram, root, kind, home, t, i, f, e) && kind[t] == 2 && !ZeroFromOne(ram, f)
    ensures !SameTranslations(ram, LinkedUncleared(ram, t, i, f, e), root)
  {
    var j: nat :| j > 0 && EntryAt(ram, f, j) != ZERO;
    var u := EveryTableReached(ram, root, kind, home, t);
    var v := u.(p2 := i, p1 := j);
    ReachSame(ram, root, 4, 2, u, v);
    UnclearedWalk(ram, root, kind, home, t, i, f, e, root, 4, v);
    WalkFrom(ram, root, 4, 2, v);
    assert Translate(LinkedUncleared(ram, t, i, f, e), root, v) != Translate(ram, root, v);
  }

  /** A new upper table has entries that lead to no table of its own. */
  lemma UnclearedUpper(ram: Ram, root: nat, kind: Levels, home: Homes, t: nat, i: nat, f: nat, e: Entry)
    requires Unclearable(ram, root, kind, home, t, i, f, e) && kind[t] > 2 && !ZeroFromOne(ram, f)
    ensures !Tree(LinkedUncleared(ram, t, i, f, e), root, kind[f := kind[t] - 1], home[f := Slot(t, i)])
  {
    var j: nat :| j > 0 && EntryAt(ram, f, j) != ZERO;
    var ram', kind', home' := LinkedUncleared(ram, t, i, f, e), kind[f := kind[t] - 1], home[f := Slot(t, i)];
    EntryAtWith(ram[f := ram[f][0 := ZERO]], t, i, e, f, j);
    var c := EntryAt(ram', f, j).ppn;
    assert TableOk(ram, kind, t);
    if c in kind && c != root { assert HomeOk(ram, kind, home, c); }
    assert !ChildOk(ram', kind', home', f, j);
  }

  /** The frame reads as zero, its first word aside. */
  ghost predicate ZeroFromOne(ram: Ram, f: nat) {
    forall j: nat {:trigger EntryAt(ram, f, j)} :: j > 0 ==> EntryAt(ram, f, j) == ZERO
  }

  /**
    pagingAllocTable clears word 0 and no other. Linking a new table that way, on any level, leaves
    the tables a tree and every translation as it was if and only if the frame read as zero from
    word 1 on.
  */
  lemma UnclearedExactly(ram: Ram, root: nat, kind: Levels, home: Homes, t: nat, i: nat, f: nat, e: Entry)
    requires Unclearable(ram, root, kind, home, t, i, f, e)
    ensures var ram' := LinkedUncleared(ram, t, i, f, e);
            Tree(ram', root, kind[f := kind[t] - 1], home[f := Slot(t, i)]) && SameTranslations(ram, ram', root)
            <==> ZeroFromOne(ram, f)
  {
    if ZeroFromOne(ram, f) {
      var ram1 := ram[f := ram[f][0 := ZERO]];
      assert SameTables(ram, ram1, kind);
      OffTreeKeeps(ram, ram1, root, kind, home);
      forall j: nat ensures EntryAt(ram1, f, j) == ZERO { assert j > 0 ==> EntryAt(ram, f, j) == ZERO; }
      assert EntryAt(ram1, t, i) == ZERO;
      assert TableOk(ram1, kind, t);
      LinkKeeps(ram1, root, kind, home, t, i, f, e);
      assert LinkedUncleared(ram, t, i, f, e) == WithEntry(ram1, t, i, e);
      forall v ensures Translate(LinkedUncleared(ram, t, i, f, e), root, v) == Translate(ram, root, v) {
        assert Translate(ram1, root, v) == Translate(ram, root, v);
      }
    } else if kind[t] == 2 {
      UnclearedLeaf(ram, root, kind, home, t, i, f, e);
    } else {
      UnclearedUpper(ram, root, kind, home, t, i, f, e);
    }
  }

  function ZeroRow(): (row: seq<Entry>)
    ensures |row| == ENTRIES && forall i :: 0 <= i < ENTRIES ==> row[i] == ZERO
  {
    seq(ENTRIES, _ => ZERO)
  }

  /** A memory in which frame 3, not in use, still holds a word of its former life. */
  function StaleRam(): Ram {
    map[0 := ZeroRow()[0 := Entry(1, 1)], 1 := ZeroRow()[0 := Entry(2, 1)], 2 := ZeroRow(),
        3 := ZeroRow()[5 := Entry(9, 1)]]
  }

  /** Linking frame 3 as the table of the first page maps the sixth page to frame 9. */
  lemma StaleFrameLeaks()
    ensures var ram := StaleRam();
            && |ram[2]| == ENTRIES && |ram[3]| == ENTRIES
            && Translate(ram, 0, Page(0, 0, 0, 5)) == ZERO
            && Translate(LinkedUncleared(ram, 2, 0, 3, Entry(3, 1)), 0, Page(0, 0, 0, 5)) == Entry(9, 1)
  {
    var ram, v := StaleRam(), Page(0, 0, 0, 5);
    var ram' := LinkedUncleared(ram, 2, 0, 3, Entry(3, 1));
    assert EntryAt(ram, 0, 0) == Entry(1, 1) && EntryAt(ram, 1, 0) == Entry(2, 1) && EntryAt(ram, 2, 0) == ZERO;
    assert EntryAt(ram', 0, 0) == Entry(1, 1) && EntryAt(ram', 1, 0) == Entry(2, 1);
    assert EntryAt(ram', 2, 0) == Entry(3, 1) && EntryAt(ram', 3, 5) == Entry(9, 1);
    assert Walk(ram', 3, 1, v) == Entry(9, 1);
    assert Walk(ram', 2, 2, v) == Entry(9, 1);
    assert Walk(ram', 1, 3, v) == Entry(9, 1);
    assert Walk(ram, 1, 3, v) == ZERO;
  }

  // ---------- Which tables there are ----------

  /** There is a table of level k on the way of v. */
  predicate HasTable(ram: Ram, root: nat, k: nat, v: Page) {
    k <= 4 && Reach(ram, root, 4, k, v).Some?
  }

  /** The indices that lead to the table of level k, and 0 for the others. */
  function Prefix(v: Page, k: nat): Page {
    Page(v.p4, if k < 3 then v.p3 else 0, if k < 2 then v.p2 else 0, 0)
  }

  lemma SamePrefix(v: Page, w: Page, k: nat)
    requires 1 <= k <= 3
    ensures Prefix(v, k) == Prefix(w, k) <==> forall m :: k < m <= 4 ==> Index(v, m) == Index(w, m)
  {
    assert Index(v, 4) == v.p4 && Index(w, 4) == w.p4 && Index(v, 3) == v.p3 && Index(w, 3) == w.p3;
    assert Index(v, 2) == v.p2 && Index(w, 2) == w.p2;
  }

  /** Where linking the empty frame f leads every page. */
  lemma {:induction false} LinkReachAny(ram: Ram, root: nat, kind: Levels, home: Homes, t: nat, i: nat, f: nat,
                                         e: Entry, x: nat, l: nat, k: nat, w: Page)
    requires Linkable(ram, root, kind, home, t, i, f, e) && TableOk(ram, kind, t)
    requires x in kind && kind[x] == l && 1 <= k <= l
    ensures Reach(WithEntry(ram, t, i, e), x, l, k, w) ==
            if k < kind[t] <= l && Reach(ram, x, l, kind[t], w) == Some(t) && Index(w, kind[t]) == i
            then (if k == kind[t] - 1 then Some(f) else None) else Reach(ram, x, l, k, w)
    decreases l
  {
    assert TableOk(ram, kind, x);
    var j, ram' := Index(w, l), WithEntry(ram, t, i, e);
    EntryAtWith(ram, t, i, e, x, j);
    if k < l {
      if x == t && j == i {
        EntryAtWith(ram, t, i, e, f, Index(w, l - 1));
        assert EntryAt(ram, f, Index(w, l - 1)) == ZERO;
      } else if EntryAt(ram, x, j) != ZERO {
        assert ChildOk(ram, kind, home, x, j);
        LinkReachAny(ram, root, kind, home, t, i, f, e, EntryAt(ram, x, j).ppn, l - 1, k, w);
      }
    }
  }

  /** The table of level c on the way of v is there too, and no other is new. */
  ghost predicate TableAdded(ram: Ram, ram': Ram, root: nat, v: Page, c: nat) {
    forall w, k: nat {:trigger HasTable(ram', root, k, w)} :: 1 <= k <= 3 ==>
      (HasTable(ram', root, k, w) <==> HasTable(ram, root, k, w) || (k == c && Prefix(w, k) == Prefix(v, k)))
  }

  ghost predicate SameHas(ram: Ram, ram': Ram, root: nat) {
    forall w, k: nat {:trigger HasTable(ram', root, k, w)} ::
      1 <= k <= 3 ==> (HasTable(ram', root, k, w) <==> HasTable(ram, root, k, w))
  }

  lemma LinkAdds(ram: Ram, root: nat, kind: Levels, home: Homes, t: nat, l: nat, v: Page, f: nat, e: Entry)
    requires 2 <= l <= 4 && Linkable(ram, root, kind, home, t, Index(v, l), f, e) && TableOk(ram, kind, t)
    requires kind[t] == l && Reach(ram, root, 4, l, v) == Some(t)
    ensures TableAdded(ram, WithEntry(ram, t, Index(v, l), e), root, v, l - 1)
  {
    var ram' := WithEntry(ram, t, Index(v, l), e);
    forall w, k: nat {:trigger HasTable(ram', root, k, w)} | 1 <= k <= 3
      ensures HasTable(ram', root, k, w) <==>
              HasTable(ram, root, k, w) || (k == l - 1 && Prefix(w, k) == Prefix(v, k))
    {
      LinkReachAny(ram, root, kind, home, t, Index(v, l), f, e, root, 4, k, w);
      if k < l { LinkAddsBelow(ram, root, kind, home, t, l, v, k, w); }
    }
  }

  lemma LinkAddsBelow(ram: Ram, root: nat, kind: Levels, home: Homes, t: nat, l: nat, v: Page, k: nat, w: Page)
    requires Tree(ram, root, kind, home) && 2 <= l <= 4 && 1 <= k < l && Reach(ram, root, 4, l, v) == Some(t)
    requires EntryAt(ram, t, Index(v, l)) == ZERO
    ensures var through := Reach(ram, root, 4, l, w) == Some(t) && Index(w, l) == Index(v, l);
            && (through <==> Prefix(w, l - 1) == Prefix(v, l - 1))
            && (through ==> !HasTable(ram, root, k, w))
  {
    SamePrefix(v, w, l - 1);
    if Prefix(w, l - 1) == Prefix(v, l - 1) { ReachSame(ram, root, 4, l, v, w); }
    if Reach(ram, root, 4, l, w) == Some(t) && Index(w, l) == Index(v, l) {
      SameWay(ram, root, kind, home, root, 4, l, v, w);
      NoneBelow(ram, root, 4, l, k, w);
    }
  }

  lemma {:induction false} NoneBelow(ram: Ram, x: nat, m: nat, l: nat, k: nat, w: Page)
    requires 1 <= k < l <= m && Reach(ram, x, m, l, w).Some?
    requires EntryAt(ram, Reach(ram, x, m, l, w).value, Index(w, l)) == ZERO
    ensures Reach(ram, x, m, k, w) == None
    decreases m
  {
    if l < m { NoneBelow(ram, EntryAt(ram, x, Index(w, m)).ppn, m - 1, l, k, w); }
  }

  /** How many tables are missing on the way of v. */
  function Missing(ram: Ram, root: nat, v: Page): nat {
    (if HasTable(ram, root, 3, v) then 0 else 1)
    + (if HasTable(ram, root, 2, v) then 0 else 1) + (if HasTable(ram, root, 1, v) then 0 else 1)
  }

  // ---------- Tables that are there for a mapped page ----------

  /** Some page that shares the way of w down to level k is mapped. */
  ghost predicate MappedUnder(ram: Ram, root: nat, k: nat, w: Page) {
    exists v {:trigger Translate(ram, root, v)} :: Prefix(v, k) == Prefix(w, k) && Translate(ram, root, v) != ZERO
  }

  /** The tables are those on the ways of mapped pages: which there are is a matter of the translations alone. */
  ghost predicate Snug(ram: Ram, root: nat) {
    forall w, k: nat {:trigger HasTable(ram, root, k, w)} :: 1 <= k <= 3 ==>
      (HasTable(ram, root, k, w) <==> MappedUnder(ram, root, k, w))
  }

  /** A mapped page has all its tables, and so have the pages that share its way. */
  lemma MappedHasTable(ram: Ram, root: nat, k: nat, v: Page, w: Page)
    requires 1 <= k <= 3 && Prefix(v, k) == Prefix(w, k) && Translate(ram, root, v) != ZERO
    ensures HasTable(ram, root, k, w)
  {
    WalkFrom(ram, root, 4, k, v);
    SamePrefix(v, w, k);
    ReachSame(ram, root, 4, k, v, w);
  }

  /** In a tight tree a table is there for a page. */
  lemma TightTable(ram: Ram, root: nat, kind: Levels, home: Homes, k: nat, w: Page)
    requires Tree(ram, root, kind, home) && Tight(ram, root, kind) && 1 <= k <= 3 && HasTable(ram, root, k, w)
    ensures MappedUnder(ram, root, k, w)
  {
    ReachTable(ram, root, kind, home, root, 4, k, w);
    var t := Reach(ram, root, 4, k, w).value;
    assert t != root && TableOk(ram, kind, t);
    var v := NoIdleTable(ram, root, kind, home, t);
    SameWay(ram, root, kind, home, root, 4, k, v, w);
    SamePrefix(v, w, k);
  }

  lemma TightIsSnug(ram: Ram, root: nat, kind: Levels, home: Homes)
    requires Tree(ram, root, kind, home) && Tight(ram, root, kind)
    ensures Snug(ram, root)
  {
    forall w, k: nat {:trigger HasTable(ram, root, k, w)} | 1 <= k <= 3
      ensures HasTable(ram, root, k, w) <==> MappedUnder(ram, root, k, w)
    {
      if HasTable(ram, root, k, w) {
        TightTable(ram, root, kind, home, k, w);
      }
      if MappedUnder(ram, root, k, w) {
        var v :| Prefix(v, k) == Prefix(w, k) && Translate(ram, root, v) != ZERO;
        MappedHasTable(ram, root, k, v, w);
      }
    }
  }

  lemma SnugIsTight(ram: Ram, root: nat, kind: Levels, home: Homes)
    requires Tree(ram, root, kind, home) && Snug(ram, root)
    ensures Tight(ram, root, kind)
  {
    forall t {:trigger Empty(ram, t)} | t in kind && t != root ensures !Empty(ram, t) {
      assert TableOk(ram, kind, t) && HomeOk(ram, kind, home, t);
      var w := EveryTableReached(ram, root, kind, home, t);
      var k := kind[t];
      assert HasTable(ram, root, k, w);
      var v :| Prefix(v, k) == Prefix(w, k) && Translate(ram, root, v) != ZERO;
      SamePrefix(v, w, k);
      ReachSame(ram, root, 4, k, v, w);
      WalkFrom(ram, root, 4, k, v);
      assert EntryAt(ram, t, Index(v, k)) != ZERO;
    }
  }

  // ---------- Entries that lead to tables ----------

  /** Memory with what is known of its tables. */
  datatype Tables = Tables(ram: Ram, kind: Levels, home: Homes)

  ghost predicate SameEntry(a: Tables, b: Tables, t: nat, i: nat) {
    EntryAt(b.ram, t, i) == EntryAt(a.ram, t, i)
  }

  /** The table t is still one, of the same level, and in the same place. */
  ghost predicate Stays(a: Tables, b: Tables, t: nat)
    requires t in a.kind
  {
    t in b.kind && b.kind[t] == a.kind[t] && (t in a.home ==> t in b.home && b.home[t] == a.home[t])
  }

  /** The table c is led to by an entry with the given flags. */
  ghost predicate LinkedBy(b: Tables, c: nat, flags: bv64) {
    c in b.home && EntryAt(b.ram, b.home[c].table, b.home[c].index) == Entry(c, flags)
  }

  /** No entry that led to a table has changed, and every new table is led to by an entry with the given flags. */
  ghost predicate Extends(a: Tables, b: Tables, flags: bv64) {
    && (forall t {:trigger Stays(a, b, t)} :: t in a.kind ==> Stays(a, b, t))
    && (forall t, i: nat {:trigger SameEntry(a, b, t, i)} ::
          t in a.kind && a.kind[t] > 1 && EntryAt(a.ram, t, i) != ZERO ==> SameEntry(a, b, t, i))
    && (forall c {:trigger LinkedBy(b, c, flags)} :: c in b.kind && c !in a.kind ==> LinkedBy(b, c, flags))
  }

  /** The tables are the same ones, and their entries too, but for the last level. */
  lemma SameExtends(a: Tables, b: Tables, flags: bv64)
    requires a.kind == b.kind && a.home == b.home
    requires forall t, i: nat {:trigger SameEntry(a, b, t, i)} :: t in a.kind && a.kind[t] > 1 ==> SameEntry(a, b, t, i)
    ensures Extends(a, b, flags)
  {
  }

  lemma OffTreeExtends(a: Tables, b: Tables, root: nat, flags: bv64)
    requires Tree(a.ram, root, a.kind, a.home) && SameTables(a.ram, b.ram, a.kind)
    requires a.kind == b.kind && a.home == b.home
    ensures Extends(a, b, flags)
  {
    forall t, i: nat {:trigger SameEntry(a, b, t, i)} | t in a.kind && a.kind[t] > 1 ensures SameEntry(a, b, t, i) {
      assert TableOk(a.ram, a.kind, t);
      assert EntryAt(b.ram, t, i) == EntryAt(a.ram, t, i);
    }
    SameExtends(a, b, flags);
  }

  lemma LeafExtends(a: Tables, b: Tables, t: nat, i: nat, e: Entry, flags: bv64)
    requires a.kind == b.kind && a.home == b.home && t in a.kind && a.kind[t] == 1
    requires t in a.ram && i < |a.ram[t]| && b.ram == WithEntry(a.ram, t, i, e)
    ensures Extends(a, b, flags)
  {
    forall x, j: nat {:trigger SameEntry(a, b, x, j)} | x in a.kind && a.kind[x] > 1 ensures SameEntry(a, b, x, j) {
      EntryAtWith(a.ram, t, i, e, x, j);
    }
    SameExtends(a, b, flags);
  }

  lemma LinkExtends(a: Tables, b: Tables, t: nat, i: nat, f: nat, l: nat, flags: bv64)
    requires t in a.ram && i < |a.ram[t]| && EntryAt(a.ram, t, i) == ZERO && f !in a.kind
    requires b.ram == WithEntry(a.ram, t, i, Entry(f, flags))
    requires b.kind == a.kind[f := l] && b.home == a.home[f := Slot(t, i)]
    ensures Extends(a, b, flags)
  {
    EntryAtWith(a.ram, t, i, Entry(f, flags), t, i);
    forall x, j: nat {:trigger SameEntry(a, b, x, j)} | x in a.kind && a.kind[x] > 1 && EntryAt(a.ram, x, j) != ZERO
      ensures SameEntry(a, b, x, j)
    {
      EntryAtWith(a.ram, t, i, Entry(f, flags), x, j);
    }
  }

  lemma ExtendsMore(a: Tables, b: Tables, c: Tables, root: nat, flags: bv64)
    requires Extends(a, b, flags) && Extends(b, c, flags) && Tree(b.ram, root, b.kind, b.home) && root in a.kind
    requires flags & 1 == 1
    ensures Extends(a, c, flags)
  {
    forall t {:trigger Stays(a, c, t)} | t in a.kind ensures Stays(a, c, t) { assert Stays(a, b, t) && Stays(b, c, t); }
    forall t, i: nat {:trigger SameEntry(a, c, t, i)} | t in a.kind && a.kind[t] > 1 && EntryAt(a.ram, t, i) != ZERO
      ensures SameEntry(a, c, t, i)
    {
      assert Stays(a, b, t) && SameEntry(a, b, t, i) && SameEntry(b, c, t, i);
    }
    forall x {:trigger LinkedBy(c, x, flags)} | x in c.kind && x !in a.kind ensures LinkedBy(c, x, flags) {
      if x in b.kind {
        assert LinkedBy(b, x, flags) && HomeOk(b.ram, b.kind, b.home, x) && Stays(b, c, x);
        var t, i := b.home[x].table, b.home[x].index;
        assert TableOk(b.ram, b.kind, x);
        assert t in b.kind && b.kind[t] > 1 && EntryAt(b.ram, t, i) != ZERO;
        assert SameEntry(b, c, b.home[x].table, b.home[x].index);
      }
    }
  }
}
