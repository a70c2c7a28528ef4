/**
  What sorting means for the list library: a strict weak order, ordered
  sequences, natural runs, and stability. Everything here is about sequences of
  values; IntrusiveList.dfy shows that the pointer surgery computes it.
*/
module StableOrder {
  import opened Machine

  // ---------- Orders ----------

  /** `less` is a strict weak order on the elements of `s`: asymmetric and negatively transitive. */
  ghost predicate WeakOrder<T>(less: (T, T) -> bool, s: seq<T>) {
    && (forall x, y {:trigger Lt(less, x, y)} :: x in s && y in s && less(x, y) ==> !less(y, x))
    && (forall x, y, z {:trigger Lt(less, x, y), Lt(less, y, z)} ::
          x in s && y in s && z in s && !less(x, y) && !less(y, z) ==> !less(x, z))
  }

  ghost predicate Lt<T>(less: (T, T) -> bool, x: T, y: T) {
    less(x, y)
  }

  lemma Asymmetric<T>(less: (T, T) -> bool, s: seq<T>, x: T, y: T)
    requires WeakOrder(less, s) && x in s && y in s && less(x, y)
    ensures !less(y, x)
  {
    assert Lt(less, x, y);
  }

  lemma NotLessTransitive<T>(less: (T, T) -> bool, s: seq<T>, x: T, y: T, z: T)
    requires WeakOrder(less, s) && x in s && y in s && z in s && !less(x, y) && !less(y, z)
    ensures !less(x, z)
  {
    assert !Lt(less, x, y) && !Lt(less, y, z);
  }

  lemma LessNotLess<T>(less: (T, T) -> bool, s: seq<T>, x: T, y: T, z: T)
    requires WeakOrder(less, s) && x in s && y in s && z in s && less(x, y) && !less(z, y)
    ensures less(x, z) && !less(z, x)
  {
    if !less(x, z) { NotLessTransitive(less, s, x, z, y); }
    Asymmetric(less, s, x, z);
  }

  lemma WeakOrderAmong<T>(less: (T, T) -> bool, s: seq<T>, t: seq<T>)
    requires WeakOrder(less, s) && forall x :: x in t ==> x in s
    ensures WeakOrder(less, t)
  {
    forall x, y | x in t && y in t && less(x, y) ensures !less(y, x) { Asymmetric(less, s, x, y); }
    forall x, y, z | x in t && y in t && z in t && !less(x, y) && !less(y, z) ensures !less(x, z) {
      NotLessTransitive(less, s, x, y, z);
    }
  }

  /** No later element is less than an earlier one. */
  ghost predicate Ordered<T>(less: (T, T) -> bool, s: seq<T>) {
    forall i, j {:trigger s[i], s[j]} :: 0 <= i < j < |s| ==> !less(s[j], s[i])
  }

  ghost predicate Distinct<T>(s: seq<T>) {
    forall i, j {:trigger s[i], s[j]} :: 0 <= i < j < |s| ==> s[i] != s[j]
  }

  ghost predicate Before<T>(s: seq<T>, x: T, y: T) {
    exists i, j {:trigger s[i], s[j]} :: 0 <= i < j < |s| && s[i] == x && s[j] == y
  }

  /**
    `t` inverts no pair of `s` unless the order asks for it: where x stood before
    y and y is not less than x, x still stands before y.
  */
  ghost predicate Stable<T>(less: (T, T) -> bool, s: seq<T>, t: seq<T>) {
    forall x, y {:trigger Before(t, x, y)} {:trigger Before(s, x, y)} ::
      x in s && y in s && Before(s, x, y) && !less(y, x) ==> Before(t, x, y)
  }

  /** `t` holds the elements of `s`, rearranged only where the order asks for it. */
  ghost predicate Rearranged<T>(less: (T, T) -> bool, s: seq<T>, t: seq<T>) {
    multiset(t) == multiset(s) && Stable(less, s, t)
  }

  lemma RearrangedTrans<T>(less: (T, T) -> bool, s: seq<T>, t: seq<T>, u: seq<T>)
    requires Rearranged(less, s, t) && Rearranged(less, t, u)
    ensures Rearranged(less, s, u)
  {
  }

  lemma SameElements<T>(s: seq<T>, t: seq<T>)
    requires multiset(s) == multiset(t)
    ensures forall x :: x in s <==> x in t
    ensures |s| == |t|
  {
    assert |multiset(s)| == |s| && |multiset(t)| == |t|;
    forall x ensures x in s <==> x in t {
      assert x in s <==> x in multiset(s);
      assert x in t <==> x in multiset(t);
    }
  }

  lemma SameElementsWith<T>(s: seq<T>, t: seq<T>, e: T)
    requires multiset(s) == multiset(t)
    ensures forall x :: x in t + [e] ==> x in s + [e]
  {
    SameElements(s, t);
    forall x | x in t + [e] ensures x in s + [e] { assert x in t || x == e; }
  }

  /** Being distinct is a property of the elements, not of their order. */
  lemma DistinctCounts<T>(s: seq<T>)
    ensures Distinct(s) <==> forall x :: x in s ==> multiset(s)[x] == 1
    decreases |s|
  {
    if s != [] {
      var r, e := s[..|s| - 1], s[|s| - 1];
      assert s == r + [e];
      DistinctCounts(r);
      if Distinct(s) {
        assert forall i | 0 <= i < |r| :: r[i] == s[i];
        assert Distinct(r);
        assert e !in r;
      } else if Distinct(r) {
        var i, j :| 0 <= i < j < |s| && s[i] == s[j];
        assert j == |r|;
        assert r[i] == e;
        assert e in multiset(r);
        assert multiset(s)[e] >= 2;
      } else {
        var x :| x in r && multiset(r)[x] != 1;
        assert x in multiset(r);
        assert x in s && multiset(s)[x] >= 2;
      }
    }
  }

  lemma DistinctShuffled<T>(s: seq<T>, t: seq<T>)
    requires multiset(s) == multiset(t) && Distinct(s)
    ensures Distinct(t)
  {
    SameElements(s, t);
    DistinctCounts(s);
    DistinctCounts(t);
  }

  // ---------- Stable ordering is unique ----------

  /** The total order that a stable sort of `s` follows. */
  ghost predicate Precedes<T>(less: (T, T) -> bool, s: seq<T>, x: T, y: T) {
    less(x, y) || (!less(y, x) && Before(s, x, y))
  }

  ghost predicate Increasing<T>(less: (T, T) -> bool, s: seq<T>, t: seq<T>) {
    forall i, j {:trigger t[i], t[j]} :: 0 <= i < j < |t| ==> Precedes(less, s, t[i], t[j])
  }

  lemma BeforeOneWay<T>(s: seq<T>, x: T, y: T)
    requires Distinct(s) && Before(s, x, y)
    ensures !Before(s, y, x)
  {
  }

  lemma BeforeEither<T>(s: seq<T>, x: T, y: T)
    requires x in s && y in s && x != y
    ensures Before(s, x, y) || Before(s, y, x)
  {
    var i :| 0 <= i < |s| && s[i] == x;
    var j :| 0 <= j < |s| && s[j] == y;
  }

  lemma StableIncreases<T>(less: (T, T) -> bool, s: seq<T>, t: seq<T>)
    requires Distinct(s) && Rearranged(less, s, t) && Ordered(less, t)
    ensures Increasing(less, s, t)
  {
    SameElements(s, t);
    DistinctShuffled(s, t);
    forall i, j | 0 <= i < j < |t| ensures Precedes(less, s, t[i], t[j]) {
      BeforeEither(s, t[i], t[j]);
      if Before(s, t[j], t[i]) && !less(t[i], t[j]) {
        assert Before(t, t[j], t[i]);
        assert Before(t, t[i], t[j]);
        BeforeOneWay(t, t[i], t[j]);
        assert false;
      }
    }
  }

  lemma SameRest<T>(t: seq<T>, u: seq<T>)
    requires t != [] && u != [] && t[0] == u[0] && multiset(t) == multiset(u)
    ensures multiset(t[1..]) == multiset(u[1..])
  {
    assert t == [t[0]] + t[1..] && u == [t[0]] + u[1..];
    assert multiset(t[1..]) == multiset(t) - multiset{t[0]} == multiset(u[1..]);
  }

  lemma IncreasingRest<T>(less: (T, T) -> bool, s: seq<T>, t: seq<T>)
    requires t != [] && Increasing(less, s, t)
    ensures Increasing(less, s, t[1..])
  {
  }

  lemma {:induction false} IncreasingUnique<T>(less: (T, T) -> bool, s: seq<T>, t: seq<T>, u: seq<T>)
    requires WeakOrder(less, s) && Distinct(s)
    requires forall x :: x in t ==> x in s
    requires multiset(t) == multiset(u)
    requires Increasing(less, s, t) && Increasing(less, s, u)
    ensures t == u
  {
    SameElements(t, u);
    if t != [] {
      SameFirst(less, s, t, u);
      SameRest(t, u);
      IncreasingRest(less, s, t);
      IncreasingRest(less, s, u);
      IncreasingUnique(less, s, t[1..], u[1..]);
      assert t == [t[0]] + t[1..] && u == [t[0]] + u[1..];
    }
  }

  lemma PrecedesOneWay<T>(less: (T, T) -> bool, s: seq<T>, x: T, y: T)
    requires WeakOrder(less, s) && Distinct(s) && x in s && y in s
    requires Precedes(less, s, x, y)
    ensures !Precedes(less, s, y, x)
  {
    if Before(s, x, y) { BeforeOneWay(s, x, y); }
    if less(x, y) { Asymmetric(less, s, x, y); }
  }

  lemma SameFirst<T>(less: (T, T) -> bool, s: seq<T>, t: seq<T>, u: seq<T>)
    requires WeakOrder(less, s) && Distinct(s)
    requires forall x :: x in t ==> x in s
    requires t != [] && u != [] && t[0] in u && u[0] in t
    requires Increasing(less, s, t) && Increasing(less, s, u)
    ensures t[0] == u[0]
  {
    var x, y := t[0], u[0];
    assert x in s && y in s;
    var i :| 0 <= i < |u| && u[i] == x;
    var j :| 0 <= j < |t| && t[j] == y;
    assert i == 0 || Precedes(less, s, y, x);
    if i != 0 { PrecedesOneWay(less, s, y, x); }
  }

  /** At most one arrangement of distinct elements is both ordered and stable. */
  lemma StableUnique<T>(less: (T, T) -> bool, s: seq<T>, t: seq<T>, u: seq<T>)
    requires WeakOrder(less, s) && Distinct(s)
    requires Rearranged(less, s, t) && Ordered(less, t)
    requires Rearranged(less, s, u) && Ordered(less, u)
    ensures t == u
  {
    SameElements(s, t);
    StableIncreases(less, s, t);
    StableIncreases(less, s, u);
    IncreasingUnique(less, s, t, u);
  }

  // ---------- Ordered insertion, and sorting by it ----------

  /** Where list_insert_ordered stops: the first element that `e` is less than. */
  function Slot<T>(less: (T, T) -> bool, s: seq<T>, e: T): (k: nat)
    ensures k <= |s|
    ensures k < |s| ==> less(e, s[k])
    ensures forall i :: 0 <= i < k ==> !less(e, s[i])
  {
    if s == [] || less(e, s[0]) then 0 else 1 + Slot(less, s[1..], e)
  }

  function Inserted<T>(less: (T, T) -> bool, s: seq<T>, e: T): seq<T> {
    var k := Slot(less, s, e);
    s[..k] + [e] + s[k..]
  }

  /** The list that inserting the elements of `s` one by one, in order, builds. */
  function SortedByInsertion<T>(less: (T, T) -> bool, s: seq<T>): seq<T>
    decreases |s|
  {
    if s == [] then [] else
      var n := |s| - 1;
      Inserted(less, SortedByInsertion(less, s[..n]), s[n])
  }

  lemma InsertedElements<T>(less: (T, T) -> bool, s: seq<T>, e: T)
    ensures multiset(Inserted(less, s, e)) == multiset(s + [e])
  {
    var k := Slot(less, s, e);
    assert s == s[..k] + s[k..];
  }

  /** Everything from the slot on is greater than the element inserted. */
  lemma LessThanRest<T>(less: (T, T) -> bool, s: seq<T>, e: T, i: nat)
    requires WeakOrder(less, s + [e]) && Ordered(less, s)
    requires Slot(less, s, e) <= i < |s|
    ensures less(e, s[i]) && !less(s[i], e)
  {
    var k, u := Slot(less, s, e), s + [e];
    assert u[|s|] == e && u[i] == s[i] && u[k] == s[k];
    if i == k {
      Asymmetric(less, u, e, s[k]);
    } else {
      LessNotLess(less, u, e, s[k], s[i]);
    }
  }

  lemma BeforeSlot<T>(less: (T, T) -> bool, s: seq<T>, e: T, i: nat)
    requires WeakOrder(less, s + [e]) && Ordered(less, s) && i < |s| && !less(e, s[i])
    ensures i < Slot(less, s, e)
  {
    if Slot(less, s, e) <= i { LessThanRest(less, s, e, i); }
  }

  /** Ordered insertion keeps a list ordered. */
  lemma InsertedOrdered<T>(less: (T, T) -> bool, s: seq<T>, e: T)
    requires WeakOrder(less, s + [e]) && Ordered(less, s)
    ensures Ordered(less, Inserted(less, s, e))
  {
    var k, t := Slot(less, s, e), Inserted(less, s, e);
    forall i, j | 0 <= i < j < |t| ensures !less(t[j], t[i]) {
      var a := if i < k then s[i] else if i == k then e else s[i - 1];
      var c := if j < k then s[j] else if j == k then e else s[j - 1];
      assert t[i] == a && t[j] == c;
      if i == k { LessThanRest(less, s, e, j - 1); }
    }
  }

  /** Ordered insertion after everything equal: appending `e` and then moving it is stable. */
  lemma InsertedRearranged<T>(less: (T, T) -> bool, s: seq<T>, e: T)
    requires WeakOrder(less, s + [e]) && Ordered(less, s)
    ensures Rearranged(less, s + [e], Inserted(less, s, e))
  {
    var k, u, t := Slot(less, s, e), s + [e], Inserted(less, s, e);
    InsertedElements(less, s, e);
    forall x, y | Before(u, x, y) && !less(y, x) ensures Before(t, x, y) {
      var i, j :| 0 <= i < j < |u| && u[i] == x && u[j] == y;
      if j == |s| {
        BeforeSlot(less, s, e, i);
        assert t[i] == x && t[k] == y;
      } else {
        assert t[if i < k then i else i + 1] == x && t[if j < k then j else j + 1] == y;
      }
    }
  }

  /** Sorting by insertion gives the ordered, stable arrangement. */
  lemma {:induction false} SortedByInsertionSorts<T>(less: (T, T) -> bool, s: seq<T>)
    requires WeakOrder(less, s)
    ensures var t := SortedByInsertion(less, s); Ordered(less, t) && Rearranged(less, s, t)
    decreases |s|
  {
    if s != [] {
      var n := |s| - 1;
      var r, e := s[..n], s[n];
      assert s == r + [e];
      WeakOrderAmong(less, s, r);
      SortedByInsertionSorts(less, r);
      var u := SortedByInsertion(less, r);
      SameElementsWith(r, u, e);
      WeakOrderAmong(less, s, u + [e]);
      InsertedOrdered(less, u, e);
      InsertedRearranged(less, u, e);
      ExtendRearranged(less, r, u, e);
      RearrangedTrans(less, s, u + [e], Inserted(less, u, e));
    }
  }

  lemma ExtendRearranged<T>(less: (T, T) -> bool, r: seq<T>, u: seq<T>, e: T)
    requires Rearranged(less, r, u)
    ensures Rearranged(less, r + [e], u + [e])
  {
    var s, t := r + [e], u + [e];
    SameElements(r, u);
    forall x, y | Before(s, x, y) && !less(y, x) ensures Before(t, x, y) {
      var i, j :| 0 <= i < j < |s| && s[i] == x && s[j] == y;
      if j < |r| {
        assert r[i] == x && r[j] == y;
        assert Before(r, x, y) && x in r && y in r;
        assert Before(u, x, y);
        var k, l :| 0 <= k < l < |u| && u[k] == x && u[l] == y;
        assert t[k] == x && t[l] == y;
      } else {
        assert r[i] == x;
        assert x in r;
        assert x in u;
        var k :| 0 <= k < |u| && u[k] == x;
        assert t[k] == x && t[|u|] == y;
      }
    }
  }

  // ---------- Merging ----------

  /** One step of inplace_merge: the node at `m` jumps back in front of the node at `a`. */
  function Hop<T>(s: seq<T>, a: nat, m: nat): (t: seq<T>)
    requires a <= m < |s|
    ensures |t| == |s|
  {
    s[..a] + [s[m]] + s[a..m] + s[m + 1..]
  }

  lemma HopIndex<T>(s: seq<T>, a: nat, m: nat, i: nat)
    requires a <= m < |s| && i < |s|
    ensures Hop(s, a, m)[i] == if a < i <= m then s[i - 1] else if i == a then s[m] else s[i]
  {
  }

  /** A node may jump over nodes that it is less than. */
  lemma HopRearranges<T>(less: (T, T) -> bool, s: seq<T>, a: nat, m: nat)
    requires a <= m < |s|
    requires forall i :: a <= i < m ==> less(s[m], s[i])
    ensures Rearranged(less, s, Hop(s, a, m))
  {
    var t := Hop(s, a, m);
    assert s == s[..a] + s[a..m] + [s[m]] + s[m + 1..];
    forall x, y | Before(s, x, y) && !less(y, x) ensures Before(t, x, y) {
      var i, j :| 0 <= i < j < |s| && s[i] == x && s[j] == y;
      var i' := if i == m then a else if a <= i < m then i + 1 else i;
      var j' := if j == m then a else if a <= j < m then j + 1 else j;
      HopIndex(s, a, m, i');
      HopIndex(s, a, m, j');
      assert t[i'] == x && t[j'] == y;
    }
  }

  /**
    The state of a merge of s[i..j] and s[j..k]: the nodes before `a` are
    placed, s[a..m] is left of the first run and s[m..k] of the second.
  */
  ghost predicate Merging<T>(less: (T, T) -> bool, s: seq<T>, i: nat, a: nat, m: nat, k: nat) {
    && i <= a <= m <= k <= |s|
    && Ordered(less, s[i..m])
    && Ordered(less, s[i..a] + s[m..k])
  }

  lemma MergeStart<T>(less: (T, T) -> bool, s: seq<T>, i: nat, j: nat, k: nat)
    requires i <= j <= k <= |s| && Ordered(less, s[i..j]) && Ordered(less, s[j..k])
    ensures Merging(less, s, i, i, j, k)
  {
    assert s[i..i] + s[j..k] == s[j..k];
  }

  lemma OrderedAt<T>(less: (T, T) -> bool, s: seq<T>, i: nat, k: nat, x: nat, y: nat)
    requires i <= x < y < k <= |s| && Ordered(less, s[i..k])
    ensures !less(s[y], s[x])
  {
    assert s[i..k][x - i] == s[x] && s[i..k][y - i] == s[y];
  }

  lemma MergedAt<T>(less: (T, T) -> bool, s: seq<T>, i: nat, a: nat, m: nat, k: nat, x: nat, y: nat)
    requires Merging(less, s, i, a, m, k) && i <= x < y < k && (x < a || m <= x) && (y < a || m <= y)
    ensures !less(s[y], s[x])
  {
    var t := s[i..a] + s[m..k];
    var x' := if x < a then x - i else x - m + a - i;
    var y' := if y < a then y - i else y - m + a - i;
    assert t[x'] == s[x] && t[y'] == s[y];
  }

  /** The head of the first run is placed. */
  lemma MergeKeep<T>(less: (T, T) -> bool, s: seq<T>, i: nat, a: nat, m: nat, k: nat)
    requires WeakOrder(less, s) && Merging(less, s, i, a, m, k) && a < m < k && !less(s[m], s[a])
    ensures Merging(less, s, i, a + 1, m, k)
  {
    var t := s[i..a + 1] + s[m..k];
    forall p, q | 0 <= p < q < |t| ensures !less(t[q], t[p]) {
      var x := if p <= a - i then p + i else p - 1 - a + i + m;
      var y := if q <= a - i then q + i else q - 1 - a + i + m;
      assert t[p] == s[x] && t[q] == s[y];
      if x == a {
        if y > m {
          MergedAt(less, s, i, a, m, k, m, y);
          NotLessTransitive(less, s, s[y], s[m], s[a]);
        }
      } else if y == a {
        OrderedAt(less, s, i, m, x, y);
      } else {
        MergedAt(less, s, i, a, m, k, x, y);
      }
    }
  }

  /** Everything left of the first run is greater than the head of the second. */
  lemma LessThanRun<T>(less: (T, T) -> bool, s: seq<T>, i: nat, a: nat, m: nat, k: nat, x: nat)
    requires WeakOrder(less, s) && Merging(less, s, i, a, m, k) && a <= x < m < k && less(s[m], s[a])
    ensures less(s[m], s[x]) && !less(s[x], s[m])
  {
    if a < x {
      OrderedAt(less, s, i, m, a, x);
      LessNotLess(less, s, s[m], s[a], s[x]);
    } else {
      Asymmetric(less, s, s[m], s[a]);
    }
  }

  lemma HopLeft<T>(less: (T, T) -> bool, s: seq<T>, i: nat, a: nat, m: nat, k: nat)
    requires WeakOrder(less, s) && Merging(less, s, i, a, m, k) && a < m < k && less(s[m], s[a])
    ensures Ordered(less, Hop(s, a, m)[i..m + 1])
  {
    var h := Hop(s, a, m);
    var t := h[i..m + 1];
    forall p, q | 0 <= p < q < |t| ensures !less(t[q], t[p]) {
      HopIndex(s, a, m, p + i);
      HopIndex(s, a, m, q + i);
      var x := if p + i == a then m else if p + i > a then p + i - 1 else p + i;
      var y := if q + i == a then m else if q + i > a then q + i - 1 else q + i;
      assert t[p] == s[x] && t[q] == s[y];
      if x == m {
        LessThanRun(less, s, i, a, m, k, y);
      } else if y == m {
        MergedAt(less, s, i, a, m, k, x, m);
      } else {
        OrderedAt(less, s, i, m, x, y);
      }
    }
  }

  /** The head of the second run is placed. */
  lemma MergeHop<T>(less: (T, T) -> bool, s: seq<T>, i: nat, a: nat, m: nat, k: nat)
    requires WeakOrder(less, s) && Merging(less, s, i, a, m, k) && a < m < k && less(s[m], s[a])
    ensures Merging(less, Hop(s, a, m), i, a + 1, m + 1, k)
    ensures Rearranged(less, s, Hop(s, a, m))
  {
    var h := Hop(s, a, m);
    forall x | a <= x < m ensures less(s[m], s[x]) { LessThanRun(less, s, i, a, m, k, x); }
    HopRearranges(less, s, a, m);
    HopLeft(less, s, i, a, m, k);
    assert h[i..a + 1] + h[m + 1..k] == s[i..a] + s[m..k];
  }

  lemma MergeEnd<T>(less: (T, T) -> bool, s: seq<T>, i: nat, a: nat, m: nat, k: nat)
    requires Merging(less, s, i, a, m, k) && (a == m || m == k)
    ensures Ordered(less, s[i..k])
  {
    if a == m { assert s[i..a] + s[m..k] == s[i..k]; }
  }

  // ---------- Natural runs ----------

  predicate Descent<T>(less: (T, T) -> bool, s: seq<T>, i: int)
    requires 0 < i < |s|
  {
    less(s[i], s[i - 1])
  }

  /** Where the run that starts at `a` ends: what find_end_of_run returns. */
  function RunEnd<T>(less: (T, T) -> bool, s: seq<T>, a: nat): (e: nat)
    requires a < |s|
    ensures a < e <= |s|
    ensures forall i {:trigger Descent(less, s, i)} :: a < i < e ==> !Descent(less, s, i)
    ensures e < |s| ==> Descent(less, s, e)
    decreases |s| - a
  {
    if a + 1 == |s| || Descent(less, s, a + 1) then a + 1 else RunEnd(less, s, a + 1)
  }

  /** How many of the elements from `a` up to `b` are less than their predecessor. */
  function Descents<T>(less: (T, T) -> bool, s: seq<T>, a: nat, b: nat): nat
    requires 0 < a && b <= |s|
  {
    if b <= a then 0 else Descents(less, s, a, b - 1) + if Descent(less, s, b - 1) then 1 else 0
  }

  /** The number of natural runs from `a` on. */
  function Runs<T>(less: (T, T) -> bool, s: seq<T>, a: nat): nat
    requires a <= |s|
  {
    if a == |s| then 0 else 1 + Descents(less, s, a + 1, |s|)
  }

  lemma {:induction false} DescentsSplit<T>(less: (T, T) -> bool, s: seq<T>, a: nat, m: nat, b: nat)
    requires 0 < a <= m <= b <= |s|
    ensures Descents(less, s, a, b) == Descents(less, s, a, m) + Descents(less, s, m, b)
  {
    if m < b { DescentsSplit(less, s, a, m, b - 1); }
  }

  lemma {:induction false} DescentsSame<T>(less: (T, T) -> bool, s: seq<T>, t: seq<T>, a: nat, b: nat)
    requires 0 < a && b <= |s| && b <= |t|
    requires forall i :: a - 1 <= i < b ==> s[i] == t[i]
    ensures Descents(less, s, a, b) == Descents(less, t, a, b)
  {
    if a < b { DescentsSame(less, s, t, a, b - 1); }
  }

  lemma {:induction false} NoDescents<T>(less: (T, T) -> bool, s: seq<T>, a: nat, b: nat)
    requires 0 < a && b <= |s|
    requires forall i {:trigger Descent(less, s, i)} :: a <= i < b ==> !Descent(less, s, i)
    ensures Descents(less, s, a, b) == 0
  {
    if a < b { NoDescents(less, s, a, b - 1); }
  }

  /** find_end_of_run takes exactly one run off. */
  lemma FirstRun<T>(less: (T, T) -> bool, s: seq<T>, a: nat)
    requires a < |s|
    ensures Runs(less, s, a) == 1 + Runs(less, s, RunEnd(less, s, a))
  {
    var e := RunEnd(less, s, a);
    DescentsSplit(less, s, a + 1, e, |s|);
    NoDescents(less, s, a + 1, e);
    if e < |s| { DescentsSplit(less, s, e, e + 1, |s|); }
  }

  /** The runs from `a` on depend on the elements from `a` on. */
  lemma RunsSame<T>(less: (T, T) -> bool, s: seq<T>, t: seq<T>, a: nat)
    requires |s| == |t| && a <= |s| && s[a..] == t[a..]
    ensures Runs(less, s, a) == Runs(less, t, a)
  {
    forall i | a <= i < |s| ensures s[i] == t[i] { assert s[a..][i - a] == t[a..][i - a]; }
    DescentsSame(less, s, t, a + 1, |s|);
  }

  lemma {:induction false} AdjacentOrdered<T>(less: (T, T) -> bool, s: seq<T>, x: nat, y: nat)
    requires WeakOrder(less, s) && x < y < |s|
    requires forall i {:trigger Descent(less, s, i)} :: x < i <= y ==> !Descent(less, s, i)
    ensures !less(s[y], s[x])
    decreases y - x
  {
    if x + 1 < y {
      AdjacentOrdered(less, s, x, y - 1);
      assert !Descent(less, s, y);
      NotLessTransitive(less, s, s[y], s[y - 1], s[x]);
    }
  }

  /** A natural run is ordered. */
  lemma RunOrdered<T>(less: (T, T) -> bool, s: seq<T>, a: nat)
    requires WeakOrder(less, s) && a < |s|
    ensures Ordered(less, s[a..RunEnd(less, s, a)])
  {
    var e := RunEnd(less, s, a);
    var t := s[a..e];
    forall p, q | 0 <= p < q < |t| ensures !less(t[q], t[p]) {
      AdjacentOrdered(less, s, a + p, a + q);
    }
  }

  /** One ordered stretch more adds at most one descent, at its start. */
  lemma StretchAdded<T>(less: (T, T) -> bool, s: seq<T>, t: seq<T>, p: nat, q: nat)
    requires p < q <= |s| == |t| && s[..p] == t[..p] && Ordered(less, t[p..q])
    ensures p == 0 ==> Descents(less, t, 1, q) == 0
    ensures p > 0 ==> Descents(less, t, 1, q) <= 1 + Descents(less, s, 1, p)
  {
    forall i | 0 <= i < p ensures s[i] == t[i] { assert s[..p][i] == t[..p][i]; }
    forall i | p < i < q ensures !Descent(less, t, i) { OrderedAt(less, t, p, q, i - 1, i); }
    NoDescents(less, t, p + 1, q);
    if p > 0 {
      DescentsSame(less, s, t, 1, p);
      DescentsSplit(less, t, 1, p, q);
      DescentsSplit(less, t, p, p + 1, q);
    }
  }

  /** One run means ordered. */
  lemma OneRunOrdered<T>(less: (T, T) -> bool, s: seq<T>)
    requires WeakOrder(less, s) && Runs(less, s, 0) <= 1
    ensures Ordered(less, s)
  {
    if s != [] {
      FirstRun(less, s, 0);
      RunOrdered(less, s, 0);
      assert s[0..|s|] == s;
    }
  }

  // ---------- The cost of sorting ----------

  /** A bound on the comparisons of list_sort on `n` elements in `r` natural runs. */
  function Work(n: nat, r: nat): nat {
    if r <= 1 then 2 * n else 2 * n + Work(n, (r + 1) / 2)
  }

  lemma WorkMonotone(n: nat, r: nat, q: nat)
    requires r <= q
    ensures Work(n, r) <= Work(n, q)
  {
  }

  /** Two comparisons per element and halving: at most 2n(1 + log2 r). */
  lemma {:induction false} WorkLogarithmic(n: nat, r: nat, k: nat)
    requires r <= Pow2(k)
    ensures Work(n, r) <= 2 * n * (1 + k)
  {
    if r > 1 {
      WorkLogarithmic(n, (r + 1) / 2, k - 1);
      assert 2 * n + 2 * n * (1 + (k - 1)) == 2 * n * (1 + k);
    } else {
      assert 2 * n * (1 + k) == 2 * n + 2 * n * k;
    }
  }

  // ---------- Removing adjacent duplicates ----------

  predicate Equal<T>(less: (T, T) -> bool, x: T, y: T) {
    !less(x, y) && !less(y, x)
  }

  /** What list_unique keeps of `s` when `e` is the last element kept. */
  function KeptAfter<T>(less: (T, T) -> bool, e: T, s: seq<T>): seq<T> {
    if s == [] then []
    else if Equal(less, e, s[0]) then KeptAfter(less, e, s[1..])
    else [s[0]] + KeptAfter(less, s[0], s[1..])
  }

  /** What list_unique takes out of `s`, in order. */
  function DroppedAfter<T>(less: (T, T) -> bool, e: T, s: seq<T>): seq<T> {
    if s == [] then []
    else if Equal(less, e, s[0]) then [s[0]] + DroppedAfter(less, e, s[1..])
    else DroppedAfter(less, s[0], s[1..])
  }

  function Kept<T>(less: (T, T) -> bool, s: seq<T>): seq<T> {
    if s == [] then [] else [s[0]] + KeptAfter(less, s[0], s[1..])
  }

  function Dropped<T>(less: (T, T) -> bool, s: seq<T>): seq<T> {
    if s == [] then [] else DroppedAfter(less, s[0], s[1..])
  }

  /** No element is lost or invented. */
  lemma {:induction false} UniqueConserves<T>(less: (T, T) -> bool, e: T, s: seq<T>)
    ensures multiset(KeptAfter(less, e, s)) + multiset(DroppedAfter(less, e, s)) == multiset(s)
  {
    if s != [] {
      assert s == [s[0]] + s[1..];
      UniqueConserves(less, if Equal(less, e, s[0]) then e else s[0], s[1..]);
    }
  }

  /** The elements at or after `i` that differ from their left neighbour in `s`. */
  ghost function GroupFirsts<T>(less: (T, T) -> bool, s: seq<T>, i: nat): seq<T>
    requires i <= |s|
    decreases |s| - i
  {
    if i == |s| then []
    else (if i == 0 || !Equal(less, s[i - 1], s[i]) then [s[i]] else []) + GroupFirsts(less, s, i + 1)
  }

  /** The elements at or after `i` that equal their left neighbour in `s`. */
  ghost function GroupRests<T>(less: (T, T) -> bool, s: seq<T>, i: nat): seq<T>
    requires i <= |s|
    decreases |s| - i
  {
    if i == |s| then []
    else (if i == 0 || !Equal(less, s[i - 1], s[i]) then [] else [s[i]]) + GroupRests(less, s, i + 1)
  }

  lemma EqualToItself<T>(less: (T, T) -> bool, s: seq<T>, x: T)
    requires WeakOrder(less, s) && x in s
    ensures Equal(less, x, x)
  {
    if less(x, x) { Asymmetric(less, s, x, x); }
  }

  lemma EqualToEquals<T>(less: (T, T) -> bool, s: seq<T>, x: T, y: T, z: T)
    requires WeakOrder(less, s) && x in s && y in s && z in s && Equal(less, x, y)
    ensures Equal(less, x, z) <==> Equal(less, y, z)
  {
    if Equal(less, x, z) {
      NotLessTransitive(less, s, y, x, z);
      NotLessTransitive(less, s, z, x, y);
    } else if Equal(less, y, z) {
      NotLessTransitive(less, s, x, y, z);
      NotLessTransitive(less, s, z, y, x);
    }
  }

  lemma {:induction false} KeptAfterIsFirsts<T>(less: (T, T) -> bool, s: seq<T>, i: nat, e: T)
    requires WeakOrder(less, s) && 0 < i <= |s| && e in s && Equal(less, e, s[i - 1])
    ensures KeptAfter(less, e, s[i..]) == GroupFirsts(less, s, i)
    ensures DroppedAfter(less, e, s[i..]) == GroupRests(less, s, i)
    decreases |s| - i
  {
    if i < |s| {
      assert s[i..][0] == s[i] && s[i..][1..] == s[i + 1..];
      EqualToEquals(less, s, e, s[i - 1], s[i]);
      if !Equal(less, e, s[i]) { EqualToItself(less, s, s[i]); }
      KeptAfterIsFirsts(less, s, i + 1, if Equal(less, e, s[i]) then e else s[i]);
    }
  }

  /** Exactly the first of every group of adjacent equals is kept, and the rest is dropped, in order. */
  lemma KeptIsFirsts<T>(less: (T, T) -> bool, s: seq<T>)
    requires WeakOrder(less, s)
    ensures Kept(less, s) == GroupFirsts(less, s, 0)
    ensures Dropped(less, s) == GroupRests(less, s, 0)
  {
    if s != [] {
      EqualToItself(less, s, s[0]);
      KeptAfterIsFirsts(less, s, 1, s[0]);
    }
  }

  ghost predicate NoEqualNeighbours<T>(less: (T, T) -> bool, s: seq<T>) {
    forall i, j {:trigger s[i], s[j]} :: 0 <= i < |s| && j == i + 1 && j < |s| ==> !Equal(less, s[i], s[j])
  }

  lemma {:induction false} KeptAfterDiffers<T>(less: (T, T) -> bool, e: T, s: seq<T>)
    ensures NoEqualNeighbours(less, [e] + KeptAfter(less, e, s))
  {
    if s != [] {
      if Equal(less, e, s[0]) {
        KeptAfterDiffers(less, e, s[1..]);
      } else {
        KeptAfterDiffers(less, s[0], s[1..]);
      }
    }
  }

  lemma {:induction false} KeptAfterFrom<T>(less: (T, T) -> bool, e: T, s: seq<T>, x: T)
    requires x in KeptAfter(less, e, s)
    ensures x in s
  {
    if Equal(less, e, s[0]) {
      KeptAfterFrom(less, e, s[1..], x);
    } else if x != s[0] {
      KeptAfterFrom(less, s[0], s[1..], x);
    }
  }

  ghost predicate StrictlyIncreasing<T>(less: (T, T) -> bool, s: seq<T>) {
    forall i, j {:trigger s[i], s[j]} :: 0 <= i < j < |s| ==> less(s[i], s[j])
  }

  /** On an ordered list only strictly increasing elements are left: one of each kind. */
  lemma {:induction false} KeptAfterIncreases<T>(less: (T, T) -> bool, e: T, s: seq<T>)
    requires WeakOrder(less, [e] + s) && Ordered(less, [e] + s)
    ensures StrictlyIncreasing(less, [e] + KeptAfter(less, e, s))
  {
    if s != [] {
      var w := [e] + s;
      var f := if Equal(less, e, s[0]) then e else s[0];
      var v := [f] + s[1..];
      forall i | 0 <= i < |v| ensures v[i] in w {}
      forall i, j | 0 <= i < j < |v| ensures !less(v[j], v[i]) {
        assert v[j] == w[j + 1] && v[i] == w[if i > 0 || f == s[0] then i + 1 else i];
      }
      WeakOrderAmong(less, w, v);
      KeptAfterIncreases(less, f, s[1..]);
      if !Equal(less, e, s[0]) {
        assert less(e, f) by { assert w[0] == e && w[1] == s[0]; }
        var r := [f] + KeptAfter(less, f, s[1..]);
        forall j | 0 <= j < |r| ensures less(e, r[j]) {
          if j > 0 {
            assert less(r[0], r[j]);
            KeptAfterFrom(less, f, s[1..], r[j]);
            assert r[j] in w && f in w && e in w;
            Asymmetric(less, w, f, r[j]);
            LessNotLess(less, w, e, f, r[j]);
          }
        }
        assert [e] + KeptAfter(less, e, s) == [e] + r;
      }
    }
  }
}
