/**
  The intrusive doubly linked list. A node holds only its two links; a list is
  a head and a tail sentinel with the nodes chained between them. Every
  operation rewrites links in place, and is proved against what it does to the
  sequence of nodes.
*/
module IntrusiveList {
  import opened StableOrder

  class Elem {
    var prev: Elem?
    var next: Elem?

    constructor ()
      ensures prev == null && next == null
    {
      prev, next := null, null;
    }
  }

  // ---------- Chains of nodes ----------

  ghost predicate Joined(s: seq<Elem>, i: int)
    requires 0 <= i && i + 1 < |s|
    reads s
  {
    s[i].next == s[i + 1] && s[i + 1].prev == s[i]
  }

  /** `s` is a whole list, sentinels included, with consistent links both ways. */
  ghost predicate Linked(s: seq<Elem>)
    reads s
  {
    && 2 <= |s|
    && Distinct(s)
    && s[0].prev == null
    && s[|s| - 1].next == null
    && forall i {:trigger Joined(s, i)} :: 0 <= i && i + 1 < |s| ==> Joined(s, i)
  }

  /** list_insert: `elem` comes to stand just before `before`. */
  method Insert(before: Elem, elem: Elem, ghost s: seq<Elem>, ghost k: nat)
    requires Linked(s) && 0 < k < |s| && s[k] == before && elem !in s
    modifies before, s[k - 1], elem
    ensures Linked(s[..k] + [elem] + s[k..])
  {
    assert Joined(s, k - 1);
    ghost var t := s[..k] + [elem] + s[k..];
    elem.prev := before.prev;
    elem.next := before;
    before.prev.next := elem;
    before.prev := elem;
    forall i | 0 <= i && i + 1 < |t| ensures Joined(t, i) {
      if i + 1 < k {
        assert old(Joined(s, i));
      } else if k < i {
        assert old(Joined(s, i - 1));
      }
    }
  }

  /** list_remove: `elem` leaves its list; its follower is returned. */
  method Remove(elem: Elem, ghost s: seq<Elem>, ghost k: nat) returns (follower: Elem)
    requires Linked(s) && 0 < k < |s| - 1 && s[k] == elem
    modifies s[k - 1], s[k + 1]
    ensures Linked(s[..k] + s[k + 1..])
    ensures follower == s[k + 1]
  {
    assert Joined(s, k - 1) && Joined(s, k);
    ghost var t := s[..k] + s[k + 1..];
    elem.prev.next := elem.next;
    elem.next.prev := elem.prev;
    forall i | 0 <= i && i + 1 < |t| ensures Joined(t, i) {
      if i + 1 < k {
        assert old(Joined(s, i));
      } else if k <= i {
        assert old(Joined(s, i + 1));
      }
    }
    follower := elem.next;
  }

  // ---------- Moving a range ----------

  /** The links inside `m` are consistent; its two outer links may point anywhere. */
  ghost predicate Piece(m: seq<Elem>)
    reads m
  {
    && Distinct(m)
    && forall i {:trigger Joined(m, i)} :: 0 <= i && i + 1 < |m| ==> Joined(m, i)
  }

  ghost function Without(s: seq<Elem>, i: nat, j: nat): seq<Elem>
    requires i <= j <= |s|
  {
    s[..i] + s[j..]
  }

  ghost function WithPiece(s: seq<Elem>, k: nat, m: seq<Elem>): seq<Elem>
    requires k <= |s|
  {
    s[..k] + m + s[k..]
  }

  ghost predicate Apart(s: seq<Elem>, t: seq<Elem>) {
    forall x :: x in s ==> x !in t
  }

  method CutOut(first: Elem, last: Elem, ghost s: seq<Elem>, ghost i: nat, ghost j: nat)
    requires Linked(s) && 0 < i < j < |s| && first == s[i] && last == s[j - 1]
    modifies s[i - 1], s[j]
    ensures Linked(Without(s, i, j)) && Piece(s[i..j])
  {
    assert Joined(s, i - 1) && Joined(s, j - 1);
    ghost var t, m := Without(s, i, j), s[i..j];
    first.prev.next := last.next;
    last.next.prev := first.prev;
    forall k | 0 <= k && k + 1 < |t| ensures Joined(t, k) {
      if k + 1 < i {
        assert old(Joined(s, k));
      } else if i <= k {
        assert old(Joined(s, k + j - i));
      }
    }
    forall k | 0 <= k && k + 1 < |m| ensures Joined(m, k) {
      assert old(Joined(s, k + i));
    }
  }

  method PasteIn(before: Elem, first: Elem, last: Elem, ghost d: seq<Elem>, ghost q: nat, ghost m: seq<Elem>)
    requires Linked(d) && 0 < q < |d| && before == d[q]
    requires Piece(m) && m != [] && Apart(d, m) && first == m[0] && last == m[|m| - 1]
    modifies d[q - 1], before, first, last
    ensures Linked(WithPiece(d, q, m))
  {
    assert Joined(d, q - 1);
    assert forall i | 0 <= i < |d| :: d[i] in d;
    assert forall i | 0 <= i < |m| :: m[i] in m;
    ghost var t := WithPiece(d, q, m);
    first.prev := before.prev;
    last.next := before;
    before.prev.next := first;
    before.prev := last;
    forall k | 0 <= k && k + 1 < |t| ensures Joined(t, k) {
      if k + 1 < q {
        assert old(Joined(d, k));
      } else if q <= k && k + 1 < q + |m| {
        assert old(Joined(m, k - q));
      } else if q + |m| <= k {
        assert old(Joined(d, k - |m|));
      }
    }
  }

  /**
    list_splice: the nodes from `first` up to, not including, `last` leave the
    list `s` and come to stand before `before`. The destination `d` is either
    another list or what is left of `s`.
  */
  method Splice(before: Elem, first: Elem, last: Elem,
                ghost s: seq<Elem>, ghost i: nat, ghost j: nat, ghost d: seq<Elem>, ghost q: nat)
    requires Linked(s) && 0 < i <= j < |s| && first == s[i] && last == s[j]
    requires d == Without(s, i, j) || (Linked(d) && Apart(d, s))
    requires 0 < q < |d| && before == d[q]
    modifies s[i - 1], s[i], s[j - 1], s[j], d[q - 1], d[q]
    ensures Linked(WithPiece(d, q, s[i..j]))
    ensures d != Without(s, i, j) ==> Linked(Without(s, i, j))
  {
    ghost var rest, m := Without(s, i, j), s[i..j];
    if first == last {
      assert i == j;
      assert rest == s && WithPiece(d, q, m) == d;
      return;
    }
    assert Joined(s, j - 1);
    var final := last.prev;
    assert s[i - 1] in s && s[j] in s;
    assert d != rest ==> s[i - 1] !in d && s[j] !in d;
    CutOut(first, final, s, i, j);
    assert Linked(d);
    CutApart(s, i, j, d);
    assert first in m && final in m;
    assert d[q - 1] in d && d[q] in d;
    assert first !in rest && final !in rest;
    assert d != rest ==> d[q - 1] !in rest && d[q] !in rest;
    PasteIn(before, first, final, d, q, m);
  }

  lemma CutApart(s: seq<Elem>, i: nat, j: nat, d: seq<Elem>)
    requires Distinct(s) && i <= j <= |s|
    requires d == Without(s, i, j) || Apart(d, s)
    ensures Apart(d, s[i..j]) && Apart(s[i..j], Without(s, i, j))
    ensures d != Without(s, i, j) ==> Apart(d, Without(s, i, j))
  {
  }

  // ---------- Lists ----------

  class List {
    const head: Elem
    const tail: Elem
    ghost var items: seq<Elem>

    ghost function Nodes(): seq<Elem>
      reads this
    {
      [head] + items + [tail]
    }

    ghost function Repr(): set<Elem>
      reads this
    {
      set x | x in Nodes()
    }

    ghost predicate Valid()
      reads this, Nodes()
    {
      Linked(Nodes())
    }

    /** The node at position `i`; the position after the last is the tail. */
    ghost function At(i: nat): Elem
      requires i <= |items|
      reads this
    {
      if i < |items| then items[i] else tail
    }

    lemma AtNode(i: nat)
      requires i <= |items|
      ensures Nodes()[i + 1] == At(i)
      ensures i < |items| ==> items[i] in items && items[i] in Nodes()
    {
    }

    /** The links at position `i` lead to the neighbours. */
    lemma Neighbours(i: nat)
      requires Valid() && i < |items|
      ensures items[i].next == At(i + 1) && At(i + 1).prev == items[i]
      ensures items[i] != tail
    {
      assert Joined(Nodes(), i + 1);
      assert Nodes()[i + 1] == items[i] && Nodes()[i + 2] == At(i + 1);
    }

    lemma First()
      requires Valid()
      ensures head.next == At(0) && At(0).prev == head
    {
      assert Joined(Nodes(), 0);
      assert Nodes()[1] == At(0);
    }

    /** list_init. */
    constructor ()
      ensures Valid() && items == [] && fresh(head) && fresh(tail)
    {
      var h := new Elem();
      var t := new Elem();
      head, tail, items := h, t, [];
      new;
      head.prev := null;
      head.next := tail;
      tail.prev := head;
      tail.next := null;
      assert Nodes() == [head, tail];
    }

    method Begin() returns (e: Elem)
      requires Valid()
      ensures e == At(0)
    {
      First();
      e := head.next;
    }

    /** list_insert at a known position. */
    method InsertAt(before: Elem, elem: Elem, ghost k: nat)
      requires Valid() && k <= |items| && before == At(k) && elem !in Nodes()
      modifies this`items, Repr(), elem
      ensures Valid() && items == old(items[..k] + [elem] + items[k..])
    {
      ghost var s := Nodes();
      AtNode(k);
      Insert(before, elem, s, k + 1);
      items := items[..k] + [elem] + items[k..];
      assert Nodes() == s[..k + 1] + [elem] + s[k + 1..];
    }

    method PushBack(elem: Elem)
      requires Valid() && elem !in Nodes()
      modifies this`items, Repr(), elem
      ensures Valid() && items == old(items) + [elem]
    {
      InsertAt(tail, elem, |items|);
    }

    method PushFront(elem: Elem)
      requires Valid() && elem !in Nodes()
      modifies this`items, Repr(), elem
      ensures Valid() && items == [elem] + old(items)
    {
      var first := Begin();
      InsertAt(first, elem, 0);
    }

    method RemoveAt(elem: Elem, ghost k: nat) returns (follower: Elem)
      requires Valid() && k < |items| && elem == items[k]
      modifies this`items, Repr()
      ensures Valid() && items == old(items[..k] + items[k + 1..])
      ensures follower == At(k)
    {
      ghost var s := Nodes();
      AtNode(k);
      AtNode(k + 1);
      follower := Remove(elem, s, k + 1);
      items := items[..k] + items[k + 1..];
      assert Nodes() == s[..k + 1] + s[k + 2..];
      AtNode(k);
    }

    /** Popping what was pushed: the front leaves and the rest stays. */
    method PopFront() returns (front: Elem)
      requires Valid() && items != []
      modifies this`items, Repr()
      ensures Valid() && [front] + items == old(items)
    {
      First();
      front := head.next;
      var _ := RemoveAt(front, 0);
    }

    // ---------- Reversing ----------

    /** The first `k` nodes have their links swapped, the others are untouched. */
    ghost predicate Flipped(k: nat)
      reads this, Nodes()
    {
      var s := Nodes();
      && Distinct(s)
      && (forall i {:trigger Turned(s, i)} :: 0 < i <= k && i + 1 < |s| ==> Turned(s, i))
      && (forall i {:trigger Straight(s, i)} :: k < i && i + 1 < |s| ==> Straight(s, i))
    }

    /** list_reverse. */
    method Reverse()
      requires Valid()
      modifies this`items, Repr()
      ensures Valid() && items == Reversed(old(items))
    {
      First();
      ghost var s, n := Nodes(), |items|;
      if head.next != tail {
        assert n > 0 && Joined(s, n);
        forall i | 0 < i && i + 1 < |s| ensures Straight(s, i) {
          assert Joined(s, i - 1) && Joined(s, i);
        }
        var e := head.next;
        ghost var k: nat := 0;
        while e != tail
          invariant k <= n && items == old(items) && e == s[k + 1]
          invariant Flipped(k)
          invariant head.prev == null && tail.next == null && head.next == s[1] && tail.prev == s[n]
          decreases n - k
        {
          FlipOne(e, k);
          e := e.prev;
          k := k + 1;
        }
        assert k == n;
        SwapEnds();
      } else {
        assert n == 0;
        assert items == Reversed(items);
      }
    }

    /** One step of the reversing loop: a node's two links change places. */
    method FlipOne(e: Elem, ghost k: nat)
      requires k < |items| && Flipped(k) && e == Nodes()[k + 1]
      modifies e
      ensures Flipped(k + 1) && e.prev == Nodes()[k + 2]
    {
      ghost var s := Nodes();
      assert Straight(s, k + 1);
      e.prev, e.next := e.next, e.prev;
      forall i | 0 < i <= k + 1 && i + 1 < |s| ensures Turned(s, i) {
        if i <= k { assert old(Turned(s, i)); }
      }
      forall i | k + 1 < i && i + 1 < |s| ensures Straight(s, i) { assert old(Straight(s, i)); }
    }

    /** The sentinels change ends, and then the outer links of the two end nodes are set right. */
    method SwapEnds()
      requires items != [] && Flipped(|items|)
      requires head.prev == null && tail.next == null && head.next == Nodes()[1] && tail.prev == Nodes()[|items|]
      modifies this`items, Repr()
      ensures Valid() && items == Reversed(old(items))
    {
      ghost var s, n := Nodes(), |items|;
      assert Turned(s, 1) && Turned(s, n);
      head.next, tail.prev := tail.prev, head.next;
      var f, l := head.next, tail.prev;
      f.prev, l.next := l.next, f.prev;
      ReversedNodes(head, items, tail);
      items := Reversed(items);
      ghost var t := Nodes();
      forall i | 0 <= i && i + 1 < |t| ensures Joined(t, i) {
        if 0 < i < n {
          assert old(Turned(s, n + 1 - i)) && old(Turned(s, n - i));
        }
      }
    }

    // ---------- Sorting ----------

    /** list_next. */
    method Next(e: Elem, ghost i: nat) returns (n: Elem)
      requires Valid() && i < |items| && e == items[i]
      ensures n == At(i + 1)
    {
      Neighbours(i);
      n := e.next;
    }

    /** list_prev. */
    method Prev(e: Elem, ghost i: nat) returns (p: Elem)
      requires Valid() && i < |items| && e == At(i + 1)
      ensures p == items[i]
    {
      Neighbours(i);
      p := e.prev;
    }

    /** find_end_of_run: the end of the run that starts at `start`, not beyond `b`. */
    method FindEndOfRun(start: Elem, b: Elem, less: (Elem, Elem) -> bool, ghost i: nat, ghost j: nat)
      returns (e: Elem, ghost k: nat, ghost compared: nat)
      requires Valid() && i < j <= |items| && start == items[i] && b == At(j)
      ensures e == At(RunEnd(less, items[..j], i))
      ensures k == RunEnd(less, items[..j], i) && compared <= k - i
    {
      ghost var s := items[..j];
      e := Next(start, i);
      k, compared := i + 1, 0;
      while true
        invariant i < k <= j && e == At(k) && compared < k - i
        invariant RunEnd(less, s, k - 1) == RunEnd(less, s, i)
        decreases j - k
      {
        SameNode(k, j);
        if e == b { break; }
        var before := Prev(e, k - 1);
        compared := compared + 1;
        assert s[k] == e && s[k - 1] == before;
        if less(e, before) { break; }
        e := Next(e, k);
        k := k + 1;
      }
    }

    lemma SameNode(i: nat, j: nat)
      requires Valid() && i <= |items| && j <= |items|
      ensures At(i) == At(j) <==> i == j
    {
      AtNode(i);
      AtNode(j);
    }

    /** One step of inplace_merge: the node at `m` jumps back before the node at `a`. */
    method HopBack(a0: Elem, b: Elem, follower: Elem, ghost a: nat, ghost m: nat)
      requires Valid() && a < m < |items| && a0 == items[a] && b == items[m] && follower == At(m + 1)
      modifies this`items, Repr()
      ensures Valid() && items == Hop(old(items), a, m)
    {
      ghost var s := Nodes();
      ghost var d := Without(s, m + 1, m + 2);
      AtNode(m + 1);
      assert d[a + 1] == items[a];
      Splice(a0, b, follower, s, m + 1, m + 2, d, a + 1);
      HopNodes(head, items, tail, a, m);
      items := Hop(items, a, m);
    }

    /** Where a merge of [i, k) of `was` stands: `a` and `m` are the positions of `a0` and `a1b0`. */
    ghost predicate MergeAt(less: (Elem, Elem) -> bool, was: seq<Elem>, i: nat, k: nat,
                            a0: Elem, a1b0: Elem, b1: Elem, a: nat, m: nat)
      reads this, Nodes()
    {
      && Valid() && Merging(less, items, i, a, m, k) && k <= |was|
      && MergedFrom(less, was, items, i, k)
      && a0 == At(a) && a1b0 == At(m) && b1 == At(k)
    }

    /** inplace_merge: the ordered stretches [i, j) and [j, k) become one. */
    method InPlaceMerge(first: Elem, second: Elem, b1: Elem, less: (Elem, Elem) -> bool,
                        ghost i: nat, ghost j: nat, ghost k: nat) returns (ghost compared: nat)
      requires Valid() && WeakOrder(less, items)
      requires i < j < k <= |items| && first == items[i] && second == items[j] && b1 == At(k)
      requires Ordered(less, items[i..j]) && Ordered(less, items[j..k])
      modifies this`items, Repr()
      ensures Valid() && MergedFrom(less, old(items), items, i, k)
      ensures Ordered(less, items[i..k])
      ensures Repr() == old(Repr())
      ensures compared <= k - i
    {
      var a0, a1b0 := first, second;
      ghost var a, m := i, j;
      compared := 0;
      MergeStart(less, items, i, j, k);
      while a0 != a1b0 && a1b0 != b1
        invariant MergeAt(less, old(items), i, k, a0, a1b0, b1, a, m)
        invariant compared == a - i && Repr() == old(Repr())
        decreases k - a
      {
        a0, a1b0, a, m := MergeStep(a0, a1b0, b1, less, old(items), i, a, m, k);
        compared := compared + 1;
      }
      SameNode(a, m);
      SameNode(m, k);
      MergeEnd(less, items, i, a, m, k);
    }

    lemma BothRunsLeft(less: (Elem, Elem) -> bool, was: seq<Elem>, i: nat, k: nat,
                       a0: Elem, a1b0: Elem, b1: Elem, a: nat, m: nat)
      requires MergeAt(less, was, i, k, a0, a1b0, b1, a, m) && a0 != a1b0 && a1b0 != b1
      ensures a < m < k
    {
      SameNode(a, m);
      SameNode(m, k);
    }

    method MergeStep(a0: Elem, a1b0: Elem, b1: Elem, less: (Elem, Elem) -> bool, ghost was: seq<Elem>,
                     ghost i: nat, ghost a: nat, ghost m: nat, ghost k: nat)
      returns (a0': Elem, a1b0': Elem, ghost a': nat, ghost m': nat)
      requires MergeAt(less, was, i, k, a0, a1b0, b1, a, m) && a0 != a1b0 && a1b0 != b1
      modifies this`items, Repr()
      ensures MergeAt(less, was, i, k, a0', a1b0', b1, a', m') && a' == a + 1 && Repr() == old(Repr())
    {
      BothRunsLeft(less, was, i, k, a0, a1b0, b1, a, m);
      a', m' := a + 1, m;
      if !less(a1b0, a0) {
        a0' := MergeOver(a0, a1b0, b1, less, was, i, a, m, k);
        a1b0' := a1b0;
        assert MergeAt(less, was, i, k, a0', a1b0', b1, a', m');
      } else {
        a0' := a0;
        a1b0' := MergeBack(a0, a1b0, b1, less, was, i, a, m, k);
        m' := m + 1;
        assert MergeAt(less, was, i, k, a0', a1b0', b1, a', m');
      }
    }

    /** The branch of the merge that steps over a node of the first stretch. */
    method MergeOver(a0: Elem, a1b0: Elem, ghost b1: Elem, less: (Elem, Elem) -> bool, ghost was: seq<Elem>,
                     ghost i: nat, ghost a: nat, ghost m: nat, ghost k: nat) returns (a0': Elem)
      requires MergeAt(less, was, i, k, a0, a1b0, b1, a, m) && a < m < k && !less(a1b0, a0)
      ensures MergeAt(less, was, i, k, a0', a1b0, b1, a + 1, m)
    {
      MergeKeep(less, items, i, a, m, k);
      a0' := Next(a0, a);
    }

    /** The branch of the merge that moves a node of the second stretch. */
    method MergeBack(a0: Elem, b: Elem, ghost b1: Elem, less: (Elem, Elem) -> bool, ghost was: seq<Elem>,
                     ghost i: nat, ghost a: nat, ghost m: nat, ghost k: nat) returns (a1b0: Elem)
      requires MergeAt(less, was, i, k, a0, b, b1, a, m) && a < m < k && less(b, a0)
      modifies this`items, Repr()
      ensures MergeAt(less, was, i, k, a0, a1b0, b1, a + 1, m + 1)
      ensures Repr() == old(Repr())
    {
      MergeBackFacts(less, was, items, i, a, m, k);
      HopRepr(head, items, tail, a, m);
      a1b0 := Next(b, m);
      var last := Prev(a1b0, m);
      HopBack(a0, last, a1b0, a, m);
    }

    /** Where a pass over `was` stands: `count` runs are output and reach up to position `p`. */
    ghost predicate PassAt(less: (Elem, Elem) -> bool, was: seq<Elem>, a0: Elem, p: nat, count: nat)
      reads this, Nodes()
    {
      && Valid() && p <= |was| && PassOf(less, was, items, p, count)
      && a0 == At(p)
    }

    /** Two adjacent runs, from `p` to `q` and on to `z`, are merged into one. */
    method MergeRuns(a0: Elem, a1b0: Elem, b1: Elem, less: (Elem, Elem) -> bool, ghost was: seq<Elem>,
                     ghost p: nat, ghost q: nat, ghost z: nat, ghost count: nat) returns (ghost compared: nat)
      requires PassAt(less, was, a0, p, count) && p < |items|
      requires q == RunEnd(less, items, p) < |items| && z == RunEnd(less, items, q)
      requires a1b0 == items[q] && b1 == At(z)
      modifies this`items, Repr()
      ensures PassAt(less, was, b1, z, count + 1) && Repr() == old(Repr())
      ensures compared <= z - p
    {
      RunOrdered(less, items, p);
      RunOrdered(less, items, q);
      compared := InPlaceMerge(a0, a1b0, b1, less, p, q, z);
      PassStep(less, was, old(items), items, p, count);
    }

    /** The run that starts at position `q`, up to the end of the list at most. */
    method NextRun(a: Elem, less: (Elem, Elem) -> bool, ghost q: nat)
      returns (e: Elem, ghost z: nat, ghost compared: nat)
      requires Valid() && q < |items| && a == items[q]
      ensures z == RunEnd(less, items, q) && e == At(z) && compared <= z - q
      ensures e == tail <==> z == |items|
    {
      assert items[..|items|] == items;
      e, z, compared := FindEndOfRun(a, tail, less, q, |items|);
      SameNode(z, |items|);
    }

    method RunFrom(a0: Elem, less: (Elem, Elem) -> bool, ghost was: seq<Elem>, ghost p: nat, ghost count: nat)
      returns (e: Elem, ghost q: nat, ghost compared: nat)
      requires PassAt(less, was, a0, p, count) && a0 != tail
      ensures p < |items| == |was| && q == RunEnd(less, items, p) && compared <= q - p
      ensures e == At(q)
      ensures e == tail <==> q == |items|
    {
      SameNode(p, |items|);
      e, q, compared := NextRun(a0, less, p);
    }

    /** The body of the pass: the next two runs are merged, unless there is only one left. */
    method NextTwoRuns(a0: Elem, less: (Elem, Elem) -> bool, ghost was: seq<Elem>, ghost p: nat, ghost count: nat)
      returns (more: bool, b1: Elem, ghost z: nat, ghost compared: nat)
      requires PassAt(less, was, a0, p, count) && a0 != tail
      modifies this`items, Repr()
      ensures more ==> PassAt(less, was, b1, z, count + 1) && p < z && Repr() == old(Repr())
      ensures compared <= 2 * (z - p)
      ensures !more ==> Valid() && items == old(items) && Rearranged(less, was, items) && z == |items| == |was|
      ensures !more ==> count + 1 == (Runs(less, was, 0) + 1) / 2 && Runs(less, items, 0) <= count + 1
    {
      ghost var q, c;
      var a1b0;
      a1b0, q, compared := RunFrom(a0, less, was, p, count);
      more, b1, z := a1b0 != tail, a1b0, q;
      if !more {
        LastRun(less, was, items, p, count);
        return;
      }
      b1, z, c := NextRun(a1b0, less, q);
      compared := compared + c;
      c := MergeRuns(a0, a1b0, b1, less, was, p, q, z, count);
      compared := compared + c;
    }

    /** One pass of list_sort: the runs are merged two by two. */
    method Pass(less: (Elem, Elem) -> bool) returns (count: nat, ghost compared: nat)
      requires Valid() && WeakOrder(less, items)
      modifies this`items, Repr()
      ensures Valid() && Rearranged(less, old(items), items) && Repr() == old(Repr())
      ensures count == (Runs(less, old(items), 0) + 1) / 2
      ensures Runs(less, items, 0) <= count
      ensures compared <= 2 * |items| && |items| == old(|items|)
    {
      var a0 := Begin();
      count, compared := 0, 0;
      ghost var p: nat := 0;
      while a0 != tail
        invariant PassAt(less, old(items), a0, p, count)
        invariant compared <= 2 * p && Repr() == old(Repr())
        decreases |old(items)| - p
      {
        ghost var z, c;
        var more, b1;
        more, b1, z, c := NextTwoRuns(a0, less, old(items), p, count);
        count, compared := count + 1, compared + c;
        if !more { return; }
        a0, p := b1, z;
      }
      SameNode(p, |items|);
      NoRunLeft(less, old(items), items, count);
    }

    /**
      list_sort: the list becomes the one stable, ordered arrangement of its
      nodes, the same that inserting them one by one would build.
    */
    method Sort(less: (Elem, Elem) -> bool) returns (ghost compared: nat)
      requires Valid() && WeakOrder(less, items)
      modifies this`items, Repr()
      ensures Valid() && items == SortedByInsertion(less, old(items))
      ensures Ordered(less, items) && Rearranged(less, old(items), items)
      ensures compared <= Work(|items|, Runs(less, old(items), 0))
    {
      compared := 0;
      var count := 2;
      while count > 1
        invariant Valid() && Repr() == old(Repr())
        invariant if count > 1 then Sorting(less, old(items), items, compared)
                  else SortDone(less, old(items), items, compared)
        decreases count > 1, Runs(less, items, 0)
      {
        ghost var was, c := items, 0;
        count, c := Pass(less);
        SortingStep(less, old(items), was, items, count, compared, c);
        compared := compared + c;
      }
      SortedIs(less, head, old(items), tail, items, compared);
    }

    /** The search of list_insert_ordered: the first node that `elem` is less than, or the tail. */
    method FindSlot(elem: Elem, less: (Elem, Elem) -> bool) returns (e: Elem, ghost k: nat)
      requires Valid()
      ensures e == At(Slot(less, items, elem)) && k == Slot(less, items, elem)
    {
      e := Begin();
      k := 0;
      while e != tail
        invariant k <= |items| && e == At(k)
        invariant forall i :: 0 <= i < k ==> !less(elem, items[i])
        decreases |items| - k
      {
        SameNode(k, |items|);
        if less(elem, e) { break; }
        e := Next(e, k);
        k := k + 1;
      }
      SameNode(k, |items|);
    }

    /** list_insert_ordered. */
    method InsertOrdered(elem: Elem, less: (Elem, Elem) -> bool)
      requires Valid() && elem !in Nodes()
      modifies this`items, Repr(), elem
      ensures Valid() && items == Inserted(less, old(items), elem)
      ensures WeakOrder(less, old(items) + [elem]) && Ordered(less, old(items)) ==> Ordered(less, items)
    {
      ghost var k;
      var e;
      e, k := FindSlot(elem, less);
      InsertAt(e, elem, k);
      if WeakOrder(less, old(items) + [elem]) && Ordered(less, old(items)) {
        InsertedOrdered(less, old(items), elem);
      }
    }

    // ---------- Removing adjacent duplicates ----------

    ghost predicate ApartFrom(other: List)
      reads this, other
    {
      this != other && Repr() !! other.Repr()
    }

    /** The node after position `k` moves from this list to the end of `duplicates`. */
    method DropInto(duplicates: List, next: Elem, ghost k: nat)
      requires Valid() && duplicates.Valid() && ApartFrom(duplicates) && k < |items| && next == items[k]
      modifies this`items, Repr(), duplicates`items, duplicates.Repr()
      ensures Valid() && duplicates.Valid() && ApartFrom(duplicates)
      ensures items == old(items[..k] + items[k + 1..])
      ensures duplicates.items == old(duplicates.items) + [next]
      ensures Repr() == old(Repr()) - {next} && duplicates.Repr() == old(duplicates.Repr()) + {next}
    {
      ghost var s := Nodes();
      AtNode(k);
      RemovedRepr(head, items, tail, k);
      assert next in Repr() && next !in duplicates.Nodes() by { assert next in s; }
      var _ := RemoveAt(next, k);
      assert duplicates.Valid() && next !in Repr();
      duplicates.PushBack(next);
    }

    /** list_unique stands at node `elem`; `gone` has moved to the end of the duplicates, which were `dups`. */
    ghost predicate Uniquing(duplicates: List?, less: (Elem, Elem) -> bool, was: seq<Elem>, dups: seq<Elem>,
                             elem: Elem, gone: seq<Elem>, k: nat)
      reads this, Nodes(), if duplicates == null then {} else {duplicates as object} + duplicates.Repr()
    {
      && Valid() && UniqueAt(less, was, items, gone, k) && elem == items[k]
      && (duplicates != null ==>
            duplicates.Valid() && ApartFrom(duplicates) && duplicates.items == dups + gone)
    }

    ghost function Reach(duplicates: List?): set<Elem>
      reads this, duplicates
    {
      Repr() + if duplicates == null then {} else duplicates.Repr()
    }

    /** One round of list_unique: `next` is dropped if it equals `elem`, and is the next node kept if not. */
    method UniqueStep(duplicates: List?, elem: Elem, next: Elem, less: (Elem, Elem) -> bool,
                      ghost was: seq<Elem>, ghost dups: seq<Elem>, ghost gone: seq<Elem>, ghost k: nat)
      returns (kept: Elem, ghost gone': seq<Elem>, ghost k': nat)
      requires Uniquing(duplicates, less, was, dups, elem, gone, k) && k + 1 < |items| && next == items[k + 1]
      modifies this`items, Reach(duplicates), duplicates
      ensures Uniquing(duplicates, less, was, dups, kept, gone', k')
      ensures Reach(duplicates) <= old(Reach(duplicates))
      ensures |items| - k' < old(|items|) - k
    {
      UniqueAdvance(less, was, items, gone, k);
      AtNode(k + 1);
      if !less(elem, next) && !less(next, elem) {
        kept, gone', k' := elem, gone + [next], k;
        if duplicates != null {
          DropInto(duplicates, next, k + 1);
        } else {
          var _ := RemoveAt(next, k + 1);
          RemovedRepr(head, old(items), tail, k + 1);
        }
      } else {
        kept, gone', k' := next, gone, k + 1;
      }
    }

    method UniqueNext(duplicates: List?, elem: Elem, less: (Elem, Elem) -> bool,
                      ghost was: seq<Elem>, ghost dups: seq<Elem>, ghost gone: seq<Elem>, ghost k: nat)
      returns (next: Elem)
      requires Uniquing(duplicates, less, was, dups, elem, gone, k)
      ensures next == At(k + 1) && (next == tail <==> k + 1 == |items|)
    {
      next := Next(elem, k);
      SameNode(k + 1, |items|);
    }

    /** A round of list_unique and the look at the next node that decides on another. */
    method UniqueRound(duplicates: List?, elem: Elem, next: Elem, less: (Elem, Elem) -> bool,
                       ghost was: seq<Elem>, ghost dups: seq<Elem>, ghost gone: seq<Elem>, ghost k: nat)
      returns (kept: Elem, next': Elem, ghost gone': seq<Elem>, ghost k': nat)
      requires Uniquing(duplicates, less, was, dups, elem, gone, k) && k + 1 < |items| && next == items[k + 1]
      modifies this`items, Reach(duplicates), duplicates
      ensures Uniquing(duplicates, less, was, dups, kept, gone', k')
      ensures Reach(duplicates) <= old(Reach(duplicates))
      ensures |items| - k' < old(|items|) - k
      ensures next' == At(k' + 1) && (next' == tail <==> k' + 1 == |items|)
    {
      kept, gone', k' := UniqueStep(duplicates, elem, next, less, was, dups, gone, k);
      next' := UniqueNext(duplicates, kept, less, was, dups, gone', k');
    }

    /** list_unique: the kept nodes stay, the dropped ones go to the end of `duplicates`, if given. */
    method Unique(duplicates: List?, less: (Elem, Elem) -> bool)
      requires Valid() && (duplicates != null ==> duplicates.Valid() && ApartFrom(duplicates))
      modifies this`items, Reach(duplicates), duplicates
      ensures Valid() && items == Kept(less, old(items))
      ensures duplicates != null ==>
        duplicates.Valid() && duplicates.items == old(duplicates.items) + Dropped(less, old(items))
    {
      var elem := Begin();
      SameNode(0, |items|);
      if elem == tail { return; }
      UniqueStart(less, items);
      ghost var k: nat, gone: seq<Elem> := 0, [];
      ghost var dups := if duplicates == null then [] else duplicates.items;
      var next := UniqueNext(duplicates, elem, less, items, dups, gone, k);
      while next != tail
        invariant Uniquing(duplicates, less, old(items), dups, elem, gone, k)
        invariant Reach(duplicates) <= old(Reach(duplicates))
        invariant next == At(k + 1) && (next == tail <==> k + 1 == |items|)
        decreases |items| - k
      {
        elem, next, gone, k := UniqueRound(duplicates, elem, next, less, old(items), dups, gone, k);
      }
      UniqueEnd(less, old(items), items, gone, k);
    }
  }

  ghost function Reversed(s: seq<Elem>): seq<Elem> {
    seq(|s|, i requires 0 <= i < |s| => s[|s| - 1 - i])
  }

  lemma HopNodes(h: Elem, items: seq<Elem>, l: Elem, a: nat, m: nat)
    requires a < m < |items|
    ensures var s := [h] + items + [l];
            [h] + Hop(items, a, m) + [l] == WithPiece(Without(s, m + 1, m + 2), a + 1, s[m + 1..m + 2])
  {
    var s := [h] + items + [l];
    var d := Without(s, m + 1, m + 2);
    assert d == [h] + items[..a] + items[a..m] + items[m + 1..] + [l];
    assert d[..a + 1] == [h] + items[..a];
    assert d[a + 1..] == items[a..m] + items[m + 1..] + [l];
    assert s[m + 1..m + 2] == [items[m]];
  }

  /** `t` rearranges `s` between `i` and `k` only, and only where the order asks for it. */
  ghost predicate MergedFrom(less: (Elem, Elem) -> bool, s: seq<Elem>, t: seq<Elem>, i: nat, k: nat)
    requires i <= k <= |s|
  {
    && WeakOrder(less, t) && Rearranged(less, s, t) && |t| == |s|
    && t[..i] == s[..i] && t[k..] == s[k..]
  }

  lemma HopMergedFrom(less: (Elem, Elem) -> bool, s: seq<Elem>, t: seq<Elem>, i: nat, a: nat, m: nat, k: nat)
    requires i <= a < m < k <= |s| && MergedFrom(less, s, t, i, k) && Rearranged(less, t, Hop(t, a, m))
    ensures MergedFrom(less, s, Hop(t, a, m), i, k)
  {
    var h := Hop(t, a, m);
    RearrangedTrans(less, s, t, h);
    SameWeakOrder(less, t, h);
    assert h[..i] == t[..i];
    forall x | k <= x < |t| ensures h[x] == t[x] { HopIndex(t, a, m, x); }
    assert h[k..] == t[k..];
  }

  /** After `count` merges, the runs before `p` are `count` in number and those after it untouched. */
  ghost predicate PassOf(less: (Elem, Elem) -> bool, was: seq<Elem>, s: seq<Elem>, p: nat, count: nat)
    requires p <= |was|
  {
    && MergedFrom(less, was, s, 0, p)
    && 2 * count + Runs(less, s, p) == Runs(less, was, 0)
    && (if p == 0 then count == 0 else 1 + Descents(less, s, 1, p) <= count)
  }

  lemma PassStep(less: (Elem, Elem) -> bool, was: seq<Elem>, s: seq<Elem>, t: seq<Elem>, p: nat, count: nat)
    requires p < |was| && PassOf(less, was, s, p, count) && RunEnd(less, s, p) < |s|
    requires var z := RunEnd(less, s, RunEnd(less, s, p));
             MergedFrom(less, s, t, p, z) && Ordered(less, t[p..z])
    ensures PassOf(less, was, t, RunEnd(less, s, RunEnd(less, s, p)), count + 1)
  {
    var q := RunEnd(less, s, p);
    var z := RunEnd(less, s, q);
    FirstRun(less, s, p);
    FirstRun(less, s, q);
    RunsSame(less, s, t, z);
    StretchAdded(less, s, t, p, z);
    RearrangedTrans(less, was, s, t);
    assert was[z..] == was[p..][z - p..] == s[p..][z - p..] == s[z..];
  }

  lemma LastRun(less: (Elem, Elem) -> bool, was: seq<Elem>, s: seq<Elem>, p: nat, count: nat)
    requires p < |was| && PassOf(less, was, s, p, count) && RunEnd(less, s, p) == |s|
    ensures count + 1 == (Runs(less, was, 0) + 1) / 2 && Runs(less, s, 0) <= count + 1
  {
    FirstRun(less, s, p);
    RunOrdered(less, s, p);
    StretchAdded(less, s, s, p, |s|);
  }

  lemma NoRunLeft(less: (Elem, Elem) -> bool, was: seq<Elem>, s: seq<Elem>, count: nat)
    requires PassOf(less, was, s, |was|, count)
    ensures count == (Runs(less, was, 0) + 1) / 2 && Runs(less, s, 0) <= count
  {
  }

  lemma RemovedRepr(h: Elem, items: seq<Elem>, l: Elem, k: nat)
    requires Distinct([h] + items + [l]) && k < |items|
    ensures var s, t := [h] + items + [l], [h] + (items[..k] + items[k + 1..]) + [l];
            (set x | x in t) == (set x | x in s) - {items[k]}
  {
    var s, t := [h] + items + [l], [h] + (items[..k] + items[k + 1..]) + [l];
    assert s[k + 1] == items[k];
    forall i | 0 <= i < |t| ensures t[i] == s[if i <= k then i else i + 1] {}
    forall i | 0 <= i < |s| && i != k + 1 ensures s[i] in t && s[i] != items[k] {
      assert s[i] == t[if i <= k then i else i - 1];
    }
  }

  /** list_unique stands at position `k` of `s`, and has dropped `gone` of `was`. */
  ghost predicate UniqueAt(less: (Elem, Elem) -> bool, was: seq<Elem>, s: seq<Elem>, gone: seq<Elem>, k: nat) {
    && k < |s|
    && Kept(less, was) == s[..k + 1] + KeptAfter(less, s[k], s[k + 1..])
    && Dropped(less, was) == gone + DroppedAfter(less, s[k], s[k + 1..])
  }

  lemma UniqueStart(less: (Elem, Elem) -> bool, s: seq<Elem>)
    requires s != []
    ensures UniqueAt(less, s, s, [], 0)
  {
  }

  lemma UniqueEnd(less: (Elem, Elem) -> bool, was: seq<Elem>, s: seq<Elem>, gone: seq<Elem>, k: nat)
    requires UniqueAt(less, was, s, gone, k) && k + 1 == |s|
    ensures s == Kept(less, was) && gone == Dropped(less, was)
  {
  }

  lemma UniqueAdvance(less: (Elem, Elem) -> bool, was: seq<Elem>, s: seq<Elem>, gone: seq<Elem>, k: nat)
    requires UniqueAt(less, was, s, gone, k) && k + 1 < |s|
    ensures if Equal(less, s[k], s[k + 1])
            then UniqueAt(less, was, s[..k + 1] + s[k + 2..], gone + [s[k + 1]], k)
            else UniqueAt(less, was, s, gone, k + 1)
  {
    assert s[k + 1..][1..] == s[k + 2..];
    if Equal(less, s[k], s[k + 1]) {
      var t := s[..k + 1] + s[k + 2..];
      assert t[..k + 1] == s[..k + 1] && t[k + 1..] == s[k + 2..] && t[k] == s[k];
    } else {
      assert s[..k + 2] == s[..k + 1] + [s[k + 1]];
    }
  }

  /** `s` stands between two passes of a sort of `was`. */
  ghost predicate Sorting(less: (Elem, Elem) -> bool, was: seq<Elem>, s: seq<Elem>, compared: nat) {
    && WeakOrder(less, s) && Rearranged(less, was, s) && |s| == |was|
    && compared + Work(|was|, Runs(less, s, 0)) <= Work(|was|, Runs(less, was, 0))
  }

  ghost predicate SortDone(less: (Elem, Elem) -> bool, was: seq<Elem>, s: seq<Elem>, compared: nat) {
    && WeakOrder(less, s) && Rearranged(less, was, s) && |s| == |was|
    && Runs(less, s, 0) <= 1
    && compared <= Work(|was|, Runs(less, was, 0))
  }

  /** Every pass but the last leaves fewer runs, and its comparisons are paid for. */
  lemma SortingStep(less: (Elem, Elem) -> bool, was: seq<Elem>, s: seq<Elem>, t: seq<Elem>,
                    count: nat, compared: nat, c: nat)
    requires Sorting(less, was, s, compared) && Rearranged(less, s, t) && |t| == |s|
    requires count == (Runs(less, s, 0) + 1) / 2 && Runs(less, t, 0) <= count && c <= 2 * |s|
    ensures count > 1 ==> Sorting(less, was, t, compared + c) && Runs(less, t, 0) < Runs(less, s, 0)
    ensures count <= 1 ==> SortDone(less, was, t, compared + c)
  {
    RearrangedTrans(less, was, s, t);
    SameWeakOrder(less, s, t);
    WorkMonotone(|was|, Runs(less, t, 0), (Runs(less, s, 0) + 1) / 2);
  }

  lemma SortedIs(less: (Elem, Elem) -> bool, h: Elem, was: seq<Elem>, l: Elem, s: seq<Elem>, compared: nat)
    requires Distinct([h] + was + [l]) && WeakOrder(less, was) && SortDone(less, was, s, compared)
    ensures Ordered(less, s) && s == SortedByInsertion(less, was)
  {
    OneRunOrdered(less, s);
    SortedByInsertionSorts(less, was);
    InnerDistinct(h, was, l);
    StableUnique(less, was, s, SortedByInsertion(less, was));
  }

  lemma InnerDistinct(h: Elem, items: seq<Elem>, l: Elem)
    requires Distinct([h] + items + [l])
    ensures Distinct(items)
  {
    var s := [h] + items + [l];
    forall i, j | 0 <= i < j < |items| ensures items[i] != items[j] {
      assert s[i + 1] == items[i] && s[j + 1] == items[j];
    }
  }

  lemma MergeBackFacts(less: (Elem, Elem) -> bool, was: seq<Elem>, s: seq<Elem>, i: nat, a: nat, m: nat, k: nat)
    requires Merging(less, s, i, a, m, k) && a < m < k <= |was| && less(s[m], s[a])
    requires MergedFrom(less, was, s, i, k)
    ensures var h := Hop(s, a, m);
            && Merging(less, h, i, a + 1, m + 1, k) && MergedFrom(less, was, h, i, k)
            && h[a + 1] == s[a] && (m + 1 < |s| ==> h[m + 1] == s[m + 1]) && (k < |s| ==> h[k] == s[k])
  {
    MergeHop(less, s, i, a, m, k);
    HopMergedFrom(less, was, s, i, a, m, k);
    HopIndex(s, a, m, a + 1);
    if m + 1 < |s| { HopIndex(s, a, m, m + 1); }
    if k < |s| { HopIndex(s, a, m, k); }
  }

  lemma HopMultiset(items: seq<Elem>, a: nat, m: nat)
    requires a < m < |items|
    ensures multiset(Hop(items, a, m)) == multiset(items)
  {
    assert items == items[..a] + items[a..m] + [items[m]] + items[m + 1..];
  }

  lemma HopRepr(h: Elem, items: seq<Elem>, l: Elem, a: nat, m: nat)
    requires a < m < |items|
    ensures (set x | x in [h] + Hop(items, a, m) + [l]) == (set x | x in [h] + items + [l])
  {
    var s, t := [h] + items + [l], [h] + Hop(items, a, m) + [l];
    HopMultiset(items, a, m);
    assert multiset(s) == multiset{h} + multiset(items) + multiset{l};
    assert multiset(t) == multiset{h} + multiset(Hop(items, a, m)) + multiset{l};
    SameElements(s, t);
  }

  lemma SameWeakOrder(less: (Elem, Elem) -> bool, s: seq<Elem>, t: seq<Elem>)
    requires WeakOrder(less, s) && multiset(t) == multiset(s)
    ensures WeakOrder(less, t)
  {
    SameElements(s, t);
    WeakOrderAmong(less, s, t);
  }

  lemma ReversedNodes(h: Elem, items: seq<Elem>, l: Elem)
    requires Distinct([h] + items + [l])
    ensures var s, t, n := [h] + items + [l], [h] + Reversed(items) + [l], |items|;
            && |t| == n + 2 && Distinct(t) && t[0] == h && t[n + 1] == l
            && forall i :: 0 < i <= n ==> t[i] == s[n + 1 - i]
  {
    var s, t, n := [h] + items + [l], [h] + Reversed(items) + [l], |items|;
    forall i | 0 < i <= n ensures t[i] == s[n + 1 - i] {}
    assert s[0] == h && s[n + 1] == l;
    forall i, j | 0 <= i < j < |t| ensures t[i] != t[j] {
      assert t[i] == s[if i == 0 then 0 else n + 1 - i];
      assert t[j] == s[if j == n + 1 then n + 1 else n + 1 - j];
    }
  }

  ghost predicate Turned(s: seq<Elem>, i: int)
    requires 0 < i && i + 1 < |s|
    reads s
  {
    s[i].next == s[i - 1] && s[i].prev == s[i + 1]
  }

  ghost predicate Straight(s: seq<Elem>, i: int)
    requires 0 < i && i + 1 < |s|
    reads s
  {
    s[i].prev == s[i - 1] && s[i].next == s[i + 1]
  }
}
