/**
  The minimum-runtime scheduler. Threads stay on the ready list while they
  run; the timer charges the current thread a tick, and if it interrupted user
  code the thread of least runtime runs next.
*/
module Scheduling {

  const MAX64: nat := 0xFFFF_FFFF_FFFF_FFFF

  datatype ThreadState = Running | Ready | Blocked | Dying | New

  /** The ready list and the current thread, as values. A negative `current` is NULL. */
  datatype Sched = Sched(runtimes: seq<nat>, states: seq<ThreadState>, current: int)

  // ---------- The least runtime ----------

  /** Position `k` holds the first of the least runtimes, and that is below the initial value of the search. */
  ghost predicate IsLeast(r: seq<nat>, k: int) {
    && 0 <= k < |r| && r[k] < MAX64
    && (forall i {:trigger r[i]} :: 0 <= i < |r| ==> r[k] <= r[i])
    && (forall i {:trigger r[i]} :: 0 <= i < k ==> r[k] < r[i])
  }

  /** getThreadWithMinRuntime on values; -1 if it finds nothing. */
  function Least(r: seq<nat>): (k: int)
    ensures -1 <= k < |r|
    ensures k >= 0 ==> IsLeast(r, k)
    ensures k < 0 ==> forall i :: 0 <= i < |r| ==> r[i] >= MAX64
  {
    if r == [] then -1 else
      var n := |r| - 1;
      var k := Least(r[..n]);
      if r[n] < (if k < 0 then MAX64 else r[k]) then n else k
  }

  // ---------- Steps ----------

  /** irqThreadTimerHandler up to the choice of the next thread: the current thread is charged a tick. */
  function Charged(s: Sched, tick: nat): Sched
    requires s.current < |s.runtimes|
  {
    if s.current < 0 then s
    else s.(runtimes := s.runtimes[s.current := (s.runtimes[s.current] + tick) % (MAX64 + 1)])
  }

  /** threadNext: the current thread gives way to the one of least runtime. */
  function Switched(s: Sched): Sched
    requires |s.states| == |s.runtimes| && 0 <= s.current < |s.runtimes| && Least(s.runtimes) >= 0
  {
    var k := Least(s.runtimes);
    s.(states := s.states[s.current := Ready][k := Running], current := k)
  }

  /** threadSelect. */
  function Selected(s: Sched, k: nat): Sched
    requires |s.states| == |s.runtimes| && k < |s.runtimes|
  {
    s.(states := s.states[k := Running], current := k)
  }

  /** threadCreate: a new thread at the end of the ready list, with runtime 0. */
  function Created(s: Sched): Sched {
    s.(runtimes := s.runtimes + [0], states := s.states + [New])
  }

  // ---------- Exactly one thread runs ----------

  ghost predicate OneRuns(s: Sched) {
    && |s.states| == |s.runtimes| && s.current < |s.runtimes|
    && forall i {:trigger s.states[i]} :: 0 <= i < |s.states| ==> (s.states[i] == Running <==> i == s.current)
  }

  lemma OneRunsKept(s: Sched, tick: nat)
    requires OneRuns(s)
    ensures OneRuns(Charged(s, tick))
    ensures s.current >= 0 && Least(s.runtimes) >= 0 ==> OneRuns(Switched(s))
    ensures OneRuns(Created(s))
  {
  }

  /** Selecting keeps one thread running if and only if none was, or it selects the current one. */
  lemma SelectKeepsExactly(s: Sched, k: nat)
    requires OneRuns(s) && k < |s.runtimes|
    ensures OneRuns(Selected(s, k)) <==> s.current < 0 || s.current == k
  {
    var t := Selected(s, k);
    if s.current >= 0 && s.current != k {
      assert t.states[s.current] == Running;
    }
  }

  // ---------- Runs of the timer ----------

  /** The source can switch: there is a current thread, and the search finds a thread. */
  predicate CanSwitch(s: Sched) {
    |s.states| == |s.runtimes| && 0 <= s.current < |s.runtimes| && Least(s.runtimes) >= 0
  }

  /** The thread that gives way is ready, unless it runs on; the one that runs is running; no other state changes. */
  lemma SwitchedStates(s: Sched, i: nat)
    requires CanSwitch(s) && i < |s.runtimes|
    ensures var t := Switched(s);
            && t.runtimes == s.runtimes && |t.states| == |s.states| && IsLeast(s.runtimes, t.current)
            && t.states[i] ==
               if IsLeast(s.runtimes, i) then Running else if i == s.current then Ready else s.states[i]
  {
    assert IsLeast(s.runtimes, Least(s.runtimes));
  }

  /** What threadNext leaves where it cannot: the current thread, if any, marked as ready. */
  function Stranded(s: Sched): Sched
    requires |s.states| == |s.runtimes| && s.current < |s.runtimes|
  {
    if s.current < 0 then s else s.(states := s.states[s.current := Ready])
  }

  /** One timer interrupt, of user code or of the kernel; one that faults counts as one of the kernel. */
  function Ticked(s: Sched, tick: nat, user: bool): Sched
    requires s.current < |s.runtimes|
  {
    var t := Charged(s, tick);
    if user && CanSwitch(t) then Switched(t) else t
  }

  datatype Event = Timer(user: bool) | Create

  /** The state after a series of timer interrupts and creations. */
  function Run(s: Sched, tick: nat, events: seq<Event>): (t: Sched)
    requires s.current < |s.runtimes|
    ensures t.current < |t.runtimes|
    decreases |events|
  {
    if events == [] then s else
      var t := Run(s, tick, events[..|events| - 1]);
      match events[|events| - 1]
      case Timer(user) => Ticked(t, tick, user)
      case Create => Created(t)
  }

  /** All that a run charges. */
  function Charge(events: seq<Event>, tick: nat): nat
    decreases |events|
  {
    if events == [] then 0
    else Charge(events[..|events| - 1], tick) + if events[|events| - 1] == Create then 0 else tick
  }

  ghost predicate Below(r: seq<nat>, bound: nat) {
    forall i {:trigger r[i]} :: 0 <= i < |r| ==> r[i] <= bound
  }

  /** No runtime exceeds another by more than `d`. */
  ghost predicate Within(r: seq<nat>, d: nat) {
    forall i, j {:trigger r[i], r[j]} :: 0 <= i < |r| && 0 <= j < |r| ==> r[i] <= r[j] + d
  }

  /** The current thread is ahead of the least runtime by no more than `lead`. */
  ghost predicate Ahead(s: Sched, lead: nat) {
    && |s.states| == |s.runtimes| && 0 <= s.current < |s.runtimes|
    && forall i {:trigger s.runtimes[i]} :: 0 <= i < |s.runtimes| ==> s.runtimes[s.current] <= s.runtimes[i] + lead
  }

  /** One interrupt, while no counter can wrap. */
  lemma TickEffect(s: Sched, tick: nat, user: bool, lead: nat, bound: nat)
    requires Ahead(s, lead) && Below(s.runtimes, bound) && bound + tick < MAX64
    ensures var t := Ticked(s, tick, user);
            && t.runtimes == s.runtimes[s.current := s.runtimes[s.current] + tick]
            && Below(t.runtimes, bound + tick)
            && (user ==> t.current == Least(t.runtimes) && Ahead(t, 0))
            && (!user ==> t.current == s.current && Ahead(t, lead + tick))
  {
    var c := Charged(s, tick);
    assert s.runtimes[s.current] <= bound;
    assert c.runtimes == s.runtimes[s.current := s.runtimes[s.current] + tick];
    assert c.runtimes[s.current] < MAX64;
    assert Least(c.runtimes) >= 0;
  }

  lemma ChargeSpread(r: seq<nat>, c: nat, tick: nat, lead: nat, d: nat)
    requires c < |r| && Within(r, d) && lead + tick <= d
    requires forall i {:trigger r[i]} :: 0 <= i < |r| ==> r[c] <= r[i] + lead
    ensures Within(r[c := r[c] + tick], d)
  {
    var t := r[c := r[c] + tick];
    forall i, j | 0 <= i < |t| && 0 <= j < |t| ensures t[i] <= t[j] + d {
      assert r[i] <= r[j] + d && r[c] <= r[j] + lead;
    }
  }

  /**
    A charge that wraps its counter breaks the spread law, and no other does: here for the current
    thread as one of least runtime, and a spread and tick that 64 bits hold together.
  */
  lemma ChargedSpread(s: Sched, tick: nat, d: nat)
    requires Ahead(s, 0) && Within(s.runtimes, d) && Below(s.runtimes, MAX64) && |s.runtimes| >= 2
    requires tick <= d && d + tick <= MAX64
    ensures Within(Charged(s, tick).runtimes, d) <==> s.runtimes[s.current] + tick <= MAX64
  {
    var r, c, t := s.runtimes, s.current, Charged(s, tick).runtimes;
    if r[c] + tick <= MAX64 {
      ChargeSpread(r, c, tick, 0, d);
    } else {
      var i := if c == 0 then 1 else 0;
      assert t[c] == r[c] + tick - (MAX64 + 1) && t[i] == r[i] && r[c] <= r[i];
      assert t[i] > t[c] + d;
    }
  }

  /**
    How far the current thread can be ahead of the least runtime: by what it was charged since it was
    selected, or by all its runtime where a thread was created since.
  */
  function Lead(s: Sched, tick: nat, events: seq<Event>): nat
    requires s.current < |s.runtimes|
    decreases |events|
  {
    if events == [] then 0 else
      var p := events[..|events| - 1];
      match events[|events| - 1]
      case Timer(user) => if user then 0 else Lead(s, tick, p) + tick
      case Create => var t := Run(s, tick, p); if t.current < 0 then 0 else t.runtimes[t.current]
  }

  /** No thread is charged past `d` ahead of the least runtime, and none is created where a runtime exceeds `d`. */
  ghost predicate Stretches(s: Sched, tick: nat, events: seq<Event>, d: nat)
    requires s.current < |s.runtimes|
    decreases |events|
  {
    events == [] ||
    var p := events[..|events| - 1];
    && Stretches(s, tick, p, d)
    && match events[|events| - 1]
       case Timer(_) => Lead(s, tick, p) + tick <= d
       case Create => Below(Run(s, tick, p).runtimes, d)
  }

  lemma CreatedAhead(s: Sched, lead: nat)
    requires Ahead(s, lead)
    ensures Ahead(Created(s), s.runtimes[s.current])
  {
    var t := Created(s);
    assert t.runtimes[s.current] == s.runtimes[s.current];
  }

  lemma {:induction false} RunSpread(s: Sched, tick: nat, events: seq<Event>, d: nat, bound: nat)
    requires Ahead(s, 0) && Within(s.runtimes, d) && Stretches(s, tick, events, d)
    requires Below(s.runtimes, bound) && bound + Charge(events, tick) < MAX64
    ensures var t := Run(s, tick, events);
            && Ahead(t, Lead(s, tick, events)) && Within(t.runtimes, d)
            && Below(t.runtimes, bound + Charge(events, tick))
    decreases |events|
  {
    if events != [] {
      var p, e := events[..|events| - 1], events[|events| - 1];
      RunSpread(s, tick, p, d, bound);
      var t := Run(s, tick, p);
      if e == Create {
        CreatedSpread(t, d);
        CreatedAhead(t, Lead(s, tick, p));
      } else {
        TickEffect(t, tick, e.user, Lead(s, tick, p), bound + Charge(p, tick));
        ChargeSpread(t.runtimes, t.current, tick, Lead(s, tick, p), d);
      }
    }
  }

  /** Every interrupt is of user code. */
  ghost predicate UserOnly(events: seq<Event>) {
    forall i {:trigger events[i]} :: 0 <= i < |events| ==> events[i] != Timer(false)
  }

  /** Where a thread is created no runtime exceeds `m`. */
  ghost predicate CreatedBy(s: Sched, tick: nat, events: seq<Event>, m: nat)
    requires s.current < |s.runtimes|
    decreases |events|
  {
    events == [] ||
    var p := events[..|events| - 1];
    CreatedBy(s, tick, p, m) && (events[|events| - 1] == Create ==> Below(Run(s, tick, p).runtimes, m))
  }

  lemma {:induction false} UserStretches(s: Sched, tick: nat, events: seq<Event>, m: nat, bound: nat)
    requires Ahead(s, 0) && UserOnly(events)
    requires Below(s.runtimes, bound) && bound + Charge(events, tick) < MAX64 && CreatedBy(s, tick, events, m)
    ensures Stretches(s, tick, events, m + tick) && Lead(s, tick, events) <= m
    ensures Ahead(Run(s, tick, events), Lead(s, tick, events))
    ensures Below(Run(s, tick, events).runtimes, bound + Charge(events, tick))
    decreases |events|
  {
    if events != [] {
      var p, e := events[..|events| - 1], events[|events| - 1];
      UserStretches(s, tick, p, m, bound);
      var t := Run(s, tick, p);
      if e == Create {
        CreatedAhead(t, Lead(s, tick, p));
      } else {
        TickEffect(t, tick, e.user, Lead(s, tick, p), bound + Charge(p, tick));
      }
    }
  }

  lemma {:induction false} StretchesMore(s: Sched, tick: nat, events: seq<Event>, d: nat, e: nat)
    requires s.current < |s.runtimes| && Stretches(s, tick, events, d) && d <= e
    ensures Stretches(s, tick, events, e)
    decreases |events|
  {
    if events != [] { StretchesMore(s, tick, events[..|events| - 1], d, e); }
  }

  /**
    Where every interrupt is of user code and the current thread starts as one of least runtime, no
    two runtimes come to differ by more than the larger of their initial spread and one tick, counted
    from `m` on if threads are created where runtimes are up to `m`; `m` is 0 if none is created.
  */
  lemma SpreadBounded(s: Sched, tick: nat, events: seq<Event>, spread: nat, m: nat, bound: nat)
    requires Ahead(s, 0) && Within(s.runtimes, spread) && UserOnly(events)
    requires Below(s.runtimes, bound) && bound + Charge(events, tick) < MAX64 && CreatedBy(s, tick, events, m)
    ensures Within(Run(s, tick, events).runtimes, if spread < m + tick then m + tick else spread)
  {
    var d := if spread < m + tick then m + tick else spread;
    UserStretchesIn(s, tick, events, m, d, bound);
    WithinMore(s.runtimes, spread, d);
    RunSpread(s, tick, events, d, bound);
  }

  lemma UserStretchesIn(s: Sched, tick: nat, events: seq<Event>, m: nat, d: nat, bound: nat)
    requires Ahead(s, 0) && UserOnly(events) && m + tick <= d
    requires Below(s.runtimes, bound) && bound + Charge(events, tick) < MAX64 && CreatedBy(s, tick, events, m)
    ensures Stretches(s, tick, events, d)
  {
    UserStretches(s, tick, events, m, bound);
    StretchesMore(s, tick, events, m + tick, d);
  }

  lemma WithinMore(r: seq<nat>, d: nat, e: nat)
    requires Within(r, d) && d <= e
    ensures Within(r, e)
  {
  }

  // ---------- One thread runs, over runs with new threads ----------

  /** From the first selection on, exactly the current thread is marked as running. */
  lemma {:induction false} AlwaysOneRuns(s: Sched, first: nat, tick: nat, events: seq<Event>)
    requires OneRuns(s) && s.current < 0 && first < |s.runtimes|
    ensures var t := Run(Selected(s, first), tick, events); OneRuns(t) && t.current >= 0
    decreases |events|
  {
    SelectKeepsExactly(s, first);
    if events != [] {
      var p := events[..|events| - 1];
      AlwaysOneRuns(s, first, tick, p);
      var t := Run(Selected(s, first), tick, p);
      OneRunsKept(t, tick);
      OneRunsKept(Charged(t, tick), tick);
    }
  }

  // ---------- What a new thread starts with ----------

  /** The runtime that threadCreate looks up for a new thread: the least, or 0 on an empty ready list. */
  function Intended(r: seq<nat>): nat {
    if Least(r) < 0 then 0 else r[Least(r)]
  }

  /** The 0 it gets is the runtime looked up if and only if there is none to find or some thread has runtime 0. */
  lemma CreatedAsIntended(r: seq<nat>)
    ensures Intended(r) == 0 <==> Least(r) < 0 || exists i :: 0 <= i < |r| && r[i] == 0
  {
    if Least(r) >= 0 && exists i :: 0 <= i < |r| && r[i] == 0 {
      var i :| 0 <= i < |r| && r[i] == 0;
      assert r[Least(r)] <= r[i];
    }
  }

  /** The spread law survives a creation if and only if no runtime exceeds the spread itself. */
  lemma CreatedSpread(s: Sched, d: nat)
    requires Within(s.runtimes, d)
    ensures Within(Created(s).runtimes, d) <==> Below(s.runtimes, d)
  {
    var r, c := s.runtimes, Created(s).runtimes;
    if Within(c, d) {
      forall i | 0 <= i < |r| ensures r[i] <= d { assert c[i] == r[i] && c[|r|] == 0; }
    }
    if Below(r, d) {
      forall i, j | 0 <= i < |c| && 0 <= j < |c| ensures c[i] <= c[j] + d {
        assert i < |r| ==> c[i] == r[i] && r[i] <= d;
        assert i < |r| && j < |r| ==> c[j] == r[j] && r[i] <= r[j] + d;
      }
    }
  }

  /** Two threads at 70 and 75 ticks, five apart: the third starts at 0 and not at 70, 75 behind. */
  lemma CreatedBehind()
    ensures var s := Sched([70, 75], [Running, Ready], 0);
            Intended(s.runtimes) == 70 && Created(s).runtimes == [70, 75, 0]
            && Within(s.runtimes, 5) && !Within(Created(s).runtimes, 5)
  {
    var r := [70, 75];
    assert r[..1] == [70] && r[..1][..0] == [];
    assert Least([70]) == 0;
    assert Least(r) == 0;
    var c := [70, 75, 0];
    assert c[1] > c[2] + 5;
  }

  // ---------- Every thread gets its turn ----------

  /** How often a thread at runtime `a` can be selected before it passes runtime `b`. */
  function Turns(a: nat, b: nat, tick: nat): nat
    requires tick > 0
    decreases b + 1 - a
  {
    if a > b then 0 else 1 + Turns(a + tick, b, tick)
  }

  lemma {:induction false} TurnsIs(a: nat, b: nat, tick: nat)
    requires tick > 0 && a <= b
    ensures Turns(a, b, tick) == (b - a) / tick + 1
    decreases b - a
  {
    if a + tick <= b {
      TurnsIs(a + tick, b, tick);
      OneQuotientMore(b - a, tick);
    } else {
      assert Turns(a + tick, b, tick) == 0;
      SmallQuotient(b - a, tick);
    }
  }

  lemma SmallQuotient(x: nat, d: nat)
    requires x < d
    ensures x / d == 0
  {
  }

  lemma OneQuotientMore(x: nat, d: nat)
    requires 0 < d <= x
    ensures x / d == (x - d) / d + 1
  {
    var q, r := (x - d) / d, (x - d) % d;
    assert x == (q + 1) * d + r;
    var k := x / d - (q + 1);
    assert k * d == r - x % d;
    assert 0 - d < k * d < d;
  }

  /** How often any of the first `n` threads other than `y` can be selected before `y` is. */
  function TurnsBefore(r: seq<nat>, y: nat, tick: nat, n: nat): nat
    requires tick > 0 && y < |r| && n <= |r|
  {
    if n == 0 then 0 else TurnsBefore(r, y, tick, n - 1) + if n - 1 == y then 0 else Turns(r[n - 1], r[y], tick)
  }

  lemma {:induction false} TurnsBeforeCharged(r: seq<nat>, y: nat, c: nat, tick: nat, n: nat)
    requires tick > 0 && y < |r| && n <= |r| && c < |r| && c != y
    ensures TurnsBefore(r[c := r[c] + tick], y, tick, n) ==
            TurnsBefore(r, y, tick, n) - if c < n && r[c] <= r[y] then 1 else 0
  {
    if n > 0 { TurnsBeforeCharged(r, y, c, tick, n - 1); }
  }

  lemma {:induction false} TurnsBeforeHas(r: seq<nat>, y: nat, c: nat, tick: nat, n: nat)
    requires tick > 0 && y < |r| && c < n <= |r| && c != y && r[c] <= r[y]
    ensures TurnsBefore(r, y, tick, n) >= 1
  {
    if c < n - 1 { TurnsBeforeHas(r, y, c, tick, n - 1); }
  }

  function Pending(lead: nat): nat {
    if lead > 0 then 1 else 0
  }

  /** The current thread is ahead of `y` by no more than `lead`. */
  ghost predicate AheadOf(s: Sched, y: nat, lead: nat) {
    && |s.states| == |s.runtimes| && 0 <= s.current < |s.runtimes| && y < |s.runtimes|
    && s.runtimes[s.current] <= s.runtimes[y] + lead
  }

  /** An interrupt uses up a turn, the first time the current thread is charged or when it is switched away. */
  lemma OneTurn(s: Sched, tick: nat, user: bool, y: nat, lead: nat, bound: nat)
    requires tick > 0 && AheadOf(s, y, lead) && s.current != y
    requires Below(s.runtimes, bound) && bound + tick < MAX64
    ensures var t, n := Ticked(s, tick, user), |s.runtimes|;
            && |t.runtimes| == n && t.runtimes[y] == s.runtimes[y] && Below(t.runtimes, bound + tick)
            && AheadOf(t, y, if user then 0 else lead + tick)
            && TurnsBefore(t.runtimes, y, tick, n) + (if user then 1 else Pending(lead + tick))
                 <= TurnsBefore(s.runtimes, y, tick, n) + Pending(lead)
  {
    var c := Charged(s, tick);
    assert s.runtimes[s.current] <= bound;
    assert c.runtimes == s.runtimes[s.current := s.runtimes[s.current] + tick];
    assert c.runtimes[s.current] < MAX64;
    assert Least(c.runtimes) >= 0;
    TurnsBeforeCharged(s.runtimes, y, s.current, tick, |s.runtimes|);
  }

  /** A new thread, at runtime 0, has all the turns that y's runtime leaves. */
  lemma CreatedTurns(r: seq<nat>, y: nat, tick: nat, n: nat)
    requires tick > 0 && y < |r| && n <= |r|
    ensures TurnsBefore(r + [0], y, tick, n) == TurnsBefore(r, y, tick, n)
  {
  }

  lemma OneCreation(s: Sched, tick: nat, y: nat, lead: nat, bound: nat)
    requires tick > 0 && AheadOf(s, y, lead) && Below(s.runtimes, bound)
    ensures var t, n := Created(s), |s.runtimes|;
            && |t.runtimes| == n + 1 && t.runtimes[y] == s.runtimes[y] && Below(t.runtimes, bound)
            && AheadOf(t, y, lead)
            && TurnsBefore(t.runtimes, y, tick, n + 1)
                 == TurnsBefore(s.runtimes, y, tick, n) + Turns(0, s.runtimes[y], tick)
  {
    CreatedTurns(s.runtimes, y, tick, |s.runtimes|);
  }

  /** The number of interrupts of user code: each of them selects a thread. */
  function Selections(events: seq<Event>): nat
    decreases |events|
  {
    if events == [] then 0
    else Selections(events[..|events| - 1]) + if events[|events| - 1] == Timer(true) then 1 else 0
  }

  function Creations(events: seq<Event>): nat
    decreases |events|
  {
    if events == [] then 0 else Creations(events[..|events| - 1]) + if events[|events| - 1] == Create then 1 else 0
  }

  /** What the current thread was charged since it was selected. */
  function SinceSelected(events: seq<Event>, tick: nat): nat
    decreases |events|
  {
    if events == [] || events[|events| - 1] == Timer(true) then 0
    else SinceSelected(events[..|events| - 1], tick) + if events[|events| - 1] == Create then 0 else tick
  }

  /** The selections that may go before y's: those its rivals have, and as many again for every new thread. */
  function TurnsAllowed(r: seq<nat>, y: nat, tick: nat, creations: nat): nat
    requires tick > 0 && y < |r|
  {
    if creations == 0 then TurnsBefore(r, y, tick, |r|)
    else TurnsAllowed(r, y, tick, creations - 1) + Turns(0, r[y], tick)
  }

  /** The thread `y` is not the current one at any moment of the run. */
  ghost predicate NeverCurrent(s: Sched, tick: nat, events: seq<Event>, y: nat)
    requires s.current < |s.runtimes|
    decreases |events|
  {
    Run(s, tick, events).current != y && (events == [] || NeverCurrent(s, tick, events[..|events| - 1], y))
  }

  /** The turns that a run has used up: its selections, and the one under way if it was charged. */
  function Spent(events: seq<Event>, tick: nat): nat {
    Selections(events) + Pending(SinceSelected(events, tick))
  }

  lemma SpentStep(events: seq<Event>, tick: nat)
    requires events != []
    ensures var p, lead := events[..|events| - 1], SinceSelected(events[..|events| - 1], tick);
            match events[|events| - 1]
            case Create => Spent(events, tick) == Spent(p, tick) && Creations(events) == Creations(p) + 1
            case Timer(user) =>
              && Spent(events, tick) + Pending(lead) == Spent(p, tick) + (if user then 1 else Pending(lead + tick))
              && Creations(events) == Creations(p)
  {
  }

  /** Where a run from the runtimes `r` stands while `y` waits: turns used and turns left are no more than allowed. */
  ghost predicate Waiting(r: seq<nat>, t: Sched, tick: nat, y: nat, bound: nat, lead: nat, spent: nat, creations: nat)
    requires tick > 0 && y < |r|
  {
    && AheadOf(t, y, lead) && Below(t.runtimes, bound) && t.runtimes[y] == r[y]
    && TurnsBefore(t.runtimes, y, tick, |t.runtimes|) + spent <= TurnsAllowed(r, y, tick, creations)
  }

  lemma WaitingCreate(r: seq<nat>, t: Sched, tick: nat, y: nat, bound: nat, lead: nat, spent: nat, creations: nat)
    requires tick > 0 && y < |r| && Waiting(r, t, tick, y, bound, lead, spent, creations)
    ensures Waiting(r, Created(t), tick, y, bound, lead, spent, creations + 1)
  {
    OneCreation(t, tick, y, lead, bound);
  }

  lemma WaitingTick(r: seq<nat>, t: Sched, tick: nat, y: nat, bound: nat, lead: nat, spent: nat, creations: nat,
                    user: bool, spent': nat)
    requires tick > 0 && y < |r| && Waiting(r, t, tick, y, bound, lead, spent, creations)
    requires t.current != y && bound + tick < MAX64
    requires spent' + Pending(lead) == spent + if user then 1 else Pending(lead + tick)
    ensures Waiting(r, Ticked(t, tick, user), tick, y, bound + tick, if user then 0 else lead + tick, spent', creations)
  {
    OneTurn(t, tick, user, y, lead, bound);
  }

  lemma {:induction false} TurnsUsed(s: Sched, tick: nat, events: seq<Event>, y: nat, bound: nat)
    requires tick > 0 && AheadOf(s, y, 0) && NeverCurrent(s, tick, events, y)
    requires Below(s.runtimes, bound) && bound + Charge(events, tick) < MAX64
    ensures Waiting(s.runtimes, Run(s, tick, events), tick, y, bound + Charge(events, tick),
                    SinceSelected(events, tick), Spent(events, tick), Creations(events))
    decreases |events|
  {
    if events != [] {
      var p, e := events[..|events| - 1], events[|events| - 1];
      TurnsUsed(s, tick, p, y, bound);
      SpentStep(events, tick);
      var t, lead, spent, b := Run(s, tick, p), SinceSelected(p, tick), Spent(p, tick), bound + Charge(p, tick);
      if e == Create {
        WaitingCreate(s.runtimes, t, tick, y, b, lead, spent, Creations(p));
      } else {
        WaitingTick(s.runtimes, t, tick, y, b, lead, spent, Creations(p), e.user, Spent(events, tick));
      }
    }
  }

  /**
    No thread starves: `y` becomes current within as many selections as the runtimes of the other
    threads leave before it, and those of the threads created meanwhile, which start at 0.
  */
  lemma EveryThreadRuns(s: Sched, tick: nat, events: seq<Event>, y: nat, bound: nat)
    requires tick > 0 && AheadOf(s, y, 0)
    requires Below(s.runtimes, bound) && bound + Charge(events, tick) < MAX64
    requires Selections(events) >= TurnsAllowed(s.runtimes, y, tick, Creations(events))
    ensures !NeverCurrent(s, tick, events, y)
  {
    if NeverCurrent(s, tick, events, y) {
      TurnsUsed(s, tick, events, y, bound);
      var t := Run(s, tick, events);
      if SinceSelected(events, tick) == 0 {
        TurnsBeforeHas(t.runtimes, y, t.current, tick, |t.runtimes|);
      }
      assert false;
    }
  }

  // ---------- The threads themselves ----------

  class Thread {
    const id: nat
    var runtime: nat
    var state: ThreadState

    constructor (id: nat)
      ensures this.id == id && runtime == 0 && state == New
    {
      this.id, runtime, state := id, 0, New;
    }
  }

  class Scheduler {
    var ready: seq<Thread>
    var current: Thread?
    var tick: nat
    var timerTicks: nat
    var nextId: nat
    /** The position of the current thread in the ready list, or -1. */
    ghost var at: int

    ghost predicate Valid()
      reads this, ready
    {
      && (forall i, j {:trigger ready[i], ready[j]} :: 0 <= i < j < |ready| ==> ready[i] != ready[j])
      && (forall i {:trigger ready[i]} :: 0 <= i < |ready| ==> ready[i].runtime <= MAX64)
      && -1 <= at < |ready|
      && (if at < 0 then current == null else current == ready[at])
    }

    ghost function View(): (s: Sched)
      reads this, ready
      ensures |s.runtimes| == |s.states| == |ready| && s.current == at
    {
      Sched(Runtimes(ready), States(ready), at)
    }

    constructor ()
      ensures Valid() && View() == Sched([], [], -1)
    {
      ready, current, tick, timerTicks, nextId, at := [], null, 0, 0, 0, -1;
    }

    /** getThreadWithMinRuntime. */
    method GetThreadWithMinRuntime() returns (thread: Thread?, ghost k: int)
      requires Valid()
      ensures thread == var least := Least(Runtimes(ready)); if least < 0 then null else ready[least]
      ensures k == Least(Runtimes(ready))
    {
      ghost var r := Runtimes(ready);
      var least := MAX64;
      thread, k := null, -1;
      for i := 0 to |ready|
        invariant k == Least(r[..i])
        invariant if k < 0 then thread == null && least == MAX64 else thread == ready[k] && least == r[k]
      {
        assert r[..i + 1][..i] == r[..i] && r[..i + 1][i] == ready[i].runtime;
        if ready[i].runtime < least {
          least, thread, k := ready[i].runtime, ready[i], i;
        }
      }
      assert r[..|ready|] == r;
    }

    /** threadNext. It faults, on a NULL, where there is no current thread or none can be found. */
    method ThreadNext() returns (fault: bool)
      requires Valid()
      modifies this`current, this`at, ready
      ensures Valid() && (fault <==> !CanSwitch(old(View())))
      ensures !fault ==> View() == Switched(old(View()))
      ensures fault ==> View() == Stranded(old(View()))
    {
      if current == null {
        return true;
      }
      GiveWay();
      ghost var k;
      var next;
      next, k := GetThreadWithMinRuntime();
      if next == null {
        return true;
      }
      if next.state == New {
        ThreadSelect(next, k);
      }
      // A new thread is entered by the selection above; the others are made current here, the same way.
      ThreadSelect(next, k);
      return false;
    }

    /** The current thread is marked as ready. */
    method GiveWay()
      requires Valid() && at >= 0
      modifies ready
      ensures Valid() && View() == old(View()).(states := old(View()).states[at := Ready])
    {
      current.state := Ready;
    }

    /** threadSelect. */
    method ThreadSelect(thread: Thread?, ghost k: int)
      requires Valid() && (thread != null ==> 0 <= k < |ready| && thread == ready[k])
      modifies this`current, this`at, thread
      ensures Valid() && View() == if thread == null then old(View()) else Selected(old(View()), k)
    {
      if thread == null {
        return;
      }
      current, at := thread, k;
      thread.state := Running;
    }

    /** irqThreadTimerHandler; `user` says that the interrupted code was user code. */
    method TimerHandler(user: bool) returns (fault: bool)
      requires Valid()
      modifies this`timerTicks, this`current, this`at, ready
      ensures Valid() && timerTicks == old(timerTicks) + 1
      ensures fault <==> user && !CanSwitch(Charged(old(View()), tick))
      ensures !fault ==> View() == Ticked(old(View()), tick, user)
      ensures fault ==> View() == Stranded(Charged(old(View()), tick))
    {
      timerTicks, fault := timerTicks + 1, false;
      if current != null {
        current.runtime := (current.runtime + tick) % (MAX64 + 1);
      }
      assert View() == Charged(old(View()), tick);
      if user {
        fault := ThreadNext();
      }
    }

    /** The part of threadCreate that concerns the scheduler. The runtime found is overwritten with 0. */
    method ThreadCreate() returns (thread: Thread)
      requires Valid()
      modifies this`ready, this`nextId
      ensures Valid() && View() == Created(old(View())) && fresh(thread) && ready == old(ready) + [thread]
      ensures thread.id == old(nextId) && nextId == old(nextId) + 1
      ensures thread.runtime == Intended(old(Runtimes(ready))) <==>
                var r := old(Runtimes(ready)); Least(r) < 0 || exists i :: 0 <= i < |r| && r[i] == 0
    {
      CreatedAsIntended(Runtimes(ready));
      thread := new Thread(nextId);
      nextId := nextId + 1;
      ready := ready + [thread];
    }
  }

  ghost function Runtimes(ready: seq<Thread>): (r: seq<nat>)
    reads ready
    ensures |r| == |ready|
  {
    seq(|ready|, i requires 0 <= i < |ready| reads ready => ready[i].runtime)
  }

  ghost function States(ready: seq<Thread>): (r: seq<ThreadState>)
    reads ready
    ensures |r| == |ready|
  {
    seq(|ready|, i requires 0 <= i < |ready| reads ready => ready[i].state)
  }
}
