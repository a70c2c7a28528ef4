/**
  The ring buffer between the keyboard interrupt and its readers. One producer,
  which runs in an interrupt handler and takes no lock, and any number of
  consumers, which share a spin lock, take their steps in any order. A step is
  one access to the shared state.
*/
module InputRing {
  type Byte = b: int | 0 <= b < 256

  const SIZE: nat := 32

  function Next(pos: nat): nat {
    (pos + 1) % SIZE
  }

  /** Where the keyboard handler stands with a key. */
  datatype Producer =
    | Ready                     // no key at hand
    | Admitted(c: Byte)         // inputFull answered no
    | Storing(c: Byte)          // the loop of iqueuePutc was left
    | Publishing(c: Byte)       // the byte is in the buffer
    | Waiting(c: Byte)          // inside the loop of iqueuePutc, with the lock given away

  /** Where a consumer stands. */
  datatype Consumer =
    | Outside                   // not reading
    | Locking                   // before an xchg on the lock
    | Checking                  // holds the lock, before the test for empty
    | Reading                   // holds the lock, before the read of buf[tail]
    | Advancing(c: Byte)        // holds the lock, before the write of tail
    | Leaving(c: Byte)          // holds the lock, before giving it back
    | Halting                   // holds the lock, found nothing, before giving it back

  datatype State = State(
    buf: seq<Byte>, head: nat, tail: nat, lock: bool,
    producer: Producer, consumers: seq<Consumer>,
    accepted: seq<Byte>,        // history: the bytes published, in order
    returned: seq<Byte>         // history: the bytes taken out, in order
  )

  /** One step of the producer (with the key that arrives, if it is ready for one) or of a consumer. */
  datatype Event = Produce(key: Byte) | Consume(who: nat)

  predicate Empty(s: State) {
    s.head == s.tail
  }

  predicate Full(s: State) {
    Next(s.head) == s.tail
  }

  function ProducerStep(s: State, key: Byte): State
    requires |s.buf| == SIZE && s.head < SIZE
  {
    match s.producer
    case Ready =>
      if Full(s) then s else s.(producer := Admitted(key))
    case Admitted(c) =>
      if Full(s) then s.(producer := Waiting(c), lock := false) else s.(producer := Storing(c))
    case Storing(c) =>
      s.(buf := s.buf[s.head := c], producer := Publishing(c))
    case Publishing(c) =>
      s.(head := Next(s.head), producer := Ready, accepted := s.accepted + [c])
    case Waiting(c) =>
      s.(producer := Admitted(c), lock := true)
  }

  function ConsumerStep(s: State, i: nat): State
    requires |s.buf| == SIZE && s.tail < SIZE && i < |s.consumers|
  {
    match s.consumers[i]
    case Outside => At(s, i, Locking)
    case Locking => if s.lock then s else At(s, i, Checking).(lock := true)
    case Checking => At(s, i, if Empty(s) then Halting else Reading)
    case Reading => At(s, i, Advancing(s.buf[s.tail]))
    case Advancing(c) => At(s, i, Leaving(c)).(tail := Next(s.tail), returned := s.returned + [c])
    case Leaving(_) => At(s, i, Outside).(lock := false)
    case Halting => At(s, i, Locking).(lock := false)
  }

  function At(s: State, i: nat, c: Consumer): State
    requires i < |s.consumers|
  {
    s.(consumers := s.consumers[i := c])
  }

  function Step(s: State, e: Event): State
    requires Shape(s)
  {
    match e
    case Produce(key) => ProducerStep(s, key)
    case Consume(i) => if i < |s.consumers| then ConsumerStep(s, i) else s
  }

  predicate Shape(s: State) {
    |s.buf| == SIZE && s.head < SIZE && s.tail < SIZE
  }

  function Run(s: State, run: seq<Event>): (r: State)
    requires Shape(s)
    ensures Shape(r)
    decreases |run|
  {
    if run == [] then s else Step(Run(s, run[..|run| - 1]), run[|run| - 1])
  }

  // ---------- What holds at every moment ----------

  function Occupancy(s: State): int {
    |s.accepted| - |s.returned|
  }

  predicate Holds(c: Consumer) {
    c.Checking? || c.Reading? || c.Advancing? || c.Leaving? || c.Halting?
  }

  /** The lock byte is set exactly while one consumer holds the lock, and no two hold it. */
  ghost predicate Exclusive(s: State) {
    && (forall i, j {:trigger Holding(s, i), Holding(s, j)} :: Holding(s, i) && Holding(s, j) ==> i == j)
    && (s.lock <==> exists i {:trigger Holding(s, i)} :: Holding(s, i))
  }

  ghost predicate Holding(s: State, i: int) {
    0 <= i < |s.consumers| && Holds(s.consumers[i])
  }

  /** The bytes taken out are the first ones put in, and the buffer holds the others. */
  ghost predicate Faithful(s: State)
    requires Shape(s)
  {
    && 0 <= Occupancy(s) <= SIZE - 1
    && s.head == |s.accepted| % SIZE && s.tail == |s.returned| % SIZE
    && s.returned == s.accepted[..|s.returned|]
    && (forall k {:trigger s.accepted[k]} :: |s.returned| <= k < |s.accepted| ==> s.buf[k % SIZE] == s.accepted[k])
  }

  /** What each side knows where it stands. */
  ghost predicate Placed(s: State)
    requires Shape(s)
  {
    && !s.producer.Waiting?
    && (!s.producer.Ready? ==> Occupancy(s) < SIZE - 1)
    && (s.producer.Publishing? ==> s.buf[s.head] == s.producer.c)
    && (forall i {:trigger s.consumers[i]} :: 0 <= i < |s.consumers| ==>
          && (s.consumers[i].Reading? || s.consumers[i].Advancing? ==> Occupancy(s) > 0)
          && (s.consumers[i].Advancing? ==> s.consumers[i].c == s.accepted[|s.returned|]))
  }

  ghost predicate Inv(s: State) {
    Shape(s) && Faithful(s) && Placed(s) && Exclusive(s)
  }

  lemma FullExactly(s: State)
    requires Shape(s) && Faithful(s)
    ensures Full(s) <==> Occupancy(s) == SIZE - 1
    ensures Empty(s) <==> Occupancy(s) == 0
  {
    var a, r := |s.accepted|, |s.returned|;
    SlotsApart(r, a - r);
    NextSlot(a);
    SlotsApart(r, a + 1 - r);
  }

  lemma NextSlot(a: nat)
    ensures Next(a % SIZE) == (a + 1) % SIZE
  {
  }

  /** Two places are at the same slot if they are none or all the slots apart. */
  lemma SlotsApart(r: nat, d: nat)
    requires d <= SIZE
    ensures (r + d) % SIZE == r % SIZE <==> d == 0 || d == SIZE
  {
  }

  lemma SlotFree(a: nat, k: nat)
    requires k <= a < k + SIZE && a != k
    ensures a % SIZE != k % SIZE
  {
  }

  lemma ProducerExclusive(s: State, key: Byte)
    requires Inv(s)
    ensures Exclusive(ProducerStep(s, key))
  {
    FullExactly(s);
    assert forall i :: Holding(ProducerStep(s, key), i) <==> Holding(s, i);
  }

  /** The slot written is not one of those that are still to be read. */
  lemma StoreKeeps(s: State, key: Byte)
    requires Inv(s) && s.producer.Storing?
    ensures Faithful(ProducerStep(s, key)) && Placed(ProducerStep(s, key))
  {
    var t, a := ProducerStep(s, key), |s.accepted|;
    forall k | |s.returned| <= k < a ensures t.buf[k % SIZE] == s.accepted[k] { SlotFree(a, k); }
  }

  lemma PublishKeeps(s: State, key: Byte)
    requires Inv(s) && s.producer.Publishing?
    ensures Faithful(ProducerStep(s, key)) && Placed(ProducerStep(s, key))
  {
    var t, a := ProducerStep(s, key), |s.accepted|;
    assert Next(s.head) == (a + 1) % SIZE;
    forall k | |s.returned| <= k < a + 1 ensures t.buf[k % SIZE] == t.accepted[k] {
      assert k < a ==> s.buf[k % SIZE] == s.accepted[k];
    }
  }

  lemma ProducerKeeps(s: State, key: Byte)
    requires Inv(s)
    ensures Inv(ProducerStep(s, key))
  {
    ProducerExclusive(s, key);
    if s.producer.Storing? {
      StoreKeeps(s, key);
    } else if s.producer.Publishing? {
      PublishKeeps(s, key);
    } else {
      FullExactly(s);
    }
  }

  /** While one consumer holds the lock no other does. */
  lemma HolderAlone(s: State, i: nat, j: nat)
    requires Exclusive(s) && i < |s.consumers| && j < |s.consumers| && i != j && Holds(s.consumers[i])
    ensures !Holds(s.consumers[j]) && s.lock
  {
    assert Holding(s, i) && !Holding(s, j);
  }

  lemma ConsumerExclusive(s: State, i: nat)
    requires Inv(s) && i < |s.consumers|
    ensures Exclusive(ConsumerStep(s, i))
  {
    var t := ConsumerStep(s, i);
    assert forall j :: j != i ==> (Holding(t, j) <==> Holding(s, j));
    assert Holding(s, i) <==> Holds(s.consumers[i]);
    assert Holding(t, i) <==> Holds(t.consumers[i]);
  }

  lemma AdvanceFaithful(s: State, i: nat)
    requires Inv(s) && i < |s.consumers| && s.consumers[i].Advancing?
    ensures Faithful(ConsumerStep(s, i)) && Placed(ConsumerStep(s, i))
  {
    var t := ConsumerStep(s, i);
    assert Next(s.tail) == (|s.returned| + 1) % SIZE;
    assert t.returned == s.accepted[..|s.returned| + 1];
    forall j | 0 <= j < |t.consumers| ensures !t.consumers[j].Reading? && !t.consumers[j].Advancing? {
      if j != i { HolderAlone(s, i, j); }
    }
  }

  lemma ConsumerKeeps(s: State, i: nat)
    requires Inv(s) && i < |s.consumers|
    ensures Inv(ConsumerStep(s, i))
  {
    ConsumerExclusive(s, i);
    if s.consumers[i].Advancing? { AdvanceFaithful(s, i); } else { ConsumerPlaced(s, i); }
  }

  lemma ConsumerPlaced(s: State, i: nat)
    requires Inv(s) && i < |s.consumers| && !s.consumers[i].Advancing?
    ensures Placed(ConsumerStep(s, i))
  {
    FullExactly(s);
    if s.consumers[i].Reading? {
      assert s.accepted[|s.returned|] == s.buf[s.tail];
    }
  }

  ghost predicate Initial(s: State) {
    && |s.buf| == SIZE && s.head == 0 && s.tail == 0 && !s.lock && s.producer.Ready?
    && s.accepted == [] && s.returned == []
    && forall i {:trigger s.consumers[i]} :: 0 <= i < |s.consumers| ==> s.consumers[i].Outside?
  }

  lemma {:induction false} Always(s: State, run: seq<Event>)
    requires Initial(s)
    ensures Inv(Run(s, run))
    decreases |run|
  {
    if run != [] {
      Always(s, run[..|run| - 1]);
      var t := Run(s, run[..|run| - 1]);
      match run[|run| - 1]
      case Produce(key) => ProducerKeeps(t, key);
      case Consume(i) => if i < |t.consumers| { ConsumerKeeps(t, i); }
    }
  }

  /**
    Under every interleaving: the bytes returned are the first bytes accepted,
    in order; what is missing is in the buffer, at most 31 bytes; and the
    producer never gives the lock away and waits.
  */
  lemma RingDelivers(s: State, run: seq<Event>)
    requires Initial(s)
    ensures var t := Run(s, run);
            && t.returned <= t.accepted
            && |t.accepted| - |t.returned| <= 31
            && !t.producer.Waiting?
            && (forall k :: |t.returned| <= k < |t.accepted| ==> t.buf[k % SIZE] == t.accepted[k])
            && (forall i, j :: Holding(t, i) && Holding(t, j) ==> i == j)
  {
    Always(s, run);
  }

  // ---------- Keys are accepted and readers served ----------

  lemma StepKeeps(s: State, e: Event)
    requires Inv(s)
    ensures Inv(Step(s, e))
  {
    match e
    case Produce(key) => ProducerKeeps(s, key);
    case Consume(i) => if i < |s.consumers| { ConsumerKeeps(s, i); }
  }

  lemma {:induction false} RunKeeps(s: State, run: seq<Event>)
    requires Inv(s)
    ensures Inv(Run(s, run))
    decreases |run|
  {
    if run != [] {
      RunKeeps(s, run[..|run| - 1]);
      StepKeeps(Run(s, run[..|run| - 1]), run[|run| - 1]);
    }
  }

  /** How many of the events are steps of the handler. */
  function Produces(run: seq<Event>): nat
    decreases |run|
  {
    if run == [] then 0 else Produces(run[..|run| - 1]) + if run[|run| - 1].Produce? then 1 else 0
  }

  /** How many of the events are steps of reader `i`. */
  function Consumes(run: seq<Event>, i: nat): nat
    decreases |run|
  {
    if run == [] then 0 else Consumes(run[..|run| - 1], i) + if run[|run| - 1] == Consume(i) then 1 else 0
  }

  /** Where the handler is `n` steps after it admitted a key, when `accepted` had been accepted before. */
  ghost predicate Handled(s: State, key: Byte, accepted: seq<Byte>, n: nat) {
    if n == 0 then s.producer == Admitted(key) && s.accepted == accepted
    else if n == 1 then s.producer == Storing(key) && s.accepted == accepted
    else if n == 2 then s.producer == Publishing(key) && s.accepted == accepted
    else n == 3 && s.producer == Ready && s.accepted == accepted + [key]
  }

  lemma HandledStep(s: State, e: Event, key: Byte, accepted: seq<Byte>, n: nat)
    requires Inv(s) && Handled(s, key, accepted, n) && (e.Produce? ==> n < 3)
    ensures Handled(Step(s, e), key, accepted, if e.Produce? then n + 1 else n)
  {
    FullExactly(s);
  }

  lemma {:induction false} HandledRun(s: State, run: seq<Event>, key: Byte, accepted: seq<Byte>)
    requires Inv(s) && Handled(s, key, accepted, 0) && Produces(run) <= 3
    ensures Handled(Run(s, run), key, accepted, Produces(run))
    decreases |run|
  {
    if run != [] {
      var p := run[..|run| - 1];
      HandledRun(s, p, key, accepted);
      RunKeeps(s, p);
      HandledStep(Run(s, p), run[|run| - 1], key, accepted, Produces(p));
    }
  }

  /**
    A key that meets a handler at rest is accepted, as the next byte, once the handler has taken its
    four steps, whatever the readers do in between, if and only if fewer than 31 bytes are waiting
    when it arrives. Otherwise it is dropped and nothing changes.
  */
  lemma KeyAccepted(s: State, run: seq<Event>, key: Byte, more: seq<Event>)
    requires Initial(s) && Run(s, run).producer == Ready && Produces(more) == 3
    ensures var t := Run(s, run);
            var u := Run(Step(t, Produce(key)), more);
            if |t.accepted| - |t.returned| < 31 then u.producer == Ready && u.accepted == t.accepted + [key]
            else Step(t, Produce(key)) == t
  {
    var t := Run(s, run);
    Always(s, run);
    FullExactly(t);
    if |t.accepted| - |t.returned| < 31 {
      StepKeeps(t, Produce(key));
      HandledRun(Step(t, Produce(key)), more, key, t.accepted);
    }
  }

  /** Where reader `i` is `n` steps after it holds the lock, when `returned` had been returned and `c` is next. */
  ghost predicate Served(s: State, i: nat, c: Byte, returned: seq<Byte>, n: nat) {
    && i < |s.consumers| && |returned| < |s.accepted| && s.accepted[|returned|] == c
    && if n == 0 then s.consumers[i] == Checking && s.returned == returned
       else if n == 1 then s.consumers[i] == Reading && s.returned == returned
       else if n == 2 then s.consumers[i] == Advancing(c) && s.returned == returned
       else n == 3 && s.consumers[i] == Leaving(c) && s.returned == returned + [c]
  }

  lemma ServedStep(s: State, e: Event, i: nat, c: Byte, returned: seq<Byte>, n: nat)
    requires Inv(s) && Served(s, i, c, returned, n) && (e == Consume(i) ==> n < 3)
    ensures Served(Step(s, e), i, c, returned, if e == Consume(i) then n + 1 else n)
  {
    FullExactly(s);
    assert Holding(s, i);
    if e.Consume? && e.who != i && e.who < |s.consumers| {
      assert !Holding(s, e.who);
    }
    if e == Consume(i) && n == 1 {
      assert s.buf[|s.returned| % SIZE] == s.accepted[|s.returned|];
    }
  }

  lemma {:induction false} ServedRun(s: State, run: seq<Event>, i: nat, c: Byte, returned: seq<Byte>)
    requires Inv(s) && Served(s, i, c, returned, 0) && Consumes(run, i) <= 3
    ensures Served(Run(s, run), i, c, returned, Consumes(run, i))
    decreases |run|
  {
    if run != [] {
      var p := run[..|run| - 1];
      ServedRun(s, p, i, c, returned);
      RunKeeps(s, p);
      ServedStep(Run(s, p), run[|run| - 1], i, c, returned, Consumes(p, i));
    }
  }

  /**
    A reader that has the lock while a byte is waiting gets the oldest byte waiting after three steps
    of its own, whatever the handler and the other readers do in between. If none is waiting it goes
    to give the lock back.
  */
  lemma ReaderServed(s: State, run: seq<Event>, i: nat, more: seq<Event>)
    requires Initial(s) && i < |Run(s, run).consumers| && Run(s, run).consumers[i] == Checking && Consumes(more, i) == 3
    ensures var t := Run(s, run);
            var u := Run(t, more);
            if |t.returned| < |t.accepted| then
              && i < |u.consumers| && u.consumers[i] == Leaving(t.accepted[|t.returned|])
              && u.returned == t.returned + [t.accepted[|t.returned|]]
            else Step(t, Consume(i)).consumers[i] == Halting
  {
    var t := Run(s, run);
    Always(s, run);
    FullExactly(t);
    if |t.returned| < |t.accepted| {
      ServedRun(t, more, i, t.accepted[|t.returned|], t.returned);
    }
  }

  /** A reader takes the lock if and only if it is free, and gives it back where it has a byte or found none. */
  lemma LockTaken(s: State, run: seq<Event>, i: nat)
    requires Initial(s) && i < |Run(s, run).consumers|
    ensures var t := Run(s, run);
            var u := Step(t, Consume(i));
            && (t.consumers[i] == Outside ==> u.consumers[i] == Locking)
            && (t.consumers[i] == Locking ==>
                  (u.consumers[i] == Checking && u.lock <==> forall j {:trigger Holding(t, j)} :: !Holding(t, j)))
            && (t.consumers[i].Leaving? ==> u.consumers[i] == Outside && !u.lock)
            && (t.consumers[i] == Halting ==> u.consumers[i] == Locking && !u.lock)
  {
    Always(s, run);
  }
}
