/**
 The reservations of an NNTI event queue.  Any number of threads take reservations from one atomic
 counter, in steps of one fetch-add each, and spend them on pushes into a queue of fixed size.  A
 thread that finds the counter at its maximum takes its own increment back in a second step.
 */
module Reservations {

  /** Where a thread stands that has changed the counter and not changed it back. */
  datatype Ticket =
    | Fetched(value: int)   // has incremented the counter and not yet compared
    | Refused               // has to take its increment back
    | Holding               // holds a reservation
    | Popped(event: int)    // took this event out, has yet to return its reservation

  datatype EventQueue = EventQueue(max: int, counter: int, tickets: map<nat, Ticket>, queue: seq<int>)

  function Fresh(size: nat): EventQueue {
    EventQueue(size, 0, map[], [])
  }

  datatype Step =
    | FetchAdd(thread: nat)
    | Compare(thread: nat)
    | TakeBack(thread: nat)
    | Return(thread: nat)
    | Push(thread: nat, event: int)
    | Pop(thread: nat)
    | PopReturn(thread: nat)

  predicate Has(q: EventQueue, thread: nat, t: Ticket) {
    thread in q.tickets && q.tickets[thread] == t
  }

  predicate Enabled(q: EventQueue, s: Step) {
    match s
    case FetchAdd(i) => i !in q.tickets
    case Compare(i) => i in q.tickets && q.tickets[i].Fetched?
    case TakeBack(i) => Has(q, i, Refused)
    case Return(i) => Has(q, i, Holding)
    case Push(i, e) => Has(q, i, Holding)
    case Pop(i) => i !in q.tickets && q.queue != []
    case PopReturn(i) => i in q.tickets && q.tickets[i].Popped?
  }

  function Apply(q: EventQueue, s: Step): EventQueue
    requires Enabled(q, s)
  {
    match s
    case FetchAdd(i) => q.(counter := q.counter + 1, tickets := q.tickets[i := Fetched(q.counter)])
    case Compare(i) =>
      q.(tickets := q.tickets[i := if q.tickets[i].value >= q.max then Refused else Holding])
    case TakeBack(i) => q.(counter := q.counter - 1, tickets := q.tickets - {i})
    case Return(i) => q.(counter := q.counter - 1, tickets := q.tickets - {i})
    case Push(i, e) => q.(tickets := q.tickets - {i}, queue := q.queue + [e])
    case Pop(i) => q.(tickets := q.tickets[i := Popped(q.queue[0])], queue := q.queue[1..])
    case PopReturn(i) => q.(counter := q.counter - 1, tickets := q.tickets - {i})
  }

  ghost predicate Run(q: EventQueue, steps: seq<Step>, q': EventQueue)
    decreases |steps|
  {
    if steps == [] then q' == q
    else Enabled(q, steps[0]) && Run(Apply(q, steps[0]), steps[1..], q')
  }

  // ---------------------------------------------------------------- the invariant

  /** A ticket that stands for a reservation, decided or not. */
  predicate Granted(t: Ticket, max: int) {
    t == Holding || t.Popped? || (t.Fetched? && t.value < max)
  }

  ghost function Grants(q: EventQueue): set<nat> {
    set i <- q.tickets | Granted(q.tickets[i], q.max)
  }

  /** The counter is the number of open tickets plus the number of queued events, and reservations
      never exceed the size of the queue. */
  ghost predicate Inv(q: EventQueue) {
    && q.counter == |q.tickets| + |q.queue|
    && |Grants(q)| + |q.queue| <= q.max
  }

  lemma MapSizes(m: map<nat, Ticket>, i: nat, t: Ticket)
    ensures i !in m ==> |m[i := t]| == |m| + 1
    ensures i in m ==> |m[i := t]| == |m| && |m - {i}| == |m| - 1
  {
    if i in m {
      assert (m - {i}).Keys == m.Keys - {i};
      assert m[i := t].Keys == m.Keys;
    } else {
      assert m[i := t].Keys == m.Keys + {i};
    }
  }

  lemma GrantsSubset(q: EventQueue)
    ensures |Grants(q)| <= |q.tickets|
  {
    assert Grants(q) <= q.tickets.Keys;
    CardinalityMonotone(Grants(q), q.tickets.Keys);
  }

  lemma CardinalityMonotone(a: set<nat>, b: set<nat>)
    requires a <= b
    ensures |a| <= |b|
  {
    assert b == a + (b - a);
  }

  lemma GrantsAfter(q: EventQueue, s: Step)
    requires Enabled(q, s)
    ensures Grants(Apply(q, s)) ==
            match s
            case FetchAdd(i) => if q.counter < q.max then Grants(q) + {i} else Grants(q)
            case Compare(i) => Grants(q)
            case TakeBack(i) => Grants(q)
            case Return(i) => Grants(q) - {i}
            case Push(i, _) => Grants(q) - {i}
            case Pop(i) => Grants(q) + {i}
            case PopReturn(i) => Grants(q) - {i}
  {
  }

  lemma StepKeepsInv(q: EventQueue, s: Step)
    requires Inv(q) && Enabled(q, s)
    ensures Inv(Apply(q, s))
  {
    GrantsAfter(q, s);
    GrantsSubset(q);
    assert s.thread in q.tickets && Granted(q.tickets[s.thread], q.max) ==> s.thread in Grants(q);
    hide Grants;
    var t := Apply(q, s).tickets;
    MapSizes(q.tickets, s.thread, if s.thread in t then t[s.thread] else Holding);
  }

  lemma {:induction false} RunKeepsInv(q: EventQueue, steps: seq<Step>, q': EventQueue)
    requires Inv(q) && Run(q, steps, q')
    ensures Inv(q') && q'.max == q.max
    decreases |steps|
  {
    if steps != [] {
      StepKeepsInv(q, steps[0]);
      RunKeepsInv(Apply(q, steps[0]), steps[1..], q');
    }
  }

  ghost function Holders(q: EventQueue): set<nat> {
    set i <- q.tickets | q.tickets[i] == Holding
  }

  /** The increments that do not stand for a reservation and still have to be taken back, whether
      their threads have compared yet or not. */
  ghost function Doomed(q: EventQueue): set<nat> {
    set i <- q.tickets | !Granted(q.tickets[i], q.max)
  }

  function PushedIn(steps: seq<Step>): seq<int> {
    if steps == [] then [] else (if steps[0].Push? then [steps[0].event] else []) + PushedIn(steps[1..])
  }

  /** The events that threads found when they popped. */
  ghost function PoppedIn(q: EventQueue, steps: seq<Step>): seq<int>
    decreases |steps|
  {
    if steps == [] || !Enabled(q, steps[0]) then []
    else
      var q1 := Apply(q, steps[0]);
      (if steps[0].Pop? then [q1.tickets[steps[0].thread].event] else []) + PoppedIn(q1, steps[1..])
  }

  /** Events come out once each and in the order they went in. */
  lemma {:induction false} EventsInOrder(q: EventQueue, steps: seq<Step>, q': EventQueue)
    requires Run(q, steps, q')
    ensures PoppedIn(q, steps) + q'.queue == q.queue + PushedIn(steps)
    decreases |steps|
  {
    if steps != [] {
      var q1 := Apply(q, steps[0]);
      EventsInOrder(q1, steps[1..], q');
      var rest := PoppedIn(q1, steps[1..]);
      if steps[0].Pop? {
        assert [q.queue[0]] + rest + q'.queue == [q.queue[0]] + (rest + q'.queue);
        assert q.queue == [q.queue[0]] + q1.queue;
      } else {
        assert q1.queue + PushedIn(steps[1..]) == q.queue + PushedIn(steps);
      }
    }
  }

  lemma PopOne(q: EventQueue, i: nat)
    requires i !in q.tickets && q.queue != []
    ensures Enabled(q, Pop(i)) && Enabled(Apply(q, Pop(i)), PopReturn(i))
    ensures Apply(Apply(q, Pop(i)), PopReturn(i)) == q.(counter := q.counter - 1, queue := q.queue[1..])
    ensures Apply(q, Pop(i)).tickets[i] == Popped(q.queue[0])
  {
    assert q.tickets[i := Popped(q.queue[0])] - {i} == q.tickets;
  }

  /** Any thread without a ticket can take out everything that is queued, in order, and gives back as
      many reservations. */
  lemma {:induction false} QueueDrains(q: EventQueue, i: nat) returns (steps: seq<Step>)
    requires i !in q.tickets
    ensures Run(q, steps, q.(counter := q.counter - |q.queue|, queue := []))
    ensures PoppedIn(q, steps) == q.queue
    decreases |q.queue|
  {
    if q.queue == [] {
      steps := [];
    } else {
      PopOne(q, i);
      var q1 := Apply(q, Pop(i));
      var q2 := Apply(q1, PopReturn(i));
      var rest := QueueDrains(q2, i);
      var tail := [PopReturn(i)] + rest;
      steps := [Pop(i)] + tail;
      assert tail[1..] == rest && steps[1..] == tail;
      assert PoppedIn(q1, tail) == [] + PoppedIn(q2, rest);
      assert PoppedIn(q, steps) == [q.queue[0]] + PoppedIn(q1, tail);
    }
  }

  /** In every interleaving the reservations held and the events queued together fit the queue, so a
      thread that holds a reservation always finds room to push. */
  lemma QueueNeverOverflows(size: nat, steps: seq<Step>, q: EventQueue)
    requires Run(Fresh(size), steps, q)
    ensures |Holders(q)| + |q.queue| <= size
    ensures forall i: nat :: Has(q, i, Holding) ==> |q.queue| < size
  {
    RunKeepsInv(Fresh(size), steps, q);
    assert Holders(q) <= Grants(q);
    CardinalityMonotone(Holders(q), Grants(q));
    forall i: nat | Has(q, i, Holding)
      ensures |q.queue| < size
    {
      assert i in Holders(q);
    }
  }

  /** In every interleaving the counter is exactly the reservations in use, held or spent, plus the
      increments of threads that are or will be refused and have not been taken back. */
  lemma CounterIsExact(size: nat, steps: seq<Step>, q: EventQueue)
    requires Run(Fresh(size), steps, q)
    ensures q.counter == |Grants(q)| + |q.queue| + |Doomed(q)|
    ensures |Grants(q)| + |q.queue| <= size
  {
    RunKeepsInv(Fresh(size), steps, q);
    assert q.tickets.Keys == Grants(q) + Doomed(q);
    assert Grants(q) !! Doomed(q);
  }

  lemma {:induction false} TicketStays(q: EventQueue, steps: seq<Step>, q': EventQueue, i: nat)
    requires Run(q, steps, q') && i in q.tickets && forall s <- steps :: s.thread != i
    ensures i in q'.tickets && q'.tickets[i] == q.tickets[i] && q'.max == q.max
    decreases |steps|
  {
    if steps != [] {
      assert steps[0] in steps;
      TicketStays(Apply(q, steps[0]), steps[1..], q', i);
    }
  }

  /** What a thread is told is settled by its fetch-add, whatever the others do before it compares: it
      is refused exactly when the reservations in use and the increments still to be taken back
      together reach the size of the queue. */
  lemma RefusedIff(size: nat, before: seq<Step>, q: EventQueue, i: nat, between: seq<Step>, q': EventQueue)
    requires Run(Fresh(size), before, q) && i !in q.tickets
    requires Run(Apply(q, FetchAdd(i)), between, q') && forall s <- between :: s.thread != i
    ensures Enabled(q', Compare(i))
    ensures Has(Apply(q', Compare(i)), i, Refused) <==> |Grants(q)| + |q.queue| + |Doomed(q)| >= size
    ensures Has(Apply(q', Compare(i)), i, Holding) <==> |Grants(q)| + |q.queue| + |Doomed(q)| < size
  {
    RunKeepsInv(Fresh(size), before, q);
    CounterIsExact(size, before, q);
    TicketStays(Apply(q, FetchAdd(i)), between, q', i);
  }

  /** When no refusal is on its way back, refusals are exact: a thread is refused if and only if every
      reservation is in use. */
  lemma RefusedWhenFullIff(size: nat, before: seq<Step>, q: EventQueue, i: nat, between: seq<Step>, q': EventQueue)
    requires Run(Fresh(size), before, q) && i !in q.tickets && Doomed(q) == {}
    requires Run(Apply(q, FetchAdd(i)), between, q') && forall s <- between :: s.thread != i
    ensures Enabled(q', Compare(i))
    ensures Has(Apply(q', Compare(i)), i, Refused) <==> |Grants(q)| + |q.queue| == size
  {
    CounterIsExact(size, before, q);
    RefusedIff(size, before, q, i, between, q');
  }

  /** Otherwise they are not: while another thread's refused increment is still in the counter, a
      thread can be refused although no reservation is in use. */
  lemma SpuriousRefusal() returns (steps: seq<Step>, q: EventQueue)
    ensures Run(Fresh(1), steps, q) && Has(q, 2, Refused) && Grants(q) == {} && q.queue == []
  {
    hide Run;
    steps, q := [], Fresh(1);
    RunNone(q);
    steps, q := RunThen(Fresh(1), steps, q, FetchAdd(0));
    steps, q := RunThen(Fresh(1), steps, q, Compare(0));
    steps, q := RunThen(Fresh(1), steps, q, FetchAdd(1));
    steps, q := RunThen(Fresh(1), steps, q, Compare(1));
    steps, q := RunThen(Fresh(1), steps, q, Return(0));
    steps, q := RunThen(Fresh(1), steps, q, FetchAdd(2));
    steps, q := RunThen(Fresh(1), steps, q, Compare(2));
  }

  lemma RunNone(q: EventQueue)
    ensures Run(q, [], q)
  {
  }

  lemma {:induction false} RunThen(q0: EventQueue, steps: seq<Step>, q: EventQueue, s: Step)
    returns (longer: seq<Step>, q': EventQueue)
    requires Run(q0, steps, q) && Enabled(q, s)
    ensures q' == Apply(q, s) && longer == steps + [s] && Run(q0, longer, q')
    decreases |steps|
  {
    longer, q' := steps + [s], Apply(q, s);
    if steps == [] {
      assert longer == [s] && [s][1..] == [];
    } else {
      var rest, r := RunThen(Apply(q0, steps[0]), steps[1..], q, s);
      assert longer[1..] == rest;
    }
  }
}
