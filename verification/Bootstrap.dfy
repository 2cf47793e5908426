/**
 The life cycle of Bootstrap: components are registered, initialized, started and finished as a
 group, by any number of callers that each bracket their use with Init and Finish.

 Each public method of the source is taken as one atomic step, also the queries, which sort the list
 without taking the lock.  The functions that components register are recorded as calls; an init
 function may throw, and which ones do is a parameter of Init.
 */
module Bootstrap {
  import opened Dependencies

  datatype Phase = Uninitialized | Initialized | Started

  datatype Kind = InitFunction | StartFunction | FiniFunction

  datatype Call = Call(kind: Kind, component: Component)

  /** The registered components, the state, the number of callers, and every call made so far. */
  datatype Boot = Boot(list: seq<Component>, phase: Phase, callers: int, log: seq<Call>)

  const FRESH := Boot([], Uninitialized, 0, [])

  function Calls(kind: Kind, cs: seq<Component>): seq<Call> {
    seq(|cs|, i requires 0 <= i < |cs| => Call(kind, cs[i]))
  }

  function Reverse(cs: seq<Component>): (r: seq<Component>)
    ensures |r| == |cs| && forall i :: 0 <= i < |r| ==> r[i] == cs[|cs| - 1 - i]
  {
    seq(|cs|, i requires 0 <= i < |cs| => cs[|cs| - 1 - i])
  }

  // ---------------------------------------------------------------- the operations

  /** The number of init functions called: all of them, or up to the first that throws. */
  function Attempted(cs: seq<Component>, throwing: set<string>): (n: nat)
    ensures n <= |cs|
    ensures forall i :: 0 <= i < n - 1 ==> cs[i].name !in throwing
    ensures (n == |cs| && (n > 0 ==> cs[n - 1].name !in throwing)) || (n > 0 && cs[n - 1].name in throwing)
  {
    if cs == [] then 0
    else if cs[0].name in throwing then 1
    else 1 + Attempted(cs[1..], throwing)
  }

  predicate Throws(cs: seq<Component>, throwing: set<string>) {
    exists c <- cs :: c.name in throwing
  }

  /** What makes the first Init fail; a caller can tell before calling it. */
  predicate InitFails(b: Boot, throwing: set<string>) {
    b.callers == 0 && (!NeedsPresent(b.list) || Throws(b.list, throwing))
  }

  function Registered(b: Boot, c: Component, overwrite: bool): Boot {
    if b.phase != Uninitialized then b
    else if c.name in Names(b.list) then
      if overwrite then b.(list := Replaced(b.list, c)) else b
    else b.(list := b.list + [c])
  }

  function Replaced(cs: seq<Component>, c: Component): (r: seq<Component>)
    ensures |r| == |cs|
    ensures forall i :: 0 <= i < |r| ==> r[i].name == cs[i].name
  {
    if cs == [] then [] else if cs[0].name == c.name then [c] + cs[1..] else [cs[0]] + Replaced(cs[1..], c)
  }

  ghost function Inited(b: Boot, throwing: set<string>): Boot {
    var b1 := b.(callers := b.callers + 1);
    if b.callers != 0 || !NeedsPresent(b.list) then b1
    else
      var order := StartupOrder(b.list);
      var n := Attempted(order, throwing);
      Boot(order, if Throws(order, throwing) then b.phase else Initialized, b1.callers,
           b.log + Calls(InitFunction, order[..n]))
  }

  function StartedUp(b: Boot): Boot {
    if b.phase != Initialized then b
    else b.(phase := Started, log := b.log + Calls(StartFunction, b.list))
  }

  function Finished(b: Boot, clear: bool): Boot {
    if b.phase == Uninitialized then b
    else if b.callers > 1 then b.(callers := b.callers - 1)
    else
      var list := if b.phase == Started then Reverse(b.list) else b.list;
      Boot(if clear then [] else list, Uninitialized, b.callers - 1,
           if b.phase == Started then b.log + Calls(FiniFunction, list) else b.log)
  }

  /** GetStartupOrder and CheckDependencies sort the list as a side effect. */
  ghost function Queried(b: Boot): Boot {
    if NeedsPresent(b.list) then b.(list := StartupOrder(b.list)) else b
  }

  datatype Op =
    | Register(c: Component, overwrite: bool)
    | Init(throwing: set<string>)
    | Start
    | StartWith(throwing: set<string>)
    | Finish(clear: bool)
    | Query

  ghost function Step(b: Boot, op: Op): Boot {
    match op
    case Register(c, overwrite) => Registered(b, c, overwrite)
    case Init(throwing) => Inited(b, throwing)
    case Start => StartedUp(b)
    case StartWith(throwing) =>
      var b1 := Inited(b, throwing);
      if b.callers == 0 && !InitFails(b, throwing) then StartedUp(b1) else b1
    case Finish(clear) => Finished(b, clear)
    case Query => Queried(b)
  }

  ghost function Run(b: Boot, ops: seq<Op>): Boot
    decreases |ops|
  {
    if ops == [] then b else Run(Step(b, ops[0]), ops[1..])
  }

  // ---------------------------------------------------------------- what each operation does

  /** When each operation moves from one phase to another, and that nothing else does. */
  lemma PhaseAfter(b: Boot, op: Op)
    requires Consistent(b)
    ensures Step(b, op).phase ==
            match op
            case Init(throwing) => if b.callers == 0 && !InitFails(b, throwing) then Initialized else b.phase
            case StartWith(throwing) => if b.callers == 0 && !InitFails(b, throwing) then Started else b.phase
            case Start => if b.phase == Initialized then Started else b.phase
            case Finish(_) => if b.callers <= 1 then Uninitialized else b.phase
            case _ => b.phase
  {
    hide StartupOrder, Attempted;
    if Enters(op) {
      SortedSame(b.list);
      ThrowsSame(b.list, StartupOrder(b.list), op.throwing);
    }
  }

  lemma SortedSame(cs: seq<Component>)
    ensures SameComponents(cs, StartupOrder(cs))
  {
    SortedIsPermutation(cs, Ancestors(cs));
  }

  /** An Init that fails on a missing requirement calls nothing and leaves the list; one that fails on a
      throwing component has called the init functions of the startup order up to and including it. */
  lemma FailedInitCalls(b: Boot, throwing: set<string>) returns (n: nat)
    requires InitFails(b, throwing)
    ensures !NeedsPresent(b.list) ==> Inited(b, throwing) == b.(callers := 1)
    ensures NeedsPresent(b.list) ==>
              var order := StartupOrder(b.list);
              && 0 < n <= |order| && order[n - 1].name in throwing
              && (forall i :: 0 <= i < n - 1 ==> order[i].name !in throwing)
              && Inited(b, throwing) == Boot(order, b.phase, 1, b.log + Calls(InitFunction, order[..n]))
  {
    hide StartupOrder;
    var order := StartupOrder(b.list);
    n := Attempted(order, throwing);
    SortedSame(b.list);
    ThrowsSame(b.list, order, throwing);
    if NeedsPresent(b.list) {
      var c :| c in order && c.name in throwing;
      var k :| 0 <= k < |order| && order[k] == c;
    }
  }

  /** Registering adds a new component, replaces one of the same name if told to, and otherwise, or
      after Init, changes nothing. */
  lemma RegisteredAre(b: Boot, c: Component, overwrite: bool, d: Component)
    requires UniqueNames(b.list)
    ensures var known := c.name in Names(b.list);
            var takes := b.phase == Uninitialized && (!known || overwrite);
            && (d in Registered(b, c, overwrite).list <==> if takes && d.name == c.name then d == c else d in b.list)
            && (!takes ==> Registered(b, c, overwrite) == b)
            && (takes && !known ==> Registered(b, c, overwrite).list == b.list + [c])
  {
    if b.phase == Uninitialized && c.name in Names(b.list) && overwrite {
      ReplacedMembers(b.list, c, d);
    }
  }

  lemma {:induction false} ReplacedMembers(cs: seq<Component>, c: Component, d: Component)
    requires UniqueNames(cs) && c.name in Names(cs)
    ensures d in Replaced(cs, c) <==> if d.name == c.name then d == c else d in cs
  {
    var rest := cs[1..];
    assert cs == [cs[0]] + rest;
    if cs[0].name == c.name {
      assert forall x <- rest :: x.name != c.name;
    } else {
      assert c.name in Names(rest);
      ReplacedMembers(rest, c, d);
    }
  }

  /** In any phase, a query keeps the components and puts them in an order that respects all their
      dependencies if and only if there is no cycle; with a requirement missing it changes nothing. */
  lemma QuerySorts(b: Boot)
    requires UniqueNames(b.list)
    ensures Queried(b) == b.(list := Queried(b).list) && SameComponents(b.list, Queried(b).list)
    ensures if NeedsPresent(b.list) then RespectsDependencies(Queried(b).list) <==> !Cyclic(b.list)
            else Queried(b) == b
  {
    if NeedsPresent(b.list) {
      StartupOrderRespectsIff(b.list);
    }
  }

  /** A Finish empties the list if it is the last caller's and clears; otherwise all components stay. */
  lemma FinishedList(b: Boot, clear: bool)
    ensures var list := Finished(b, clear).list;
            if b.phase != Uninitialized && b.callers <= 1 && clear then list == []
            else SameComponents(b.list, list)
  {
    ReversePermutes(b.list);
  }

  /** The operation neither clears the list nor replaces this component. */
  predicate Spares(op: Op, c: Component) {
    !(op.Finish? && op.clear) && !(op.Register? && op.c.name == c.name && op.overwrite)
  }

  lemma StepSpares(b: Boot, op: Op, c: Component)
    requires UniqueNames(b.list) && c in b.list && Spares(op, c)
    ensures c in Step(b, op).list
  {
    hide StartupOrder, Attempted, SameComponents, Reverse, UniqueNames, Replaced;
    SortedMember(b.list, c);
    match op
    case Register(d, overwrite) => RegisteredAre(b, d, overwrite, c);
    case Finish(clear) =>
      FinishedList(b, clear);
      SameMember(b.list, Finished(b, clear).list, c);
    case _ =>
  }

  lemma SameMember(cs: seq<Component>, ds: seq<Component>, c: Component)
    requires c in cs && SameComponents(cs, ds)
    ensures c in ds
  {
    assert c in multiset(cs) && c in multiset(ds);
  }

  lemma SortedMember(cs: seq<Component>, c: Component)
    requires c in cs
    ensures c in StartupOrder(cs)
  {
    SortedSame(cs);
    SameMember(cs, StartupOrder(cs), c);
  }

  lemma StepKeepsUnique(b: Boot, op: Op)
    requires UniqueNames(b.list)
    ensures UniqueNames(Step(b, op).list)
  {
    hide Attempted, StartupOrder;
    SortedSame(b.list);
    PermutationKeepsUnique(b.list, StartupOrder(b.list));
    match op
    case Register(c, overwrite) => RegisterKeepsUnique(b, c, overwrite);
    case Finish(clear) =>
      FinishedList(b, clear);
      if SameComponents(b.list, Finished(b, clear).list) {
        PermutationKeepsUnique(b.list, Finished(b, clear).list);
      }
    case _ =>
  }

  // ---------------------------------------------------------------- counting callers

  predicate Enters(op: Op) { op.Init? || op.StartWith? }

  predicate Leaves(b: Boot, op: Op) { op.Finish? && b.phase != Uninitialized }

  /** Init calls minus the Finish calls that did not throw. */
  ghost function Balance(b: Boot, ops: seq<Op>): int
    decreases |ops|
  {
    if ops == [] then 0
    else (if Enters(ops[0]) then 1 else if Leaves(b, ops[0]) then -1 else 0) + Balance(Step(b, ops[0]), ops[1..])
  }

  lemma {:induction false} CallersCountUsers(b: Boot, ops: seq<Op>)
    ensures Run(b, ops).callers == b.callers + Balance(b, ops)
    decreases |ops|
  {
    if ops != [] {
      CallersCountUsers(Step(b, ops[0]), ops[1..]);
    }
  }

  /** No Init of the run fails. */
  ghost predicate NoInitFails(b: Boot, ops: seq<Op>)
    decreases |ops|
  {
    ops != [] ==>
      && (Enters(ops[0]) ==> !InitFails(b, ops[0].throwing))
      && NoInitFails(Step(b, ops[0]), ops[1..])
  }

  ghost predicate Consistent(b: Boot) {
    b.callers >= 0 && (b.phase == Uninitialized <==> b.callers == 0)
  }

  lemma ThrowsSame(cs: seq<Component>, ds: seq<Component>, throwing: set<string>)
    requires SameComponents(cs, ds)
    ensures Throws(cs, throwing) <==> Throws(ds, throwing)
  {
    SameNames(cs, ds);
  }

  lemma InitConsistentIff(b: Boot, throwing: set<string>)
    requires Consistent(b)
    ensures Consistent(Inited(b, throwing)) <==> !InitFails(b, throwing)
  {
    if b.callers == 0 && NeedsPresent(b.list) {
      SortedIsPermutation(b.list, Ancestors(b.list));
      ThrowsSame(b.list, StartupOrder(b.list), throwing);
    }
  }

  /** Once an Init has failed, the count is left at one while the state stays uninitialized.  From
      there on no Init, Start or Finish does anything: no component is called again, ever. */
  lemma {:induction false} FailedInitIsForever(b: Boot, ops: seq<Op>)
    requires b.phase == Uninitialized && b.callers > 0
    ensures var r := Run(b, ops);
            r.phase == Uninitialized && r.callers >= b.callers && r.log == b.log
    decreases |ops|
  {
    if ops != [] {
      FailedInitIsForever(Step(b, ops[0]), ops[1..]);
    }
  }

  /** The state is uninitialized exactly when nobody uses it, at the end of exactly the runs in
      which no Init fails. */
  lemma {:induction false} ConsistentIff(b: Boot, ops: seq<Op>)
    requires Consistent(b)
    ensures Consistent(Run(b, ops)) <==> NoInitFails(b, ops)
    decreases |ops|
  {
    if ops != [] {
      var op, b1 := ops[0], Step(b, ops[0]);
      if Enters(op) {
        InitConsistentIff(b, op.throwing);
      }
      if Consistent(b1) {
        ConsistentIff(b1, ops[1..]);
      } else {
        FailedInitIsForever(b1, ops[1..]);
      }
    }
  }

  /** The first Init of a run that fails: one component is registered, and what it needs is not. */
  lemma FailedInitExample(c: Component, x: string)
    requires x in c.needs && x != c.name
    ensures Run(FRESH, [Register(c, false)] + [Init({})]) == Boot([c], Uninitialized, 1, [])
  {
    var ops := [Register(c, false)] + [Init({})];
    var b := Step(FRESH, ops[0]);
    assert b == Boot([c], Uninitialized, 0, []) by { assert [] + [c] == [c]; }
    assert c in b.list && x !in Names(b.list);
    assert Step(b, ops[1]) == Boot([c], Uninitialized, 1, []);
    assert ops[1..] == [Init({})] && ops[1..][1..] == [];
    assert Run(b, ops[1..]) == Step(b, ops[1]);
  }

  // ---------------------------------------------------------------- epochs

  /** One use of the components, from the first Init to the last Finish: the list that Init found, and
      whether it came to a Start. */
  datatype Epoch = Epoch(found: seq<Component>, started: bool)

  /** The calls of one epoch: init and start in startup order, finish in the exact reverse. */
  ghost function EpochCalls(e: Epoch): seq<Call> {
    var order := StartupOrder(e.found);
    Calls(InitFunction, order) +
    if e.started then Calls(StartFunction, order) + Calls(FiniFunction, Reverse(order)) else []
  }

  ghost function History(es: seq<Epoch>): seq<Call> {
    if es == [] then [] else History(es[..|es| - 1]) + EpochCalls(es[|es| - 1])
  }

  /** The calls of an epoch that is still open. */
  function OpenCalls(phase: Phase, order: seq<Component>): seq<Call> {
    match phase
    case Uninitialized => []
    case Initialized => Calls(InitFunction, order)
    case Started => Calls(InitFunction, order) + Calls(StartFunction, order)
  }

  /** A run as it is watched: the state, the list that the last first Init found, and the epochs that
      are over.  Watching only reads the state. */
  datatype Watch = Watch(boot: Boot, found: seq<Component>, done: seq<Epoch>)

  ghost function Watched(w: Watch, op: Op): Watch {
    var b := w.boot;
    Watch(Step(b, op),
          if Enters(op) && b.callers == 0 then b.list else w.found,
          if Leaves(b, op) && b.callers == 1 then w.done + [Epoch(w.found, b.phase == Started)] else w.done)
  }

  ghost function WatchedRun(w: Watch, ops: seq<Op>): Watch
    decreases |ops|
  {
    if ops == [] then w else WatchedRun(Watched(w, ops[0]), ops[1..])
  }

  lemma {:induction false} WatchedIsRun(w: Watch, ops: seq<Op>)
    ensures WatchedRun(w, ops).boot == Run(w.boot, ops)
    decreases |ops|
  {
    if ops != [] {
      WatchedIsRun(Watched(w, ops[0]), ops[1..]);
    }
  }

  ghost predicate Sound(cs: seq<Component>) {
    UniqueNames(cs) && NeedsPresent(cs)
  }

  /** While an epoch is open, the list is in the order its first Init gave it. */
  ghost predicate InOrder(w: Watch) {
    w.boot.phase != Uninitialized ==> w.boot.list == StartupOrder(w.found)
  }

  ghost predicate WatchInv(w: Watch) {
    && Consistent(w.boot) && UniqueNames(w.boot.list)
    && (w.boot.phase != Uninitialized ==> Sound(w.found))
    && (forall e <- w.done :: Sound(e.found))
    && InOrder(w)
    && w.boot.log == History(w.done) + OpenCalls(w.boot.phase, w.boot.list)
  }

  /** The list is in order in every state of the run. */
  ghost predicate StaysInOrder(w: Watch, ops: seq<Op>)
    decreases |ops|
  {
    InOrder(w) && (ops != [] ==> StaysInOrder(Watched(w, ops[0]), ops[1..]))
  }

  /** The query finds an open epoch whose components form a cycle. */
  ghost predicate Disturbs(b: Boot, op: Op) {
    op.Query? && b.phase != Uninitialized && Cyclic(b.list)
  }

  ghost predicate NothingDisturbs(b: Boot, ops: seq<Op>)
    decreases |ops|
  {
    ops != [] ==> !Disturbs(b, ops[0]) && NothingDisturbs(Step(b, ops[0]), ops[1..])
  }

  lemma RegisterKeepsUnique(b: Boot, c: Component, overwrite: bool)
    requires UniqueNames(b.list)
    ensures UniqueNames(Registered(b, c, overwrite).list)
  {
    if b.phase == Uninitialized && c.name !in Names(b.list) {
      var r := b.list + [c];
      forall i, j | 0 <= i < j < |r|
        ensures r[i].name != r[j].name
      {
        assert i < |b.list| && r[i] in b.list;
      }
    }
  }

  /** The order an epoch works in: its components as they were registered, each once, and in an order
      that respects all their dependencies if and only if there is no cycle. */
  ghost predicate OrdersWell(found: seq<Component>) {
    var order := StartupOrder(found);
    && Sound(found) && Sound(order) && SameComponents(found, order)
    && (RespectsDependencies(order) <==> !Cyclic(found))
  }

  lemma OrderOfEpoch(found: seq<Component>)
    requires Sound(found)
    ensures OrdersWell(found) && (Cyclic(StartupOrder(found)) <==> Cyclic(found))
  {
    hide RespectsDependencies, Cyclic, Ancestors;
    var order := StartupOrder(found);
    StartupOrderRespectsIff(found);
    CyclicIff(found);
    CyclicIff(order);
  }

  lemma AllAttempted(cs: seq<Component>, throwing: set<string>)
    requires !Throws(cs, throwing)
    ensures Attempted(cs, throwing) == |cs|
  {
    forall j | 0 <= j < |cs|
      ensures cs[j].name !in throwing
    {
      assert cs[j] in cs;
    }
    AttemptedIs(cs, throwing, |cs|);
  }

  lemma Associative(a: seq<Call>, b: seq<Call>, c: seq<Call>)
    ensures (a + b) + c == a + (b + c)
  {
  }

  lemma HistorySnoc(es: seq<Epoch>, e: Epoch)
    ensures History(es + [e]) == History(es) + EpochCalls(e)
  {
    assert (es + [e])[..|es|] == es;
  }

  /** The first Init of an epoch. */
  lemma FirstInit(b: Boot, throwing: set<string>)
    requires UniqueNames(b.list) && b.callers == 0 && !InitFails(b, throwing)
    ensures Inited(b, throwing) ==
            Boot(StartupOrder(b.list), Initialized, 1, b.log + Calls(InitFunction, StartupOrder(b.list)))
  {
    var order := StartupOrder(b.list);
    SortedIsPermutation(b.list, Ancestors(b.list));
    ThrowsSame(b.list, order, throwing);
    AllAttempted(order, throwing);
    assert order[..|order|] == order;
  }

  lemma InitWatched(w: Watch, op: Op)
    requires WatchInv(w) && op.Init? && !InitFails(w.boot, op.throwing)
    ensures WatchInv(Watched(w, op))
  {
    hide StartupOrder, Attempted, History;
    var b := w.boot;
    if b.callers == 0 {
      FirstInit(b, op.throwing);
      OrderOfEpoch(b.list);
      assert b.log == History(w.done);
    }
  }

  lemma StartWatched(w: Watch)
    requires WatchInv(w)
    ensures WatchInv(Watched(w, Start))
  {
    var b := w.boot;
    if b.phase == Initialized {
      Associative(History(w.done), Calls(InitFunction, b.list), Calls(StartFunction, b.list));
    }
  }

  /** A StartWith is an Init, followed by a Start for the caller that initialized. */
  lemma StartWithWatched(w: Watch, throwing: set<string>)
    requires WatchInv(w) && !InitFails(w.boot, throwing)
    ensures WatchInv(Watched(w, StartWith(throwing)))
  {
    hide WatchInv, InitFails;
    var w1 := Watched(w, Init(throwing));
    InitWatched(w, Init(throwing));
    StartWatched(w1);
    assert Watched(w, StartWith(throwing)) == if w.boot.callers == 0 then Watched(w1, Start) else w1;
  }

  lemma LastFinish(w: Watch, clear: bool)
    requires WatchInv(w) && w.boot.phase != Uninitialized && w.boot.callers == 1
    ensures Watched(w, Finish(clear)).boot.log == History(w.done) + EpochCalls(Epoch(w.found, w.boot.phase == Started))
  {
    hide StartupOrder, History, Sound, UniqueNames, Calls, Reverse;
    var b := w.boot;
    var inits, starts, finis :=
      Calls(InitFunction, b.list), Calls(StartFunction, b.list), Calls(FiniFunction, Reverse(b.list));
    if b.phase == Started {
      Associative(History(w.done), inits + starts, finis);
      Associative(inits, starts, finis);
    } else {
      assert inits + [] == inits;
    }
  }

  lemma FinishWatched(w: Watch, clear: bool)
    requires WatchInv(w)
    ensures WatchInv(Watched(w, Finish(clear)))
  {
    hide StartupOrder, History, Sound, UniqueNames, Calls, Reverse, EpochCalls;
    var b, w1 := w.boot, Watched(w, Finish(clear));
    if b.phase != Uninitialized && b.callers == 1 {
      var e := Epoch(w.found, b.phase == Started);
      LastFinish(w, clear);
      HistorySnoc(w.done, e);
      assert w1.boot.log == History(w1.done) + [];
      ReverseUnique(b.list);
    }
  }

  lemma ReverseUnique(cs: seq<Component>)
    requires UniqueNames(cs)
    ensures UniqueNames(Reverse(cs)) && UniqueNames([])
  {
  }

  /** Sorting again inside an open epoch keeps the order if and only if there is no cycle. */
  lemma QueryWatchedIff(w: Watch)
    requires WatchInv(w)
    ensures InOrder(Watched(w, Query)) <==> !Disturbs(w.boot, Query)
    ensures InOrder(Watched(w, Query)) ==> WatchInv(Watched(w, Query))
  {
    hide StartupOrder, Cyclic, RespectsDependencies, History;
    var b := w.boot;
    if b.phase != Uninitialized {
      OrderOfEpoch(w.found);
      StartupOrderStableIff(w.found);
    } else if NeedsPresent(b.list) {
      OrderOfEpoch(b.list);
    }
  }

  lemma StepWatchedIff(w: Watch, op: Op)
    requires WatchInv(w) && (Enters(op) ==> !InitFails(w.boot, op.throwing))
    ensures InOrder(Watched(w, op)) <==> !Disturbs(w.boot, op)
    ensures InOrder(Watched(w, op)) ==> WatchInv(Watched(w, op))
  {
    hide WatchInv, InitFails;
    InvInOrder(Watched(w, op));
    match op
    case Register(c, overwrite) => RegisterWatched(w, c, overwrite);
    case Init(throwing) => InitWatched(w, op);
    case Start => StartWatched(w);
    case StartWith(throwing) => StartWithWatched(w, throwing);
    case Finish(clear) => FinishWatched(w, clear);
    case Query => QueryWatchedIff(w);
  }

  lemma InvInOrder(w: Watch)
    ensures WatchInv(w) ==> InOrder(w)
  {
  }

  lemma RegisterWatched(w: Watch, c: Component, overwrite: bool)
    requires WatchInv(w)
    ensures WatchInv(Watched(w, Register(c, overwrite)))
  {
    RegisterKeepsUnique(w.boot, c, overwrite);
  }

  /** A run without a failing Init keeps every open epoch in order throughout if and only if nobody
      queries inside an open epoch with a cycle. */
  lemma {:induction false} StaysInOrderIff(w: Watch, ops: seq<Op>)
    requires WatchInv(w) && NoInitFails(w.boot, ops)
    ensures StaysInOrder(w, ops) <==> NothingDisturbs(w.boot, ops)
    ensures StaysInOrder(w, ops) ==> WatchInv(WatchedRun(w, ops))
    decreases |ops|
  {
    hide WatchInv, InitFails;
    InvInOrder(w);
    if ops != [] {
      StepWatchedIff(w, ops[0]);
      if InOrder(Watched(w, ops[0])) {
        StaysInOrderIff(Watched(w, ops[0]), ops[1..]);
      }
    }
  }

  const WATCHED_FRESH := Watch(FRESH, [], [])

  /** Every such run is a series of epochs.  Each epoch takes the components its first Init finds, as
      they were registered, each of them once.  It initializes them in startup order, starts them in
      the same order, and finishes them in exactly the reverse, however often the list was left
      reversed before.  That order respects all dependencies if and only if there is no cycle. */
  lemma EveryRunIsEpochs(ops: seq<Op>)
    requires NoInitFails(FRESH, ops) && NothingDisturbs(FRESH, ops)
    ensures var w := WatchedRun(WATCHED_FRESH, ops);
            && w.boot == Run(FRESH, ops)
            && w.boot.log == History(w.done) + OpenCalls(w.boot.phase, StartupOrder(w.found))
            && (forall e <- w.done :: OrdersWell(e.found))
            && (w.boot.phase != Uninitialized ==> w.boot.list == StartupOrder(w.found) && OrdersWell(w.found))
  {
    hide StartupOrder, OrdersWell, Sound, Run, WatchedRun, NoInitFails;
    var w := WatchedRun(WATCHED_FRESH, ops);
    WatchedIsRun(WATCHED_FRESH, ops);
    FreshWatchInv();
    StaysInOrderIff(WATCHED_FRESH, ops);
    forall e | e in w.done
      ensures OrdersWell(e.found)
    {
      OrderOfEpoch(e.found);
    }
    if w.boot.phase != Uninitialized {
      OrderOfEpoch(w.found);
    }
  }

  lemma FreshWatchInv()
    ensures WatchInv(WATCHED_FRESH)
  {
  }

  /** The first Init of each epoch finds no dependency cycle. */
  ghost predicate NoCycles(b: Boot, ops: seq<Op>)
    decreases |ops|
  {
    ops != [] ==>
      && (Enters(ops[0]) && b.callers == 0 ==> !Cyclic(b.list))
      && NoCycles(Step(b, ops[0]), ops[1..])
  }

  ghost predicate Acyclic(w: Watch) {
    && (w.boot.phase != Uninitialized ==> !Cyclic(w.found))
    && (forall e <- w.done :: !Cyclic(e.found))
  }

  lemma AcyclicStep(w: Watch, op: Op)
    requires WatchInv(w) && Acyclic(w)
    requires Enters(op) ==> !InitFails(w.boot, op.throwing) && (w.boot.callers == 0 ==> !Cyclic(w.boot.list))
    ensures !Disturbs(w.boot, op) && WatchInv(Watched(w, op)) && Acyclic(Watched(w, op))
  {
    hide Cyclic, StartupOrder, RespectsDependencies, SameComponents, InitFails, History;
    if w.boot.phase != Uninitialized {
      OrderOfEpoch(w.found);
    }
    StepWatchedIff(w, op);
    assert !Enters(op) || w.boot.callers != 0 ==> Watched(w, op).found == w.found;
  }

  lemma {:induction false} AcyclicRun(w: Watch, ops: seq<Op>)
    requires WatchInv(w) && Acyclic(w) && NoInitFails(w.boot, ops) && NoCycles(w.boot, ops)
    ensures NothingDisturbs(w.boot, ops) && Acyclic(WatchedRun(w, ops))
    decreases |ops|
  {
    hide WatchInv, Acyclic, InitFails, Cyclic, Disturbs;
    if ops != [] {
      AcyclicStep(w, ops[0]);
      AcyclicRun(Watched(w, ops[0]), ops[1..]);
    }
  }

  /** With acyclic dependencies queries never disturb anything, and every epoch of every run goes
      through its components in an order that respects all their dependencies. */
  lemma AcyclicRunIsEpochs(ops: seq<Op>)
    requires NoInitFails(FRESH, ops) && NoCycles(FRESH, ops)
    ensures var w := WatchedRun(WATCHED_FRESH, ops);
            && w.boot == Run(FRESH, ops)
            && w.boot.log == History(w.done) + OpenCalls(w.boot.phase, StartupOrder(w.found))
            && (forall e <- w.done :: Sound(StartupOrder(e.found)) && RespectsDependencies(StartupOrder(e.found)))
            && (w.boot.phase != Uninitialized ==>
                  w.boot.list == StartupOrder(w.found) && RespectsDependencies(w.boot.list))
  {
    hide StartupOrder, RespectsDependencies, Cyclic, SameComponents, Sound, Run, WatchedRun, NoInitFails, NoCycles;
    FreshWatchInv();
    AcyclicRun(WATCHED_FRESH, ops);
    EveryRunIsEpochs(ops);
  }

  ghost predicate NeedEachOther(a: Component, b: Component) {
    a.name != b.name && a.needs == [b.name] && b.needs == [a.name]
  }

  lemma RegisterTwo(a: Component, b: Component)
    requires a.name != b.name
    ensures Step(Step(FRESH, Register(a, false)), Register(b, false)) == Boot([a, b], Uninitialized, 0, [])
  {
    var b1 := Step(FRESH, Register(a, false));
    assert b1 == Boot([a], Uninitialized, 0, []) by { assert [] + [a] == [a]; }
    assert [a] + [b] == [a, b];
  }

  lemma CycleIsSound(a: Component, b: Component)
    requires NeedEachOther(a, b)
    ensures Sound([a, b])
  {
    assert a in [a, b] && b in [a, b];
  }

  lemma CycleIsCyclic(a: Component, b: Component)
    requires NeedEachOther(a, b)
    ensures Cyclic([b, a])
  {
    hide StartupOrder, Cyclic, RespectsDependencies;
    CycleIsSound(a, b);
    CycleFlips(a, b);
    CycleFlips(b, a);
    StartupOrderStableIff([a, b]);
    OrderOfEpoch([a, b]);
    assert [a, b][0] != [b, a][0];
  }

  /** A query that disturbs an epoch: two components that need each other are initialized in one order
      and, after GetStartupOrder was called, started in the other. */
  lemma QueryFlipsEpoch(a: Component, b: Component)
    requires NeedEachOther(a, b)
    ensures Step(Step(FRESH, Register(a, false)), Register(b, false)) == Boot([a, b], Uninitialized, 0, [])
    ensures var open := Boot([b, a], Initialized, 1, Calls(InitFunction, [b, a]));
            && Step(Boot([a, b], Uninitialized, 0, []), Init({})) == open
            && Disturbs(open, Query)
            && Step(Step(open, Query), Start).log == Calls(InitFunction, [b, a]) + Calls(StartFunction, [a, b])
  {
    hide StartupOrder, Cyclic, Calls, NeedsPresent, UniqueNames, Attempted, Names;
    RegisterTwo(a, b);
    CycleIsSound(a, b);
    CycleIsSound(b, a);
    CycleIsCyclic(a, b);
    CycleFlips(a, b);
    CycleFlips(b, a);
    FirstInit(Boot([a, b], Uninitialized, 0, []), {});
    assert [] + Calls(InitFunction, [b, a]) == Calls(InitFunction, [b, a]);
  }

  /** Nobody uses the components. */
  predicate Idle(b: Boot) {
    b.callers == 0 && b.phase == Uninitialized
  }

  lemma IdleUntilInit(b: Boot, op: Op)
    ensures Idle(b) && !Enters(op) ==> Idle(Step(b, op))
  {
  }

  /** A registered component stays: it is in the list after every run that neither clears nor replaces
      it, and in every epoch that is over by then and was not open before. */
  lemma {:induction false} RegisteredStays(w: Watch, ops: seq<Op>, c: Component)
    requires UniqueNames(w.boot.list) && c in w.boot.list && (Idle(w.boot) || c in w.found)
    requires forall op <- ops :: Spares(op, c)
    ensures var r := WatchedRun(w, ops);
            && c in r.boot.list && w.done <= r.done
            && forall i :: |w.done| <= i < |r.done| ==> c in r.done[i].found
    decreases |ops|
  {
    hide Step, UniqueNames, Spares;
    if ops != [] {
      assert Spares(ops[0], c) by { assert ops[0] in ops; }
      StepSpares(w.boot, ops[0], c);
      StepKeepsUnique(w.boot, ops[0]);
      IdleUntilInit(w.boot, ops[0]);
      RegisteredStays(Watched(w, ops[0]), ops[1..], c);
    }
  }

  // ---------------------------------------------------------------- finish functions

  /** The components whose finish functions were called, in order. */
  function Finis(log: seq<Call>): seq<Component> {
    if log == [] then []
    else Finis(log[..|log| - 1]) + if log[|log| - 1].kind == FiniFunction then [log[|log| - 1].component] else []
  }

  lemma {:induction false} FinisOfCalls(log: seq<Call>, kind: Kind, cs: seq<Component>)
    ensures Finis(log + Calls(kind, cs)) == Finis(log) + if kind == FiniFunction then cs else []
    decreases |cs|
  {
    if cs == [] {
      assert log + Calls(kind, cs) == log;
    } else {
      var front := cs[..|cs| - 1];
      var long := log + Calls(kind, cs);
      assert long[..|long| - 1] == log + Calls(kind, front);
      FinisOfCalls(log, kind, front);
      assert cs == front + [cs[|cs| - 1]];
    }
  }

  /** Only the Finish of the last caller of a started epoch calls finish functions: those of the whole
      list, from the back to the front. */
  lemma OnlyLastFinishRunsFini(b: Boot, op: Op)
    requires Consistent(b)
    ensures Finis(Step(b, op).log) ==
            Finis(b.log) + if op.Finish? && b.phase == Started && b.callers == 1 then Reverse(b.list) else []
  {
    hide Finis, Calls, Reverse, StartupOrder, Attempted, Throws;
    if Enters(op) && b.callers == 0 && NeedsPresent(b.list) {
      var order := StartupOrder(b.list);
      FinisOfCalls(b.log, InitFunction, order[..Attempted(order, op.throwing)]);
      FinisOfCalls(Inited(b, op.throwing).log, StartFunction, order);
    }
    FinisOfCalls(b.log, StartFunction, b.list);
    FinisOfCalls(b.log, FiniFunction, Reverse(b.list));
  }

  /** The components finished by these epochs. */
  ghost function FinishedIn(es: seq<Epoch>): seq<Component> {
    if es == [] then []
    else
      var e := es[|es| - 1];
      FinishedIn(es[..|es| - 1]) + if e.started then Reverse(StartupOrder(e.found)) else []
  }

  lemma FinisOfEpoch(log: seq<Call>, e: Epoch)
    ensures Finis(log + EpochCalls(e)) == Finis(log) + if e.started then Reverse(StartupOrder(e.found)) else []
  {
    hide Finis, Reverse, StartupOrder;
    var order := StartupOrder(e.found);
    var inits, starts, finis :=
      Calls(InitFunction, order), Calls(StartFunction, order), Calls(FiniFunction, Reverse(order));
    FinisOfCalls(log, InitFunction, order);
    if e.started {
      Associative(log, inits, starts + finis);
      Associative(log + inits, starts, finis);
      FinisOfCalls(log + inits, StartFunction, order);
      FinisOfCalls(log + inits + starts, FiniFunction, Reverse(order));
    } else {
      assert inits + [] == inits;
    }
  }

  lemma {:induction false} FinisOfHistory(es: seq<Epoch>)
    ensures Finis(History(es)) == FinishedIn(es)
  {
    hide Finis, EpochCalls, Reverse;
    if es != [] {
      FinisOfHistory(es[..|es| - 1]);
      FinisOfEpoch(History(es[..|es| - 1]), es[|es| - 1]);
    } else {
      assert Finis([]) == [] by { NoFinis(); }
    }
  }

  lemma NoFinis()
    ensures Finis([]) == []
  {
  }

  lemma {:induction false} ReversePermutes(cs: seq<Component>)
    ensures multiset(Reverse(cs)) == multiset(cs)
  {
    if cs != [] {
      var front, last := cs[..|cs| - 1], cs[|cs| - 1];
      ReversePermutes(front);
      assert cs == front + [last];
      assert Reverse(cs) == [last] + Reverse(front);
    }
  }

  lemma FinishedOnce(found: seq<Component>, c: Component)
    requires Sound(found) && c in found
    ensures multiset(Reverse(StartupOrder(found)))[c] == 1
  {
    hide StartupOrder, RespectsDependencies, Cyclic, Reverse;
    OrderOfEpoch(found);
    ReversePermutes(StartupOrder(found));
    OnceOnly(found, c);
    assert c in multiset(found);
  }

  /** The finish functions called so far are those of the epochs that are over. */
  ghost predicate FinishesMatch(w: Watch) {
    Finis(w.boot.log) == FinishedIn(w.done) && forall e <- w.done :: Sound(e.found)
  }

  lemma InvFinishesMatch(w: Watch)
    requires WatchInv(w)
    ensures FinishesMatch(w)
  {
    hide Finis, History, FinishedIn, Sound, StartupOrder, UniqueNames;
    FinisOfHistory(w.done);
    FinisOfOpen(History(w.done), w.boot.phase, w.boot.list);
  }

  /** A failing Init calls no finish function, and it is the last step that does anything. */
  lemma FailedInitFinishes(w: Watch, op: Op)
    requires WatchInv(w) && Enters(op) && InitFails(w.boot, op.throwing)
    ensures var w1 := Watched(w, op);
            FinishesMatch(w1) && w1.boot.phase == Uninitialized && w1.boot.callers > 0
  {
    hide Finis, History, FinishedIn, Sound, Attempted, StartupOrder, UniqueNames, Calls;
    var b := w.boot;
    InvFinishesMatch(w);
    if NeedsPresent(b.list) {
      var order := StartupOrder(b.list);
      SortedSame(b.list);
      ThrowsSame(b.list, order, op.throwing);
      FinisOfCalls(b.log, InitFunction, order[..Attempted(order, op.throwing)]);
    }
  }

  lemma {:induction false} StuckFinishes(w: Watch, ops: seq<Op>)
    requires FinishesMatch(w) && w.boot.phase == Uninitialized && w.boot.callers > 0
    ensures FinishesMatch(WatchedRun(w, ops))
    decreases |ops|
  {
    hide Finis, FinishedIn, Sound;
    if ops != [] {
      StuckFinishes(Watched(w, ops[0]), ops[1..]);
    }
  }

  lemma {:induction false} RunFinishes(w: Watch, ops: seq<Op>)
    requires WatchInv(w) && NothingDisturbs(w.boot, ops)
    ensures FinishesMatch(WatchedRun(w, ops))
    decreases |ops|
  {
    hide WatchInv, FinishesMatch, InitFails, Disturbs, Step;
    if ops == [] {
      InvFinishesMatch(w);
    } else if Enters(ops[0]) && InitFails(w.boot, ops[0].throwing) {
      FailedInitFinishes(w, ops[0]);
      StuckFinishes(Watched(w, ops[0]), ops[1..]);
    } else {
      StepWatchedIff(w, ops[0]);
      RunFinishes(Watched(w, ops[0]), ops[1..]);
    }
  }

  /** Over every run that nothing disturbs, failing Inits included, the finish functions called are those
      of the started epochs that are over: in each of them every component once, in the reverse of its
      startup order. */
  lemma EveryRunFinishes(ops: seq<Op>)
    requires NothingDisturbs(FRESH, ops)
    ensures var w := WatchedRun(WATCHED_FRESH, ops);
            && Finis(Run(FRESH, ops).log) == FinishedIn(w.done)
            && forall e <- w.done, c <- e.found :: multiset(Reverse(StartupOrder(e.found)))[c] == 1
  {
    hide StartupOrder, Sound, Run, WatchedRun, NothingDisturbs, Finis, Reverse, FinishedIn, WatchInv;
    var w := WatchedRun(WATCHED_FRESH, ops);
    WatchedIsRun(WATCHED_FRESH, ops);
    FreshWatchInv();
    RunFinishes(WATCHED_FRESH, ops);
    forall e, c | e in w.done && c in e.found
      ensures multiset(Reverse(StartupOrder(e.found)))[c] == 1
    {
      FinishedOnce(e.found, c);
    }
  }

  lemma FinisOfOpen(log: seq<Call>, phase: Phase, order: seq<Component>)
    ensures Finis(log + OpenCalls(phase, order)) == Finis(log)
  {
    hide Finis;
    var inits, starts := Calls(InitFunction, order), Calls(StartFunction, order);
    FinisOfCalls(log, InitFunction, order);
    FinisOfCalls(log + inits, StartFunction, order);
    Associative(log, inits, starts);
    assert log + [] == log;
  }

  // ---------------------------------------------------------------- the object

  datatype Outcome = Ok | AlreadyInitialized | Threw

  class BootstrapService {
    var bstraps: seq<Component>
    var state: Phase
    var numInitCallers: int
    var calls: seq<Call>

    ghost function Model(): Boot
      reads this
    {
      Boot(bstraps, state, numInitCallers, calls)
    }

    constructor ()
      ensures Model() == FRESH
    {
      bstraps, state, numInitCallers, calls := [], Uninitialized, 0, [];
    }

    method HasComponent(name: string) returns (found: bool)
      ensures found <==> name in Names(bstraps)
    {
      for i := 0 to |bstraps|
        invariant forall j :: 0 <= j < i ==> bstraps[j].name != name
      {
        if bstraps[i].name == name {
          assert bstraps[i] in bstraps;
          return true;
        }
      }
      return false;
    }

    method RegisterComponent(c: Component, overwrite: bool) returns (outcome: Outcome)
      modifies this
      ensures Model() == Step(old(Model()), Register(c, overwrite))
      ensures outcome == Threw <==>
                if old(state) != Uninitialized then c.name !in Names(old(bstraps))
                else c.name in Names(old(bstraps)) && !overwrite
    {
      var known := HasComponent(c.name);
      if state != Uninitialized {
        return if known then Ok else Threw;
      }
      for i := 0 to |bstraps|
        invariant bstraps == old(bstraps) && state == old(state)
        invariant numInitCallers == old(numInitCallers) && calls == old(calls)
        invariant forall j :: 0 <= j < i ==> bstraps[j].name != c.name
      {
        if bstraps[i].name == c.name {
          assert bstraps[i] in bstraps;
          if !overwrite {
            return Threw;
          }
          ReplacedAt(bstraps, c, i);
          bstraps := bstraps[i := c];
          return Ok;
        }
      }
      bstraps := bstraps + [c];
      return Ok;
    }

    /** Calls one function of each component in turn, stopping at the first that throws. */
    method CallAll(kind: Kind, throwing: set<string>) returns (threw: bool)
      modifies this`calls
      ensures threw <==> Throws(bstraps, throwing)
      ensures calls == old(calls) + Calls(kind, bstraps[..Attempted(bstraps, throwing)])
    {
      hide Calls, Attempted;
      CallsNone(old(calls), kind, bstraps);
      for i := 0 to |bstraps|
        invariant calls == old(calls) + Calls(kind, bstraps[..i])
        invariant forall j :: 0 <= j < i ==> bstraps[j].name !in throwing
      {
        CallsSnoc(old(calls), kind, bstraps, i);
        calls := calls + [Call(kind, bstraps[i])];
        if bstraps[i].name in throwing {
          assert bstraps[i] in bstraps;
          AttemptedIs(bstraps, throwing, i + 1);
          return true;
        }
      }
      AttemptedIs(bstraps, throwing, |bstraps|);
      return false;
    }

    method Init(throwing: set<string>) returns (outcome: Outcome)
      requires UniqueNames(bstraps)
      modifies this
      ensures Model() == Step(old(Model()), Op.Init(throwing))
      ensures outcome == AlreadyInitialized <==> old(numInitCallers) != 0
      ensures outcome == Threw <==> InitFails(old(Model()), throwing)
    {
      var currentCount := numInitCallers;
      numInitCallers := numInitCallers + 1;
      if currentCount != 0 {
        return AlreadyInitialized;
      }
      var ok, sorted := SortDependencies(bstraps);
      if !ok {
        return Threw;
      }
      SortedIsPermutation(bstraps, Ancestors(bstraps));
      ThrowsSame(bstraps, sorted, throwing);
      bstraps := sorted;
      var threw := CallAll(InitFunction, throwing);
      if threw {
        return Threw;
      }
      state := Initialized;
      return Ok;
    }

    method Start() returns (outcome: Outcome)
      modifies this
      ensures Model() == Step(old(Model()), Op.Start)
      ensures outcome == Threw <==> old(state) == Uninitialized
    {
      if state == Started {
        return Ok;
      }
      if state != Initialized {
        return Threw;
      }
      AttemptedIs(bstraps, {}, |bstraps|);
      assert bstraps[..|bstraps|] == bstraps;
      var threw := CallAll(StartFunction, {});
      state := Started;
      return Ok;
    }

    method StartWith(throwing: set<string>) returns (outcome: Outcome)
      requires UniqueNames(bstraps)
      modifies this
      ensures Model() == Step(old(Model()), Op.StartWith(throwing))
    {
      outcome := Init(throwing);
      if outcome == Ok {
        outcome := Start();
      }
    }

    method Finish(clear: bool) returns (outcome: Outcome)
      modifies this
      ensures Model() == Step(old(Model()), Op.Finish(clear))
      ensures outcome == Threw <==> old(state) == Uninitialized
      ensures if outcome == Ok && old(numInitCallers) <= 1 && clear then bstraps == []
              else SameComponents(old(bstraps), bstraps)
    {
      hide Calls, SameComponents, Reverse, Attempted, Throws;
      FinishedList(Model(), clear);
      if state == Uninitialized {
        return Threw;
      }
      numInitCallers := numInitCallers - 1;
      if numInitCallers > 0 {
        return Ok;
      }
      if state == Started {
        bstraps := Reverse(bstraps);
        AttemptedIs(bstraps, {}, |bstraps|);
        assert bstraps[..|bstraps|] == bstraps;
        var threw := CallAll(FiniFunction, {});
      }
      state := Uninitialized;
      if clear {
        bstraps := [];
      }
      return Ok;
    }

    method GetStartupOrder() returns (outcome: Outcome, names: seq<string>)
      requires UniqueNames(bstraps)
      modifies this
      ensures Model() == Step(old(Model()), Op.Query)
      ensures outcome == Threw <==> !NeedsPresent(old(bstraps))
      ensures outcome == Ok ==>
                SameComponents(old(bstraps), bstraps) && (RespectsDependencies(bstraps) <==> !Cyclic(old(bstraps)))
      ensures outcome == Ok ==> |names| == |bstraps| && forall i :: 0 <= i < |names| ==> names[i] == bstraps[i].name
    {
      hide RespectsDependencies, Cyclic, StartupOrder, NeedsPresent, UniqueNames, SameComponents, Ancestors;
      var ok, sorted := SortDependencies(bstraps);
      if !ok {
        return Threw, [];
      }
      StartupOrderRespectsIff(bstraps);
      bstraps := sorted;
      names := [];
      for k := 0 to |bstraps|
        invariant |names| == k && forall i :: 0 <= i < k ==> names[i] == bstraps[i].name
      {
        names := names + [bstraps[k].name];
      }
      outcome := Ok;
    }
  }

  lemma CallsNone(log: seq<Call>, kind: Kind, cs: seq<Component>)
    ensures log + Calls(kind, cs[..0]) == log
  {
  }

  lemma CallsSnoc(log: seq<Call>, kind: Kind, cs: seq<Component>, i: nat)
    requires i < |cs|
    ensures log + Calls(kind, cs[..i]) + [Call(kind, cs[i])] == log + Calls(kind, cs[..i + 1])
  {
    assert Calls(kind, cs[..i + 1]) == Calls(kind, cs[..i]) + [Call(kind, cs[i])];
  }

  lemma {:induction false} ReplacedAt(cs: seq<Component>, c: Component, i: nat)
    requires i < |cs| && cs[i].name == c.name && forall j :: 0 <= j < i ==> cs[j].name != c.name
    ensures Replaced(cs, c) == cs[i := c]
  {
    if i > 0 {
      ReplacedAt(cs[1..], c, i - 1);
    }
  }

  lemma {:induction false} AttemptedIs(cs: seq<Component>, throwing: set<string>, n: nat)
    requires n <= |cs| && forall j :: 0 <= j < n - 1 ==> cs[j].name !in throwing
    requires if n > 0 && cs[n - 1].name in throwing then true else n == |cs|
    ensures Attempted(cs, throwing) == n
  {
    if n > 1 {
      AttemptedIs(cs[1..], throwing, n - 1);
    }
  }
}
