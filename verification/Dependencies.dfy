/**
 How Bootstrap turns the dependencies its components declare into a startup order: a table of
 direct dependencies, its transitive closure computed in place, and an insertion into a new list
 in front of the first component that depends on the one inserted.
 */
module Dependencies {

  /** A registered component.  A need must be registered; a want counts only when it is. */
  datatype Component = Component(name: string, needs: seq<string>, wants: seq<string>)

  type Table = map<string, set<string>>

  function Names(cs: seq<Component>): set<string> {
    set c <- cs :: c.name
  }

  predicate UniqueNames(cs: seq<Component>) {
    forall i, j :: 0 <= i < j < |cs| ==> cs[i].name != cs[j].name
  }

  predicate NeedsPresent(cs: seq<Component>) {
    forall c <- cs, p <- c.needs :: p in Names(cs)
  }

  function Direct(c: Component, names: set<string>): set<string> {
    (set p <- c.needs) + (set p <- c.wants | p in names)
  }

  ghost predicate IsDirectTable(cs: seq<Component>, lut: Table) {
    lut.Keys == Names(cs) && forall c <- cs :: c.name in lut && lut[c.name] == Direct(c, Names(cs))
  }

  // ---------------------------------------------------------------- expandDependencies

  method AllNames(cs: seq<Component>) returns (names: set<string>)
    ensures names == Names(cs)
  {
    names := {};
    for i := 0 to |cs|
      invariant names == Names(cs[..i])
    {
      assert cs[..i + 1] == cs[..i] + [cs[i]];
      names := names + {cs[i].name};
    }
    assert cs[..|cs|] == cs;
  }

  /** The dependencies of one component, unless it needs something that is not there. */
  method DirectDependencies(bs: Component, names: set<string>) returns (ok: bool, deps: set<string>)
    ensures ok <==> forall p <- bs.needs :: p in names
    ensures ok ==> deps == Direct(bs, names)
  {
    deps := {};
    for j := 0 to |bs.needs|
      invariant forall k :: 0 <= k < j ==> bs.needs[k] in names
    {
      if bs.needs[j] !in names {
        return false, deps;
      }
    }
    deps := set p <- bs.needs;
    for j := 0 to |bs.wants|
      invariant deps == (set p <- bs.needs) + (set p <- bs.wants[..j] | p in names)
    {
      assert bs.wants[..j + 1] == bs.wants[..j] + [bs.wants[j]];
      if bs.wants[j] in names {
        deps := deps + {bs.wants[j]};
      }
    }
    assert bs.wants[..|bs.wants|] == bs.wants;
    ok := true;
  }

  method ExpandDependencies(cs: seq<Component>) returns (ok: bool, lut: Table)
    requires UniqueNames(cs)
    ensures ok <==> NeedsPresent(cs)
    ensures ok ==> IsDirectTable(cs, lut)
  {
    lut := map[];
    var names := AllNames(cs);
    for i := 0 to |cs|
      invariant lut.Keys == Names(cs[..i])
      invariant forall k :: 0 <= k < i ==> cs[k].name in lut && lut[cs[k].name] == Direct(cs[k], names)
      invariant forall k :: 0 <= k < i ==> forall p <- cs[k].needs :: p in names
    {
      var found, deps := DirectDependencies(cs[i], names);
      if !found {
        assert cs[i] in cs;
        return false, lut;
      }
      assert cs[..i + 1] == cs[..i] + [cs[i]];
      lut := lut[cs[i].name := deps];
    }
    assert cs[..|cs|] == cs;
    ok := true;
  }

  // ---------------------------------------------------------------- reachability

  ghost predicate Path(lut: Table, p: seq<string>) {
    |p| >= 2 && forall i :: 0 <= i < |p| - 1 ==> p[i] in lut && p[i + 1] in lut[p[i]]
  }

  /** One component needs or wants another, through any number of components in between. */
  ghost predicate Reaches(lut: Table, a: string, b: string) {
    exists p: seq<string> :: Path(lut, p) && p[0] == a && p[|p| - 1] == b
  }

  lemma ReachesDirect(lut: Table, a: string, b: string)
    requires a in lut && b in lut[a]
    ensures Reaches(lut, a, b)
  {
    assert Path(lut, [a, b]) && [a, b][0] == a && [a, b][1] == b;
  }

  lemma ReachesTransitive(lut: Table, a: string, b: string, c: string)
    requires Reaches(lut, a, b) && Reaches(lut, b, c)
    ensures Reaches(lut, a, c)
  {
    var p: seq<string> :| Path(lut, p) && p[0] == a && p[|p| - 1] == b;
    var q: seq<string> :| Path(lut, q) && q[0] == b && q[|q| - 1] == c;
    var r := p + q[1..];
    forall i | 0 <= i < |r| - 1
      ensures r[i] in lut && r[i + 1] in lut[r[i]]
    {
      if i >= |p| - 1 {
        assert r[i] == q[i - (|p| - 1)] && r[i + 1] == q[i - (|p| - 1) + 1];
      }
    }
    assert Path(lut, r) && r[0] == a && r[|r| - 1] == c;
  }

  ghost predicate WellScoped(lut: Table) {
    forall k <- lut, d <- lut[k] :: d in lut
  }

  ghost predicate ClosedAt(lut: Table, k: string)
    requires k in lut
  {
    forall p <- lut[k] :: p in lut && lut[p] <= lut[k]
  }

  ghost predicate Closed(lut: Table) {
    forall k <- lut :: ClosedAt(lut, k)
  }

  /** A closed table that contains another one contains everything reachable in it. */
  lemma {:induction false} ClosedContainsPaths(lut0: Table, lut: Table, p: seq<string>)
    requires Path(lut0, p) && lut.Keys == lut0.Keys && Closed(lut)
    requires forall k <- lut0 :: lut0[k] <= lut[k]
    ensures p[|p| - 1] in lut[p[0]]
    decreases |p|
  {
    if |p| > 2 {
      var q := p[1..];
      assert forall i :: 0 <= i < |q| ==> q[i] == p[i + 1];
      ClosedContainsPaths(lut0, lut, q);
      assert q[0] in lut[p[0]] && ClosedAt(lut, p[0]);
    }
  }

  /** The table between lut0 and its closure: it grew, and only by what is reachable. */
  ghost predicate Between(lut0: Table, lut: Table) {
    && lut.Keys == lut0.Keys
    && WellScoped(lut)
    && (forall k <- lut0 :: lut0[k] <= lut[k])
    && (forall k <- lut, d <- lut[k] :: Reaches(lut0, k, d))
  }

  ghost predicate IsClosure(lut0: Table, lut: Table) {
    lut.Keys == lut0.Keys && forall k <- lut, d :: d in lut[k] <==> Reaches(lut0, k, d)
  }

  lemma ClosedBetweenIsClosure(lut0: Table, lut: Table)
    requires Between(lut0, lut) && Closed(lut)
    ensures IsClosure(lut0, lut)
  {
    forall k, d | k in lut && Reaches(lut0, k, d)
      ensures d in lut[k]
    {
      var p: seq<string> :| Path(lut0, p) && p[0] == k && p[|p| - 1] == d;
      ClosedContainsPaths(lut0, lut, p);
    }
  }

  // ---------------------------------------------------------------- the closure loop

  method Merge(into: set<string>, from: set<string>) returns (r: set<string>, grew: bool)
    ensures r == into + from
    ensures grew <==> r != into
  {
    r, grew := into, false;
    var todo := from;
    while todo != {}
      invariant todo <= from && r == into + (from - todo)
      invariant grew <==> r != into
    {
      var d :| d in todo;
      if d !in r {
        grew := true;
        r := r + {d};
      }
      todo := todo - {d};
    }
  }

  /** What one work item of the table becomes: its parents and its parents' parents. */
  ghost function WithGrandparents(lut: Table, k: string): set<string>
    requires WellScoped(lut) && k in lut
  {
    lut[k] + set p <- lut[k], d <- lut[p] :: d
  }

  method ExpandItem(lut: Table, k: string) returns (updated: set<string>, grew: bool)
    requires WellScoped(lut) && k in lut
    ensures updated == WithGrandparents(lut, k)
    ensures grew <==> updated != lut[k]
  {
    updated, grew := lut[k], false;
    var parents := lut[k];
    while parents != {}
      invariant parents <= lut[k]
      invariant updated == lut[k] + set p <- lut[k] - parents, d <- lut[p] :: d
      invariant grew <==> updated != lut[k]
    {
      var p :| p in parents;
      ghost var before := updated;
      var more;
      updated, more := Merge(updated, lut[p]);
      grew := grew || more;
      ghost var done, done' := lut[k] - parents, lut[k] - (parents - {p});
      assert done' == done + {p};
      assert (set q <- done', d <- lut[q] :: d) == (set q <- done, d <- lut[q] :: d) + lut[p];
      parents := parents - {p};
    }
    assert lut[k] - parents == lut[k];
  }

  /** The pairs in the table.  Each pass that repeats adds one, and there are finitely many. */
  ghost function Pairs(lut: Table): set<(string, string)> {
    set k <- lut, d <- lut[k] :: (k, d)
  }

  ghost function AllPairs(names: set<string>): set<(string, string)> {
    set k <- names, d <- names :: (k, d)
  }

  lemma PairsBounded(lut: Table)
    requires WellScoped(lut)
    ensures Pairs(lut) <= AllPairs(lut.Keys)
  {
  }

  lemma StepStaysBetween(lut0: Table, lut: Table, k: string)
    requires Between(lut0, lut) && k in lut
    ensures Between(lut0, lut[k := WithGrandparents(lut, k)])
  {
    forall p, d | p in lut[k] && d in lut[p]
      ensures Reaches(lut0, k, d)
    {
      ReachesTransitive(lut0, k, p, d);
    }
  }

  lemma GrowthAddsPairs(lut: Table, k: string)
    requires WellScoped(lut) && k in lut
    ensures var u := WithGrandparents(lut, k);
            && Pairs(lut) <= Pairs(lut[k := u])
            && (u != lut[k] ==> Pairs(lut) < Pairs(lut[k := u]))
            && (u == lut[k] ==> ClosedAt(lut, k) && lut[k := u] == lut)
  {
    var u := WithGrandparents(lut, k);
    if u != lut[k] {
      var d :| d in u && d !in lut[k];
      assert (k, d) in Pairs(lut[k := u]) && (k, d) !in Pairs(lut);
    } else {
      forall p | p in lut[k]
        ensures lut[p] <= lut[k]
      {
        assert forall d <- lut[p] :: d in u;
      }
    }
  }

  /** One walk over the table in key order, storing each updated set before the next is read. */
  method Pass(lut0: Table, start: Table, order: seq<string>) returns (lut: Table, keepGoing: bool)
    requires Between(lut0, start) && (set k <- order) == start.Keys
    ensures Between(lut0, lut)
    ensures keepGoing ==> Pairs(start) < Pairs(lut)
    ensures !keepGoing ==> lut == start && Closed(lut)
  {
    lut, keepGoing := start, false;
    for i := 0 to |order|
      invariant Between(lut0, lut)
      invariant Pairs(start) <= Pairs(lut)
      invariant keepGoing ==> Pairs(start) < Pairs(lut)
      invariant !keepGoing ==> lut == start
      invariant !keepGoing ==> forall j :: 0 <= j < i ==> order[j] in lut && ClosedAt(lut, order[j])
    {
      var updated, grew := ExpandItem(lut, order[i]);
      StepStaysBetween(lut0, lut, order[i]);
      GrowthAddsPairs(lut, order[i]);
      keepGoing := keepGoing || grew;
      lut := lut[order[i] := updated];
    }
  }

  /** The closure loop ends for every table, cyclic or not, with exactly what is reachable.  The
      order of the keys does not matter; the source walks a std::map in sorted order. */
  method CloseTable(lut0: Table, order: seq<string>) returns (lut: Table)
    requires WellScoped(lut0) && (set k <- order) == lut0.Keys
    ensures IsClosure(lut0, lut)
  {
    forall k, d | k in lut0 && d in lut0[k]
      ensures Reaches(lut0, k, d)
    {
      ReachesDirect(lut0, k, d);
    }
    lut := lut0;
    var keepGoing := true;
    while keepGoing
      invariant Between(lut0, lut)
      invariant !keepGoing ==> Closed(lut)
      decreases AllPairs(lut0.Keys) - Pairs(lut), keepGoing
    {
      ghost var before := lut;
      lut, keepGoing := Pass(lut0, lut, order);
      PairsBounded(before);
      PairsBounded(lut);
    }
    ClosedBetweenIsClosure(lut0, lut);
  }

  // ---------------------------------------------------------------- the sorted list

  predicate Depends(lut: Table, a: string, b: string) {
    a in lut && b in lut[a]
  }

  /** The position of the first component that depends on the given one, or the back. */
  function Spot(list: seq<Component>, lut: Table, name: string): (i: nat)
    ensures i <= |list|
    ensures i < |list| ==> Depends(lut, list[i].name, name)
    ensures forall j :: 0 <= j < i ==> !Depends(lut, list[j].name, name)
  {
    if list == [] || Depends(lut, list[0].name, name) then 0 else 1 + Spot(list[1..], lut, name)
  }

  function Insert(list: seq<Component>, lut: Table, bs: Component): seq<Component> {
    var i := Spot(list, lut, bs.name);
    list[..i] + [bs] + list[i..]
  }

  function Sorted(cs: seq<Component>, lut: Table): seq<Component> {
    if cs == [] then [] else Insert(Sorted(cs[..|cs| - 1], lut), lut, cs[|cs| - 1])
  }

  method InsertInto(list: seq<Component>, lut: Table, bs: Component) returns (sbs: seq<Component>)
    ensures sbs == Insert(list, lut, bs)
  {
    sbs := list;
    var foundSpot, i := false, 0;
    while !foundSpot && i < |sbs|
      invariant i <= |sbs|
      invariant !foundSpot ==> sbs == list && i <= Spot(list, lut, bs.name)
      invariant foundSpot ==> sbs == Insert(list, lut, bs)
      decreases !foundSpot, |sbs| - i
    {
      if Depends(lut, sbs[i].name, bs.name) {
        sbs := sbs[..i] + [bs] + sbs[i..];
        foundSpot := true;
      }
      i := i + 1;
    }
    if !foundSpot {
      sbs := sbs + [bs];
    }
  }

  lemma InsertAtBack(list: seq<Component>, lut: Table, bs: Component)
    requires forall c <- list :: !Depends(lut, c.name, bs.name)
    ensures Insert(list, lut, bs) == list + [bs]
  {
  }

  lemma InsertAtFront(list: seq<Component>, lut: Table, bs: Component)
    requires list != [] && Depends(lut, list[0].name, bs.name)
    ensures Insert(list, lut, bs) == [bs] + list
  {
  }

  lemma SortedSnoc(front: seq<Component>, last: Component, lut: Table)
    ensures Sorted(front + [last], lut) == Insert(Sorted(front, lut), lut, last)
  {
    assert (front + [last])[..|front|] == front;
  }

  method SortList(cs: seq<Component>, lut: Table) returns (sbs: seq<Component>)
    ensures sbs == Sorted(cs, lut)
  {
    sbs := [];
    for n := 0 to |cs|
      invariant sbs == Sorted(cs[..n], lut)
    {
      SortedSnoc(cs[..n], cs[n], lut);
      assert cs[..n + 1] == cs[..n] + [cs[n]];
      sbs := InsertInto(sbs, lut, cs[n]);
    }
    assert cs[..|cs|] == cs;
  }

  lemma InsertAdds(list: seq<Component>, lut: Table, bs: Component)
    ensures multiset(Insert(list, lut, bs)) == multiset(list) + multiset{bs}
  {
    var i := Spot(list, lut, bs.name);
    assert list == list[..i] + list[i..];
    assert multiset(list) == multiset(list[..i]) + multiset(list[i..]);
  }

  lemma {:induction false} SortedIsPermutation(cs: seq<Component>, lut: Table)
    ensures multiset(Sorted(cs, lut)) == multiset(cs)
  {
    if cs != [] {
      var front, last := cs[..|cs| - 1], cs[|cs| - 1];
      assert multiset(cs) == multiset(front) + multiset{last} by { assert cs == front + [last]; }
      SortedIsPermutation(front, lut);
      InsertAdds(Sorted(front, lut), lut, last);
    }
  }

  /** No component depends on one that comes after it. */
  ghost predicate Ordered(list: seq<Component>, lut: Table) {
    forall i, j :: 0 <= i < j < |list| ==> !Depends(lut, list[i].name, list[j].name)
  }

  ghost predicate Transitive(lut: Table) {
    forall a, b, c :: Depends(lut, a, b) && Depends(lut, b, c) ==> Depends(lut, a, c)
  }

  /** No two different components depend on each other. */
  ghost predicate NoMutual(lut: Table) {
    forall a, b :: Depends(lut, a, b) && Depends(lut, b, a) ==> a == b
  }

  /** The first dependent is the right place because the table is transitively closed: were the
      inserted component to depend on a later one, so would that first dependent. */
  lemma InsertKeepsOrdered(list: seq<Component>, lut: Table, bs: Component)
    requires Ordered(list, lut) && Transitive(lut) && NoMutual(lut)
    requires forall c <- list :: c.name != bs.name
    ensures Ordered(Insert(list, lut, bs), lut)
  {
    var i, r := Spot(list, lut, bs.name), Insert(list, lut, bs);
    forall a, b | 0 <= a < b < |r|
      ensures !Depends(lut, r[a].name, r[b].name)
    {
      var a', b' := if a < i then a else a - 1, if b < i then b else b - 1;
      if a == i {
        assert r[a] == bs && r[b] == list[b'];
      } else if b == i {
        assert r[b] == bs && r[a] == list[a'];
      } else {
        assert r[a] == list[a'] && r[b] == list[b'];
      }
    }
  }

  lemma {:induction false} SortedIsOrdered(cs: seq<Component>, lut: Table)
    requires UniqueNames(cs) && Transitive(lut) && NoMutual(lut)
    ensures Ordered(Sorted(cs, lut), lut)
  {
    if cs != [] {
      var front, last := cs[..|cs| - 1], cs[|cs| - 1];
      SortedIsOrdered(front, lut);
      SortedIsPermutation(front, lut);
      forall c | c in Sorted(front, lut)
        ensures c.name != last.name
      {
        assert c in multiset(front);
      }
      InsertKeepsOrdered(Sorted(front, lut), lut, last);
    }
  }

  lemma {:induction false} OrderedIsFixed(cs: seq<Component>, lut: Table)
    requires Ordered(cs, lut)
    ensures Sorted(cs, lut) == cs
  {
    hide Depends, Insert;
    if cs != [] {
      var front, last := cs[..|cs| - 1], cs[|cs| - 1];
      OrderedIsFixed(front, lut);
      assert forall i :: 0 <= i < |front| ==> front[i] == cs[i];
      assert Spot(front, lut, last.name) == |front|;
      InsertAtBack(front, lut, last);
      assert cs == front + [last];
    }
  }

  /** An insertion that ends up at the back was an append. */
  lemma InsertedLast(list: seq<Component>, lut: Table, bs: Component, front: seq<Component>)
    requires Insert(list, lut, bs) == front + [bs] && bs !in list
    ensures list == front && Spot(list, lut, bs.name) == |list|
  {
    var i, r := Spot(list, lut, bs.name), Insert(list, lut, bs);
    assert forall j :: i < j < |r| ==> r[j] == list[j - 1];
    assert r[|front|] == bs;
    assert i == |list|;
    assert r[..|front|] == front && r[..|list|] == list;
  }

  lemma LastIsNew(front: seq<Component>, last: Component, lut: Table)
    requires UniqueNames(front + [last])
    ensures last !in Sorted(front, lut)
  {
    SortedIsPermutation(front, lut);
    var cs := front + [last];
    assert forall i :: 0 <= i < |front| ==> cs[i].name != cs[|front|].name && cs[i] == front[i];
    assert last !in multiset(front);
    assert last in Sorted(front, lut) ==> last in multiset(Sorted(front, lut));
  }

  lemma {:induction false} FixedIsOrdered(cs: seq<Component>, lut: Table)
    requires UniqueNames(cs) && Sorted(cs, lut) == cs
    ensures Ordered(cs, lut)
  {
    hide Depends, Insert;
    if cs != [] {
      var front, last := cs[..|cs| - 1], cs[|cs| - 1];
      assert cs == front + [last];
      LastIsNew(front, last, lut);
      InsertedLast(Sorted(front, lut), lut, last, front);
      hide Sorted;
      FixedIsOrdered(front, lut);
    }
  }

  /** Sorting leaves a list alone exactly when the list is in order already. */
  lemma SortedFixedIff(cs: seq<Component>, lut: Table)
    requires UniqueNames(cs)
    ensures Sorted(cs, lut) == cs <==> Ordered(cs, lut)
  {
    if Ordered(cs, lut) {
      OrderedIsFixed(cs, lut);
    } else if Sorted(cs, lut) == cs {
      FixedIsOrdered(cs, lut);
    }
  }

  // ---------------------------------------------------------------- sortDependencies

  ghost function Owner(cs: seq<Component>, n: string): (c: Component)
    requires n in Names(cs)
    ensures c in cs && c.name == n
  {
    var c :| c in cs && c.name == n; c
  }

  ghost function DirectTable(cs: seq<Component>): Table {
    map n <- Names(cs) :: Direct(Owner(cs, n), Names(cs))
  }

  lemma OwnerIs(cs: seq<Component>, c: Component)
    requires UniqueNames(cs) && c in cs
    ensures Owner(cs, c.name) == c
  {
  }

  lemma DirectTableUnique(cs: seq<Component>, lut: Table)
    requires UniqueNames(cs)
    ensures IsDirectTable(cs, lut) <==> lut == DirectTable(cs)
  {
    forall c | c in cs
      ensures Owner(cs, c.name) == c
    {
      OwnerIs(cs, c);
    }
    if IsDirectTable(cs, lut) {
      assert lut == DirectTable(cs);
    }
  }

  /** One registered component depends on another, directly or through others. */
  ghost predicate DependsOn(cs: seq<Component>, a: string, b: string) {
    Reaches(DirectTable(cs), a, b)
  }

  ghost function ClosureOf(lut: Table): Table {
    map n <- lut :: set d <- lut | Reaches(lut, n, d)
  }

  ghost function Ancestors(cs: seq<Component>): Table {
    ClosureOf(DirectTable(cs))
  }

  lemma NeedsAreScoped(cs: seq<Component>)
    requires NeedsPresent(cs)
    ensures WellScoped(DirectTable(cs))
  {
  }

  lemma ReachesStaysInside(lut: Table, a: string, b: string)
    requires WellScoped(lut) && Reaches(lut, a, b)
    ensures a in lut && b in lut
  {
    var p: seq<string> :| Path(lut, p) && p[0] == a && p[|p| - 1] == b;
    assert p[|p| - 2 + 1] in lut[p[|p| - 2]];
  }

  lemma AncestorIff(cs: seq<Component>, a: string, b: string)
    requires NeedsPresent(cs)
    ensures Depends(Ancestors(cs), a, b) <==> DependsOn(cs, a, b)
    ensures DependsOn(cs, a, b) ==> a in Names(cs) && b in Names(cs)
  {
    NeedsAreScoped(cs);
    if DependsOn(cs, a, b) {
      ReachesStaysInside(DirectTable(cs), a, b);
    }
  }

  lemma AncestorsTransitive(cs: seq<Component>)
    requires NeedsPresent(cs)
    ensures Transitive(Ancestors(cs))
  {
    forall a, b, c | Depends(Ancestors(cs), a, b) && Depends(Ancestors(cs), b, c)
      ensures Depends(Ancestors(cs), a, c)
    {
      ReachesTransitive(DirectTable(cs), a, b, c);
      AncestorIff(cs, a, c);
    }
  }

  lemma ClosureIsAncestors(cs: seq<Component>, lut: Table)
    requires NeedsPresent(cs) && IsClosure(DirectTable(cs), lut)
    ensures lut == Ancestors(cs)
  {
    forall n | n in lut
      ensures lut[n] == Ancestors(cs)[n]
    {
      forall d
        ensures d in lut[n] <==> d in Ancestors(cs)[n]
      {
        AncestorIff(cs, n, d);
      }
    }
  }

  /** The order sortDependencies gives a list. */
  ghost function StartupOrder(cs: seq<Component>): seq<Component> {
    Sorted(cs, Ancestors(cs))
  }

  function KeyOrder(cs: seq<Component>): (keys: seq<string>)
    ensures (set k <- keys) == Names(cs)
  {
    if cs == [] then [] else
    assert Names(cs) == {cs[0].name} + Names(cs[1..]) by { assert cs == [cs[0]] + cs[1..]; }
    [cs[0].name] + KeyOrder(cs[1..])
  }

  method SortDependencies(cs: seq<Component>) returns (ok: bool, sbs: seq<Component>)
    requires UniqueNames(cs)
    ensures ok <==> NeedsPresent(cs)
    ensures ok ==> sbs == StartupOrder(cs)
    ensures !ok ==> sbs == cs
  {
    var direct;
    ok, direct := ExpandDependencies(cs);
    if !ok {
      return false, cs;
    }
    DirectTableUnique(cs, direct);
    NeedsAreScoped(cs);
    var lut := CloseTable(direct, KeyOrder(cs));
    ClosureIsAncestors(cs, lut);
    sbs := SortList(cs, lut);
  }

  ghost predicate SameComponents(cs: seq<Component>, ds: seq<Component>) {
    multiset(cs) == multiset(ds)
  }

  lemma SameNames(cs: seq<Component>, ds: seq<Component>)
    requires SameComponents(cs, ds)
    ensures forall c :: c in cs <==> c in ds
    ensures Names(cs) == Names(ds)
    ensures NeedsPresent(cs) <==> NeedsPresent(ds)
  {
    forall c
      ensures c in cs <==> c in ds
    {
      assert c in multiset(cs) <==> c in multiset(ds);
    }
  }

  lemma SameTable(cs: seq<Component>, ds: seq<Component>)
    requires UniqueNames(cs) && UniqueNames(ds) && SameComponents(cs, ds)
    ensures DirectTable(cs) == DirectTable(ds) && Ancestors(cs) == Ancestors(ds)
  {
    var lut := DirectTable(cs);
    assert IsDirectTable(ds, lut) by {
      SameNames(cs, ds);
      DirectTableUnique(cs, lut);
    }
    DirectTableUnique(ds, lut);
  }

  lemma {:induction false} PermutationKeepsUnique(cs: seq<Component>, ds: seq<Component>)
    requires UniqueNames(cs) && SameComponents(cs, ds)
    ensures UniqueNames(ds)
  {
    forall i, j | 0 <= i < j < |ds| && ds[i].name == ds[j].name
      ensures false
    {
      assert ds[i] in multiset(cs) && ds[j] in multiset(cs);
      assert ds[i] == ds[j];
      assert ds == ds[..i] + [ds[i]] + ds[i + 1..j] + [ds[j]] + ds[j + 1..];
      assert multiset(ds)[ds[i]] >= 2;
      OnceOnly(cs, ds[i]);
    }
  }

  lemma {:induction false} OnceOnly(cs: seq<Component>, c: Component)
    requires UniqueNames(cs)
    ensures multiset(cs)[c] <= 1
  {
    if cs != [] {
      assert cs == [cs[0]] + cs[1..];
      OnceOnly(cs[1..], c);
      if c == cs[0] {
        assert c !in cs[1..];
      }
    }
  }

  // ---------------------------------------------------------------- what the order promises

  /** Two different components depend on each other. */
  ghost predicate Cyclic(cs: seq<Component>) {
    exists a, b :: a != b && DependsOn(cs, a, b) && DependsOn(cs, b, a)
  }

  /** Each component comes after everything else it depends on. */
  ghost predicate RespectsDependencies(list: seq<Component>) {
    forall i, d :: 0 <= i < |list| && DependsOn(list, list[i].name, d) && d != list[i].name ==>
                     exists j :: 0 <= j < i && list[j].name == d
  }

  lemma Position(list: seq<Component>, n: string) returns (i: nat)
    requires n in Names(list)
    ensures i < |list| && list[i].name == n
  {
    var c :| c in list && c.name == n;
    i :| 0 <= i < |list| && list[i] == c;
  }

  lemma DependencyIsEarlier(list: seq<Component>, i: nat, d: string) returns (j: nat)
    requires NeedsPresent(list) && Ordered(list, Ancestors(list))
    requires i < |list| && DependsOn(list, list[i].name, d) && d != list[i].name
    ensures j < i && list[j].name == d
  {
    AncestorIff(list, list[i].name, d);
    j := Position(list, d);
  }

  lemma OrderedRespects(list: seq<Component>)
    requires NeedsPresent(list) && Ordered(list, Ancestors(list))
    ensures RespectsDependencies(list)
  {
    forall i, d | 0 <= i < |list| && DependsOn(list, list[i].name, d) && d != list[i].name
      ensures exists j :: 0 <= j < i && list[j].name == d
    {
      var j := DependencyIsEarlier(list, i, d);
    }
  }

  lemma RespectsOrdered(list: seq<Component>)
    requires UniqueNames(list) && NeedsPresent(list) && RespectsDependencies(list)
    ensures Ordered(list, Ancestors(list))
  {
    forall i, j | 0 <= i < j < |list|
      ensures !Depends(Ancestors(list), list[i].name, list[j].name)
    {
      AncestorIff(list, list[i].name, list[j].name);
      assert list[i].name != list[j].name;
    }
  }

  lemma CyclicIff(cs: seq<Component>)
    requires NeedsPresent(cs)
    ensures Cyclic(cs) <==> !NoMutual(Ancestors(cs))
  {
    forall a, b
      ensures Depends(Ancestors(cs), a, b) <==> DependsOn(cs, a, b)
    {
      AncestorIff(cs, a, b);
    }
  }

  /** A list with a cycle cannot be put in order, whatever the order. */
  lemma CyclicHasNoOrder(list: seq<Component>)
    requires UniqueNames(list) && NeedsPresent(list) && Cyclic(list)
    ensures !Ordered(list, Ancestors(list))
  {
    var a, b :| a != b && DependsOn(list, a, b) && DependsOn(list, b, a);
    AncestorIff(list, a, b);
    AncestorIff(list, b, a);
    var i := Position(list, a);
    var j := Position(list, b);
  }

  /** sortDependencies permutes the list, and puts it in an order that respects every direct and
      transitive dependency exactly when there is no cycle. */
  lemma StartupOrderRespectsIff(cs: seq<Component>)
    requires UniqueNames(cs) && NeedsPresent(cs)
    ensures SameComponents(cs, StartupOrder(cs)) && UniqueNames(StartupOrder(cs)) && NeedsPresent(StartupOrder(cs))
    ensures Ancestors(StartupOrder(cs)) == Ancestors(cs)
    ensures RespectsDependencies(StartupOrder(cs)) <==> !Cyclic(cs)
  {
    var r := StartupOrder(cs);
    SortedIsPermutation(cs, Ancestors(cs));
    PermutationKeepsUnique(cs, r);
    SameNames(cs, r);
    SameTable(cs, r);
    CyclicIff(cs);
    CyclicIff(r);
    if !Cyclic(cs) {
      AncestorsTransitive(cs);
      SortedIsOrdered(cs, Ancestors(cs));
      OrderedRespects(r);
    } else if RespectsDependencies(r) {
      RespectsOrdered(r);
      CyclicHasNoOrder(r);
    }
  }

  lemma DirectlyDepends(cs: seq<Component>, c: Component, p: string)
    requires UniqueNames(cs) && c in cs && p in Names(cs) && (p in c.needs || p in c.wants)
    ensures DependsOn(cs, c.name, p)
  {
    OwnerIs(cs, c);
    ReachesDirect(DirectTable(cs), c.name, p);
  }

  /** In the startup order of a list without cycles, what a component requires, and whatever optional
      component is there, comes before it. */
  lemma DependenciesComeFirst(cs: seq<Component>, c: Component, p: string) returns (j: nat, i: nat)
    requires UniqueNames(cs) && NeedsPresent(cs) && !Cyclic(cs)
    requires c in cs && p in Names(cs) && p != c.name && (p in c.needs || p in c.wants)
    ensures j < i < |StartupOrder(cs)| && StartupOrder(cs)[j].name == p && StartupOrder(cs)[i] == c
  {
    hide StartupOrder, Cyclic, Ancestors;
    var order := StartupOrder(cs);
    StartupOrderRespectsIff(cs);
    SameNames(cs, order);
    DirectlyDepends(order, c, p);
    assert c in order;
    i :| 0 <= i < |order| && order[i] == c;
    j :| 0 <= j < i && order[j].name == p;
  }

  /** An optional component that is not there does not matter. */
  lemma MissingWantIgnored(cs: seq<Component>, a: string, p: string)
    requires UniqueNames(cs) && NeedsPresent(cs) && p !in Names(cs)
    ensures !DependsOn(cs, a, p)
  {
    AncestorIff(cs, a, p);
  }

  /** Sorting the sorted list again changes nothing exactly when there is no cycle. */
  lemma StartupOrderStableIff(cs: seq<Component>)
    requires UniqueNames(cs) && NeedsPresent(cs)
    ensures StartupOrder(StartupOrder(cs)) == StartupOrder(cs) <==> !Cyclic(cs)
  {
    var r := StartupOrder(cs);
    StartupOrderRespectsIff(cs);
    if RespectsDependencies(r) {
      RespectsOrdered(r);
    } else if Ordered(r, Ancestors(r)) {
      OrderedRespects(r);
    }
    SortedFixedIff(r, Ancestors(r));
  }

  /** With direct dependencies only, the insertion gets the order wrong: when c needs b and b needs
      a, it can put b in front of a. */
  lemma DirectTableIsNotEnough(a: Component, b: Component, c: Component, lut: Table)
    requires a.name != b.name && b.name != c.name && a.name != c.name
    requires lut == map[a.name := {}, b.name := {a.name}, c.name := {b.name}]
    ensures Sorted([c] + [a] + [b], lut) == [b] + ([c] + [a]) && Depends(lut, b.name, a.name)
  {
    SortedSnoc([], c, lut);
    InsertAtBack([], lut, c);
    assert [] + [c] == [c];
    SortedSnoc([c], a, lut);
    InsertAtBack([c], lut, a);
    SortedSnoc([c] + [a], b, lut);
    InsertAtFront([c] + [a], lut, b);
  }

  /** Two components that need each other swap places each time the list is sorted. */
  lemma CycleFlips(a: Component, b: Component)
    requires a.name != b.name && a.needs == [b.name] && b.needs == [a.name]
    ensures StartupOrder([a, b]) == [b, a]
  {
    var cs := [a, b];
    var lut := DirectTable(cs);
    assert Names(cs) == {a.name, b.name};
    assert b.name in lut[a.name] by { DirectTableUnique(cs, lut); }
    ReachesDirect(lut, a.name, b.name);
    assert Depends(Ancestors(cs), a.name, b.name);
    SortedSnoc([], a, Ancestors(cs));
    InsertAtBack([], Ancestors(cs), a);
    assert [] + [a] == [a] && [a] + [b] == cs;
    SortedSnoc([a], b, Ancestors(cs));
    InsertAtFront([a], Ancestors(cs), b);
  }
}
