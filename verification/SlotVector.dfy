/**
 The slot vector of NNTI: objects are added at the lowest available index, which is remembered, and
 the vector grows by half when it is full.
 */
module SlotVector {

  datatype Slot<T> = Vacant | Used(value: T)

  datatype Vec<T> = Vec(slots: seq<Slot<T>>, lowest: nat)

  // ---------------------------------------------------------------- the operations

  /** The first vacant slot from i on, or the end. */
  function NextVacant<T>(slots: seq<Slot<T>>, i: nat): (j: nat)
    requires i <= |slots|
    ensures i <= j <= |slots|
    ensures j < |slots| ==> slots[j].Vacant?
    ensures forall k :: i <= k < j ==> slots[k].Used?
    decreases |slots| - i
  {
    if i == |slots| || slots[i].Vacant? then i else NextVacant(slots, i + 1)
  }

  /** Half as much again, up to the largest size the vector supports. */
  function Grown(n: nat, maxSize: nat): (r: nat)
    requires n <= maxSize
    ensures n <= r <= maxSize
    ensures r < maxSize ==> 2 * r <= 3 * n < 2 * r + 2
    ensures 3 * n >= 2 * maxSize ==> r == maxSize
  {
    if 3 * n < 2 * maxSize then n + n / 2 else maxSize
  }

  function Vacancies<T>(n: nat): (s: seq<Slot<T>>)
    ensures |s| == n && forall i :: 0 <= i < n ==> s[i] == Vacant
  {
    seq(n, i => Vacant)
  }

  function Fresh<T>(n: nat): Vec<T> {
    Vec(Vacancies(n), 0)
  }

  predicate Full<T>(v: Vec<T>)
    requires v.lowest < |v.slots|
  {
    NextVacant(v.slots, v.lowest + 1) == |v.slots|
  }

  function Added<T>(v: Vec<T>, t: T, maxSize: nat): Vec<T>
    requires v.lowest < |v.slots| <= maxSize
  {
    var slots := v.slots[v.lowest := Used(t)];
    if Full(v) then
      Vec(slots + Vacancies(Grown(|slots|, maxSize) - |slots|), |slots| + 1)
    else Vec(slots, NextVacant(v.slots, v.lowest + 1))
  }

  function Removed<T>(v: Vec<T>, i: nat): Vec<T>
    requires i < |v.slots|
  {
    Vec(v.slots[i := Vacant], if i < v.lowest then i else v.lowest)
  }

  // ---------------------------------------------------------------- what it stands for

  /** The entries as a partial map from index to object. */
  function Entries<T>(v: Vec<T>): map<nat, T> {
    map i: nat | i < |v.slots| && v.slots[i].Used? :: v.slots[i].value
  }

  /** The next add has a vacant slot to go to. */
  predicate Ready<T>(v: Vec<T>) {
    v.lowest < |v.slots| && v.slots[v.lowest].Vacant?
  }

  /** Adding uses an index that no entry has, and keeps every entry, growth included. */
  lemma AddIsInsert<T>(v: Vec<T>, t: T, maxSize: nat)
    requires Ready(v) && |v.slots| <= maxSize
    ensures v.lowest !in Entries(v)
    ensures Entries(Added(v, t, maxSize)) == Entries(v)[v.lowest := t]
  {
    var w := Added(v, t, maxSize);
    assert forall i :: 0 <= i < |v.slots| && i != v.lowest ==> w.slots[i] == v.slots[i];
    assert forall i :: |v.slots| <= i < |w.slots| ==> w.slots[i] == Vacant;
  }

  lemma RemoveIsDelete<T>(v: Vec<T>, i: nat)
    requires i < |v.slots|
    ensures Entries(Removed(v, i)) == Entries(v) - {i}
    ensures Ready(v) ==> Ready(Removed(v, i))
  {
  }

  /** What an add needs to leave the vector ready: a vacant slot further up, or growth by at least
      two slots, because the first new one is skipped. */
  predicate HasNext<T>(v: Vec<T>, maxSize: nat)
    requires v.lowest < |v.slots| <= maxSize
  {
    !Full(v) || Grown(|v.slots|, maxSize) >= |v.slots| + 2
  }

  lemma AddReadyIff<T>(v: Vec<T>, t: T, maxSize: nat)
    requires Ready(v) && |v.slots| <= maxSize
    ensures Ready(Added(v, t, maxSize)) <==> HasNext(v, maxSize)
  {
  }

  // ---------------------------------------------------------------- vacant slots left behind

  /** The number of vacant slots in front of the remembered index. */
  function Holes<T>(slots: seq<Slot<T>>, n: nat): nat
    requires n <= |slots|
  {
    if n == 0 then 0 else Holes(slots, n - 1) + if slots[n - 1].Vacant? then 1 else 0
  }

  lemma {:induction false} HolesSame<T>(a: seq<Slot<T>>, b: seq<Slot<T>>, n: nat)
    requires n <= |a| && n <= |b| && forall i :: 0 <= i < n ==> a[i].Vacant? == b[i].Vacant?
    ensures Holes(a, n) == Holes(b, n)
  {
    if n > 0 {
      HolesSame(a, b, n - 1);
    }
  }

  lemma {:induction false} HolesOverUsed<T>(a: seq<Slot<T>>, m: nat, n: nat)
    requires m <= n <= |a| && forall i :: m <= i < n ==> a[i].Used?
    ensures Holes(a, n) == Holes(a, m)
  {
    if m < n {
      HolesOverUsed(a, m, n - 1);
    }
  }

  lemma {:induction false} HolesMonotone<T>(a: seq<Slot<T>>, m: nat, n: nat)
    requires m <= n <= |a|
    ensures Holes(a, m) <= Holes(a, n)
  {
    if m < n {
      HolesMonotone(a, m, n - 1);
    }
  }

  /** An add leaves no vacant slot behind, except the one that growth skips. */
  lemma AddHoles<T>(v: Vec<T>, t: T, maxSize: nat)
    requires Ready(v) && |v.slots| <= maxSize && HasNext(v, maxSize)
    ensures var w := Added(v, t, maxSize);
            w.lowest <= |w.slots| &&
            Holes(w.slots, w.lowest) == Holes(v.slots, v.lowest) + if Full(v) then 1 else 0
  {
    var w := Added(v, t, maxSize);
    var n := NextVacant(v.slots, v.lowest + 1);
    HolesSame(v.slots, w.slots, v.lowest);
    assert forall i :: v.lowest <= i < n ==> w.slots[i].Used?;
    HolesOverUsed(w.slots, v.lowest, n);
  }

  lemma RemoveHoles<T>(v: Vec<T>, i: nat)
    requires Ready(v) && i < |v.slots|
    ensures var w := Removed(v, i); w.lowest <= |w.slots| && Holes(w.slots, w.lowest) <= Holes(v.slots, v.lowest)
  {
    var w := Removed(v, i);
    HolesSame(v.slots, w.slots, w.lowest);
    HolesMonotone(v.slots, w.lowest, v.lowest);
  }

  // ---------------------------------------------------------------- runs

  datatype Op<T> = Add(t: T) | Remove(index: nat)

  function Apply<T>(v: Vec<T>, op: Op<T>, maxSize: nat): Vec<T>
    requires v.lowest < |v.slots| <= maxSize && (op.Remove? ==> op.index < |v.slots|)
  {
    match op
    case Add(t) => Added(v, t, maxSize)
    case Remove(i) => Removed(v, i)
  }

  /** An index passed to remove is in range, and an add leaves a slot for the next one. */
  predicate Allowed<T>(v: Vec<T>, op: Op<T>, maxSize: nat)
    requires v.lowest < |v.slots| <= maxSize
  {
    match op
    case Add(_) => HasNext(v, maxSize)
    case Remove(i) => i < |v.slots|
  }

  /** The run leads from v to w, with this many growths and this effect on the entries. */
  ghost predicate Run<T>(v: Vec<T>, ops: seq<Op<T>>, w: Vec<T>, growths: nat, maxSize: nat)
    decreases |ops|
  {
    if ops == [] then w == v && growths == 0
    else
      && v.lowest < |v.slots| <= maxSize && Allowed(v, ops[0], maxSize)
      && var grew := if ops[0].Add? && Full(v) then 1 else 0;
         growths >= grew && Run(Apply(v, ops[0], maxSize), ops[1..], w, growths - grew, maxSize)
  }

  ghost function RunEntries<T>(v: Vec<T>, ops: seq<Op<T>>, m: map<nat, T>, maxSize: nat): map<nat, T>
    decreases |ops|
  {
    if ops == [] || !(v.lowest < |v.slots| <= maxSize && Allowed(v, ops[0], maxSize)) then m
    else RunEntries(Apply(v, ops[0], maxSize), ops[1..],
                    match ops[0] case Add(t) => m[v.lowest := t] case Remove(i) => m - {i}, maxSize)
  }

  /** Every run of allowed operations from a ready vector stays ready, behaves as a partial map, and
      leaves at most one vacant slot behind per growth.  Sizes never shrink. */
  lemma {:induction false} EveryRun<T>(v: Vec<T>, ops: seq<Op<T>>, w: Vec<T>, growths: nat, maxSize: nat)
    requires Ready(v) && Run(v, ops, w, growths, maxSize)
    ensures Ready(w) && |w.slots| >= |v.slots|
    ensures Entries(w) == RunEntries(v, ops, Entries(v), maxSize)
    ensures Holes(w.slots, w.lowest) <= Holes(v.slots, v.lowest) + growths
    decreases |ops|
  {
    hide NextVacant, Entries, Holes, Added, Removed;
    if ops != [] {
      var v1 := Apply(v, ops[0], maxSize);
      match ops[0] {
        case Add(t) => AddStep(v, t, maxSize);
        case Remove(i) =>
          RemoveIsDelete(v, i);
          RemoveHoles(v, i);
          SizesKept(v, i);
      }
      EveryRun(v1, ops[1..], w, growths - (if ops[0].Add? && Full(v) then 1 else 0), maxSize);
    }
  }

  lemma AddStep<T>(v: Vec<T>, t: T, maxSize: nat)
    requires Ready(v) && |v.slots| <= maxSize && HasNext(v, maxSize)
    ensures var w := Added(v, t, maxSize);
            && Ready(w) && |w.slots| >= |v.slots| && Entries(w) == Entries(v)[v.lowest := t]
            && Holes(w.slots, w.lowest) == Holes(v.slots, v.lowest) + if Full(v) then 1 else 0
  {
    hide NextVacant, Entries, Holes;
    AddReadyIff(v, t, maxSize);
    AddIsInsert(v, t, maxSize);
    AddHoles(v, t, maxSize);
  }

  lemma SizesKept<T>(v: Vec<T>, i: nat)
    requires i < |v.slots|
    ensures |Removed(v, i).slots| == |v.slots|
  {
  }

  /** From four slots on, only a vector that is full within one slot of its limit has no next slot. */
  lemma FourSlotsSuffice<T>(v: Vec<T>, maxSize: nat)
    requires v.lowest < |v.slots| <= maxSize && |v.slots| >= 4
    ensures HasNext(v, maxSize) <==> !Full(v) || |v.slots| + 2 <= maxSize
  {
  }

  /** Indices passed to remove are in range, and the vector stays two slots below its limit. */
  ghost predicate Fits<T>(v: Vec<T>, ops: seq<Op<T>>, maxSize: nat)
    decreases |ops|
  {
    ops != [] && v.lowest < |v.slots| ==>
      && |v.slots| + 2 <= maxSize && (ops[0].Remove? ==> ops[0].index < |v.slots|)
      && Fits(Apply(v, ops[0], maxSize), ops[1..], maxSize)
  }

  lemma {:induction false} FittingRun<T>(v: Vec<T>, ops: seq<Op<T>>, maxSize: nat)
    returns (w: Vec<T>, growths: nat)
    requires Ready(v) && |v.slots| >= 4 && Fits(v, ops, maxSize)
    ensures Run(v, ops, w, growths, maxSize)
    decreases |ops|
  {
    hide NextVacant, Entries, Holes, Added, Removed;
    if ops == [] {
      w, growths := v, 0;
    } else {
      var grew := if ops[0].Add? && Full(v) then 1 else 0;
      FourSlotsSuffice(v, maxSize);
      match ops[0] {
        case Add(t) => AddStep(v, t, maxSize);
        case Remove(i) =>
          RemoveIsDelete(v, i);
          SizesKept(v, i);
      }
      w, growths := FittingRun(Apply(v, ops[0], maxSize), ops[1..], maxSize);
      growths := growths + grew;
    }
  }

  /** From a new vector of four or more slots, every run that stays two slots below the limit is a run
      of a partial map: each add finds a slot, and at most one slot is stranded per growth. */
  lemma EveryFittingRun<T>(n: nat, ops: seq<Op<T>>, maxSize: nat) returns (w: Vec<T>, growths: nat)
    requires n >= 4 && Fits(Fresh<T>(n), ops, maxSize)
    ensures Run(Fresh(n), ops, w, growths, maxSize) && Ready(w)
    ensures Entries(w) == RunEntries(Fresh(n), ops, map[], maxSize)
    ensures Holes(w.slots, w.lowest) <= growths
  {
    hide Run, RunEntries, Fits;
    var v := Fresh<T>(n);
    w, growths := FittingRun(v, ops, maxSize);
    EveryRun(v, ops, w, growths, maxSize);
    assert Entries(v) == map[];
  }

  /** The initial size must be at least four: with fewer slots, filling them leaves the remembered
      index outside the vector. */
  lemma SmallVectorBreaks(maxSize: nat)
    requires maxSize >= 6
    ensures !Ready(Fresh<int>(0))
    ensures !Ready(Added(Fresh(1), 7, maxSize))
    ensures var v := Added(Fresh(2), 7, maxSize); Ready(v) && |v.slots| <= maxSize && !Ready(Added(v, 7, maxSize))
    ensures var v := Added(Fresh(3), 7, maxSize);
            Ready(v) && |v.slots| <= maxSize &&
            var w := Added(v, 7, maxSize); Ready(w) && |w.slots| <= maxSize && !Ready(Added(w, 7, maxSize))
  {
    var v := Added(Fresh(3), 7, maxSize);
    assert NextVacant(Fresh<int>(3).slots, 1) == 1;
    assert NextVacant(v.slots, 2) == 2;
  }

  // ---------------------------------------------------------------- the object

  class NntiVector<T> {
    var slots: seq<Slot<T>>
    var lowestAvail: nat
    const maxSize: nat

    ghost function Model(): Vec<T>
      reads this
    {
      Vec(slots, lowestAvail)
    }

    constructor (initialSize: nat, maxSize: nat)
      ensures Model() == Fresh(initialSize) && this.maxSize == maxSize
    {
      slots := Vacancies(initialSize);
      lowestAvail := 0;
      this.maxSize := maxSize;
    }

    /** A full vector of the largest size aborts the program. */
    method Add(t: T) returns (index: nat, aborts: bool)
      requires lowestAvail < |slots| <= maxSize
      modifies this
      ensures index == old(lowestAvail)
      ensures aborts <==> |old(slots)| == maxSize && Full(old(Model()))
      ensures !aborts ==> Model() == Added(old(Model()), t, maxSize)
    {
      aborts := false;
      slots := slots[lowestAvail := Used(t)];
      index := lowestAvail;
      var i := lowestAvail + 1;
      while i < |slots|
        invariant lowestAvail + 1 <= i <= |slots| && lowestAvail == index == old(lowestAvail)
        invariant slots == old(slots)[index := Used(t)]
        invariant i <= NextVacant(old(slots), index + 1)
      {
        if slots[i].Vacant? {
          lowestAvail := i;
          break;
        }
        i := i + 1;
      }
      if lowestAvail == index {
        var oldSize := |slots|;
        if oldSize == maxSize {
          aborts := true;
          return;
        }
        if 3 * oldSize < 2 * maxSize {
          slots := slots + Vacancies(oldSize / 2);
        } else {
          slots := slots + Vacancies(maxSize - oldSize);
        }
        lowestAvail := oldSize + 1;
      }
    }

    method Remove(index: nat) returns (t: Slot<T>)
      requires index < |slots|
      modifies this
      ensures t == old(slots)[index]
      ensures Model() == Removed(old(Model()), index)
    {
      t := slots[index];
      slots := slots[index := Vacant];
      if index < lowestAvail {
        lowestAvail := index;
      }
    }
  }
}
