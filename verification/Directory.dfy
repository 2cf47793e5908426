/**
 The members of a directory: nodes under distinct names, joined by name or under a generated one, and
 leaving by name or by node.
 */
module Directory {
  import opened Common
  import opened Strings

  type Node = U64

  datatype Member = Member(name: string, node: Node)

  ghost predicate DistinctNames(ms: seq<Member>) {
    forall i, j :: 0 <= i < j < |ms| ==> ms[i].name != ms[j].name
  }

  function MemberNames(ms: seq<Member>): set<string> {
    set m <- ms :: m.name
  }

  // ---------------------------------------------------------------- generated names

  function Guess(i: nat): string {
    "ag" + HexString(i)
  }

  lemma GuessInjective(i: nat, j: nat)
    requires Guess(i) == Guess(j)
    ensures i == j
  {
    hide HexString;
    assert Guess(i)[2..] == HexString(i) && Guess(j)[2..] == HexString(j);
    HexInjective(i, j);
  }

  lemma GuessExample()
    ensures Guess(26) == "ag1a"
  {
    assert HexString(26) == HexString(1) + [HexDigit(10)];
    assert HexString(1) == "1";
  }

  /** The members' names that are guesses from i on: what the search can still run into. */
  ghost function Ahead(ms: seq<Member>, i: nat): set<string> {
    set n <- MemberNames(ms) | exists j: nat :: j >= i && n == Guess(j)
  }

  lemma AheadShrinks(ms: seq<Member>, i: nat)
    ensures Guess(i) in MemberNames(ms) ==> Ahead(ms, i) == Ahead(ms, i + 1) + {Guess(i)}
    ensures Guess(i) !in Ahead(ms, i + 1)
  {
    hide Guess;
    forall n | n in Ahead(ms, i) && n != Guess(i)
      ensures n in Ahead(ms, i + 1)
    {
      var j: nat :| j >= i && n == Guess(j);
      assert j >= i + 1;
    }
    if Guess(i) in Ahead(ms, i + 1) {
      var j: nat :| j >= i + 1 && Guess(i) == Guess(j);
      GuessInjective(i, j);
    }
  }

  lemma {:induction false} NamesBound(ms: seq<Member>)
    ensures |MemberNames(ms)| <= |ms|
  {
    if ms != [] {
      var front := ms[..|ms| - 1];
      NamesBound(front);
      assert ms == front + [ms[|ms| - 1]];
      assert MemberNames(ms) == MemberNames(front) + {ms[|ms| - 1].name};
    }
  }

  lemma AheadBound(ms: seq<Member>, i: nat)
    ensures |Ahead(ms, i)| <= |ms|
  {
    NamesBound(ms);
    assert MemberNames(ms) == Ahead(ms, i) + (MemberNames(ms) - Ahead(ms, i));
  }

  method NameTaken(ms: seq<Member>, name: string) returns (taken: bool)
    ensures taken <==> name in MemberNames(ms)
  {
    for j := 0 to |ms|
      invariant forall k :: 0 <= k < j ==> ms[k].name != name
    {
      if ms[j].name == name {
        assert ms[j] in ms;
        return true;
      }
    }
    return false;
  }

  /** The search for a free name starts at the number of members and stops after at most one guess
      more than there are members. */
  method GenerateName(ms: seq<Member>) returns (name: string, ghost k: nat)
    ensures name !in MemberNames(ms) && name != ""
    ensures |ms| <= k <= 2 * |ms| && name == Guess(k)
    ensures forall j :: |ms| <= j < k ==> Guess(j) in MemberNames(ms)
  {
    hide Guess;
    var i := |ms|;
    k := i;
    name := Guess(i);
    AheadBound(ms, i);
    var bad := NameTaken(ms, name);
    while bad
      invariant |ms| <= k == i && name == Guess(k) && (bad <==> name in MemberNames(ms))
      invariant forall j :: |ms| <= j < k ==> Guess(j) in MemberNames(ms)
      invariant k - |ms| + |Ahead(ms, k)| <= |ms|
      decreases |Ahead(ms, k)|
    {
      AheadShrinks(ms, k);
      i := i + 1;
      k := i;
      name := Guess(i);
      bad := NameTaken(ms, name);
    }
    GuessNotEmpty(k);
  }

  lemma GuessNotEmpty(k: nat)
    ensures Guess(k) != ""
  {
  }

  // ---------------------------------------------------------------- leaving

  /** The first member with a property, or the end. */
  function First(ms: seq<Member>, hit: Member -> bool): (i: nat)
    ensures i <= |ms| && (i < |ms| ==> hit(ms[i]))
    ensures forall k :: 0 <= k < i ==> !hit(ms[k])
  {
    if ms == [] || hit(ms[0]) then 0 else 1 + First(ms[1..], hit)
  }

  function FirstNamed(ms: seq<Member>, name: string): nat {
    First(ms, (m: Member) => m.name == name)
  }

  function FirstAt(ms: seq<Member>, node: Node): nat {
    First(ms, (m: Member) => m.node == node)
  }

  function Without(ms: seq<Member>, i: nat): seq<Member>
    requires i <= |ms|
  {
    if i == |ms| then ms else ms[..i] + ms[i + 1..]
  }

  function LeftByName(ms: seq<Member>, name: string): seq<Member> {
    if name == "" then ms else Without(ms, FirstNamed(ms, name))
  }

  function LeftByNode(ms: seq<Member>, node: Node): seq<Member> {
    if node == 0 then ms else Without(ms, FirstAt(ms, node))
  }

  predicate LeavesByName(ms: seq<Member>, name: string) {
    name != "" && FirstNamed(ms, name) < |ms|
  }

  /** Leave for a URL: by name first, and by node only if no member has that name. */
  function Left(ms: seq<Member>, name: string, node: Node): seq<Member> {
    if LeavesByName(ms, name) then LeftByName(ms, name) else LeftByNode(ms, node)
  }

  /** Member i is the first with this name, or at this node. */
  ghost predicate IsFirstNamed(ms: seq<Member>, name: string, i: nat) {
    i < |ms| && ms[i].name == name && forall k :: 0 <= k < i ==> ms[k].name != name
  }

  ghost predicate IsFirstAt(ms: seq<Member>, node: Node, i: nat) {
    i < |ms| && ms[i].node == node && forall k :: 0 <= k < i ==> ms[k].node != node
  }

  lemma FirstIs(ms: seq<Member>, hit: Member -> bool, i: nat)
    requires i <= |ms| && (i < |ms| ==> hit(ms[i])) && forall k :: 0 <= k < i ==> !hit(ms[k])
    ensures First(ms, hit) == i
  {
    hide First;
  }

  lemma AnyIff(ms: seq<Member>, hit: Member -> bool)
    ensures First(ms, hit) < |ms| <==> exists m <- ms :: hit(m)
  {
    hide First;
    if First(ms, hit) < |ms| {
      assert ms[First(ms, hit)] in ms;
    } else {
      assert forall m <- ms :: !hit(m);
    }
  }

  /** Leaving by name removes the first member of the name, and nothing if there is none or the name is
      empty. */
  lemma LeftByNameIs(ms: seq<Member>, name: string, i: nat)
    ensures name != "" && IsFirstNamed(ms, name, i) ==> LeftByName(ms, name) == ms[..i] + ms[i + 1..]
    ensures name == "" || (forall m <- ms :: m.name != name) ==> LeftByName(ms, name) == ms
    ensures LeavesByName(ms, name) <==> name != "" && exists m <- ms :: m.name == name
  {
    hide First;
    AnyIff(ms, (m: Member) => m.name == name);
    if IsFirstNamed(ms, name, i) {
      FirstIs(ms, (m: Member) => m.name == name, i);
    }
  }

  /** Leaving by node removes the first member at the node, and nothing if there is none or the node is
      unspecified. */
  lemma LeftByNodeIs(ms: seq<Member>, node: Node, i: nat)
    ensures node != 0 && IsFirstAt(ms, node, i) ==> LeftByNode(ms, node) == ms[..i] + ms[i + 1..]
    ensures node == 0 || (forall m <- ms :: m.node != node) ==> LeftByNode(ms, node) == ms
    ensures FirstAt(ms, node) < |ms| <==> exists m <- ms :: m.node == node
  {
    hide First;
    AnyIff(ms, (m: Member) => m.node == node);
    if IsFirstAt(ms, node, i) {
      FirstIs(ms, (m: Member) => m.node == node, i);
    }
  }

  /** Leaving by URL: the name decides if a member has it, and the node otherwise. */
  lemma LeftIs(ms: seq<Member>, name: string, node: Node, i: nat)
    ensures name != "" && IsFirstNamed(ms, name, i) ==> Left(ms, name, node) == ms[..i] + ms[i + 1..]
    ensures (name == "" || forall m <- ms :: m.name != name) && node != 0 && IsFirstAt(ms, node, i) ==>
              Left(ms, name, node) == ms[..i] + ms[i + 1..]
    ensures (name == "" || forall m <- ms :: m.name != name) && (node == 0 || forall m <- ms :: m.node != node) ==>
              Left(ms, name, node) == ms
  {
    hide LeftByName, LeftByNode, LeavesByName;
    LeftByNameIs(ms, name, i);
    LeftByNodeIs(ms, node, i);
    assert i < |ms| ==> ms[i] in ms;
  }

  lemma WithoutKeepsDistinct(ms: seq<Member>, i: nat)
    requires DistinctNames(ms) && i <= |ms|
    ensures DistinctNames(Without(ms, i))
  {
  }

  // ---------------------------------------------------------------- the object

  /** One more member at the end, under the given name or a generated one that nobody has. */
  ghost predicate Joined(before: seq<Member>, node: Node, name: string, n: string, after: seq<Member>) {
    && after == before + [Member(n, node)]
    && n != "" && n !in MemberNames(before)
    && (if name == "" then exists k :: |before| <= k <= 2 * |before| && n == Guess(k) else n == name)
  }

  datatype Op = Join(node: Node, name: string) | LeaveByName(name: string) | LeaveByNode(node: Node)
              | Leave(name: string, node: Node)

  predicate Joins(ms: seq<Member>, name: string) {
    name == "" || name !in MemberNames(ms)
  }

  ghost predicate Step(ms: seq<Member>, op: Op, ms': seq<Member>) {
    match op
    case Join(node, name) =>
      if Joins(ms, name) then exists n: string :: Joined(ms, node, name, n, ms') else ms' == ms
    case LeaveByName(name) => ms' == LeftByName(ms, name)
    case LeaveByNode(node) => ms' == LeftByNode(ms, node)
    case Leave(name, node) => ms' == Left(ms, name, node)
  }

  ghost predicate Run(ms: seq<Member>, ops: seq<Op>, ms': seq<Member>)
    decreases |ops|
  {
    if ops == [] then ms' == ms
    else exists mid: seq<Member> :: Step(ms, ops[0], mid) && Run(mid, ops[1..], ms')
  }

  lemma StepKeepsDistinct(ms: seq<Member>, op: Op, ms': seq<Member>)
    requires DistinctNames(ms) && Step(ms, op, ms')
    ensures DistinctNames(ms')
  {
    match op
    case Join(node, name) =>
      if Joins(ms, name) {
        var n :| Joined(ms, node, name, n, ms');
        assert forall i :: 0 <= i < |ms| ==> ms[i] in ms;
      }
    case LeaveByName(name) => WithoutKeepsDistinct(ms, FirstNamed(ms, name));
    case LeaveByNode(node) => WithoutKeepsDistinct(ms, FirstAt(ms, node));
    case Leave(name, node) =>
      WithoutKeepsDistinct(ms, FirstNamed(ms, name));
      WithoutKeepsDistinct(ms, FirstAt(ms, node));
  }

  /** However members join and leave, no two of them ever have the same name. */
  lemma {:induction false} RunKeepsDistinct(ms: seq<Member>, ops: seq<Op>, ms': seq<Member>)
    requires DistinctNames(ms) && Run(ms, ops, ms')
    ensures DistinctNames(ms')
    decreases |ops|
  {
    hide Step;
    if ops != [] {
      var mid :| Step(ms, ops[0], mid) && Run(mid, ops[1..], ms');
      StepKeepsDistinct(ms, ops[0], mid);
      RunKeepsDistinct(mid, ops[1..], ms');
    }
  }

  /** Leaving by name undoes joining, given or generated name alike. */
  lemma LeaveUndoesJoin(ms: seq<Member>, node: Node, name: string, n: string, ms': seq<Member>)
    requires Joined(ms, node, name, n, ms')
    ensures LeavesByName(ms', n) && LeftByName(ms', n) == ms
  {
    assert forall i :: 0 <= i < |ms| ==> ms[i] in ms && ms'[i] == ms[i];
    assert ms'[|ms|].name == n;
    assert FirstNamed(ms', n) == |ms|;
    assert Without(ms', |ms|) == ms;
  }

  class DirectoryInfo {
    var members: seq<Member>

    constructor (ms: seq<Member>)
      ensures members == ms
    {
      members := ms;
    }

    method Join(node: Node, name: string) returns (joined: bool)
      modifies this
      ensures Step(old(members), Op.Join(node, name), members)
      ensures joined <==> Joins(old(members), name)
    {
      var newName := name;
      if name != "" {
        var taken := NameTaken(members, name);
        if taken {
          return false;
        }
      } else {
        ghost var k;
        newName, k := GenerateName(members);
      }
      members := members + [Member(newName, node)];
      assert Joined(old(members), node, name, newName, members);
      return true;
    }

    method LeaveByName(name: string) returns (found: bool)
      modifies this
      ensures Step(old(members), Op.LeaveByName(name), members)
      ensures found <==> name != "" && exists m <- old(members) :: m.name == name
    {
      LeftByNameIs(members, name, 0);
      if name == "" {
        return false;
      }
      for i := 0 to |members|
        invariant members == old(members) && i <= FirstNamed(members, name)
      {
        if members[i].name == name {
          members := members[..i] + members[i + 1..];
          return true;
        }
      }
      return false;
    }

    method LeaveByNode(node: Node) returns (found: bool)
      modifies this
      ensures Step(old(members), Op.LeaveByNode(node), members)
      ensures found <==> node != 0 && exists m <- old(members) :: m.node == node
    {
      LeftByNodeIs(members, node, 0);
      if node == 0 {
        return false;
      }
      for i := 0 to |members|
        invariant members == old(members) && i <= FirstAt(members, node)
      {
        if members[i].node == node {
          members := members[..i] + members[i + 1..];
          return true;
        }
      }
      return false;
    }

    method Leave(name: string, node: Node) returns (found: bool)
      modifies this
      ensures Step(old(members), Op.Leave(name, node), members)
      ensures found <==> (name != "" && exists m <- old(members) :: m.name == name) ||
                         (node != 0 && exists m <- old(members) :: m.node == node)
    {
      LeftByNameIs(members, name, 0);
      LeftByNodeIs(members, node, 0);
      found := LeaveByName(name);
      if !found {
        found := LeaveByNode(node);
      }
    }
  }
}
