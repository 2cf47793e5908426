/**
 How the nodes of a resource reach its directory entry. At startup each configured resource URL gets
 its list of nodes appended as options (num, ag0, ag1, ...); the text is parsed as a URL again, and a
 DirectoryInfo reads the members from the options and strips them off.
 */
module Announcements {
  import opened Common
  import opened Strings
  import opened UrlOptions
  import opened ResourceUrl
  import opened Directory

  // ---------------------------------------------------------------- numbers

  predicate IsSpace(c: char) {
    c == ' ' || '\t' <= c <= '\r'
  }

  /** The C library's atoll. */
  function Atoll(s: string): int {
    if s == "" then 0
    else if IsSpace(s[0]) then Atoll(s[1..])
    else if s[0] == '-' then 0 - LeadingDigits(s[1..], 0)
    else if s[0] == '+' then LeadingDigits(s[1..], 0)
    else LeadingDigits(s, 0)
  }

  function Multiplier(c: char): Option<int> {
    if IsDigit(c) then Some(1)
    else if c == 'k' || c == 'K' then Some(0x400)
    else if c == 'm' || c == 'M' then Some(0x10_0000)
    else if c == 'g' || c == 'G' then Some(0x4000_0000)
    else None
  }

  /** StringToInt64. */
  function Number(s: string): Option<int>
    requires s != ""
  {
    match Multiplier(s[|s| - 1])
    case None => None
    case Some(m) => Some(m * Atoll(s))
  }

  lemma NumberRoundTrip(n: nat)
    ensures Number(DecString(n)) == Some(n) && '=' !in DecString(n) && '&' !in DecString(n)
  {
    hide DecString, LeadingDigits;
    var s := DecString(n);
    DecRoundTrip(n);
    assert s[0] in s;
    assert Atoll(s) == n;
  }

  /** What the last character of a number does, and that leading space does not matter. */
  lemma NumberForms(n: nat, s: string, c: char)
    ensures Number(DecString(n) + "k") == Number(DecString(n) + "K") == Some(1024 * n)
    ensures Number(DecString(n) + "m") == Number(DecString(n) + "M") == Some(1048576 * n)
    ensures Number(DecString(n) + "g") == Number(DecString(n) + "G") == Some(1073741824 * n)
    ensures Number("-" + DecString(n)) == Some(0 - n) && Number("+" + DecString(n)) == Some(n)
    ensures s != "" ==> Number(" " + s) == Number(s)
    ensures Number(s + [c]) == None <==> c !in "0123456789kKmMgG"
  {
    hide DecString, LeadingDigits;
    var t := DecString(n);
    DecRoundTrip(n);
    assert t[0] in t;
    DigitsThen(t, 'k');
    DigitsThen(t, 'K');
    DigitsThen(t, 'm');
    DigitsThen(t, 'M');
    DigitsThen(t, 'g');
    DigitsThen(t, 'G');
    assert ("-" + t)[1..] == t && ("+" + t)[1..] == t;
    assert ("-" + t)[|t|] == t[|t| - 1] && ("+" + t)[|t|] == t[|t| - 1];
    assert s != "" ==> (" " + s)[1..] == s && (" " + s)[|s|] == s[|s| - 1];
  }

  /** Digits followed by another character read as the digits. */
  lemma DigitsThen(t: string, c: char)
    requires AllDigits(t) && !IsDigit(c)
    ensures LeadingDigits(t + [c], 0) == LeadingDigits(t, 0)
  {
    DigitsStop(t, c, 0);
  }

  lemma {:induction false} DigitsStop(t: string, c: char, acc: nat)
    requires AllDigits(t) && !IsDigit(c)
    ensures LeadingDigits(t + [c], acc) == LeadingDigits(t, acc)
  {
    if t != "" {
      assert (t + [c])[1..] == t[1..] + [c] && t[0] in t;
      DigitsStop(t[1..], c, 10 * acc + (t[0] as int - '0' as int));
    }
  }

  // ---------------------------------------------------------------- the options

  function AgName(i: nat): string {
    "ag" + DecString(i)
  }

  lemma AgNames(i: nat, j: nat)
    ensures AgName(i) == AgName(j) ==> i == j
    ensures AgName(i) != "num" && AgName(i) != "info" && AgName(i) != "min_members"
    ensures '=' !in AgName(i) && '&' !in AgName(i)
  {
    hide DecString;
    NumberRoundTrip(i);
    NumberRoundTrip(j);
    assert AgName(i)[2..] == DecString(i) && AgName(j)[2..] == DecString(j);
    assert AgName(i)[0] == 'a';
  }

  function NodeText(node: Node): string {
    "0x" + HexString(node)
  }

  lemma NodeTextReads(node: Node, conv: Conversions)
    ensures NodeOf(NodeText(node), conv) == Ok(node) && '&' !in NodeText(node)
  {
    hide HexString, HexValue;
    var s := HexString(node);
    HexRoundTrip(node);
    Pow16Values();
    HexLength(node, 16);
    assert NodeText(node)[2..] == s;
  }

  function NodeTokens(nodes: seq<Node>, i: nat): seq<string>
    requires i <= |nodes|
    decreases |nodes| - i
  {
    if i == |nodes| then [] else [NameValue(AgName(i), NodeText(nodes[i]))] + NodeTokens(nodes, i + 1)
  }

  function Announced(nodes: seq<Node>): seq<string> {
    [NameValue("num", DecString(|nodes|))] + NodeTokens(nodes, 0)
  }

  /** The members the announcement is about. */
  function Named(nodes: seq<Node>, i: nat): seq<Member>
    requires i <= |nodes|
    decreases |nodes| - i
  {
    if i == |nodes| then [] else [Member(AgName(i), nodes[i])] + Named(nodes, i + 1)
  }

  // ---------------------------------------------------------------- reading

  datatype Info = Info(info: string, minMembers: string, members: seq<Member>, options: string)

  /** The members ag<i> to ag<n-1> the options list, all looked up in the same options. */
  function Listed(options: string, i: nat, n: int, conv: Conversions): Result<seq<Member>>
    decreases n - i
  {
    if i >= n then Ok([])
    else
      var s := Get(options, AgName(i), "");
      if s == "" then Listed(options, i + 1, n, conv)
      else
        match NodeOf(s, conv)
        case Err => Err
        case Ok(node) =>
          match Listed(options, i + 1, n, conv)
          case Err => Err
          case Ok(rest) => Ok([Member(AgName(i), node)] + rest)
  }

  /** The options without the members that were read. */
  function Stripped(options: string, i: nat, n: int): string
    decreases n - i
  {
    if i >= n then options
    else Stripped(if Get(options, AgName(i), "") == "" then options else Remove(options, AgName(i)), i + 1, n)
  }

  function Read(options: string, conv: Conversions): Result<Info> {
    var info, o1 := Get(options, "info", ""), Remove(options, "info");
    var min, o2 := Get(o1, "min_members", ""), Remove(o1, "min_members");
    var s := Get(o2, "num", "");
    if s == "" then Ok(Info(info, min, [], o2))
    else
      var o3 := Remove(o2, "num");
      match Number(s)
      case None => Ok(Info(info, min, [], o3))
      case Some(n) =>
        match Listed(o3, 0, n, conv)
        case Err => Err
        case Ok(ms) => Ok(Info(info, min, ms, Stripped(o3, 0, n)))
  }

  lemma {:induction false} ListedSame(a: string, b: string, i: nat, n: int, conv: Conversions)
    requires forall j: nat :: i <= j < n ==> Get(a, AgName(j), "") == Get(b, AgName(j), "")
    ensures Listed(a, i, n, conv) == Listed(b, i, n, conv)
    decreases n - i
  {
    if i < n {
      ListedSame(a, b, i + 1, n, conv);
    }
  }

  lemma LaterUnaffected(options: string, i: nat, n: int, conv: Conversions)
    ensures Listed(Remove(options, AgName(i)), i + 1, n, conv) == Listed(options, i + 1, n, conv)
  {
    hide Get, Remove, AgName;
    var o := Remove(options, AgName(i));
    forall j: nat | i + 1 <= j < n
      ensures Get(o, AgName(j), "") == Get(options, AgName(j), "")
    {
      AgNames(i, j);
      AgNames(j, i);
      GetAfterRemove(options, AgName(i), AgName(j), "");
    }
    ListedSame(o, options, i + 1, n, conv);
  }

  /** One turn of the reading loop: what is still to be read is what the original options list. */
  lemma ReadStep(o: string, i: nat, n: int, conv: Conversions, ms: seq<Member>, all: Result<seq<Member>>)
    requires i < n && all == Prefixed(ms, Listed(o, i, n, conv))
    ensures var s := Get(o, AgName(i), "");
            if s == "" then all == Prefixed(ms, Listed(o, i + 1, n, conv)) && Stripped(o, i, n) == Stripped(o, i + 1, n)
            else
              && Stripped(o, i, n) == Stripped(Remove(o, AgName(i)), i + 1, n)
              && match NodeOf(s, conv)
                 case Err => all == Err
                 case Ok(x) =>
                   all == Prefixed(ms + [Member(AgName(i), x)], Listed(Remove(o, AgName(i)), i + 1, n, conv))
  {
    hide Get, Remove, AgName, NodeOf;
    var s := Get(o, AgName(i), "");
    if s != "" {
      LaterUnaffected(o, i, n, conv);
      var rest := Listed(o, i + 1, n, conv);
      var x := NodeOf(s, conv);
      if x.Ok? && rest.Ok? {
        var m := Member(AgName(i), x.value);
        assert ms + ([m] + rest.value) == (ms + [m]) + rest.value;
      }
    }
  }

  ghost function Prefixed(ms: seq<Member>, r: Result<seq<Member>>): Result<seq<Member>> {
    match r
    case Err => Err
    case Ok(rest) => Ok(ms + rest)
  }

  /** The loop of the constructor, which removes each option it has used. */
  method ReadMembers(options: string, n: int, conv: Conversions) returns (r: Result<(seq<Member>, string)>)
    ensures r == match Listed(options, 0, n, conv)
                 case Err => Err
                 case Ok(ms) => Ok((ms, Stripped(options, 0, n)))
  {
    hide *;
    var ms, o := [], options;
    ghost var all, stripped := Listed(options, 0, n, conv), Stripped(options, 0, n);
    NothingRead(all);
    var i := 0;
    while i < n
      invariant 0 <= i && (0 < n ==> i <= n) && (n <= 0 ==> i == 0)
      invariant all == Prefixed(ms, Listed(o, i, n, conv))
      invariant stripped == Stripped(o, i, n)
    {
      var name := AgName(i);
      var s := Get(o, name, "");
      ReadStep(o, i, n, conv, ms, all);
      if s != "" {
        var x := NodeOf(s, conv);
        if x.Err? {
          return Err;
        }
        ms := ms + [Member(name, x.value)];
        o := Remove(o, name);
      }
      i := i + 1;
    }
    ReadEnd(o, i, n, conv, ms);
    r := Ok((ms, o));
  }

  /** The constructor from a URL, on its options. */
  method ReadInfo(options: string, conv: Conversions) returns (r: Result<Info>)
    ensures r == Read(options, conv)
  {
    hide Get, Remove, Number, Listed, Stripped;
    var info := Get(options, "info", "");
    var o := Remove(options, "info");
    var min := Get(o, "min_members", "");
    o := Remove(o, "min_members");
    var s := Get(o, "num", "");
    var members := [];
    if s != "" {
      o := Remove(o, "num");
      var n := Number(s);
      if n.Some? {
        var found := ReadMembers(o, n.value, conv);
        if found.Err? {
          return Err;
        }
        members, o := found.value.0, found.value.1;
      }
    }
    r := Ok(Info(info, min, members, o));
  }

  lemma NothingRead(all: Result<seq<Member>>)
    ensures Prefixed([], all) == all
  {
    if all.Ok? {
      assert [] + all.value == all.value;
    }
  }

  lemma ReadEnd(o: string, i: nat, n: int, conv: Conversions, ms: seq<Member>)
    requires i >= n
    ensures Prefixed(ms, Listed(o, i, n, conv)) == Ok(ms) && Stripped(o, i, n) == o
  {
    assert ms + [] == ms;
  }

  // ---------------------------------------------------------------- what the reader finds

  lemma {:induction false} ListedFrom(o: string, i: nat, n: int, conv: Conversions, m: Member) returns (j: nat)
    requires Listed(o, i, n, conv).Ok? && m in Listed(o, i, n, conv).value
    ensures i <= j < n && m.name == AgName(j) && NodeOf(Get(o, AgName(j), ""), conv) == Ok(m.node)
    decreases n - i
  {
    hide Get, AgName, NodeOf;
    if Get(o, AgName(i), "") != "" && m == Listed(o, i, n, conv).value[0] {
      j := i;
    } else {
      j := ListedFrom(o, i + 1, n, conv, m);
    }
  }

  lemma {:induction false} ListedLength(o: string, i: nat, n: int, conv: Conversions)
    requires Listed(o, i, n, conv).Ok?
    ensures |Listed(o, i, n, conv).value| <= if i < n then n - i else 0
    decreases n - i
  {
    hide Get, AgName, NodeOf;
    if i < n {
      ListedLength(o, i + 1, n, conv);
    }
  }

  /** Whatever the options say, no two members that are read have the same name. */
  lemma {:induction false} ListedDistinct(o: string, i: nat, n: int, conv: Conversions)
    requires Listed(o, i, n, conv).Ok?
    ensures DistinctNames(Listed(o, i, n, conv).value)
    decreases n - i
  {
    hide Get, AgName, NodeOf;
    if i < n {
      ListedDistinct(o, i + 1, n, conv);
      var rest := Listed(o, i + 1, n, conv).value;
      forall m | m in rest
        ensures m.name != AgName(i)
      {
        var j := ListedFrom(o, i + 1, n, conv, m);
        AgNames(i, j);
      }
    }
  }

  lemma GetBehindRemovals(options: string, name: string)
    requires '=' !in name && name != "info" && name != "min_members"
    ensures var o2 := Remove(Remove(options, "info"), "min_members");
            && Get(o2, name, "") == Get(options, name, "")
            && (name != "num" ==> Get(Remove(o2, "num"), name, "") == Get(options, name, ""))
  {
    hide Get, Remove;
    var o1 := Remove(options, "info");
    var o2 := Remove(o1, "min_members");
    GetAfterRemove(options, "info", name, "");
    GetAfterRemove(o1, "min_members", name, "");
    if name != "num" {
      GetAfterRemove(o2, "num", name, "");
    }
  }

  /** The most members a text for num lets the reader take. */
  function Most(s: string): nat {
    if s == "" then 0
    else
      match Number(s)
      case None => 0
      case Some(n) => if n < 0 then 0 else n
  }

  lemma ReadBounds(options: string, conv: Conversions)
    requires Read(options, conv).Ok?
    ensures |Read(options, conv).value.members| <= Most(Get(options, "num", ""))
    ensures DistinctNames(Read(options, conv).value.members)
  {
    hide Get, Remove, Number, Listed, Stripped;
    var o2 := Remove(Remove(options, "info"), "min_members");
    var s, o3 := Get(o2, "num", ""), Remove(o2, "num");
    GetBehindRemovals(options, "num");
    if s != "" && Number(s).Some? {
      ListedLength(o3, 0, Number(s).value, conv);
      ListedDistinct(o3, 0, Number(s).value, conv);
    }
  }

  /** The reader fails if and only if a listed node does not convert; otherwise it lists every member
      that has a value, and in the order of their numbers. */
  lemma {:induction false} ListedComplete(o: string, i: nat, n: int, conv: Conversions, j: nat)
    requires i <= j < n && Get(o, AgName(j), "") != ""
    ensures NodeOf(Get(o, AgName(j), ""), conv).Err? ==> Listed(o, i, n, conv).Err?
    ensures Listed(o, i, n, conv).Ok? ==>
              exists m <- Listed(o, i, n, conv).value :: m.name == AgName(j)
    decreases n - i
  {
    hide Get, AgName, NodeOf;
    if i < j {
      ListedComplete(o, i + 1, n, conv, j);
      if Listed(o, i, n, conv).Ok? {
        var m :| m in Listed(o, i + 1, n, conv).value && m.name == AgName(j);
        assert m in Listed(o, i, n, conv).value;
      }
    } else if Listed(o, i, n, conv).Ok? {
      assert Listed(o, i, n, conv).value[0].name == AgName(j);
    }
  }

  lemma {:induction false} ListedFails(o: string, i: nat, n: int, conv: Conversions) returns (j: nat)
    requires Listed(o, i, n, conv).Err?
    ensures i <= j < n && Get(o, AgName(j), "") != "" && NodeOf(Get(o, AgName(j), ""), conv).Err?
    decreases n - i
  {
    hide Get, AgName, NodeOf;
    if Get(o, AgName(i), "") != "" && NodeOf(Get(o, AgName(i), ""), conv).Err? {
      j := i;
    } else {
      j := ListedFails(o, i + 1, n, conv);
    }
  }

  lemma {:induction false} ListedOrder(o: string, i: nat, n: int, conv: Conversions, a: nat, b: nat)
    returns (j: nat, k: nat)
    requires Listed(o, i, n, conv).Ok? && a < b < |Listed(o, i, n, conv).value|
    ensures i <= j < k < n
    ensures Listed(o, i, n, conv).value[a].name == AgName(j) && Listed(o, i, n, conv).value[b].name == AgName(k)
    decreases n - i
  {
    hide Get, AgName, NodeOf;
    var ms, rest := Listed(o, i, n, conv).value, Listed(o, i + 1, n, conv).value;
    if Get(o, AgName(i), "") == "" {
      j, k := ListedOrder(o, i + 1, n, conv, a, b);
    } else if a > 0 {
      j, k := ListedOrder(o, i + 1, n, conv, a - 1, b - 1);
    } else {
      j := i;
      assert ms[b] == rest[b - 1];
      k := ListedFrom(o, i + 1, n, conv, rest[b - 1]);
    }
  }

  /** What the reader makes of any options, in terms of those options: the two texts, no members without
      a number, and otherwise the listed ones. */
  lemma ReadIs(options: string, conv: Conversions)
    ensures var s := Get(options, "num", "");
            if s == "" || Number(s) == None then
              Read(options, conv).Ok? && Read(options, conv).value.members == []
            else
              match Listed(options, 0, Number(s).value, conv)
              case Err => Read(options, conv).Err?
              case Ok(ms) => Read(options, conv).Ok? && Read(options, conv).value.members == ms
    ensures Read(options, conv).Ok? ==>
              && Read(options, conv).value.info == Get(options, "info", "")
              && Read(options, conv).value.minMembers == Get(options, "min_members", "")
  {
    hide Get, Remove, Number, Listed, Stripped, AgName;
    GetAfterRemove(options, "info", "min_members", "");
    GetBehindRemovals(options, "num");
    var o3 := Remove(Remove(Remove(options, "info"), "min_members"), "num");
    forall j: nat
      ensures Get(o3, AgName(j), "") == Get(options, AgName(j), "")
    {
      AgNames(j, j);
      GetBehindRemovals(options, AgName(j));
    }
    var s := Get(options, "num", "");
    if s != "" && Number(s).Some? {
      ListedSame(o3, options, 0, Number(s).value, conv);
    }
  }

  /** Stripping removes the members and leaves what every other name reads as. */
  lemma {:induction false} StrippedGet(o: string, i: nat, n: int, name: string)
    requires '=' !in name
    ensures Get(Stripped(o, i, n), name, "") ==
            if exists j: nat :: i <= j < n && name == AgName(j) then "" else Get(o, name, "")
    decreases n - i
  {
    hide Get, Remove, AgName;
    if i < n {
      AgNames(i, i);
      var o1 := if Get(o, AgName(i), "") == "" then o else Remove(o, AgName(i));
      GetAfterRemove(o, AgName(i), name, "");
      StrippedGet(o1, i + 1, n, name);
    }
  }

  /** A directory entry made from any URL has distinct member names, and keeps them that way. */
  lemma EveryDirectory(options: string, conv: Conversions, ops: seq<Op>, members: seq<Member>)
    requires Read(options, conv).Ok? && Directory.Run(Read(options, conv).value.members, ops, members)
    ensures DistinctNames(members)
  {
    hide Read, Directory.Run, DistinctNames;
    ReadBounds(options, conv);
    RunKeepsDistinct(Read(options, conv).value.members, ops, members);
  }

  lemma ReadMemberIs(options: string, conv: Conversions, j: nat, x: Node)
    requires Read(options, conv).Ok? && Member(AgName(j), x) in Read(options, conv).value.members
    ensures NodeOf(Get(options, AgName(j), ""), conv) == Ok(x)
  {
    hide Get, Remove, Number, Listed, Stripped, NodeOf, AgName;
    var o2 := Remove(Remove(options, "info"), "min_members");
    var s, o3 := Get(o2, "num", ""), Remove(o2, "num");
    var k := ListedFrom(o3, 0, Number(s).value, conv, Member(AgName(j), x));
    AgNames(j, k);
    GetBehindRemovals(options, AgName(j));
  }

  // ---------------------------------------------------------------- what the announcement says

  lemma OptionNames(n: string, value: string, m: string)
    requires '=' !in n && '=' !in m
    ensures var t := NameValue(n, value);
            Names(t, n) && ValueOf(t, n) == value && (Names(t, m) ==> m == n)
  {
    var t := NameValue(n, value);
    if Names(t, m) {
      NamesDiffer(t, m, n);
    }
  }

  lemma NodeToken(node: Node, i: nat, name: string)
    requires '=' !in name
    ensures var t := NameValue(AgName(i), NodeText(node));
            && t != "" && '&' !in t
            && Names(t, AgName(i)) && ValueOf(t, AgName(i)) == NodeText(node)
            && (name != AgName(i) ==> !Names(t, name))
  {
    hide AgName, NodeText, Names, ValueOf;
    AgNames(i, i);
    NodeTextReads(node, Conversions(_ => 0, _ => 0, 0));
    OptionNames(AgName(i), NodeText(node), name);
  }

  lemma GetCons(t: string, rest: seq<string>, name: string, d: string)
    ensures GetIn([t] + rest, name, d) == if Names(t, name) then ValueOf(t, name) else GetIn(rest, name, d)
  {
    hide Names, ValueOf;
    assert ([t] + rest)[1..] == rest;
  }

  lemma {:induction false} NodeTokensGet(nodes: seq<Node>, i: nat, j: nat, d: string)
    requires i <= |nodes|
    ensures GetIn(NodeTokens(nodes, i), AgName(j), d) == if i <= j < |nodes| then NodeText(nodes[j]) else d
    decreases |nodes| - i
  {
    hide AgName, NodeText, NameValue, Names, ValueOf, GetIn;
    if i < |nodes| {
      AgNames(j, i);
      NodeToken(nodes[i], i, AgName(j));
      NodeTokensGet(nodes, i + 1, j, d);
      GetCons(NameValue(AgName(i), NodeText(nodes[i])), NodeTokens(nodes, i + 1), AgName(j), d);
    } else {
      GetNone([], AgName(j), d);
    }
  }

  lemma {:induction false} NodeTokensOthers(nodes: seq<Node>, i: nat, name: string)
    requires i <= |nodes| && '=' !in name && forall j: nat :: i <= j < |nodes| ==> name != AgName(j)
    ensures Clean(NodeTokens(nodes, i), '&')
    ensures forall t <- NodeTokens(nodes, i) :: !Names(t, name)
    decreases |nodes| - i
  {
    hide AgName, NodeText, NameValue, Names;
    if i < |nodes| {
      NodeToken(nodes[i], i, name);
      NodeTokensOthers(nodes, i + 1, name);
    }
  }

  lemma {:induction false} RemoveAppend(a: seq<string>, b: seq<string>, name: string)
    ensures RemoveIn(a + b, name) == RemoveIn(a, name) + RemoveIn(b, name)
  {
    hide Names;
    if b == [] {
      assert a + b == a;
    } else {
      assert (a + b)[..|a + b| - 1] == a + b[..|b| - 1];
      RemoveAppend(a, b[..|b| - 1], name);
    }
  }

  lemma {:induction false} RemoveAbsent(ops: seq<string>, name: string)
    requires forall t <- ops :: !Names(t, name)
    ensures RemoveIn(ops, name) == ops
  {
    hide Names;
    if ops != [] {
      var front, last := ops[..|ops| - 1], ops[|ops| - 1];
      assert ops == front + [last] && last in ops;
      assert forall t <- front :: t in ops;
      RemoveAbsent(front, name);
    }
  }

  lemma RemoveNamed(t: string, name: string)
    requires Names(t, name)
    ensures RemoveIn([t], name) == []
  {
    assert [t][..0] == [];
  }

  lemma RemoveOne(base: seq<string>, t: string, rest: seq<string>, name: string)
    requires Names(t, name)
    requires forall u <- base :: !Names(u, name)
    requires forall u <- rest :: !Names(u, name)
    ensures RemoveIn(base + ([t] + rest), name) == base + rest
  {
    hide Names, RemoveIn;
    RemoveAppend(base, [t] + rest, name);
    RemoveAppend([t], rest, name);
    RemoveNamed(t, name);
    RemoveAbsent(base, name);
    RemoveAbsent(rest, name);
    assert [] + rest == rest;
  }

  /** No option of its own that the announcement also uses. */
  ghost predicate Unclaimed(base: seq<string>) {
    forall t <- base :: !Names(t, "num") && forall i: nat :: !Names(t, AgName(i))
  }

  lemma {:induction false} ListedNamed(o: string, nodes: seq<Node>, i: nat, conv: Conversions)
    requires i <= |nodes| && forall j: nat :: i <= j < |nodes| ==> Get(o, AgName(j), "") == NodeText(nodes[j])
    ensures Listed(o, i, |nodes|, conv) == Ok(Named(nodes, i))
    decreases |nodes| - i
  {
    hide AgName, Get, NodeOf;
    if i < |nodes| {
      NodeTextReads(nodes[i], conv);
      ListedNamed(o, nodes, i + 1, conv);
    }
  }

  lemma {:induction false} StrippedAll(o: string, base: seq<string>, nodes: seq<Node>, i: nat)
    requires i <= |nodes| && Unclaimed(base) && Tokens(o, '&') == base + NodeTokens(nodes, i)
    ensures Tokens(Stripped(o, i, |nodes|), '&') == base
    decreases |nodes| - i
  {
    hide Tokens, AgName, NodeText, Names, Remove, NameValue;
    if i < |nodes| {
      var name := AgName(i);
      AgGet(o, base, nodes, i, i);
      assert NodeText(nodes[i]) != "" by { TextNotEmpty(nodes[i]); }
      RemoveTokens(o, name);
      AgNames(i, i);
      OthersAfter(nodes, i);
      NodeToken(nodes[i], i, name);
      RemoveOne(base, NameValue(name, NodeText(nodes[i])), NodeTokens(nodes, i + 1), name);
      StrippedAll(Remove(o, name), base, nodes, i + 1);
    }
  }

  lemma TextNotEmpty(node: Node)
    ensures NodeText(node) != ""
  {
  }

  lemma OthersAfter(nodes: seq<Node>, i: nat)
    requires i < |nodes|
    ensures forall t <- NodeTokens(nodes, i + 1) :: !Names(t, AgName(i))
  {
    hide AgName, Names;
    AgNames(i, i);
    forall j: nat | i + 1 <= j < |nodes|
      ensures AgName(i) != AgName(j)
    {
      AgNames(i, j);
    }
    NodeTokensOthers(nodes, i + 1, AgName(i));
  }

  lemma AgGet(o: string, base: seq<string>, nodes: seq<Node>, i: nat, j: nat)
    requires i <= j < |nodes| && Unclaimed(base) && Tokens(o, '&') == base + NodeTokens(nodes, i)
    ensures Get(o, AgName(j), "") == NodeText(nodes[j])
  {
    hide Tokens, AgName, NodeText, Names;
    NodeTokensGet(nodes, i, j, "");
    GetInAppend(base, NodeTokens(nodes, i), AgName(j), "");
    GetNone(base, AgName(j), NodeText(nodes[j]));
  }

  lemma AnnouncedNotNamed(nodes: seq<Node>, name: string)
    requires name == "info" || name == "min_members"
    ensures forall t <- Announced(nodes) :: !Names(t, name)
    ensures Clean(Announced(nodes), '&')
  {
    hide AgName, DecString, Names;
    NumberRoundTrip(|nodes|);
    OptionNames("num", DecString(|nodes|), name);
    forall j: nat
      ensures name != AgName(j)
    {
      AgNames(j, j);
    }
    NodeTokensOthers(nodes, 0, name);
  }

  /** What the base options keep once the reader has taken info and min_members out. */
  function Rest(base: seq<string>): seq<string> {
    RemoveIn(RemoveIn(base, "info"), "min_members")
  }

  lemma RestUnclaimed(base: seq<string>)
    requires Unclaimed(base)
    ensures Unclaimed(Rest(base))
  {
    hide Names, AgName;
    RemoveInKeeps(base, "info");
    RemoveInKeeps(RemoveIn(base, "info"), "min_members");
  }

  lemma AnnouncedStays(options: string, base: seq<string>, nodes: seq<Node>)
    requires Tokens(options, '&') == base + Announced(nodes)
    ensures var o2 := Remove(Remove(options, "info"), "min_members");
            Tokens(o2, '&') == Rest(base) + Announced(nodes)
  {
    hide Tokens, Announced, RemoveIn, Remove, Names;
    var a, o1 := Announced(nodes), Remove(options, "info");
    AnnouncedNotNamed(nodes, "info");
    AnnouncedNotNamed(nodes, "min_members");
    RemoveAbsent(a, "info");
    RemoveAbsent(a, "min_members");
    RemoveTokens(options, "info");
    RemoveAppend(base, a, "info");
    RemoveTokens(o1, "min_members");
    RemoveAppend(RemoveIn(base, "info"), a, "min_members");
  }

  lemma NumIsRead(o: string, base: seq<string>, nodes: seq<Node>)
    requires Tokens(o, '&') == base + Announced(nodes) && Unclaimed(base)
    ensures Get(o, "num", "") == DecString(|nodes|)
    ensures Tokens(Remove(o, "num"), '&') == base + NodeTokens(nodes, 0)
  {
    hide Tokens, AgName, DecString, Names, ValueOf, Remove, NameValue;
    var num := DecString(|nodes|);
    var t, rest := NameValue("num", num), NodeTokens(nodes, 0);
    OptionNames("num", num, "num");
    GetInAppend(base, [t] + rest, "num", "");
    GetNone(base, "num", num);
    forall j: nat
      ensures "num" != AgName(j)
    {
      AgNames(j, j);
    }
    NodeTokensOthers(nodes, 0, "num");
    RemoveTokens(o, "num");
    RemoveOne(base, t, rest, "num");
  }

  /** Options that end in an announcement, before which nothing claims its names, are read as exactly
      the announced members, in order, and all of the announcement is taken out. */
  lemma AnnouncedIsRead(options: string, base: seq<string>, nodes: seq<Node>, conv: Conversions)
    requires Tokens(options, '&') == base + Announced(nodes) && Unclaimed(base)
    ensures var r := Read(options, conv);
            r.Ok? && r.value.members == Named(nodes, 0) && Tokens(r.value.options, '&') == Rest(base)
  {
    hide Tokens, Announced, AgName, DecString, Names, Get, Remove, Unclaimed, Rest, Number, Listed, Stripped;
    var o2 := Remove(Remove(options, "info"), "min_members");
    var o3, b := Remove(o2, "num"), Rest(base);
    AnnouncedStays(options, base, nodes);
    RestUnclaimed(base);
    NumIsRead(o2, b, nodes);
    NumberRoundTrip(|nodes|);
    forall j: nat | 0 <= j < |nodes|
      ensures Get(o3, AgName(j), "") == NodeText(nodes[j])
    {
      AgGet(o3, b, nodes, 0, j);
    }
    ListedNamed(o3, nodes, 0, conv);
    StrippedAll(o3, b, nodes, 0);
  }

  // ---------------------------------------------------------------- from text to members

  lemma FindAppended(url: string, long: string, cs: set<char>, i: nat)
    requires i <= |url| < |long| && long[..|url|] == url && long[|url|] == '&'
    ensures FindAny(url, cs, i) < |url| || '&' in cs ==> FindAny(long, cs, i) == FindAny(url, cs, i)
  {
    hide FindAny;
    assert forall k :: 0 <= k < |url| ==> long[k] == url[k];
  }

  lemma SliceAppended(url: string, long: string, i: nat, j: nat)
    requires i <= j <= |url| <= |long| && long[..|url|] == url
    ensures long[i..j] == url[i..j]
  {
    assert forall k :: 0 <= k < |url| ==> long[k] == long[..|url|][k];
  }

  lemma TurnAppended(url: string, i: nat, f: Scanned, long: string)
    requires i < |url| < |long| && long[..|url|] == url && long[|url|] == '&'
    requires url[i] != '&' && Turn(url, i, f).Go?
    ensures Turn(long, i, f) == Turn(url, i, f)
  {
    hide FindAny;
    assert long[i] == url[i] && long[0] == url[0];
    var cs := if url[i] == '<' then {'>'} else if url[i] == '/' then {'&'} else DELIMS;
    var from := if url[i] == '[' || url[i] == '<' || url[i] == '/' then i + 1 else 0;
    var j := FindAny(url, cs, from);
    FindAppended(url, long, cs, from);
    SliceAppended(url, long, from, j);
    if url[i] == '/' {
      SliceAppended(url, long, i, j);
    }
    assert forall k :: 0 <= k < |url| ==> long[k] == url[k];
  }

  lemma {:induction false} ScanAppended(url: string, i: nat, f: Scanned, more: string)
    requires i <= |url| && f.options == "" && Scan(url, i, f).Ok?
    ensures var long, g := url + "&" + more, Scan(url, i, f).value;
            exists o: string :: Scan(long, i, f) == Ok(g.(options := o)) &&
                                Tokens(o, '&') == Tokens(g.options, '&') + Tokens(more, '&')
    decreases |url| - i
  {
    hide Turn, Tokens;
    var long := url + "&" + more;
    if i == |url| {
      TokensOne("", '&');
      assert long[i + 1..] == more && long[i] == '&';
      EndTurn(long, i, f);
    } else {
      assert long[..|url|] == url && long[|url|] == '&' && long[i] == url[i];
      if url[i] == '&' {
        EndTurn(url, i, f);
        TokensAppend(url[i + 1..], more, '&');
        EndTurn(long, i, f);
        assert long[i + 1..] == url[i + 1..] + "&" + more;
      } else {
        var r := Turn(url, i, f);
        if r.Stop? {
          StopIsError(url, i, f);
        }
        TurnAppended(url, i, f, long);
        OptionsKept(url, i, f);
        ScanAppended(url, r.next, r.found, more);
      }
    }
  }

  lemma EndTurn(url: string, i: nat, f: Scanned)
    requires i < |url| && url[i] == '&'
    ensures Scan(url, i, f) == Ok(f.(options := url[i + 1..]))
  {
    assert Turn(url, i, f) == Go(|url|, f.(options := url[i + 1..]));
  }

  lemma OptionsKept(url: string, i: nat, f: Scanned)
    requires i < |url| && url[i] != '&' && Turn(url, i, f).Go?
    ensures Turn(url, i, f).found.options == f.options
  {
    hide FindAny;
  }

  /** Appending options to the text of a URL adds their tokens and changes nothing else. */
  lemma TextAppended(url: string, more: string, conv: Conversions)
    requires FromText(url, conv).Ok?
    ensures var r, u := FromText(url + "&" + more, conv), FromText(url, conv).value;
            r.Ok? && r.value == u.(options := r.value.options) &&
            Tokens(r.value.options, '&') == Tokens(u.options, '&') + Tokens(more, '&')
  {
    hide Scan, Separate, Tokens, IsLocal, BucketOf, NodeOf;
    ScanAppended(url, 0, Scanned("", "", "", "", ""), more);
  }

  /** Each token behind a separator. */
  function Trailing(ts: seq<string>): string {
    if ts == [] then "" else ("&" + ts[0]) + Trailing(ts[1..])
  }

  lemma {:induction false} TrailingIsJoin(ts: seq<string>)
    requires ts != []
    ensures Trailing(ts) == "&" + Strings.Join(ts, '&')
  {
    if |ts| > 1 {
      TrailingIsJoin(ts[1..]);
    }
  }

  lemma Regroup(a: string, b: string, c: string, d: string, e: string)
    ensures a + (((b + c) + d) + e) == (((a + b) + c) + d) + e
    ensures a + (b + c) == (a + b) + c
  {
  }

  lemma TrailingCons(s: string, t: string, rest: seq<string>)
    ensures s + Trailing([t] + rest) == (s + ("&" + t)) + Trailing(rest)
  {
    assert ([t] + rest)[1..] == rest;
    Regroup(s, "&" + t, Trailing(rest), "", "");
  }

  lemma TokenTexts(d: string, e: string)
    ensures "&" + NameValue("ag" + d, e) == (("&ag" + d) + "=") + e
    ensures "&" + NameValue("num", d) == "&num=" + d
  {
    assert "&ag" == "&" + "ag" && "&num=" == "&" + ("num" + "=");
    Regroup("&", "ag", d, "=", e);
    Regroup("&", "num" + "=", d, "", "");
  }

  lemma TrailingStep(s: string, nodes: seq<Node>, i: nat)
    requires i < |nodes|
    ensures s + Trailing(NodeTokens(nodes, i)) ==
            (s + ((("&ag" + DecString(i)) + "=") + NodeText(nodes[i]))) + Trailing(NodeTokens(nodes, i + 1))
  {
    hide DecString, NodeText, Trailing, NameValue;
    TokenTexts(DecString(i), NodeText(nodes[i]));
    TrailingCons(s, NameValue(AgName(i), NodeText(nodes[i])), NodeTokens(nodes, i + 1));
  }

  /** What startup appends to the URL of a configured resource. */
  method Announce(url: string, nodes: seq<Node>) returns (s: string)
    ensures s == url + Trailing(Announced(nodes))
  {
    hide DecString, NodeText, NodeTokens, AgName, Trailing;
    s := url + ("&num=" + DecString(|nodes|));
    TrailingStart(url, nodes);
    for i := 0 to |nodes|
      invariant s + Trailing(NodeTokens(nodes, i)) == url + Trailing(Announced(nodes))
    {
      TrailingStep(s, nodes, i);
      s := s + ((("&ag" + DecString(i)) + "=") + NodeText(nodes[i]));
    }
    TrailingEnd(nodes);
  }

  lemma TrailingStart(url: string, nodes: seq<Node>)
    ensures url + Trailing(Announced(nodes)) == (url + ("&num=" + DecString(|nodes|))) + Trailing(NodeTokens(nodes, 0))
  {
    hide DecString, NodeTokens, Trailing, NameValue;
    TokenTexts(DecString(|nodes|), "");
    TrailingCons(url, NameValue("num", DecString(|nodes|)), NodeTokens(nodes, 0));
  }

  lemma TrailingEnd(nodes: seq<Node>)
    ensures Trailing(NodeTokens(nodes, |nodes|)) == ""
  {
  }

  lemma AnnouncedText(url: string, nodes: seq<Node>, conv: Conversions)
    requires FromText(url, conv).Ok?
    ensures var r, u := FromText(url + Trailing(Announced(nodes)), conv), FromText(url, conv).value;
            r.Ok? && r.value == u.(options := r.value.options) &&
            Tokens(r.value.options, '&') == Tokens(u.options, '&') + Announced(nodes)
  {
    hide FromText, Tokens, Strings.Join, Trailing, NodeTokens, AgName, DecString;
    var ts := Announced(nodes);
    TrailingIsJoin(ts);
    assert url + ("&" + Strings.Join(ts, '&')) == url + "&" + Strings.Join(ts, '&');
    TextAppended(url, Strings.Join(ts, '&'), conv);
    AnnouncedNotNamed(nodes, "info");
    SplitJoin(ts, '&');
  }

  /** The announced text is a URL whose directory entry has exactly the announced members. */
  ghost predicate ReadsBack(url: string, nodes: seq<Node>, conv: Conversions) {
    var r := FromText(url + Trailing(Announced(nodes)), conv);
    r.Ok? && Read(r.value.options, conv).Ok? && Read(r.value.options, conv).value.members == Named(nodes, 0)
  }

  lemma {:induction false} NamedAt(nodes: seq<Node>, i: nat, j: nat)
    requires i <= j < |nodes|
    ensures |Named(nodes, i)| == |nodes| - i && Named(nodes, i)[j - i] == Member(AgName(j), nodes[j])
    decreases |nodes| - i
  {
    if i < j {
      NamedAt(nodes, i + 1, j);
    } else if j + 1 < |nodes| {
      NamedAt(nodes, i + 1, j + 1);
    }
  }

  lemma GetClaimed(base: seq<string>, rest: seq<string>, t: string, name: string)
    requires t in base && Names(t, name)
    ensures GetIn(base + rest, name, "") == GetIn(base, name, "")
  {
    hide Names, ValueOf;
    GetInAppend(base, rest, name, "");
    GetIsFirst(base, name, "");
    GetIsFirst(base, name, GetIn(rest, name, ""));
  }

  /** A URL with a num of its own does not take the announced number of members. */
  lemma ClaimedNumber(url: string, t: string, conv: Conversions) returns (nodes: seq<Node>)
    requires FromText(url, conv).Ok? && t in Tokens(FromText(url, conv).value.options, '&') && Names(t, "num")
    ensures nodes != [] && !ReadsBack(url, nodes, conv)
  {
    hide FromText, Tokens, Announced, Trailing, Names, GetIn, Read;
    var base := Tokens(FromText(url, conv).value.options, '&');
    var most := Most(GetIn(base, "num", ""));
    nodes := seq(most + 1, _ => 0);
    AnnouncedText(url, nodes, conv);
    GetClaimed(base, Announced(nodes), t, "num");
    NamedAt(nodes, 0, 0);
    var o := FromText(url + Trailing(Announced(nodes)), conv).value.options;
    if Read(o, conv).Ok? {
      ReadBounds(o, conv);
    }
  }

  lemma ClaimedIsRead(url: string, nodes: seq<Node>, t: string, i: nat, conv: Conversions)
    requires FromText(url, conv).Ok? && t in Tokens(FromText(url, conv).value.options, '&') && Names(t, AgName(i))
    requires i < |nodes| && ReadsBack(url, nodes, conv)
    ensures NodeOf(GetIn(Tokens(FromText(url, conv).value.options, '&'), AgName(i), ""), conv) == Ok(nodes[i])
  {
    hide FromText, Tokens, Announced, Trailing, Names, GetIn, Read, AgName, NodeOf;
    var base := Tokens(FromText(url, conv).value.options, '&');
    AnnouncedText(url, nodes, conv);
    GetClaimed(base, Announced(nodes), t, AgName(i));
    NamedAt(nodes, 0, i);
    assert Named(nodes, 0)[i] in Named(nodes, 0);
    ReadMemberIs(FromText(url + Trailing(Announced(nodes)), conv).value.options, conv, i, nodes[i]);
  }

  lemma ClaimedMember(url: string, t: string, i: nat, conv: Conversions) returns (nodes: seq<Node>)
    requires FromText(url, conv).Ok? && t in Tokens(FromText(url, conv).value.options, '&') && Names(t, AgName(i))
    ensures nodes != [] && !ReadsBack(url, nodes, conv)
  {
    var others: seq<Node> := seq(i + 1, _ => 1);
    hide *;
    nodes := seq(i + 1, _ => 0);
    if ReadsBack(url, nodes, conv) {
      ClaimedIsRead(url, nodes, t, i, conv);
      if ReadsBack(url, others, conv) {
        ClaimedIsRead(url, others, t, i, conv);
      }
      nodes := others;
    }
  }

  /** Every list of nodes reaches the directory entry unchanged exactly when the configured URL has no
      num and no ag<i> option of its own: a lookup takes the first option of a name, and the
      announcement comes last. */
  lemma ReadBackIff(url: string, conv: Conversions)
    requires FromText(url, conv).Ok?
    ensures (forall nodes: seq<Node> :: nodes != [] ==> ReadsBack(url, nodes, conv))
       <==> Unclaimed(Tokens(FromText(url, conv).value.options, '&'))
  {
    hide FromText, Tokens, Announced, Trailing, Names, Read, AgName;
    var base := Tokens(FromText(url, conv).value.options, '&');
    if Unclaimed(base) {
      forall nodes: seq<Node> | nodes != []
        ensures ReadsBack(url, nodes, conv)
      {
        AnnouncedText(url, nodes, conv);
        AnnouncedIsRead(FromText(url + Trailing(Announced(nodes)), conv).value.options, base, nodes, conv);
      }
    } else {
      var t :| t in base && !(!Names(t, "num") && forall i: nat :: !Names(t, AgName(i)));
      if Names(t, "num") {
        var nodes := ClaimedNumber(url, t, conv);
      } else {
        var i: nat :| Names(t, AgName(i));
        var nodes := ClaimedMember(url, t, i, conv);
      }
    }
  }

  lemma AgExample()
    ensures AgName(12) == "ag12"
  {
    assert DecString(12) == DecString(1) + [DecDigit(2)] && DecString(1) == "1";
  }

  lemma ShadowText(conv: Conversions)
    ensures FromText("/a&num=0", conv) == Ok(Url("", 0, 0, UrlPaths.Place("/", "a"), "num=0"))
  {
    hide Scan, FindLast, BucketOf, NodeOf;
    var url, start := "/a&num=0", Scanned("", "", "", "", "");
    assert url[0..] == "/a" + "&num=0" && "&num=0"[1..] == "num=0";
    ScanTail(url, 0, "/a", "&num=0", start);
    assert FindLast("/a", '/') == 0;
    assert "/a"[1..] == "a";
    assert Separate("/a") == UrlPaths.Place("/", "a");
  }

  /** A configured URL with a num of its own, and nodes that do not reach its directory entry. */
  lemma ShadowedNodes(conv: Conversions) returns (nodes: seq<Node>)
    ensures FromText("/a&num=0", conv).Ok? && nodes != [] && !ReadsBack("/a&num=0", nodes, conv)
  {
    hide FromText, ReadsBack, Tokens;
    ShadowText(conv);
    TokensOne("num=0", '&');
    OptionNames("num", "0", "num");
    assert NameValue("num", "0") == "num=0";
    nodes := ClaimedNumber("/a&num=0", "num=0", conv);
  }
}
