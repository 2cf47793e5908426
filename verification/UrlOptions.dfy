/**
 The options of a resource URL: one string of name=value tokens joined by '&', read and changed by
 splitting it, working on the tokens, and joining them again.
 */
module UrlOptions {
  import opened Strings

  function NameValue(name: string, value: string): string {
    name + "=" + value
  }

  /** The token is an option of this name: a prefix test, as in the source. */
  predicate Names(op: string, name: string) {
    name + "=" <= op
  }

  function ValueOf(op: string, name: string): string
    requires Names(op, name)
  {
    op[|name| + 1..]
  }

  // ---------------------------------------------------------------- on tokens

  function GetIn(ops: seq<string>, name: string, default: string): string {
    if ops == [] then default
    else if Names(ops[0], name) then ValueOf(ops[0], name)
    else GetIn(ops[1..], name, default)
  }

  function SetIn(ops: seq<string>, name: string, value: string): seq<string> {
    if ops == [] then [NameValue(name, value)]
    else if Names(ops[0], name) then [NameValue(name, value)] + ops[1..]
    else [ops[0]] + SetIn(ops[1..], name, value)
  }

  function RemoveIn(ops: seq<string>, name: string): seq<string> {
    if ops == [] then []
    else RemoveIn(ops[..|ops| - 1], name) + if Names(ops[|ops| - 1], name) then [] else [ops[|ops| - 1]]
  }

  /** The value of the last option of this name. */
  function LastIn(ops: seq<string>, name: string): string {
    if ops == [] then ""
    else if Names(ops[|ops| - 1], name) then ValueOf(ops[|ops| - 1], name)
    else LastIn(ops[..|ops| - 1], name)
  }

  // ---------------------------------------------------------------- on the string

  function Get(options: string, name: string, default: string): string {
    GetIn(Tokens(options, '&'), name, default)
  }

  function Set(options: string, name: string, value: string): string {
    if options == "" then NameValue(name, value) else Join(SetIn(Tokens(options, '&'), name, value), '&')
  }

  function Remove(options: string, name: string): string {
    Join(RemoveIn(Tokens(options, '&'), name), '&')
  }

  function Sorted(options: string): string {
    Join(Sort(Tokens(options, '&')), '&')
  }

  // ---------------------------------------------------------------- setting

  lemma {:induction false} SetInFrom(ops: seq<string>, name: string, value: string, t: string)
    requires t in SetIn(ops, name, value)
    ensures t == NameValue(name, value) || t in ops
  {
    if ops != [] && !Names(ops[0], name) && t != ops[0] {
      SetInFrom(ops[1..], name, value, t);
    }
  }

  lemma SetInClean(ops: seq<string>, name: string, value: string)
    requires Clean(ops, '&') && '&' !in name && '&' !in value
    ensures Clean(SetIn(ops, name, value), '&')
  {
    forall t | t in SetIn(ops, name, value)
      ensures t != "" && '&' !in t
    {
      SetInFrom(ops, name, value, t);
    }
  }

  /** Setting an option replaces its first token or adds one at the end; no other token moves. */
  lemma SetTokens(options: string, name: string, value: string)
    requires '&' !in name && '&' !in value
    ensures Tokens(Set(options, name, value), '&') == SetIn(Tokens(options, '&'), name, value)
  {
    hide Fields, NonEmpty, Join;
    if options == "" {
      TokensOne("", '&');
      TokensOne(NameValue(name, value), '&');
    } else {
      TokensAreClean(options, '&');
      SetInClean(Tokens(options, '&'), name, value);
      SplitJoin(SetIn(Tokens(options, '&'), name, value), '&');
    }
  }

  lemma {:induction false} GetSetIn(ops: seq<string>, name: string, value: string, default: string)
    ensures GetIn(SetIn(ops, name, value), name, default) == value
  {
    var r := SetIn(ops, name, value);
    if ops == [] || Names(ops[0], name) {
      assert r[0] == NameValue(name, value) && ValueOf(r[0], name) == value;
    } else {
      GetSetIn(ops[1..], name, value, default);
      assert r[1..] == SetIn(ops[1..], name, value);
    }
  }

  lemma {:induction false} GetInResult(ops: seq<string>, name: string, default: string)
    requires Clean(ops, '&')
    ensures '&' in name ==> GetIn(ops, name, default) == default
    ensures '&' in GetIn(ops, name, default) ==> GetIn(ops, name, default) == default
  {
    if ops != [] {
      assert '&' !in ops[0] by { assert ops[0] in ops; }
      assert forall t <- ops[1..] :: t in ops;
      if Names(ops[0], name) {
        assert forall i :: 0 <= i < |name| ==> name[i] == ops[0][i];
      } else {
        GetInResult(ops[1..], name, default);
      }
    }
  }

  /** What is set is what is read, for every default, exactly when neither text contains '&'. */
  lemma GetAfterSetIff(options: string, name: string, value: string)
    ensures (forall d: string :: Get(Set(options, name, value), name, d) == value) <==> '&' !in name && '&' !in value
  {
    var o := Set(options, name, value);
    if '&' !in name && '&' !in value {
      forall d: string
        ensures Get(o, name, d) == value
      {
        SetTokens(options, name, value);
        GetSetIn(Tokens(options, '&'), name, value, d);
      }
    } else {
      var d := if '&' in name then value + "x" else "";
      TokensAreClean(o, '&');
      GetInResult(Tokens(o, '&'), name, d);
      assert Get(o, name, d) != value;
    }
  }

  lemma NamesDiffer(op: string, m: string, n: string)
    requires '=' !in m && '=' !in n && Names(op, m) && Names(op, n)
    ensures m == n
  {
    assert op[|m|] == '=' && op[|n|] == '=';
    assert forall i :: 0 <= i < |m| ==> m[i] == op[i];
    assert forall i :: 0 <= i < |n| ==> n[i] == op[i];
    assert |m| == |n|;
  }

  lemma {:induction false} GetOtherSetIn(ops: seq<string>, n: string, value: string, m: string, default: string)
    requires '=' !in m && '=' !in n && m != n
    ensures GetIn(SetIn(ops, n, value), m, default) == GetIn(ops, m, default)
  {
    var r, t := SetIn(ops, n, value), NameValue(n, value);
    if Names(t, m) {
      NamesDiffer(t, m, n);
    }
    if ops == [] {
      assert r[1..] == [];
    } else if Names(ops[0], n) {
      if Names(ops[0], m) {
        NamesDiffer(ops[0], m, n);
      }
      assert r[1..] == ops[1..];
    } else {
      GetOtherSetIn(ops[1..], n, value, m, default);
      assert r[1..] == SetIn(ops[1..], n, value);
    }
  }

  /** Setting one option leaves what is read for every other name alone. */
  lemma GetOtherAfterSet(options: string, n: string, value: string, m: string, default: string)
    requires '&' !in n && '&' !in value && '=' !in n && '=' !in m && m != n
    ensures Get(Set(options, n, value), m, default) == Get(options, m, default)
  {
    SetTokens(options, n, value);
    GetOtherSetIn(Tokens(options, '&'), n, value, m, default);
  }

  // ---------------------------------------------------------------- removing

  lemma {:induction false} RemoveInKeeps(ops: seq<string>, name: string)
    ensures forall t :: t in RemoveIn(ops, name) <==> t in ops && !Names(t, name)
  {
    if ops != [] {
      RemoveInKeeps(ops[..|ops| - 1], name);
      assert ops == ops[..|ops| - 1] + [ops[|ops| - 1]];
    }
  }

  /** Removing an option deletes every token of that name and keeps the others in order. */
  lemma RemoveTokens(options: string, name: string)
    ensures Tokens(Remove(options, name), '&') == RemoveIn(Tokens(options, '&'), name)
  {
    hide Fields, NonEmpty, Tokens, Join;
    TokensAreClean(options, '&');
    RemoveInKeeps(Tokens(options, '&'), name);
    SplitJoin(RemoveIn(Tokens(options, '&'), name), '&');
  }

  lemma {:induction false} GetNone(ops: seq<string>, name: string, default: string)
    requires forall t <- ops :: !Names(t, name)
    ensures GetIn(ops, name, default) == default
  {
    if ops != [] {
      assert !Names(ops[0], name) by { assert ops[0] in ops; }
      GetNone(ops[1..], name, default);
    }
  }

  lemma {:induction false} GetInAppend(a: seq<string>, b: seq<string>, name: string, default: string)
    ensures GetIn(a + b, name, default) == GetIn(a, name, GetIn(b, name, default))
  {
    if a == [] {
      assert a + b == b;
    } else {
      assert (a + b)[1..] == a[1..] + b;
      GetInAppend(a[1..], b, name, default);
    }
  }

  lemma {:induction false} GetOtherRemoveIn(ops: seq<string>, n: string, m: string, default: string)
    requires '=' !in m && '=' !in n && m != n
    ensures GetIn(RemoveIn(ops, n), m, default) == GetIn(ops, m, default)
  {
    if ops != [] {
      var front, last := ops[..|ops| - 1], ops[|ops| - 1];
      if Names(last, n) && Names(last, m) {
        NamesDiffer(last, m, n);
      }
      var d := GetIn([last], m, default);
      assert [last][1..] == [];
      assert ops == front + [last];
      GetInAppend(front, [last], m, default);
      GetInAppend(RemoveIn(front, n), [last], m, default);
      GetOtherRemoveIn(front, n, m, d);
      if Names(last, n) {
        assert d == default && RemoveIn(ops, n) == RemoveIn(front, n);
      }
    }
  }

  /** After removal the name is gone, and every other name reads as before. */
  lemma GetAfterRemove(options: string, n: string, m: string, default: string)
    ensures Get(Remove(options, n), n, default) == default
    ensures '=' !in n && '=' !in m && m != n ==> Get(Remove(options, n), m, default) == Get(options, m, default)
  {
    RemoveTokens(options, n);
    RemoveInKeeps(Tokens(options, '&'), n);
    GetNone(RemoveIn(Tokens(options, '&'), n), n, default);
    if '=' !in n && '=' !in m && m != n {
      GetOtherRemoveIn(Tokens(options, '&'), n, m, default);
    }
  }

  /** The value that removal returns: that of the last option of the name, or nothing. */
  lemma {:induction false} LastInIs(ops: seq<string>, name: string, k: nat)
    requires k <= |ops| && forall i :: k < i < |ops| ==> !Names(ops[i], name)
    ensures k < |ops| && Names(ops[k], name) ==> LastIn(ops, name) == ValueOf(ops[k], name)
    ensures (forall t <- ops :: !Names(t, name)) ==> LastIn(ops, name) == ""
    decreases |ops|
  {
    hide Names, ValueOf;
    if ops != [] {
      var front := ops[..|ops| - 1];
      assert ops[|ops| - 1] in ops && forall t <- front :: t in ops;
      LastInIs(front, name, if k < |front| then k else |front|);
    }
  }

  // ---------------------------------------------------------------- sorting

  /** Sorting keeps the tokens and puts them in order; sorting again changes nothing. */
  lemma SortedTokens(options: string)
    ensures Tokens(Sorted(options), '&') == Sort(Tokens(options, '&'))
    ensures Sorted(Sorted(options)) == Sorted(options)
  {
    hide Fields, NonEmpty, Tokens, Join;
    var ops := Tokens(options, '&');
    TokensAreClean(options, '&');
    SortPermutes(ops);
    forall t | t in Sort(ops)
      ensures t in ops
    {
      assert t in multiset(Sort(ops));
    }
    SplitJoin(Sort(ops), '&');
    SortStable(ops);
  }

  /** The position of the first option of this name, or the end. */
  function FirstOf(ops: seq<string>, name: string): (i: nat)
    ensures i <= |ops|
    ensures i < |ops| ==> Names(ops[i], name)
    ensures forall k :: 0 <= k < i ==> !Names(ops[k], name)
  {
    if ops == [] || Names(ops[0], name) then 0 else 1 + FirstOf(ops[1..], name)
  }

  lemma {:induction false} GetIsFirst(ops: seq<string>, name: string, default: string)
    ensures var i := FirstOf(ops, name);
            GetIn(ops, name, default) == if i < |ops| then ValueOf(ops[i], name) else default
  {
    if ops != [] && !Names(ops[0], name) {
      GetIsFirst(ops[1..], name, default);
    }
  }

  lemma SameMembers(ops: seq<string>)
    ensures |Sort(ops)| == |ops| && forall t :: t in Sort(ops) <==> t in ops
  {
    SortPermutes(ops);
    assert |Sort(ops)| == |multiset(Sort(ops))| == |multiset(ops)| == |ops|;
    forall t
      ensures t in Sort(ops) <==> t in ops
    {
      assert t in multiset(Sort(ops)) <==> t in multiset(ops);
    }
  }

  ghost predicate FirstIsLeast(ops: seq<string>, name: string) {
    var i := FirstOf(ops, name);
    forall t <- ops :: Names(t, name) ==> i < |ops| && Leq(ops[i], t)
  }

  lemma {:induction false} LeqReflexive(a: string)
    ensures Leq(a, a)
  {
    LeqTotal(a, a);
  }

  lemma InOrderFirstIsLeast(ops: seq<string>, name: string)
    requires InOrder(ops)
    ensures FirstIsLeast(ops, name)
  {
    var i := FirstOf(ops, name);
    forall t | t in ops && Names(t, name)
      ensures i < |ops| && Leq(ops[i], t)
    {
      var j :| 0 <= j < |ops| && ops[j] == t;
      LeqReflexive(t);
    }
  }

  lemma SameOption(s: string, t: string, name: string)
    requires Names(s, name) && Names(t, name) && ValueOf(s, name) == ValueOf(t, name)
    ensures s == t
  {
    assert s == s[..|name| + 1] + ValueOf(s, name);
    assert t == t[..|name| + 1] + ValueOf(t, name);
  }

  /** Sorting the options, as printing a URL does, changes no lookup of a name exactly when the first
      of its options is the least of them; with a repeated name another value can come first. */
  lemma GetAfterSortIff(options: string, name: string)
    ensures (forall d: string :: Get(Sorted(options), name, d) == Get(options, name, d))
       <==> FirstIsLeast(Tokens(options, '&'), name)
  {
    hide Tokens, Sort, Sorted, Leq;
    var ops := Tokens(options, '&');
    var sorted := Sort(ops);
    SortedTokens(options);
    SameMembers(ops);
    SortInOrder(ops);
    InOrderFirstIsLeast(sorted, name);
    var i, j := FirstOf(ops, name), FirstOf(sorted, name);
    forall d: string
      ensures Get(options, name, d) == if i < |ops| then ValueOf(ops[i], name) else d
      ensures Get(Sorted(options), name, d) == if j < |ops| then ValueOf(sorted[j], name) else d
    {
      GetIsFirst(ops, name, d);
      GetIsFirst(sorted, name, d);
    }
    if i < |ops| {
      assert ops[i] in sorted && j < |ops| && sorted[j] in ops;
      assert Leq(sorted[j], ops[i]);
      if FirstIsLeast(ops, name) {
        LeqTotal(ops[i], sorted[j]);
      } else if Get(Sorted(options), name, "") == Get(options, name, "") {
        SameOption(ops[i], sorted[j], name);
      }
    } else {
      assert forall t <- sorted :: !Names(t, name);
    }
  }

  /** A lookup that sorting changes: the name is there twice, with the greater option first. */
  lemma SortChangesLookup(d: string)
    ensures Get("a=2&a=1", "a", d) == "2" && Get(Sorted("a=2&a=1"), "a", d) == "1"
  {
    hide Tokens, Join;
    var ops := ["a=2", "a=1"];
    TokensOne("a=2", '&');
    TokensOne("a=1", '&');
    assert "a=2&a=1" == "a=2" + ['&'] + "a=1";
    TokensAppend("a=2", "a=1", '&');
    assert Tokens("a=2&a=1", '&') == ops;
    SortedTokens("a=2&a=1");
    SortTwo("a=2", "a=1");
    GetHead("a=2", ["a=1"], "a", "2", d);
    GetHead("a=1", ["a=2"], "a", "1", d);
  }

  lemma SortTwo(greater: string, less: string)
    requires !Leq(greater, less)
    ensures Sort([greater, less]) == [less] + [greater]
  {
    assert [greater, less][1..] == [less];
    assert [less][1..] == [] && Sort([less]) == [less];
    assert InsertSorted([less], greater) == [less] + InsertSorted([], greater);
  }

  lemma GetHead(op: string, rest: seq<string>, name: string, value: string, d: string)
    requires op == NameValue(name, value)
    ensures GetIn([op] + rest, name, d) == value
  {
  }

  // ---------------------------------------------------------------- the loops over the tokens

  lemma {:induction false} SetInIs(ops: seq<string>, name: string, value: string)
    ensures var i, t := FirstOf(ops, name), NameValue(name, value);
            SetIn(ops, name, value) == if i < |ops| then ops[i := t] else ops + [t]
  {
    hide Names, NameValue;
    if ops == [] {
    } else if Names(ops[0], name) {
      assert FirstOf(ops, name) == 0;
      assert ops[0 := NameValue(name, value)] == [NameValue(name, value)] + ops[1..];
    } else {
      SetInIs(ops[1..], name, value);
    }
  }

  method SetToken(tokens: seq<string>, name: string, value: string) returns (ops: seq<string>)
    ensures ops == SetIn(tokens, name, value)
  {
    ops := tokens;
    var newOption := name + "=" + value;
    SetInIs(tokens, name, value);
    for i := 0 to |ops|
      invariant ops == tokens && i <= FirstOf(tokens, name)
    {
      if name + "=" <= ops[i] {
        return ops[i := newOption];
      }
    }
    ops := ops + [newOption];
  }

  method GetToken(ops: seq<string>, name: string, default: string) returns (value: string)
    ensures value == GetIn(ops, name, default)
  {
    GetIsFirst(ops, name, default);
    for i := 0 to |ops|
      invariant i <= FirstOf(ops, name)
    {
      if name + "=" <= ops[i] {
        return ops[i][|name| + 1..];
      }
    }
    return default;
  }

  lemma EraseStep(tokens: seq<string>, name: string, seen: nat, kept: seq<string>, ops: seq<string>)
    requires seen < |tokens| && kept == RemoveIn(tokens[..seen], name) && ops == kept + tokens[seen..]
    ensures ops[|kept|] == tokens[seen]
    ensures if Names(tokens[seen], name)
            then && RemoveIn(tokens[..seen + 1], name) == kept
                 && LastIn(tokens[..seen + 1], name) == ValueOf(tokens[seen], name)
                 && ops[..|kept|] + ops[|kept| + 1..] == kept + tokens[seen + 1..]
            else && RemoveIn(tokens[..seen + 1], name) == kept + [tokens[seen]]
                 && LastIn(tokens[..seen + 1], name) == LastIn(tokens[..seen], name)
                 && ops == (kept + [tokens[seen]]) + tokens[seen + 1..]
  {
    assert tokens[..seen + 1][..seen] == tokens[..seen];
    if Names(tokens[seen], name) {
      assert ops[..|kept|] == kept && ops[|kept| + 1..] == tokens[seen + 1..];
    } else {
      assert tokens[seen..] == [tokens[seen]] + tokens[seen + 1..];
    }
  }

  /** Erases a token and steps back, so that the one that slides into its place is looked at. */
  method EraseTokens(tokens: seq<string>, name: string) returns (ops: seq<string>, removed: string)
    ensures ops == RemoveIn(tokens, name)
    ensures removed == LastIn(tokens, name)
  {
    hide RemoveIn, LastIn;
    ops, removed := tokens, "";
    ghost var seen := 0;
    var i := 0;
    EraseNone(tokens, name);
    while i < |ops|
      invariant 0 <= i <= |ops| && 0 <= seen <= |tokens|
      invariant ops == RemoveIn(tokens[..seen], name) + tokens[seen..]
      invariant i == |RemoveIn(tokens[..seen], name)|
      invariant removed == LastIn(tokens[..seen], name)
      decreases |ops| - i
    {
      EraseStep(tokens, name, seen, RemoveIn(tokens[..seen], name), ops);
      if name + "=" <= ops[i] {
        removed := ops[i][|name| + 1..];
        ops := ops[..i] + ops[i + 1..];
        i := i - 1;
      }
      i := i + 1;
      seen := seen + 1;
    }
    assert tokens[..seen] == tokens && tokens[seen..] == [];
  }

  lemma EraseNone(tokens: seq<string>, name: string)
    ensures RemoveIn(tokens[..0], name) == [] && LastIn(tokens[..0], name) == ""
    ensures RemoveIn(tokens[..0], name) + tokens[0..] == tokens
  {
  }
}
