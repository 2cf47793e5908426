/**
 The string helpers the other components are built on: searching, splitting at a separator, joining,
 paths, hexadecimal numbers, and sorting.
 */
module Strings {
  import opened Common

  // ---------------------------------------------------------------- searching

  /** The first position from i on that holds one of the given characters, or the end. */
  function FindAny(s: string, cs: set<char>, i: nat): (j: nat)
    requires i <= |s|
    ensures i <= j <= |s|
    ensures j < |s| ==> s[j] in cs
    ensures forall k :: i <= k < j ==> s[k] !in cs
    decreases |s| - i
  {
    if i == |s| || s[i] in cs then i else FindAny(s, cs, i + 1)
  }

  function Find(s: string, c: char, i: nat): (j: nat)
    requires i <= |s|
    ensures i <= j <= |s|
    ensures j < |s| ==> s[j] == c
    ensures forall k :: i <= k < j ==> s[k] != c
  {
    FindAny(s, {c}, i)
  }

  /** The last position of a character, or -1. */
  function FindLast(s: string, c: char): (j: int)
    ensures -1 <= j < |s|
    ensures j >= 0 ==> s[j] == c
    ensures forall k :: j < k < |s| ==> s[k] != c
  {
    if s == "" then -1
    else if s[|s| - 1] == c then |s| - 1
    else FindLast(s[..|s| - 1], c)
  }

  // ---------------------------------------------------------------- Split and Join

  /** The fields of a string, empty ones included. */
  function Fields(s: string, sep: char): (ts: seq<string>)
    ensures ts != []
    decreases |s|
  {
    var i := Find(s, sep, 0);
    if i == |s| then [s] else [s[..i]] + Fields(s[i + 1..], sep)
  }

  function NonEmpty(ts: seq<string>): (r: seq<string>)
    ensures forall t <- r :: t in ts && t != ""
  {
    if ts == [] then [] else (if ts[0] == "" then [] else [ts[0]]) + NonEmpty(ts[1..])
  }

  function Tokens(s: string, sep: char): seq<string> {
    NonEmpty(Fields(s, sep))
  }

  function Join(ts: seq<string>, sep: char): string {
    if ts == [] then "" else if |ts| == 1 then ts[0] else ts[0] + [sep] + Join(ts[1..], sep)
  }

  ghost predicate Clean(ts: seq<string>, sep: char) {
    forall t <- ts :: t != "" && sep !in t
  }

  lemma CleanPrefix(ts: seq<string>, sep: char, n: nat)
    requires Clean(ts, sep) && n <= |ts|
    ensures Clean(ts[..n], sep)
  {
    assert forall t <- ts[..n] :: t in ts;
  }

  lemma {:induction false} NonEmptyAppend(a: seq<string>, b: seq<string>)
    ensures NonEmpty(a + b) == NonEmpty(a) + NonEmpty(b)
  {
    if a == [] {
      assert a + b == b;
    } else {
      assert (a + b)[1..] == a[1..] + b;
      NonEmptyAppend(a[1..], b);
    }
  }

  lemma FieldsNoSep(s: string, sep: char)
    requires sep !in s
    ensures Fields(s, sep) == [s]
  {
  }

  lemma FieldsStep(s: string, field: string, rest: string, sep: char)
    requires s == field + [sep] + rest && sep !in field
    ensures Fields(s, sep) == [field] + Fields(rest, sep)
  {
    var i := |field|;
    assert s[i] == sep && forall k :: 0 <= k < i ==> s[k] == field[k];
    assert Find(s, sep, 0) == i;
    assert s[..i] == field && s[i + 1..] == rest;
  }

  lemma {:induction false} FieldsAppend(a: string, b: string, sep: char)
    ensures Fields(a + [sep] + b, sep) == Fields(a, sep) + Fields(b, sep)
    decreases |a|
  {
    hide *;
    var i := Find(a, sep, 0);
    if i == |a| {
      FieldsNoSep(a, sep);
      FieldsStep(a + [sep] + b, a, b, sep);
    } else {
      var field, rest := a[..i], a[i + 1..];
      FieldsStep(a, field, rest, sep);
      FieldsAppend(rest, b, sep);
      assert a + [sep] + b == field + [sep] + (rest + [sep] + b);
      FieldsStep(a + [sep] + b, field, rest + [sep] + b, sep);
      assert [field] + (Fields(rest, sep) + Fields(b, sep)) == ([field] + Fields(rest, sep)) + Fields(b, sep);
    }
  }

  lemma TokensAppend(a: string, b: string, sep: char)
    ensures Tokens(a + [sep] + b, sep) == Tokens(a, sep) + Tokens(b, sep)
  {
    FieldsAppend(a, b, sep);
    NonEmptyAppend(Fields(a, sep), Fields(b, sep));
  }

  lemma TokensOne(t: string, sep: char)
    requires sep !in t
    ensures Tokens(t, sep) == if t == "" then [] else [t]
  {
    FieldsNoSep(t, sep);
    assert [t][1..] == [] && NonEmpty([]) == [];
  }

  lemma {:induction false} FieldsAreSeparated(s: string, sep: char)
    ensures forall t <- Fields(s, sep) :: sep !in t
    decreases |s|
  {
    var i := Find(s, sep, 0);
    if i < |s| {
      FieldsAreSeparated(s[i + 1..], sep);
    }
  }

  /** Splitting yields non-empty tokens without the separator. */
  lemma TokensAreClean(s: string, sep: char)
    ensures Clean(Tokens(s, sep), sep)
  {
    FieldsAreSeparated(s, sep);
  }

  /** Splitting loses nothing: joining the fields, empty ones included, gives the string back. */
  lemma {:induction false} JoinFields(s: string, sep: char)
    ensures Join(Fields(s, sep), sep) == s
    decreases |s|
  {
    var i := Find(s, sep, 0);
    if i < |s| {
      var rest := Fields(s[i + 1..], sep);
      JoinFields(s[i + 1..], sep);
      assert ([s[..i]] + rest)[1..] == rest;
      assert s == s[..i] + [sep] + s[i + 1..];
    }
  }

  /** Splitting what was joined gives the tokens back. */
  lemma {:induction false} SplitJoin(ts: seq<string>, sep: char)
    requires Clean(ts, sep)
    ensures Tokens(Join(ts, sep), sep) == ts
  {
    if ts == [] {
      TokensOne("", sep);
    } else {
      TokensOne(ts[0], sep);
      if |ts| > 1 {
        assert forall t <- ts[1..] :: t in ts;
        SplitJoin(ts[1..], sep);
        TokensAppend(ts[0], Join(ts[1..], sep), sep);
        assert [ts[0]] + ts[1..] == ts;
      } else {
        assert ts == [ts[0]];
      }
    }
  }

  lemma JoinEmptyIff(ts: seq<string>, sep: char)
    requires Clean(ts, sep)
    ensures Join(ts, sep) == "" <==> ts == []
  {
    if ts != [] {
      assert |ts[0]| > 0 by { assert ts[0] in ts; }
      assert |Join(ts, sep)| > 0;
    }
  }

  function Kept(ts: seq<string>, removeEmpty: bool): seq<string> {
    if removeEmpty then NonEmpty(ts) else ts
  }

  /** One field as it is kept: an empty one may be dropped. */
  function Piece(field: string, removeEmpty: bool): seq<string> {
    if removeEmpty && field == "" then [] else [field]
  }

  /** Splitting from a position on, field by field. */
  function SplitFrom(text: string, sep: char, start: nat, removeEmpty: bool): seq<string>
    requires start <= |text|
    decreases |text| - start
  {
    var end := Find(text, sep, start);
    if end == |text| then Piece(text[start..], removeEmpty)
    else Piece(text[start..end], removeEmpty) + SplitFrom(text, sep, end + 1, removeEmpty)
  }

  lemma KeptLast(s: string, sep: char, removeEmpty: bool)
    requires sep !in s
    ensures Kept(Fields(s, sep), removeEmpty) == Piece(s, removeEmpty)
  {
    FieldsNoSep(s, sep);
    TokensOne(s, sep);
  }

  lemma KeptCons(s: string, field: string, rest: string, sep: char, removeEmpty: bool)
    requires s == field + [sep] + rest && sep !in field
    ensures Kept(Fields(s, sep), removeEmpty) == Piece(field, removeEmpty) + Kept(Fields(rest, sep), removeEmpty)
  {
    FieldsAppend(field, rest, sep);
    FieldsNoSep(field, sep);
    TokensOne(field, sep);
    NonEmptyAppend([field], Fields(rest, sep));
  }

  lemma {:induction false} SplitFromIsFields(text: string, sep: char, start: nat, removeEmpty: bool)
    requires start <= |text|
    ensures SplitFrom(text, sep, start, removeEmpty) == Kept(Fields(text[start..], sep), removeEmpty)
    decreases |text| - start
  {
    hide Fields, Kept, Piece, FindAny;
    var end := Find(text, sep, start);
    if end == |text| {
      KeptLast(text[start..], sep, removeEmpty);
    } else {
      var field, rest := text[start..end], text[end + 1..];
      SplitFromIsFields(text, sep, end + 1, removeEmpty);
      assert text[start..] == field + [sep] + rest;
      KeptCons(text[start..], field, rest, sep, removeEmpty);
    }
  }

  /** The tokens so far and those of the text from start on are all there are. */
  ghost predicate Pending(text: string, sep: char, start: nat, removeEmpty: bool, tokens: seq<string>)
    requires start <= |text|
  {
    tokens + SplitFrom(text, sep, start, removeEmpty) == Kept(Fields(text, sep), removeEmpty)
  }

  lemma PendingStart(text: string, sep: char, removeEmpty: bool)
    ensures Pending(text, sep, 0, removeEmpty, [])
  {
    hide SplitFrom, Kept, Fields;
    SplitFromIsFields(text, sep, 0, removeEmpty);
    assert text[0..] == text;
    assert [] + SplitFrom(text, sep, 0, removeEmpty) == SplitFrom(text, sep, 0, removeEmpty);
  }

  lemma PendingStep(text: string, sep: char, start: nat, removeEmpty: bool, tokens: seq<string>)
    requires start <= |text| && Pending(text, sep, start, removeEmpty, tokens)
    ensures var end := Find(text, sep, start);
            if end == |text| then tokens + Piece(text[start..], removeEmpty) == Kept(Fields(text, sep), removeEmpty)
            else Pending(text, sep, end + 1, removeEmpty, tokens + Piece(text[start..end], removeEmpty))
  {
    hide Find, Piece, Kept, Fields;
    var end := Find(text, sep, start);
    if end < |text| {
      var piece, rest := Piece(text[start..end], removeEmpty), SplitFrom(text, sep, end + 1, removeEmpty);
      assert tokens + (piece + rest) == (tokens + piece) + rest;
    }
  }

  /** The loop that moves start from one separator to the next. */
  method Split(text: string, sep: char, removeEmpty: bool) returns (tokens: seq<string>)
    ensures tokens == Kept(Fields(text, sep), removeEmpty)
  {
    hide *;
    tokens := [];
    var start := 0;
    var end := Find(text, sep, start);
    PendingStart(text, sep, removeEmpty);
    while end < |text|
      invariant 0 <= start <= end <= |text| && end == Find(text, sep, start)
      invariant Pending(text, sep, start, removeEmpty, tokens)
      decreases |text| - start
    {
      PendingStep(text, sep, start, removeEmpty, tokens);
      tokens := Append(tokens, text[start..end], removeEmpty);
      start := end + 1;
      end := Find(text, sep, start);
    }
    PendingStep(text, sep, start, removeEmpty, tokens);
    tokens := Append(tokens, text[start..], removeEmpty);
  }

  method SplitTokens(text: string, sep: char) returns (tokens: seq<string>)
    ensures tokens == Tokens(text, sep)
  {
    tokens := Split(text, sep, true);
  }

  method Append(tokens: seq<string>, field: string, removeEmpty: bool) returns (r: seq<string>)
    ensures r == tokens + Piece(field, removeEmpty)
  {
    r := tokens;
    if !removeEmpty || field != "" {
      r := r + [field];
    }
  }

  method JoinTokens(tokens: seq<string>, sep: char) returns (s: string)
    ensures s == Join(tokens, sep)
  {
    s := "";
    ghost var whole := Join(tokens, sep);
    assert tokens[0..] == tokens;
    for i := 0 to |tokens|
      invariant s + Join(tokens[i..], sep) == whole
    {
      assert tokens[i..][1..] == tokens[i + 1..];
      s := s + tokens[i];
      if i + 1 < |tokens| {
        s := s + [sep];
      }
    }
  }

  // ---------------------------------------------------------------- paths

  /** SplitPath reads with getline and drops empty items, which is Split at '/' without empty fields. */
  function PathParts(path: string): seq<string> {
    Tokens(path, '/')
  }

  function JoinPath(parts: seq<string>): string {
    if parts == [] then "" else "/" + Join(parts, '/')
  }

  lemma {:induction false} JoinSnoc(ts: seq<string>, t: string, sep: char)
    requires ts != []
    ensures Join(ts + [t], sep) == Join(ts, sep) + [sep] + t
  {
    if |ts| == 1 {
      assert (ts + [t])[1..] == [t];
    } else {
      assert (ts + [t])[1..] == ts[1..] + [t];
      JoinSnoc(ts[1..], t, sep);
    }
  }

  lemma JoinPathSnoc(parts: seq<string>, part: string)
    ensures JoinPath(parts + [part]) == JoinPath(parts) + "/" + part
  {
    if parts == [] {
      assert parts + [part] == [part];
    } else {
      JoinSnoc(parts, part, '/');
    }
  }

  /** The parts of a joined path are the ones that were joined. */
  lemma SplitJoinPath(parts: seq<string>)
    requires Clean(parts, '/')
    ensures PathParts(JoinPath(parts)) == parts
  {
    hide Tokens, Join;
    TokensOne("", '/');
    if parts != [] {
      assert JoinPath(parts) == "" + ['/'] + Join(parts, '/');
      TokensAppend("", Join(parts, '/'), '/');
      SplitJoin(parts, '/');
    }
  }

  method JoinPathLoop(parts: seq<string>, numItems: nat) returns (s: string)
    requires numItems <= |parts|
    ensures s == JoinPath(parts[..numItems])
  {
    s := "";
    for i := 0 to numItems
      invariant s == JoinPath(parts[..i])
    {
      JoinPathSnoc(parts[..i], parts[i]);
      assert parts[..i + 1] == parts[..i] + [parts[i]];
      s := s + "/" + parts[i];
    }
  }

  // ---------------------------------------------------------------- hexadecimal numbers

  predicate IsHex(c: char) {
    '0' <= c <= '9' || 'a' <= c <= 'f' || 'A' <= c <= 'F'
  }

  function HexDigit(d: nat): (c: char)
    requires d < 16
    ensures '0' <= c <= '9' || 'a' <= c <= 'f'
    ensures HexVal(c) == d
  {
    if d < 10 then '0' + d as char else 'a' + (d - 10) as char
  }

  function HexVal(c: char): (d: nat)
    requires IsHex(c)
    ensures d < 16
  {
    if c <= '9' then c as int - '0' as int
    else if c <= 'F' then c as int - 'A' as int + 10
    else c as int - 'a' as int + 10
  }

  predicate AllHex(s: string) {
    forall c <- s :: IsHex(c)
  }

  /** What a stream prints for a number under std::hex. */
  function HexString(n: nat): string {
    (if n < 16 then "" else HexString(n / 16)) + [HexDigit(n % 16)]
  }

  function HexValue(s: string): nat
    requires AllHex(s)
  {
    if s == "" then 0 else HexValue(s[..|s| - 1]) * 16 + HexVal(s[|s| - 1])
  }

  ghost predicate LowerHex(s: string) {
    forall c <- s :: '0' <= c <= '9' || 'a' <= c <= 'f'
  }

  lemma HexSnoc(s: string, d: nat)
    requires LowerHex(s) && AllHex(s) && d < 16
    ensures LowerHex(s + [HexDigit(d)]) && AllHex(s + [HexDigit(d)])
    ensures HexValue(s + [HexDigit(d)]) == HexValue(s) * 16 + d
  {
    assert (s + [HexDigit(d)])[..|s|] == s;
  }

  lemma HexNone()
    ensures HexValue("") == 0
  {
  }

  lemma {:induction false} HexRoundTrip(n: nat)
    ensures HexString(n) != "" && LowerHex(HexString(n)) && AllHex(HexString(n)) && HexValue(HexString(n)) == n
  {
    hide HexValue, HexDigit;
    if n < 16 {
      HexNone();
      HexSnoc("", n);
      assert HexString(n) == "" + [HexDigit(n)];
    } else {
      HexRoundTrip(n / 16);
      HexSnoc(HexString(n / 16), n % 16);
      assert HexString(n) == HexString(n / 16) + [HexDigit(n % 16)];
    }
  }

  lemma HexStringSnoc(v: nat, d: nat)
    requires v > 0 && d < 16
    ensures HexString(16 * v + d) == HexString(v) + [HexDigit(d)]
  {
    hide HexDigit;
    assert (16 * v + d) / 16 == v && (16 * v + d) % 16 == d;
  }

  lemma HexDigitVal(c: char)
    requires '0' <= c <= '9' || 'a' <= c <= 'f'
    ensures HexDigit(HexVal(c)) == c && (HexVal(c) == 0 <==> c == '0')
    ensures HexString(HexVal(c)) == [c]
  {
  }

  /** Printing a number that was read gives its text back, if it has no capitals and no leading zero. */
  lemma {:induction false} HexPrintRead(s: string)
    requires s != "" && LowerHex(s) && AllHex(s) && (s == "0" || s[0] != '0')
    ensures HexString(HexValue(s)) == s && (s[0] != '0' ==> HexValue(s) > 0)
  {
    hide HexDigit, HexVal, HexString;
    var front, last := s[..|s| - 1], s[|s| - 1];
    assert last in s && s == front + [last];
    HexDigitVal(last);
    if front == "" {
      HexNone();
    } else {
      assert forall c <- front :: c in s;
      assert front[0] == s[0];
      HexPrintRead(front);
      HexStringSnoc(HexValue(front), HexVal(last));
    }
  }

  /** Capitals and leading zeros do not change what a text reads as. */
  lemma {:induction false} HexReadsAlike(s: string, zeros: nat)
    requires AllHex(s)
    ensures AllHex(seq(zeros, _ => '0') + s) && HexValue(seq(zeros, _ => '0') + s) == HexValue(s)
    decreases |s|, zeros
  {
    var t := seq(zeros, _ => '0') + s;
    assert forall c <- t :: c == '0' || c in s;
    if s != "" {
      HexReadsAlike(s[..|s| - 1], zeros);
      assert t[..|t| - 1] == seq(zeros, _ => '0') + s[..|s| - 1];
    } else if zeros > 0 {
      HexReadsAlike(s, zeros - 1);
      assert t[..|t| - 1] == seq(zeros - 1, _ => '0') + s;
    }
  }

  lemma HexCapital(c: char)
    requires 'A' <= c <= 'F'
    ensures HexVal(c) == HexVal((c as int + 32) as char) == c as int - 55
  {
  }

  lemma HexInjective(m: nat, n: nat)
    requires HexString(m) == HexString(n)
    ensures m == n
  {
    HexRoundTrip(m);
    HexRoundTrip(n);
  }

  function Pow16(k: nat): nat {
    if k == 0 then 1 else 16 * Pow16(k - 1)
  }

  lemma Pow16Values()
    ensures Pow16(8) == WORD && Pow16(16) == UINT64
  {
    assert Pow16(4) == 0x1_0000;
    assert Pow16(8) == 0x1_0000 * 0x1_0000;
    assert Pow16(12) == 0x1_0000_0000_0000;
  }

  lemma {:induction false} HexLength(n: nat, k: nat)
    requires k > 0 && n < Pow16(k)
    ensures |HexString(n)| <= k
  {
    if n >= 16 {
      HexLength(n / 16, k - 1);
    }
  }

  // ---------------------------------------------------------------- decimal numbers

  predicate IsDigit(c: char) {
    '0' <= c <= '9'
  }

  function DecDigit(d: nat): (c: char)
    requires d < 10
    ensures IsDigit(c) && c as int - '0' as int == d
  {
    '0' + d as char
  }

  /** What std::to_string and a stream print for a number. */
  function DecString(n: nat): (s: string)
    ensures s != "" && IsDigit(s[|s| - 1])
  {
    (if n < 10 then "" else DecString(n / 10)) + [DecDigit(n % 10)]
  }

  /** Reads digits up to the first character that is none. */
  function LeadingDigits(s: string, acc: nat): nat {
    if s == "" || !IsDigit(s[0]) then acc else LeadingDigits(s[1..], 10 * acc + (s[0] as int - '0' as int))
  }

  ghost predicate AllDigits(s: string) {
    forall c <- s :: IsDigit(c)
  }

  lemma {:induction false} LeadingDigitsSnoc(s: string, c: char, acc: nat)
    requires AllDigits(s) && IsDigit(c)
    ensures LeadingDigits(s + [c], acc) == 10 * LeadingDigits(s, acc) + (c as int - '0' as int)
  {
    if s == "" {
      assert s + [c] == [c] && [c][1..] == "";
    } else {
      assert (s + [c])[1..] == s[1..] + [c];
      assert s[0] in s;
      LeadingDigitsSnoc(s[1..], c, 10 * acc + (s[0] as int - '0' as int));
    }
  }

  lemma {:induction false} DecRoundTrip(n: nat)
    ensures AllDigits(DecString(n)) && LeadingDigits(DecString(n), 0) == n
  {
    if n < 10 {
      LeadingDigitsSnoc("", DecDigit(n), 0);
      assert "" + [DecDigit(n)] == DecString(n);
    } else {
      DecRoundTrip(n / 10);
      LeadingDigitsSnoc(DecString(n / 10), DecDigit(n % 10), 0);
    }
  }

  // ---------------------------------------------------------------- sorting

  /** The order of std::string. */
  predicate Leq(a: string, b: string) {
    a == "" || (b != "" && (a[0] < b[0] || (a[0] == b[0] && Leq(a[1..], b[1..]))))
  }

  lemma {:induction false} LeqTotal(a: string, b: string)
    ensures Leq(a, b) || Leq(b, a)
    ensures Leq(a, b) && Leq(b, a) ==> a == b
  {
    if a != "" && b != "" && a[0] == b[0] {
      LeqTotal(a[1..], b[1..]);
      assert a == [a[0]] + a[1..] && b == [b[0]] + b[1..];
    }
  }

  lemma {:induction false} LeqTransitive(a: string, b: string, c: string)
    requires Leq(a, b) && Leq(b, c)
    ensures Leq(a, c)
  {
    if a != "" && a[0] == b[0] == c[0] {
      LeqTransitive(a[1..], b[1..], c[1..]);
    }
  }

  ghost predicate InOrder(ts: seq<string>) {
    forall i, j :: 0 <= i < j < |ts| ==> Leq(ts[i], ts[j])
  }

  function InsertSorted(ts: seq<string>, t: string): seq<string> {
    if ts == [] || Leq(t, ts[0]) then [t] + ts else [ts[0]] + InsertSorted(ts[1..], t)
  }

  function Sort(ts: seq<string>): seq<string> {
    if ts == [] then [] else InsertSorted(Sort(ts[1..]), ts[0])
  }

  lemma {:induction false} InsertSortedAdds(ts: seq<string>, t: string)
    ensures multiset(InsertSorted(ts, t)) == multiset(ts) + multiset{t}
  {
    if !(ts == [] || Leq(t, ts[0])) {
      InsertSortedAdds(ts[1..], t);
      assert ts == [ts[0]] + ts[1..];
    }
  }

  lemma {:induction false} SortPermutes(ts: seq<string>)
    ensures multiset(Sort(ts)) == multiset(ts)
  {
    if ts != [] {
      SortPermutes(ts[1..]);
      InsertSortedAdds(Sort(ts[1..]), ts[0]);
      assert ts == [ts[0]] + ts[1..];
    }
  }

  lemma {:induction false} InsertSortedInOrder(ts: seq<string>, t: string)
    requires InOrder(ts)
    ensures InOrder(InsertSorted(ts, t))
  {
    if ts != [] {
      LeqTotal(t, ts[0]);
      if Leq(t, ts[0]) {
        forall j | 0 < j < |ts|
          ensures Leq(t, ts[j])
        {
          LeqTransitive(t, ts[0], ts[j]);
        }
      } else {
        var rest := InsertSorted(ts[1..], t);
        InsertSortedInOrder(ts[1..], t);
        InsertSortedAdds(ts[1..], t);
        forall x | x in rest
          ensures Leq(ts[0], x)
        {
          assert x in multiset(rest);
        }
      }
    }
  }

  lemma {:induction false} SortInOrder(ts: seq<string>)
    ensures InOrder(Sort(ts))
  {
    if ts != [] {
      SortInOrder(ts[1..]);
      InsertSortedInOrder(Sort(ts[1..]), ts[0]);
    }
  }

  lemma SmallestFirst(a: seq<string>, b: seq<string>)
    requires a != [] && b != [] && InOrder(a) && InOrder(b) && multiset(a) == multiset(b)
    ensures a[0] == b[0]
  {
    assert a[0] in multiset(b) && b[0] in multiset(a);
    var i :| 0 <= i < |a| && a[i] == b[0];
    var j :| 0 <= j < |b| && b[j] == a[0];
    LeqTotal(a[0], b[0]);
  }

  lemma TailMultiset(a: seq<string>)
    requires a != []
    ensures multiset(a[1..]) == multiset(a) - multiset{a[0]}
  {
    assert a == [a[0]] + a[1..];
  }

  /** Being in order and a permutation determines the result, so any sort gives this one. */
  lemma {:induction false} SortUnique(a: seq<string>, b: seq<string>)
    requires InOrder(a) && InOrder(b) && multiset(a) == multiset(b)
    ensures a == b
  {
    assert |a| == |multiset(a)| == |multiset(b)| == |b|;
    if a != [] {
      SmallestFirst(a, b);
      TailMultiset(a);
      TailMultiset(b);
      SortUnique(a[1..], b[1..]);
      assert a == [a[0]] + a[1..] && b == [b[0]] + b[1..];
    }
  }

  lemma SortStable(ts: seq<string>)
    ensures Sort(Sort(ts)) == Sort(ts)
  {
    SortInOrder(ts);
    SortInOrder(Sort(ts));
    SortPermutes(Sort(ts));
    SortUnique(Sort(Sort(ts)), Sort(ts));
  }
}
