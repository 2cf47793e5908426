/**
 Resource URLs of the form type:<node>[bucket]/path/name&options: the hand-written parser, the
 printer, and what one does to the output of the other.
 */
module ResourceUrl {
  import opened Common
  import opened Strings
  import UrlOptions
  import opened UrlPaths

  const DELIMS: set<char> := {'[', ']', '<', '>', '/', ':', '&'}

  // ---------------------------------------------------------------- scanning

  datatype Scanned = Scanned(kind: string, bucket: string, node: string, pathname: string, options: string)

  function LowerChar(c: char): char {
    if 'A' <= c <= 'Z' then (c as int + 32) as char else c
  }

  function Lower(s: string): (r: string)
    ensures |r| == |s| && forall i :: 0 <= i < |s| ==> r[i] == LowerChar(s[i])
  {
    seq(|s|, i requires 0 <= i < |s| => LowerChar(s[i]))
  }

  datatype ScanStep = Stop(result: Result<Scanned>) | Go(next: nat, found: Scanned)

  /** One turn of the parser's loop: each piece is announced by its first character. */
  function Turn(url: string, i: nat, f: Scanned): (r: ScanStep)
    requires i < |url|
    ensures r.Go? ==> i < r.next <= |url|
  {
    match url[i]
    case '[' =>
      var j := FindAny(url, DELIMS, i + 1);
      if j == |url| || url[j] != ']' then Stop(Err) else Go(j + 1, f.(bucket := url[i + 1..j]))
    case '<' =>
      var j := Find(url, '>', i + 1);
      if j == |url| then Stop(Err) else Go(j + 1, f.(node := url[i + 1..j]))
    case '/' =>
      var j := Find(url, '&', i + 1);
      Go(j, f.(pathname := url[i..j]))
    case '&' =>
      Go(|url|, f.(options := url[i + 1..]))
    case _ =>
      if i != 0 then Stop(Err)
      else if url[0] == ':' then Go(1, f.(kind := ""))
      else
        var j := FindAny(url, DELIMS, 0);
        if j == |url| || url[j] != ':' then Stop(Err) else Go(j + 1, f.(kind := Lower(url[..j])))
  }

  function Scan(url: string, i: nat, f: Scanned): Result<Scanned>
    requires i <= |url|
    decreases |url| - i
  {
    if i == |url| then Ok(f)
    else
      match Turn(url, i, f)
      case Stop(r) => r
      case Go(next, found) => Scan(url, next, found)
  }

  // ---------------------------------------------------------------- making sense of the pieces

  datatype Parsed = Parsed(kind: string, bucket: string, node: string, place: Place, options: string)

  function NormalKind(kind: string): string {
    if kind == "ref" then ""
    else if kind == "local" || kind == "localkv" || kind == "lkv" then "local"
    else kind
  }

  function Chop(s: string): string
    requires s != ""
  {
    if s[|s| - 1] == '/' then s[..|s| - 1] else s
  }

  /** The place a path-and-name other than "/" describes. */
  function Separate(pathname: string): Place
    requires pathname != ""
  {
    var p := Chop(pathname);
    var j := FindLast(p, '/');
    if j < 0 then Place("/", p) else Place(if j == 0 then "/" else p[..j], p[j + 1..])
  }

  predicate IsLocal(u: Place) {
    u.path == "/local" || u == Place("/", "local") || "/local/" <= u.path
  }

  function Interpret(f: Scanned): Result<Parsed> {
    var kind := NormalKind(f.kind);
    if f.pathname == "" && kind != "local" && kind != "null" then Err
    else
      var place := if f.pathname == "" || f.pathname == "/" then Place("/", "") else Separate(f.pathname);
      if f.pathname != "" && f.pathname != "/" && place.path[..1] != "/" then Err
      else if f.pathname != "" && f.pathname != "/" && place.name == "" &&
              kind != "local" && kind != "null" && kind != "unconfigured" then Err
      else
        Ok(Parsed(if kind == "" && IsLocal(place) then "local" else kind, f.bucket, f.node, place, f.options))
  }

  function Parse(url: string): Result<Parsed> {
    match Scan(url, 0, Scanned("", "", "", "", ""))
    case Err => Err
    case Ok(f) => Interpret(f)
  }

  // ---------------------------------------------------------------- the object

  datatype Url = Url(kind: string, node: U64, bucket: U32, place: Place, options: string)

  /** What the model leaves open: the hash of a bucket name, what a stream reads from a node number that
      is not one to sixteen hexadecimal digits, and what it leaves for a bucket number without digits. */
  datatype Conversions = Conversions(hash: string -> U32, oddNode: string -> U64, emptyBucket: U32)

  lemma {:induction false} HexValueBound(s: string)
    requires AllHex(s)
    ensures HexValue(s) < Pow16(|s|)
  {
    if s != "" {
      HexValueBound(s[..|s| - 1]);
    }
  }

  lemma {:induction false} Pow16Monotone(k: nat, n: nat)
    requires k <= n
    ensures Pow16(k) <= Pow16(n)
  {
    if k < n {
      Pow16Monotone(k, n - 1);
    }
  }

  function BucketOf(s: string, conv: Conversions): Result<U32> {
    if !("0x" <= s) then Ok(conv.hash(s))
    else if |s| > 10 || !AllHex(s[2..]) then Err
    else if |s| == 2 then Ok(conv.emptyBucket)
    else
      HexValueBound(s[2..]);
      Pow16Monotone(|s[2..]|, 8);
      Pow16Values();
      Ok(HexValue(s[2..]))
  }

  function NodeOf(s: string, conv: Conversions): Result<U64> {
    if !("0x" <= s) then Err
    else if 1 <= |s[2..]| <= 16 && AllHex(s[2..]) then
      HexValueBound(s[2..]);
      Pow16Monotone(|s[2..]|, 16);
      Pow16Values();
      Ok(HexValue(s[2..]))
    else Ok(conv.oddNode(s[2..]))
  }

  function FromText(url: string, conv: Conversions): Result<Url> {
    match Parse(url)
    case Err => Err
    case Ok(p) =>
      match (if p.bucket == "" then Ok(0) else BucketOf(p.bucket, conv))
      case Err => Err
      case Ok(bucket) =>
        match (if p.node == "" then Ok(0) else NodeOf(p.node, conv))
        case Err => Err
        case Ok(node) => Ok(Url(p.kind, node, bucket, p.place, p.options))
  }

  predicate Valid(u: Url) {
    (u.place.path != "" && u.place.name != "") || u.place == Place("/", "")
  }

  // ---------------------------------------------------------------- printing

  function PathName(u: Place): string {
    (if u.path != "/" then u.path else "") + "/" + u.name
  }

  function KindText(kind: string): string {
    if kind == "" then "ref" else kind
  }

  function OptionText(options: string): string {
    if options == "" then "" else "&" + UrlOptions.Sorted(options)
  }

  /** GetFullURL. */
  function Full(u: Url): string {
    KindText(u.kind) + ([':'] + (['<'] + (("0x" + HexString(u.node)) + (['>'] +
    (['['] + (("0x" + HexString(u.bucket)) + ([']'] + (PathName(u.place) + OptionText(u.options)))))))))
  }

  // ---------------------------------------------------------------- what parsing produces

  predicate KindOk(kind: string) {
    forall i :: 0 <= i < |kind| ==> kind[i] !in DELIMS && !('A' <= kind[i] <= 'Z')
  }

  predicate PathNameOk(pathname: string) {
    pathname != "" ==> pathname[0] == '/' && '&' !in pathname
  }

  ghost predicate ScannedOk(f: Scanned) {
    KindOk(f.kind) && PathNameOk(f.pathname)
  }

  lemma LowerKindOk(s: string)
    requires forall i :: 0 <= i < |s| ==> s[i] !in DELIMS
    ensures KindOk(Lower(s))
  {
  }

  lemma TurnOk(url: string, i: nat, f: Scanned)
    requires i < |url| && ScannedOk(f)
    ensures match Turn(url, i, f)
            case Stop(r) => r.Err?
            case Go(next, found) => ScannedOk(found)
  {
    hide FindAny, Find, Lower;
    if i == 0 {
      LowerKindOk(url[..FindAny(url, DELIMS, 0)]);
    }
  }

  lemma {:induction false} ScanOk(url: string, i: nat, f: Scanned)
    requires i <= |url| && ScannedOk(f)
    ensures Scan(url, i, f).Ok? ==> ScannedOk(Scan(url, i, f).value)
    decreases |url| - i
  {
    hide Turn;
    if i < |url| {
      TurnOk(url, i, f);
      var r := Turn(url, i, f);
      if r.Go? {
        ScanOk(url, r.next, r.found);
      }
    }
  }

  /** A place a parser can have produced: the root, or a name below some absolute path. */
  predicate PlaceOk(u: Place) {
    u == Place("/", "") ||
    (u.name != "" && '/' !in u.name && '&' !in u.name && "/" <= u.path && '&' !in u.path)
  }

  lemma SeparateOk(pathname: string)
    requires PathNameOk(pathname) && pathname != "" && pathname != "/"
    ensures var u := Separate(pathname);
            "/" <= u.path && '&' !in u.path && '&' !in u.name && '/' !in u.name
  {
    hide FindLast;
    var p := Chop(pathname);
    assert p != "" && p[0] == '/';
    assert forall i :: 0 <= i < |p| ==> p[i] == pathname[i];
  }

  predicate WellFormed(u: Url) {
    && KindOk(u.kind)
    && u.kind != "ref" && u.kind != "localkv" && u.kind != "lkv"
    && (u.kind == "" ==> !IsLocal(u.place))
    && PlaceOk(u.place)
  }

  /** Whatever text is accepted, a valid result is well formed. */
  lemma ParsedIsWellFormed(url: string, conv: Conversions)
    requires FromText(url, conv).Ok? && Valid(FromText(url, conv).value)
    ensures WellFormed(FromText(url, conv).value)
  {
    hide Scan, Separate, BucketOf, NodeOf, IsLocal;
    var start := Scanned("", "", "", "", "");
    ScanOk(url, 0, start);
    var f := Scan(url, 0, start).value;
    if f.pathname != "" && f.pathname != "/" {
      SeparateOk(f.pathname);
    }
    NormalKindOk(f.kind);
  }

  lemma NormalKindOk(kind: string)
    requires KindOk(kind)
    ensures KindOk(NormalKind(kind)) && KindOk("local")
    ensures NormalKind(kind) != "ref" && NormalKind(kind) != "localkv" && NormalKind(kind) != "lkv"
  {
    assert "local" == ['l', 'o', 'c', 'a', 'l'];
  }

  // ---------------------------------------------------------------- parsing what was printed

  lemma TurnKind(url: string, kind: string, rest: string, f: Scanned)
    requires url == kind + (":" + rest) && kind != "" && KindOk(kind)
    ensures Turn(url, 0, f) == Go(|kind| + 1, f.(kind := kind)) && url[|kind| + 1..] == rest
  {
    hide Find, FindAny;
    assert url[|kind|] == ':' && forall i :: 0 <= i < |kind| ==> url[i] == kind[i];
    assert FindAny(url, DELIMS, 0) == |kind|;
    assert url[..|kind|] == kind && Lower(kind) == kind;
  }

  /** Where a delimited piece lies in the text. */
  lemma PieceAt(url: string, i: nat, open: char, piece: string, close: char, rest: string)
    requires i <= |url| && url[i..] == [open] + (piece + ([close] + rest))
    ensures var j := i + 1 + |piece|;
            && j < |url| && url[i] == open && url[j] == close && url[i + 1..j] == piece && url[j + 1..] == rest
            && forall k :: i + 1 <= k < j ==> url[k] in piece
  {
    var s, j := url[i..], i + 1 + |piece|;
    assert forall k :: 0 <= k < |s| ==> s[k] == url[i + k];
    assert forall k :: i + 1 <= k < j ==> url[k] == piece[k - (i + 1)];
    assert url[j + 1..] == s[|piece| + 2..];
  }

  lemma TurnNode(url: string, i: nat, node: string, rest: string, f: Scanned)
    requires i < |url| && url[i..] == ['<'] + (node + (['>'] + rest)) && '>' !in node
    ensures Turn(url, i, f) == Go(i + |node| + 2, f.(node := node)) && url[i + |node| + 2..] == rest
  {
    hide Find, FindAny, Lower;
    PieceAt(url, i, '<', node, '>', rest);
    assert Find(url, '>', i + 1) == i + 1 + |node|;
  }

  lemma TurnBucket(url: string, i: nat, bucket: string, rest: string, f: Scanned)
    requires i < |url| && url[i..] == ['['] + (bucket + ([']'] + rest)) && forall c <- bucket :: c !in DELIMS
    ensures Turn(url, i, f) == Go(i + |bucket| + 2, f.(bucket := bucket)) && url[i + |bucket| + 2..] == rest
  {
    hide Find, FindAny, Lower;
    PieceAt(url, i, '[', bucket, ']', rest);
    assert FindAny(url, DELIMS, i + 1) == i + 1 + |bucket|;
  }

  lemma TurnPath(url: string, i: nat, pathname: string, options: string, f: Scanned)
    requires i < |url| && url[i..] == pathname + options && pathname != "" && PathNameOk(pathname)
    requires options == "" || options[0] == '&'
    ensures Turn(url, i, f) == Go(i + |pathname|, f.(pathname := pathname)) && url[i + |pathname|..] == options
  {
    hide Find, FindAny, Lower;
    var s, j := url[i..], i + |pathname|;
    assert forall k :: 0 <= k < |s| ==> s[k] == url[i + k];
    assert url[i..j] == pathname && url[j..] == options;
    assert forall k :: i <= k < j ==> url[k] == pathname[k - i];
    assert j < |url| ==> url[j] == options[0];
    assert Find(url, '&', i + 1) == j;
  }

  lemma TurnOptions(url: string, i: nat, options: string, f: Scanned)
    requires i < |url| && url[i..] == ['&'] + options
    ensures Turn(url, i, f) == Go(|url|, f.(options := options))
  {
    var s := url[i..];
    assert url[i] == s[0] && url[i + 1..] == s[1..];
  }

  lemma HexText(n: nat)
    ensures var t := "0x" + HexString(n); '>' !in t && forall c <- t :: c !in DELIMS
  {
    HexRoundTrip(n);
  }

  lemma PathNameIsOk(u: Place)
    requires PlaceOk(u)
    ensures PathName(u) != "" && PathNameOk(PathName(u))
  {
  }

  lemma ScanGo(url: string, i: nat, f: Scanned, next: nat, found: Scanned)
    requires i < |url| && Turn(url, i, f) == Go(next, found)
    ensures Scan(url, i, f) == Scan(url, next, found)
  {
  }

  lemma ScanTail(url: string, i: nat, path: string, options: string, f: Scanned)
    requires i < |url| && url[i..] == path + options && f.options == ""
    requires path != "" && PathNameOk(path) && (options == "" || options[0] == '&')
    ensures Scan(url, i, f) == Ok(f.(pathname := path, options := if options == "" then "" else options[1..]))
  {
    hide Turn;
    var j, f1 := i + |path|, f.(pathname := path);
    TurnPath(url, i, path, options, f);
    ScanGo(url, i, f, j, f1);
    if options != "" {
      assert options == ['&'] + options[1..];
      TurnOptions(url, j, options[1..], f1);
      ScanGo(url, j, f1, |url|, f1.(options := options[1..]));
    }
  }

  /** Scanning a text that is put together the way the printer does it. */
  lemma ScanPieces(url: string, kind: string, node: string, bucket: string, path: string, options: string)
    requires url == kind + ([':'] + (['<'] + (node + (['>'] + (['['] + (bucket + ([']'] + (path + options))))))))
    requires kind != "" && KindOk(kind) && '>' !in node && (forall c <- bucket :: c !in DELIMS)
    requires path != "" && PathNameOk(path) && (options == "" || options[0] == '&')
    ensures Scan(url, 0, Scanned("", "", "", "", "")) ==
            Ok(Scanned(kind, bucket, node, path, if options == "" then "" else options[1..]))
  {
    hide Turn, Scan;
    var f0 := Scanned("", "", "", "", "");
    var tail := path + options;
    var fromBucket := ['['] + (bucket + ([']'] + tail));
    var fromNode := ['<'] + (node + (['>'] + fromBucket));
    TurnKind(url, kind, fromNode, f0);
    var i1, f1 := |kind| + 1, f0.(kind := kind);
    ScanGo(url, 0, f0, i1, f1);
    TurnNode(url, i1, node, fromBucket, f1);
    var i2, f2 := i1 + |node| + 2, f1.(node := node);
    ScanGo(url, i1, f1, i2, f2);
    TurnBucket(url, i2, bucket, tail, f2);
    var i3, f3 := i2 + |bucket| + 2, f2.(bucket := bucket);
    ScanGo(url, i2, f2, i3, f3);
    ScanTail(url, i3, path, options, f3);
  }

  lemma ScanFull(u: Url)
    requires WellFormed(u)
    ensures Scan(Full(u), 0, Scanned("", "", "", "", "")) ==
            Ok(Scanned(KindText(u.kind), "0x" + HexString(u.bucket), "0x" + HexString(u.node), PathName(u.place),
                       if u.options == "" then "" else UrlOptions.Sorted(u.options)))
  {
    hide Scan, HexString, PathName, UrlOptions.Sorted, KindText;
    KindTextOk(u);
    HexText(u.node);
    HexText(u.bucket);
    PathNameIsOk(u.place);
    ScanPieces(Full(u), KindText(u.kind), "0x" + HexString(u.node), "0x" + HexString(u.bucket), PathName(u.place),
               OptionText(u.options));
  }

  lemma KindTextOk(u: Url)
    requires WellFormed(u)
    ensures KindText(u.kind) != "" && KindOk(KindText(u.kind))
  {
    assert KindOk("ref") by { assert "ref" == ['r', 'e', 'f']; }
  }

  /** Separating a printed path and name gives the path and name back. */
  lemma SeparatePathName(u: Place)
    requires PlaceOk(u) && u != Place("/", "")
    ensures PathName(u) != "/" && PathName(u) != "" && Separate(PathName(u)) == u
  {
    hide FindLast;
    var head := if u.path != "/" then u.path else "";
    var p := PathName(u);
    assert p[|p| - 1] == u.name[|u.name| - 1];
    assert p[|p| - 1] != '/' by { assert u.name[|u.name| - 1] in u.name; }
    assert Chop(p) == p;
    assert p[|head|] == '/';
    assert forall k :: |head| < k < |p| ==> p[k] == u.name[k - |head| - 1];
    assert FindLast(p, '/') == |head|;
    assert p[..|head|] == head && p[|head| + 1..] == u.name;
  }

  lemma InterpretFull(u: Url, bucket: string, node: string, options: string)
    requires WellFormed(u)
    ensures Interpret(Scanned(KindText(u.kind), bucket, node, PathName(u.place), options)) ==
            Ok(Parsed(u.kind, bucket, node, u.place, options))
  {
    hide Separate, IsLocal;
    if u.place == Place("/", "") {
      assert PathName(u.place) == "/";
    } else {
      SeparatePathName(u.place);
      assert u.place.path[..1] == "/";
    }
    assert NormalKind(KindText(u.kind)) == u.kind;
  }

  lemma NumbersRoundTrip(node: U64, bucket: U32, conv: Conversions)
    ensures NodeOf("0x" + HexString(node), conv) == Ok(node)
    ensures BucketOf("0x" + HexString(bucket), conv) == Ok(bucket)
  {
    var n, b := "0x" + HexString(node), "0x" + HexString(bucket);
    assert n[2..] == HexString(node) && b[2..] == HexString(bucket);
    Pow16Values();
    HexLength(node, 16);
    HexLength(bucket, 8);
    HexRoundTrip(node);
    HexRoundTrip(bucket);
  }

  lemma SortedEmpty()
    ensures UrlOptions.Sorted("") == ""
  {
    TokensOne("", '&');
  }

  /** Parsing the full text of a well-formed URL gives it back, with its options sorted. */
  lemma ParsePrintedUrl(u: Url, conv: Conversions)
    requires WellFormed(u)
    ensures FromText(Full(u), conv) == Ok(u.(options := UrlOptions.Sorted(u.options)))
  {
    hide Scan, Interpret, NodeOf, BucketOf, Full, WellFormed, UrlOptions.Sorted;
    SortedEmpty();
    ScanFull(u);
    InterpretFull(u, "0x" + HexString(u.bucket), "0x" + HexString(u.node), UrlOptions.Sorted(u.options));
    NumbersRoundTrip(u.node, u.bucket, conv);
  }

  // ---------------------------------------------------------------- printing again

  lemma SortedEmptyIff(options: string)
    ensures UrlOptions.Sorted(options) == "" <==> Tokens(options, '&') == []
  {
    var ops := Tokens(options, '&');
    TokensAreClean(options, '&');
    UrlOptions.SameMembers(ops);
    JoinEmptyIff(Sort(ops), '&');
  }

  lemma {:induction false} NoTokensIff(options: string)
    ensures Tokens(options, '&') == [] <==> forall c <- options :: c == '&'
    decreases |options|
  {
    hide Tokens;
    var i := Find(options, '&', 0);
    if i == |options| {
      TokensOne(options, '&');
      assert options != "" ==> options[0] in options;
    } else {
      var field, rest := options[..i], options[i + 1..];
      assert options == field + ['&'] + rest;
      TokensAppend(field, rest, '&');
      TokensOne(field, '&');
      NoTokensIff(rest);
      assert forall c :: c in options <==> c in field || c == '&' || c in rest;
      assert field != "" ==> field[0] in field && field[0] != '&';
    }
  }

  /** Parsing and printing again gives the same text exactly when the options are empty or hold
      something besides separators: "&&" prints as a bare '&', which the next round drops. */
  lemma PrintAgainIff(u: Url, conv: Conversions)
    requires WellFormed(u)
    ensures FromText(Full(u), conv).Ok?
    ensures Full(FromText(Full(u), conv).value) == Full(u)
       <==> u.options == "" || exists c <- u.options :: c != '&'
  {
    hide FromText, WellFormed, Tokens, UrlOptions.Sorted, HexString;
    ParsePrintedUrl(u, conv);
    var v := u.(options := UrlOptions.Sorted(u.options));
    UrlOptions.SortedTokens(u.options);
    SortedEmpty();
    SortedEmptyIff(u.options);
    NoTokensIff(u.options);
    assert |Full(u)| - |Full(v)| == |OptionText(u.options)| - |OptionText(v.options)|;
  }

  /** For every text the constructor accepts as a valid URL: printing and parsing gives the same URL
      with its options sorted, and printing that gives the same text unless the options are nothing
      but separators. */
  lemma RoundTrip(url: string, conv: Conversions)
    requires FromText(url, conv).Ok? && Valid(FromText(url, conv).value)
    ensures var u := FromText(url, conv).value;
            && FromText(Full(u), conv) == Ok(u.(options := UrlOptions.Sorted(u.options)))
            && (Full(u.(options := UrlOptions.Sorted(u.options))) == Full(u)
                <==> u.options == "" || exists c <- u.options :: c != '&')
  {
    hide FromText, WellFormed, Full, UrlOptions.Sorted;
    ParsedIsWellFormed(url, conv);
    ParsePrintedUrl(FromText(url, conv).value, conv);
    PrintAgainIff(FromText(url, conv).value, conv);
  }

  lemma SeparatorsText(conv: Conversions)
    ensures FromText("/a&&", conv) == Ok(Url("", 0, 0, Place("/", "a"), "&"))
  {
    hide Scan, FindLast, BucketOf, NodeOf;
    var url := "/a&&";
    assert url[0..] == "/a" + "&&" && "&&"[1..] == "&";
    ScanTail(url, 0, "/a", "&&", Scanned("", "", "", "", ""));
    assert FindLast("/a", '/') == 0 && "/a"[1..] == "a";
    assert Separate("/a") == Place("/", "a");
  }

  /** A text that is accepted, without parts in its path and without a name. */
  lemma SlashesText(conv: Conversions)
    ensures FromText("local:////", conv) == Ok(Url("local", 0, 0, Place("//", ""), ""))
  {
    hide Scan, Separate, BucketOf, NodeOf;
    ScanSlashes();
    SeparateSlashes();
  }

  lemma ScanSlashes()
    ensures Scan("local:////", 0, Scanned("", "", "", "", "")) == Ok(Scanned("local", "", "", "////", ""))
  {
    hide Scan, Turn, KindOk;
    var url, start := "local:////", Scanned("", "", "", "", "");
    LocalKindOk();
    assert url == "local" + (":" + "////");
    TurnKind(url, "local", "////", start);
    ScanGo(url, 0, start, 6, start.(kind := "local"));
    assert "////" + "" == "////";
    ScanTail(url, 6, "////", "", start.(kind := "local"));
  }

  lemma LocalKindOk()
    ensures KindOk("local")
  {
    NormalKindOk("");
  }

  lemma SeparateSlashes()
    ensures Separate("////") == Place("//", "")
  {
    assert "///"[2] == '/';
    assert Chop("////") == "///" && FindLast("///", '/') == 2;
  }

  /** A URL whose text changes when it is parsed and printed again. */
  lemma BareSeparators(conv: Conversions)
    ensures var u := Url("", 0, 0, Place("/", "a"), "&");
            && FromText("/a&&", conv) == Ok(u) && WellFormed(u)
            && FromText(Full(u), conv).Ok? && Full(FromText(Full(u), conv).value) != Full(u)
  {
    hide FromText, Full;
    SeparatorsText(conv);
    var u := Url("", 0, 0, Place("/", "a"), "&");
    assert u.place.name == ['a'] && u.place.path == ['/'];
    assert WellFormed(u);
    PrintAgainIff(u, conv);
  }

  // ---------------------------------------------------------------- laws of the parser, on texts

  lemma FindShift(a: string, i: nat, b: string, j: nat, cs: set<char>)
    requires i <= |a| && j <= |b| && a[i..] == b[j..]
    ensures FindAny(a, cs, i) - i == FindAny(b, cs, j) - j
  {
    hide FindAny;
    var x, y := FindAny(a, cs, i) - i, FindAny(b, cs, j) - j;
    assert |a| - i == |b| - j;
    assert forall k :: 0 <= k < |a| - i ==> a[i + k] == a[i..][k] == b[j + k];
    assert x < |a| - i ==> b[j + x] in cs;
    assert y < |b| - j ==> a[i + y] in cs;
  }

  lemma SliceShift(a: string, i: nat, b: string, j: nat, x: nat, y: nat)
    requires i <= |a| && j <= |b| && a[i..] == b[j..] && x <= y <= |a| - i
    ensures |b| - j == |a| - i && a[i + x..i + y] == b[j + x..j + y]
  {
    assert |a[i..]| == |b[j..]|;
    SliceOfRest(a, i, x, y);
    SliceOfRest(b, j, x, y);
  }

  lemma SliceOfRest(a: string, i: nat, x: nat, y: nat)
    requires x <= y && i + y <= |a|
    ensures a[i..][x..y] == a[i + x..i + y]
  {
    var rest := a[i..];
    assert forall k :: x <= k < y ==> rest[k] == a[i + k];
  }

  lemma PieceShift(a: string, i: nat, b: string, j: nat, x: nat)
    requires i < |a| && j < |b| && a[i..] == b[j..] && 1 <= x <= |a| - i
    ensures |b| - j == |a| - i
    ensures a[i + 1..i + x] == b[j + 1..j + x] && a[i..i + x] == b[j..j + x] && a[i + x..] == b[j + x..]
    ensures i + x < |a| ==> a[i + x] == b[j + x] && a[i + x + 1..] == b[j + x + 1..]
  {
    SliceShift(a, i, b, j, 1, x);
    SliceShift(a, i, b, j, 0, x);
    SliceShift(a, i, b, j, x, |a| - i);
    if i + x < |a| {
      assert a[i + x] == a[i..][x] == b[j..][x] == b[j + x];
      SliceShift(a, i, b, j, x + 1, |a| - i);
    }
  }

  ghost predicate SameTurn(a: string, i: nat, r: ScanStep, b: string, j: nat, t: ScanStep) {
    if r.Stop? then t == r
    else
      && t.Go? && t.found == r.found && t.next - j == r.next - i
      && r.next <= |a| && t.next <= |b| && a[r.next..] == b[t.next..]
  }

  lemma NextShift(a: string, i: nat, b: string, j: nat, cs: set<char>)
    requires i < |a| && j < |b| && a[i..] == b[j..]
    ensures a[i] == b[j] && FindAny(a, cs, i + 1) - i == FindAny(b, cs, j + 1) - j
    ensures var x := FindAny(a, cs, i + 1) - i;
            && |b| - j == |a| - i
            && a[i + 1..i + x] == b[j + 1..j + x] && a[i..i + x] == b[j..j + x] && a[i + x..] == b[j + x..]
            && (i + x < |a| ==> a[i + x] == b[j + x] && a[i + x + 1..] == b[j + x + 1..])
  {
    hide FindAny;
    assert a[i] == a[i..][0] == b[j..][0] == b[j];
    SliceShift(a, i, b, j, 1, |a| - i);
    FindShift(a, i + 1, b, j + 1, cs);
    PieceShift(a, i, b, j, FindAny(a, cs, i + 1) - i);
  }

  lemma BucketShift(a: string, i: nat, b: string, j: nat, f: Scanned)
    requires i < |a| && j < |b| && a[i..] == b[j..] && a[i] == '['
    ensures SameTurn(a, i, Turn(a, i, f), b, j, Turn(b, j, f))
  {
    hide FindAny;
    NextShift(a, i, b, j, DELIMS);
  }

  lemma NodeShift(a: string, i: nat, b: string, j: nat, f: Scanned)
    requires i < |a| && j < |b| && a[i..] == b[j..] && a[i] == '<'
    ensures SameTurn(a, i, Turn(a, i, f), b, j, Turn(b, j, f))
  {
    hide FindAny;
    NextShift(a, i, b, j, {'>'});
  }

  lemma RestShift(a: string, i: nat, b: string, j: nat, f: Scanned)
    requires i < |a| && j < |b| && a[i..] == b[j..] && a[i] in {'/', '&'}
    ensures SameTurn(a, i, Turn(a, i, f), b, j, Turn(b, j, f))
  {
    hide FindAny;
    NextShift(a, i, b, j, {'&'});
    SliceShift(a, i, b, j, 1, |a| - i);
  }

  /** Behind the type, and for any piece but the type, a turn depends only on the text that is left. */
  lemma TurnShift(a: string, i: nat, b: string, j: nat, f: Scanned)
    requires i < |a| && j < |b| && a[i..] == b[j..] && ((i > 0 && j > 0) || a[i] in {'[', '<', '/', '&'})
    ensures SameTurn(a, i, Turn(a, i, f), b, j, Turn(b, j, f))
  {
    assert a[i] == a[i..][0] == b[j..][0] == b[j];
    if a[i] in {'[', '<', '/', '&'} {
      hide Turn, SameTurn;
      if a[i] == '[' {
        BucketShift(a, i, b, j, f);
      } else if a[i] == '<' {
        NodeShift(a, i, b, j, f);
      } else {
        RestShift(a, i, b, j, f);
      }
    }
  }

  lemma {:induction false} ScanShift(a: string, i: nat, b: string, j: nat, f: Scanned)
    requires 0 < i <= |a| && 0 < j <= |b| && a[i..] == b[j..]
    ensures Scan(a, i, f) == Scan(b, j, f)
    decreases |a| - i
  {
    hide Turn;
    assert |a[i..]| == |b[j..]|;
    if i < |a| {
      TurnShift(a, i, b, j, f);
      var r := Turn(a, i, f);
      if r.Go? {
        ScanShift(a, r.next, b, Turn(b, j, f).next, r.found);
      }
    }
  }

  lemma TurnKeepsKind(url: string, i: nat, f: Scanned, kind: string)
    requires 0 < i < |url|
    ensures var r, t := Turn(url, i, f), Turn(url, i, f.(kind := kind));
            if r.Stop? then t == r && r.result.Err? else t == Go(r.next, r.found.(kind := kind))
  {
    hide FindAny;
  }

  lemma {:induction false} ScanKeepsKind(url: string, i: nat, f: Scanned, kind: string)
    requires 0 < i <= |url|
    ensures Scan(url, i, f.(kind := kind)) ==
            match Scan(url, i, f) case Err => Err case Ok(g) => Ok(g.(kind := kind))
    decreases |url| - i
  {
    hide Turn;
    if i < |url| {
      TurnKeepsKind(url, i, f, kind);
      var r := Turn(url, i, f);
      if r.Go? {
        ScanKeepsKind(url, r.next, r.found, kind);
      }
    }
  }

  predicate KindChars(kind: string) {
    kind != "" && forall c <- kind :: c !in DELIMS
  }

  /** A type in front of the text, in whatever case, only sets the type of the rest. */
  lemma ScanTyped(kind: string, rest: string)
    requires KindChars(kind)
    ensures var start := Scanned("", "", "", "", "");
            Scan(kind + ":" + rest, 0, start) ==
            match Scan(":" + rest, 0, start) case Err => Err case Ok(g) => Ok(g.(kind := Lower(kind)))
  {
    hide Scan, FindAny;
    var url, start, n := kind + ":" + rest, Scanned("", "", "", "", ""), |kind|;
    assert url[n] == ':' && url[..n] == kind && forall i :: 0 <= i < n ==> url[i] == kind[i] && url[i] in kind;
    assert FindAny(url, DELIMS, 0) == n;
    assert Turn(url, 0, start) == Go(n + 1, start.(kind := Lower(kind)));
    ScanGo(url, 0, start, n + 1, start.(kind := Lower(kind)));
    assert Turn(":" + rest, 0, start) == Go(1, start);
    ScanGo(":" + rest, 0, start, 1, start);
    assert url[n + 1..] == rest == (":" + rest)[1..];
    ScanShift(url, n + 1, ":" + rest, 1, start.(kind := Lower(kind)));
    ScanKeepsKind(":" + rest, 1, start, Lower(kind));
  }

  /** How a type is read: its case does not matter, and neither which of its other names is used. */
  lemma SameType(a: string, b: string, rest: string, conv: Conversions)
    requires KindChars(a) && KindChars(b) && NormalKind(Lower(a)) == NormalKind(Lower(b))
    ensures FromText(a + ":" + rest, conv) == FromText(b + ":" + rest, conv)
  {
    hide Scan, Separate, IsLocal, BucketOf, NodeOf, Lower, NormalKind;
    ScanTyped(a, rest);
    ScanTyped(b, rest);
  }

  lemma Untyped(a: string, rest: string, conv: Conversions)
    requires KindChars(a) && NormalKind(Lower(a)) == ""
    ensures FromText(a + ":" + rest, conv) == FromText(":" + rest, conv)
  {
    hide Scan, Separate, IsLocal, BucketOf, NodeOf, Lower;
    ScanTyped(a, rest);
    UntypedScan(rest);
  }

  lemma UntypedScan(rest: string)
    ensures var r := Scan(":" + rest, 0, Scanned("", "", "", "", "")); r.Ok? ==> r.value.kind == ""
  {
    hide Scan, FindAny;
    var start := Scanned("", "", "", "", "");
    assert Turn(":" + rest, 0, start) == Go(1, start);
    ScanGo(":" + rest, 0, start, 1, start);
    ScanKeepsKind(":" + rest, 1, start, "");
  }

  /** The other names of the local type and of a reference, and that capitals do not matter, whatever
      follows in the text. */
  lemma TypeAliases(kind: string, rest: string, conv: Conversions)
    ensures FromText("lkv:" + rest, conv) == FromText("local:" + rest, conv)
    ensures FromText("localkv:" + rest, conv) == FromText("local:" + rest, conv)
    ensures FromText("ref:" + rest, conv) == FromText(":" + rest, conv)
    ensures KindChars(kind) ==> FromText(kind + ":" + rest, conv) == FromText(Lower(kind) + ":" + rest, conv)
  {
    hide FromText;
    LowerLiterals();
    assert "lkv" + ":" + rest == "lkv:" + rest && "localkv" + ":" + rest == "localkv:" + rest;
    assert "local" + ":" + rest == "local:" + rest && "ref" + ":" + rest == "ref:" + rest;
    SameType("lkv", "local", rest, conv);
    SameType("localkv", "local", rest, conv);
    Untyped("ref", rest, conv);
    if KindChars(kind) {
      LowerTwice(kind);
      SameType(kind, Lower(kind), rest, conv);
    }
  }

  lemma LowerLiterals()
    ensures Lower("lkv") == "lkv" && Lower("localkv") == "localkv" && Lower("local") == "local" && Lower("ref") == "ref"
    ensures KindChars("lkv") && KindChars("localkv") && KindChars("local") && KindChars("ref")
  {
    hide Lower;
  }

  lemma LowerTwice(kind: string)
    requires KindChars(kind)
    ensures Lower(Lower(kind)) == Lower(kind) && KindChars(Lower(kind))
  {
    var low := Lower(kind);
    forall i | 0 <= i < |low|
      ensures low[i] !in DELIMS
    {
      assert kind[i] in kind;
    }
  }

  /** A text that begins with its node, bucket, path or options is a text without a type. */
  lemma NoTypeAtAll(rest: string, conv: Conversions)
    requires rest != "" && rest[0] in {'[', '<', '/', '&'}
    ensures FromText(rest, conv) == FromText(":" + rest, conv)
  {
    hide Scan, Turn, Interpret, BucketOf, NodeOf;
    var start := Scanned("", "", "", "", "");
    ScanPadded(rest, start);
  }

  lemma ScanPadded(rest: string, start: Scanned)
    requires rest != "" && rest[0] in {'[', '<', '/', '&'} && start.kind == ""
    ensures Scan(rest, 0, start) == Scan(":" + rest, 0, start)
  {
    hide FindAny, Scan;
    var long := ":" + rest;
    assert Turn(long, 0, start) == Go(1, start.(kind := ""));
    ScanGo(long, 0, start, 1, start);
    assert rest[0..] == long[1..];
    TurnShift(rest, 0, long, 1, start);
    var r := Turn(rest, 0, start);
    if r.Go? {
      ScanGo(rest, 0, start, r.next, r.found);
      ScanGo(long, 1, start, r.next + 1, r.found);
      ScanShift(rest, r.next, long, r.next + 1, r.found);
    } else {
      StopIsError(rest, 0, start);
      ScanStop(rest, 0, start);
      ScanStop(long, 1, start);
    }
  }

  lemma StopIsError(url: string, i: nat, f: Scanned)
    requires i < |url| && Turn(url, i, f).Stop?
    ensures Turn(url, i, f).result.Err?
  {
    hide FindAny;
  }

  /** A type followed by nothing but a path. */
  lemma TypedPath(kind: string, path: string, conv: Conversions)
    requires KindChars(kind) && PathNameOk(path)
    ensures FromText(kind + ":" + path, conv) ==
            match Interpret(Scanned(Lower(kind), "", "", path, ""))
            case Err => Err
            case Ok(p) => Ok(Url(p.kind, 0, 0, p.place, ""))
  {
    hide Scan, Interpret, BucketOf, NodeOf, Lower;
    var start, long := Scanned("", "", "", "", ""), ":" + path;
    ScanTyped(kind, path);
    ScanColonPath(path);
    InterpretPieces(Scanned(Lower(kind), "", "", path, ""));
  }

  lemma ScanColonPath(path: string)
    requires PathNameOk(path)
    ensures Scan(":" + path, 0, Scanned("", "", "", "", "")) == Ok(Scanned("", "", "", path, ""))
  {
    hide Scan, FindAny;
    var start, long := Scanned("", "", "", "", ""), ":" + path;
    assert Turn(long, 0, start) == Go(1, start);
    ScanGo(long, 0, start, 1, start);
    if path == "" {
      ScanEnd(long, start);
    } else {
      assert long[1..] == path + "";
      ScanTail(long, 1, path, "", start);
    }
  }

  lemma InterpretPieces(f: Scanned)
    ensures var r := Interpret(f);
            r.Ok? ==> r.value.bucket == f.bucket && r.value.node == f.node && r.value.options == f.options
  {
    hide Separate, IsLocal, NormalKind;
  }

  predicate LocalOrNull(kind: string) {
    kind in {"local", "localkv", "lkv", "null"}
  }

  /** Which types need no path, and which need no name: with no path at all the type must be local or
      null, a path that ends in two slashes has no name and is also accepted for unconfigured, and a
      single slash is the root for every type. */
  lemma ShortTexts(kind: string, path: string, conv: Conversions)
    requires KindChars(kind)
    ensures FromText(kind + ":", conv).Ok? <==> LocalOrNull(Lower(kind))
    ensures FromText(kind + ":", conv).Ok? ==>
              && FromText(kind + ":", conv).value.place == Place("/", "")
              && FromText(kind + ":", conv) == FromText(kind + ":/", conv)
    ensures FromText(kind + ":/", conv).Ok? && FromText(kind + ":/", conv).value.place == Place("/", "")
    ensures PathNameOk(path) && |path| > 1 && path[|path| - 1] == path[|path| - 2] == '/' ==>
              (FromText(kind + ":" + path, conv).Ok? <==> LocalOrNull(Lower(kind)) || Lower(kind) == "unconfigured")
  {
    hide FromText, Lower;
    assert kind + ":" + "" == kind + ":" && kind + ":" + "/" == kind + ":/";
    TypedPath(kind, "", conv);
    TypedPath(kind, "/", conv);
    ShortPaths(Lower(kind));
    if PathNameOk(path) && |path| > 1 && path[|path| - 1] == path[|path| - 2] == '/' {
      TypedPath(kind, path, conv);
      NamelessPath(Lower(kind), path);
    }
  }

  lemma ShortPaths(kind: string)
    ensures var r, t := Interpret(Scanned(kind, "", "", "", "")), Interpret(Scanned(kind, "", "", "/", ""));
            && (r.Ok? <==> LocalOrNull(kind)) && (r.Ok? ==> r == t)
            && t.Ok? && t.value.place == Place("/", "")
  {
  }

  lemma NamelessPath(kind: string, path: string)
    requires PathNameOk(path) && |path| > 1 && path[|path| - 1] == path[|path| - 2] == '/'
    ensures Interpret(Scanned(kind, "", "", path, "")).Ok? <==> LocalOrNull(kind) || kind == "unconfigured"
  {
    hide FindLast, IsLocal;
    var p := Chop(path);
    assert p == path[..|path| - 1] && FindLast(p, '/') == |p| - 1;
    SeparateOk(path);
    assert Separate(path).name == "";
  }

  /** How a path with a name is read: its place prints as the text again, but for a doubled slash at the
      root; a slash at the end is dropped; and without a type it is local if and only if its first part
      is local. */
  lemma PathTexts(kind: string, path: string, conv: Conversions)
    requires KindChars(kind) && path != "" && PathNameOk(path) && path[|path| - 1] != '/'
    ensures var r := FromText(kind + ":" + path, conv);
            && r.Ok? && r == FromText(kind + ":" + (path + "/"), conv)
            && var u := r.value;
               && u.node == 0 && u.bucket == 0 && u.options == "" && u.place.name != "" && '/' !in u.place.name
               && (PathName(u.place) == path || (u.place.path == "/" && "/" + PathName(u.place) == path))
               && u.kind ==
                    if Lower(kind) in {"local", "localkv", "lkv"} then "local"
                    else if Lower(kind) != "ref" then Lower(kind)
                    else if PathName(u.place) == "/local" || "/local/" <= PathName(u.place) then "local"
                    else ""
  {
    hide FromText, Lower, Interpret, PathName, Separate;
    TypedPath(kind, path, conv);
    TypedPath(kind, path + "/", conv);
    LowerSize(kind);
    SeparateText(path);
    InterpretPath(Lower(kind), path);
    InterpretPath(Lower(kind), path + "/");
  }

  lemma InterpretPath(kind: string, path: string)
    requires kind != "" && path != "" && path != "/" && PathNameOk(path) && Separate(path).name != ""
    ensures var u := Separate(path);
            && '/' !in u.name
            && Interpret(Scanned(kind, "", "", path, "")) ==
               Ok(Parsed(if kind in {"local", "localkv", "lkv"} then "local"
                         else if kind != "ref" then kind
                         else if PathName(u) == "/local" || "/local/" <= PathName(u) then "local"
                         else "", "", "", u, ""))
  {
    hide Separate, PathName, IsLocal;
    SeparateOk(path);
    IsLocalIff(Separate(path));
  }

  lemma LowerSize(kind: string)
    requires kind != ""
    ensures Lower(kind) != ""
  {
  }

  lemma SeparateSlash(path: string)
    requires path != "" && path[|path| - 1] != '/'
    ensures Chop(path + "/") == path == Chop(path)
    ensures path != "/" && path + "/" != "/" && Separate(path + "/") == Separate(path)
  {
    hide FindLast;
  }

  lemma SeparateText(path: string)
    requires path != "" && PathNameOk(path) && path[|path| - 1] != '/'
    ensures path != "/" && path + "/" != "/" && Separate(path + "/") == Separate(path)
    ensures var u := Separate(path);
            u.name != "" && (PathName(u) == path || (u.path == "/" && "/" + PathName(u) == path))
  {
    hide FindLast;
    SeparateSlash(path);
    hide Chop;
    var j := FindLast(path, '/');
    assert path[0] == '/' && 0 <= j < |path| - 1;
    PathJoined(path, j);
  }

  lemma PathJoined(path: string, j: nat)
    requires j < |path| && path[0] == '/' && path[j] == '/'
    ensures var u := Place(if j == 0 then "/" else path[..j], path[j + 1..]);
            PathName(u) == path || (u.path == "/" && "/" + PathName(u) == path)
  {
    assert path == path[..j] + "/" + path[j + 1..];
    if j == 0 {
      assert path == "/" + path[1..];
    } else if path[..j] == "/" {
      assert path == "/" + ("/" + path[2..]);
    }
  }

  lemma IsLocalIff(u: Place)
    requires "/" <= u.path && '/' !in u.name
    ensures IsLocal(u) <==> PathName(u) == "/local" || "/local/" <= PathName(u)
  {
    var t := PathName(u);
    if u.path == "/" {
      assert t == "/" + u.name && t[1..] == u.name;
      assert "/local" == "/" + "local" && "/local/"[6] == '/';
      assert |t| > 6 ==> t[6] == u.name[5] && u.name[5] in u.name;
      assert t == "/local" ==> u.name == "/local"[1..] == "local";
    } else {
      assert t[|u.path|] == '/' && t[..|u.path|] == u.path;
      assert |u.path| < 6 ==> "/local/"[|u.path|] != '/';
    }
  }

  /** A piece in front of a path only sets its own field. */
  lemma ScanBucketPath(bucket: string, path: string)
    requires (forall c <- bucket :: c !in DELIMS) && path != "" && PathNameOk(path)
    ensures var start := Scanned("", "", "", "", "");
            && Scan("[" + (bucket + ("]" + path)), 0, start) == Ok(Scanned("", bucket, "", path, ""))
            && Scan(path, 0, start) == Ok(Scanned("", "", "", path, ""))
  {
    hide Scan, Turn;
    var url, start := "[" + (bucket + ("]" + path)), Scanned("", "", "", "", "");
    assert url[0..] == ['['] + (bucket + ([']'] + path));
    TurnBucket(url, 0, bucket, path, start);
    ScanGo(url, 0, start, |bucket| + 2, start.(bucket := bucket));
    assert url[|bucket| + 2..] == path + "" && path[0..] == path + "";
    ScanTail(url, |bucket| + 2, path, "", start.(bucket := bucket));
    ScanTail(path, 0, path, "", start);
  }

  lemma ScanNodePath(node: string, path: string)
    requires '>' !in node && path != "" && PathNameOk(path)
    ensures var start := Scanned("", "", "", "", "");
            && Scan("<" + (node + (">" + path)), 0, start) == Ok(Scanned("", "", node, path, ""))
            && Scan(path, 0, start) == Ok(Scanned("", "", "", path, ""))
  {
    hide Scan, Turn;
    var url, start := "<" + (node + (">" + path)), Scanned("", "", "", "", "");
    assert url[0..] == ['<'] + (node + (['>'] + path));
    TurnNode(url, 0, node, path, start);
    ScanGo(url, 0, start, |node| + 2, start.(node := node));
    assert url[|node| + 2..] == path + "" && path[0..] == path + "";
    ScanTail(url, |node| + 2, path, "", start.(node := node));
    ScanTail(path, 0, path, "", start);
  }

  lemma FromBucketPath(bucket: string, path: string, conv: Conversions)
    requires (forall c <- bucket :: c !in DELIMS) && path != "" && PathNameOk(path) && FromText(path, conv).Ok?
    ensures FromText("[" + (bucket + ("]" + path)), conv) ==
            match (if bucket == "" then Ok(0) else BucketOf(bucket, conv))
            case Err => Err
            case Ok(b) => Ok(FromText(path, conv).value.(bucket := b))
  {
    hide Scan, Interpret, BucketOf, NodeOf;
    ScanBucketPath(bucket, path);
    PiecesPass(bucket, "", path);
    InterpretPieces(Scanned("", "", "", path, ""));
  }

  lemma FromNodePath(node: string, path: string, conv: Conversions)
    requires '>' !in node && path != "" && PathNameOk(path) && FromText(path, conv).Ok?
    ensures FromText("<" + (node + (">" + path)), conv) ==
            match (if node == "" then Ok(0) else NodeOf(node, conv))
            case Err => Err
            case Ok(n) => Ok(FromText(path, conv).value.(node := n))
  {
    hide Scan, Interpret, BucketOf, NodeOf;
    ScanNodePath(node, path);
    PiecesPass("", node, path);
    InterpretPieces(Scanned("", "", "", path, ""));
  }

  lemma PathHasNoNumbers(path: string, conv: Conversions)
    requires path != "" && PathNameOk(path) && FromText(path, conv).Ok?
    ensures FromText(path, conv).value.bucket == 0 && FromText(path, conv).value.node == 0
  {
    hide Scan, Interpret, BucketOf, NodeOf;
    ScanBucketPath("", path);
    InterpretPieces(Scanned("", "", "", path, ""));
  }

  /** How a bucket is read in front of a path: by name it is hashed, as a number it must have at most
      eight digits, and an empty one is no bucket. */
  lemma BucketTexts(bucket: string, digits: string, path: string, conv: Conversions)
    requires path != "" && PathNameOk(path) && FromText(path, conv).Ok?
    ensures var u := FromText(path, conv).value;
            && (bucket != "" && !("0x" <= bucket) && (forall c <- bucket :: c !in DELIMS) ==>
                  FromText("[" + (bucket + ("]" + path)), conv) == Ok(u.(bucket := conv.hash(bucket))))
            && FromText("[" + ("" + ("]" + path)), conv) == Ok(u)
            && (digits != "" && (forall c <- digits :: c !in DELIMS) ==>
                  var r := FromText("[" + (("0x" + digits) + ("]" + path)), conv);
                  if |digits| <= 8 && AllHex(digits) then
                    r.Ok? && r.value == u.(bucket := r.value.bucket) && r.value.bucket == HexValue(digits)
                  else r.Err?)
  {
    hide FromText, HexValue, AllHex;
    if forall c <- bucket :: c !in DELIMS {
      FromBucketPath(bucket, path, conv);
    }
    if forall c <- digits :: c !in DELIMS {
      var number := "0x" + digits;
      assert number[2..] == digits && forall c <- number :: c == '0' || c == 'x' || c in digits;
      FromBucketPath(number, path, conv);
    }
    FromBucketPath("", path, conv);
    PathHasNoNumbers(path, conv);
  }

  /** How a node is read in front of a path: it must be a number, and an empty one is no node. */
  lemma NodeTexts(node: string, digits: string, path: string, conv: Conversions)
    requires path != "" && PathNameOk(path) && FromText(path, conv).Ok?
    ensures var u := FromText(path, conv).value;
            && (node != "" && '>' !in node && !("0x" <= node) ==> FromText("<" + (node + (">" + path)), conv).Err?)
            && FromText("<" + ("" + (">" + path)), conv) == Ok(u)
            && (1 <= |digits| <= 16 && AllHex(digits) ==>
                  var r := FromText("<" + (("0x" + digits) + (">" + path)), conv);
                  r.Ok? && r.value == u.(node := r.value.node) && r.value.node == HexValue(digits))
  {
    hide FromText, HexValue;
    if '>' !in node {
      FromNodePath(node, path, conv);
    }
    if AllHex(digits) {
      var number := "0x" + digits;
      assert number[2..] == digits && forall c <- number :: c == '0' || c == 'x' || c in digits;
      FromNodePath(number, path, conv);
    }
    FromNodePath("", path, conv);
    PathHasNoNumbers(path, conv);
  }

  lemma PiecesPass(bucket: string, node: string, path: string)
    ensures var r, t := Interpret(Scanned("", "", "", path, "")), Interpret(Scanned("", bucket, node, path, ""));
            match r case Err => t.Err? case Ok(p) => t == Ok(p.(bucket := bucket, node := node))
  {
    hide Separate, IsLocal;
  }

  /** Which accepted texts are valid: all those with a name, and the root. */
  lemma AcceptedValidIff(url: string, conv: Conversions)
    requires FromText(url, conv).Ok?
    ensures var u := FromText(url, conv).value;
            Valid(u) <==> u.place.name != "" || u.place.path == "/"
  {
    hide Scan, Separate, BucketOf, NodeOf, IsLocal;
    var start := Scanned("", "", "", "", "");
    ScanOk(url, 0, start);
    var f := Scan(url, 0, start).value;
    if f.pathname != "" && f.pathname != "/" {
      SeparateOk(f.pathname);
    }
  }

  /** When a turn fails: a bucket whose next delimiter does not close it, a node that is not closed, and
      a type that is not at the start or not followed by a colon. */
  lemma TurnStopsIff(url: string, i: nat, f: Scanned)
    requires i < |url|
    ensures Turn(url, i, f).Stop? <==>
            match url[i]
            case '[' => !exists j :: i < j < |url| && url[j] == ']' && forall k :: i < k < j ==> url[k] !in DELIMS
            case '<' => '>' !in url[i + 1..]
            case '/' => false
            case '&' => false
            case _ =>
              i != 0 || !exists j :: 0 <= j < |url| && url[j] == ':' && forall k :: 0 <= k < j ==> url[k] !in DELIMS
  {
    hide FindAny;
    if url[i] == '[' {
      var j := FindAny(url, DELIMS, i + 1);
      assert j < |url| && url[j] == ']' ==> forall k :: i < k < j ==> url[k] !in DELIMS;
    } else if url[i] == '<' {
      var j := Find(url, '>', i + 1);
      assert j < |url| ==> url[i + 1..][j - i - 1] == '>';
    } else if i == 0 {
      var j := FindAny(url, DELIMS, 0);
      assert j < |url| && url[j] == ':' ==> forall k :: 0 <= k < j ==> url[k] !in DELIMS;
    }
  }

  /** The form of the printed text: a reference without a type prints as ref, the root path as nothing,
      and options that are there behind a separator and sorted. */
  lemma FullForm(u: Url)
    ensures Full(u) == (if u.kind == "" then "ref" else u.kind) +
                       ":<0x" + HexString(u.node) + ">[0x" + HexString(u.bucket) + "]" +
                       (if u.place.path == "/" then "" else u.place.path) + "/" + u.place.name +
                       (if u.options == "" then "" else "&" + Join(Sort(Tokens(u.options, '&')), '&'))
  {
    hide HexString, Join, Sort, Tokens;
    var path, options := PathName(u.place), OptionText(u.options);
    PiecesJoined(KindText(u.kind), HexString(u.node), HexString(u.bucket), path + options);
    var head := KindText(u.kind) + ":<0x" + HexString(u.node) + ">[0x" + HexString(u.bucket) + "]";
    var front := if u.place.path == "/" then "" else u.place.path;
    assert path == front + "/" + u.place.name;
    assert head + (path + options) == head + front + "/" + u.place.name + options;
  }

  lemma PiecesJoined(kind: string, node: string, bucket: string, tail: string)
    ensures kind + ([':'] + (['<'] + (("0x" + node) + (['>'] + (['['] + (("0x" + bucket) + ([']'] + tail))))))) ==
            kind + ":<0x" + node + ">[0x" + bucket + "]" + tail
  {
  }

  // ---------------------------------------------------------------- the object

  lemma ScanStop(url: string, i: nat, f: Scanned)
    requires i < |url| && Turn(url, i, f) == Stop(Err)
    ensures Scan(url, i, f) == Err
  {
  }

  method ScanText(url: string) returns (r: Result<Scanned>)
    ensures r == Scan(url, 0, Scanned("", "", "", "", ""))
  {
    hide Scan, Find, FindAny, Lower;
    var i, f := 0, Scanned("", "", "", "", "");
    while i < |url|
      invariant i <= |url|
      invariant Scan(url, i, f) == Scan(url, 0, Scanned("", "", "", "", ""))
      decreases |url| - i
    {
      ghost var i0, f0 := i, f;
      if url[i] == '[' {
        var j := FindAny(url, DELIMS, i + 1);
        if j == |url| || url[j] != ']' {
          ScanStop(url, i, f);
          return Err;
        }
        f := f.(bucket := url[i + 1..j]);
        i := j + 1;
      } else if url[i] == '<' {
        var j := Find(url, '>', i + 1);
        if j == |url| {
          ScanStop(url, i, f);
          return Err;
        }
        f := f.(node := url[i + 1..j]);
        i := j + 1;
      } else if url[i] == '/' {
        var j := Find(url, '&', i + 1);
        f := f.(pathname := url[i..j]);
        i := j;
      } else if url[i] == '&' {
        f := f.(options := url[i + 1..]);
        i := |url|;
      } else if i != 0 {
        ScanStop(url, i, f);
        return Err;
      } else if url[0] == ':' {
        f := f.(kind := "");
        i := 1;
      } else {
        var j := FindAny(url, DELIMS, 0);
        if j == |url| || url[j] != ':' {
          ScanStop(url, i, f);
          return Err;
        }
        f := f.(kind := Lower(url[..j]));
        i := j + 1;
      }
      ScanGo(url, i0, f0, i, f);
    }
    ScanEnd(url, f);
    r := Ok(f);
  }

  lemma ScanEnd(url: string, f: Scanned)
    ensures Scan(url, |url|, f) == Ok(f)
  {
  }

  /** The path and name with a directory behind them. */
  method Appended(u: Place, dir: string) returns (text: string)
    requires dir != ""
    ensures text == PushText(u, dir)
  {
    text := if u.path != "/" then u.path else "";
    text := text + "/" + u.name;
    if dir[0] != '/' {
      text := text + "/";
    }
    text := text + dir;
  }

  class ResourceURL {
    var kind: string
    var node: U64
    var bucket: U32
    var path: string
    var name: string
    var options: string

    ghost function Model(): Url
      reads this
    {
      Url(kind, node, bucket, Place(path, name), options)
    }

    constructor (u: Url)
      ensures Model() == u
    {
      kind, node, bucket := u.kind, u.node, u.bucket;
      path, name, options := u.place.path, u.place.name, u.options;
    }

    /** SetURL: a text that does not parse changes nothing, and an absent node or bucket stays.  A bucket
        or node that does not convert comes too late: the other fields are those of the new text. */
    method SetURL(url: string, conv: Conversions) returns (ok: bool)
      modifies this
      ensures ok <==> FromText(url, conv).Ok?
      ensures Parse(url).Err? ==> Model() == old(Model())
      ensures Parse(url).Ok? ==>
                var p := Parse(url).value;
                var b, n := BucketOf(p.bucket, conv), NodeOf(p.node, conv);
                && kind == p.kind && Place(path, name) == p.place && options == p.options
                && bucket == (if p.bucket == "" || b.Err? then old(bucket) else b.value)
                && node == (if p.node == "" || (p.bucket != "" && b.Err?) || n.Err? then old(node) else n.value)
    {
      hide Scan, Interpret, BucketOf, NodeOf;
      var scanned := ScanText(url);
      if scanned.Err? {
        return false;
      }
      var parsed := Interpret(scanned.value);
      if parsed.Err? {
        return false;
      }
      var p := parsed.value;
      kind, path, name, options := p.kind, p.place.path, p.place.name, p.options;
      if p.bucket != "" {
        var b := BucketOf(p.bucket, conv);
        if b.Err? {
          return false;
        }
        bucket := b.value;
      }
      if p.node != "" {
        var n := NodeOf(p.node, conv);
        if n.Err? {
          return false;
        }
        node := n.value;
      }
      return true;
    }

    method GetOption(optionName: string, defaultValue: string) returns (value: string)
      ensures value == UrlOptions.Get(options, optionName, defaultValue)
    {
      var ops := SplitTokens(options, '&');
      value := UrlOptions.GetToken(ops, optionName, defaultValue);
    }

    method SetOption(optionName: string, value: string)
      modifies this`options
      ensures options == UrlOptions.Set(old(options), optionName, value)
    {
      if options == "" {
        options := optionName + "=" + value;
        return;
      }
      var ops := SplitTokens(options, '&');
      ops := UrlOptions.SetToken(ops, optionName, value);
      options := JoinTokens(ops, '&');
    }

    method RemoveOption(optionName: string) returns (removed: string)
      modifies this`options
      ensures options == UrlOptions.Remove(old(options), optionName)
      ensures removed == UrlOptions.LastIn(Tokens(old(options), '&'), optionName)
    {
      var ops := SplitTokens(options, '&');
      ops, removed := UrlOptions.EraseTokens(ops, optionName);
      options := JoinTokens(ops, '&');
    }

    method PopDir() returns (out: string)
      modifies this
      ensures out == old(name)
      ensures Model() == old(Model()).(place := Pop(old(Model().place)))
    {
      out := name;
      if path == "/" {
        name := "";
        return;
      }
      hide Tokens, JoinPath;
      var parts := SplitTokens(path, '/');
      if |parts| == 0 {
        path, name := "/", "";
      } else if |parts| == 1 {
        path, name := "/", parts[0];
      } else {
        path := JoinPathLoop(parts, |parts| - 1);
        name := parts[|parts| - 1];
      }
    }

    /** Nothing but slashes pushed at a nameless place leaves no parts; the source's assertion that the
        number of items to join is not negative then fails. */
    method PushDir(dir: string) returns (ok: bool)
      modifies this
      ensures ok <==> dir == "" || PathParts(PushText(old(Model().place), dir)) != []
      ensures Model() == if ok then old(Model()).(place := Push(old(Model().place), dir)) else old(Model())
    {
      if dir == "" {
        return true;
      }
      hide Tokens, JoinPath, PushText;
      var text := Appended(Place(path, name), dir);
      var parts := SplitTokens(text, '/');
      if parts == [] {
        return false;
      }
      path := JoinPathLoop(parts, |parts| - 1);
      name := parts[|parts| - 1];
      return true;
    }
  }
}
