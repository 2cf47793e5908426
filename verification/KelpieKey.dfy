/**
 Kelpie keys on disk: a key of two byte strings is packed into one, percent-encoded into a file name,
 and read back when the directory is loaded again.  Also the numeric tag at the end of a row name.
 */
module KelpieKey {
  import opened Common
  import opened Strings

  datatype Key = Key(k1: seq<Byte>, k2: seq<Byte>)

  // ---------------------------------------------------------------- packing

  function Pack(key: Key): Result<seq<Byte>> {
    if |key.k1| > 255 || |key.k2| > 255 then Err
    else Ok(key.k1 + key.k2 + [|key.k1|, |key.k2|])
  }

  function Unpack(p: seq<Byte>): Result<Key> {
    var s1: int := if |p| > 2 then p[|p| - 1] else 0;
    var s0: int := if |p| > 2 then p[|p| - 2] else 0;
    if s0 + s1 + 2 > |p| then Err else Ok(Key(p[..s0], p[s0..s0 + s1]))
  }

  /** The packed form: the two parts, then their lengths in this order.  Longer parts are refused. */
  lemma PackedBytes(key: Key)
    ensures Pack(key).Ok? <==> |key.k1| < 256 && |key.k2| < 256
    ensures Pack(key).Ok? ==>
              var p, a, b := Pack(key).value, |key.k1|, |key.k2|;
              |p| == a + b + 2 && p[..a] == key.k1 && p[a..a + b] == key.k2 && p[a + b] == a && p[a + b + 1] == b
  {
  }

  /** Every key that can be packed is unpacked unchanged. */
  lemma UnpackPack(key: Key)
    requires |key.k1| <= 255 && |key.k2| <= 255
    ensures Pack(key).Ok? && Unpack(Pack(key).value) == Ok(key)
  {
    var p := Pack(key).value;
    assert p[..|key.k1|] == key.k1;
    assert p[|key.k1|..|key.k1| + |key.k2|] == key.k2;
  }

  /** Unpacking accepts more than packing produces: bytes between the parts and the lengths are
      ignored, and the lengths of a two-byte string are not even read.  Packing again gives the same
      string exactly when the two lengths at its end account for all of it. */
  lemma PackUnpackIff(p: seq<Byte>)
    requires Unpack(p).Ok?
    ensures Pack(Unpack(p).value) == Ok(p) <==> p[|p| - 2] as int + p[|p| - 1] as int + 2 == |p|
  {
    var key := Unpack(p).value;
    var n: int := |key.k1| + |key.k2|;
    if p[|p| - 2] as int + p[|p| - 1] as int + 2 == |p| {
      assert p == p[..|key.k1|] + p[|key.k1|..n] + [p[|p| - 2], p[|p| - 1]];
    }
  }

  /** A string of three bytes that is accepted, as the empty key, and that no key is packed into. */
  lemma UnpackIgnoresBytes(key: Key)
    ensures Unpack([1, 0, 0]) == Ok(Key([], [])) && Pack(key) != Ok([1, 0, 0])
  {
    if Pack(key) == Ok([1, 0, 0]) {
      UnpackPack(key);
    }
  }

  /** The loops of pup(), which fill the string from front to back. */
  method PackLoop(key: Key) returns (r: Result<seq<Byte>>)
    ensures r == Pack(key)
  {
    if |key.k1| > 255 || |key.k2| > 255 {
      return Err;
    }
    var s := new Byte[2 + |key.k1| + |key.k2|];
    var i := 0;
    while i < |key.k1|
      invariant 0 <= i <= |key.k1| && forall k :: 0 <= k < i ==> s[k] == key.k1[k]
    {
      s[i] := key.k1[i];
      i := i + 1;
    }
    var j := 0;
    while j < |key.k2|
      invariant 0 <= j <= |key.k2| && i == |key.k1| + j
      invariant forall k :: 0 <= k < |key.k1| ==> s[k] == key.k1[k]
      invariant forall k :: 0 <= k < j ==> s[|key.k1| + k] == key.k2[k]
    {
      s[i] := key.k2[j];
      i, j := i + 1, j + 1;
    }
    s[i] := |key.k1| % 256;
    s[i + 1] := |key.k2| % 256;
    assert s[..] == key.k1 + key.k2 + [s[i], s[i + 1]];
    r := Ok(s[..]);
  }

  // ---------------------------------------------------------------- percent-encoding

  const PERCENT: Byte := 37

  predicate IsAlnum(b: Byte) {
    48 <= b <= 57 || 65 <= b <= 90 || 97 <= b <= 122
  }

  predicate IsXDigit(b: Byte) {
    48 <= b <= 57 || 65 <= b <= 70 || 97 <= b <= 102
  }

  function Nibble(d: nat): (b: Byte)
    requires d < 16
    ensures IsXDigit(b) && IsAlnum(b) && NibbleOf(b) == d
  {
    if d < 10 then 48 + d else 87 + d
  }

  function NibbleOf(b: Byte): (d: nat)
    requires IsXDigit(b)
    ensures d < 16
  {
    if b <= 57 then b - 48 else if b >= 97 then b - 87 else b - 55
  }

  function EncodeByte(b: Byte): seq<Byte> {
    if IsAlnum(b) then [b] else [PERCENT, Nibble(b / 16), Nibble(b % 16)]
  }

  function Encode(s: seq<Byte>): seq<Byte> {
    if s == [] then [] else EncodeByte(s[0]) + Encode(s[1..])
  }

  /** ExpandPunycode reads a C string: it stops at a zero byte, and drops a '%' that is not followed by
      two hexadecimal digits. */
  function Decode(t: seq<Byte>): seq<Byte> {
    if t == [] || t[0] == 0 then []
    else if t[0] != PERCENT then [t[0]] + Decode(t[1..])
    else if |t| > 2 && IsXDigit(t[1]) && IsXDigit(t[2]) then
      [16 * NibbleOf(t[1]) + NibbleOf(t[2])] + Decode(t[3..])
    else Decode(t[1..])
  }

  /** Digits and letters stay, and any other byte becomes a percent sign and two lower-case hexadecimal
      digits. */
  lemma EscapeIs(b: Byte)
    ensures var e := EncodeByte(b);
            if 48 <= b <= 57 || 65 <= b <= 90 || 97 <= b <= 122 then e == [b]
            else
              && |e| == 3 && e[0] == 37
              && (forall i :: 1 <= i < 3 ==> (48 <= e[i] <= 57 || 97 <= e[i] <= 102) && IsXDigit(e[i]))
              && 16 * NibbleOf(e[1]) + NibbleOf(e[2]) == b
  {
  }

  lemma DigitCase(b: Byte)
    requires 65 <= b <= 70
    ensures NibbleOf(b) == NibbleOf(b + 32) == b - 55
  {
  }

  /** Decoding reads up to the first zero byte. */
  lemma {:induction false} DecodeStopsAtZero(a: seq<Byte>, b: seq<Byte>)
    ensures Decode(a + [0] + b) == Decode(a)
  {
    hide NibbleOf;
    var t := a + [0] + b;
    if a != [] && a[0] != 0 {
      assert t[1..] == a[1..] + [0] + b && t[0] == a[0];
      DecodeStopsAtZero(a[1..], b);
      if |a| > 2 {
        assert t[3..] == a[3..] + [0] + b && t[1] == a[1] && t[2] == a[2];
        DecodeStopsAtZero(a[3..], b);
      } else {
        assert |t| > 2 ==> t[|a|] == 0 && (|a| == 2 ==> t[2] == 0) && (|a| == 1 ==> t[1] == 0);
      }
    }
  }

  /** Text without percent signs and zero bytes is left as it is. */
  lemma {:induction false} DecodePlain(t: seq<Byte>)
    requires PERCENT !in t && 0 !in t
    ensures Decode(t) == t
  {
    if t != [] {
      assert t[0] in t;
      DecodePlain(t[1..]);
    }
  }

  lemma DecodeStep(b: Byte, rest: seq<Byte>)
    ensures Decode(EncodeByte(b) + rest) == [b] + Decode(rest)
  {
    var t := EncodeByte(b) + rest;
    if IsAlnum(b) {
      assert t[1..] == rest;
    } else {
      assert t[3..] == rest;
    }
  }

  /** Decoding undoes encoding for every byte string, zero bytes included. */
  lemma {:induction false} DecodeEncode(s: seq<Byte>)
    ensures Decode(Encode(s)) == s
  {
    if s != [] {
      DecodeStep(s[0], Encode(s[1..]));
      DecodeEncode(s[1..]);
      assert s == [s[0]] + s[1..];
    }
  }

  lemma {:induction false} EncodedBytes(s: seq<Byte>)
    ensures forall b <- Encode(s) :: IsAlnum(b) || b == PERCENT
    ensures |Encode(s)| >= |s|
  {
    if s != [] {
      EncodedBytes(s[1..]);
      assert forall b <- EncodeByte(s[0]) :: IsAlnum(b) || b == PERCENT;
    }
  }

  lemma EncodeStep(s: seq<Byte>, i: nat, r: seq<Byte>)
    requires i < |s|
    ensures r + Encode(s[i..]) == (r + EncodeByte(s[i])) + Encode(s[i + 1..])
  {
    hide EncodeByte;
    assert s[i..][1..] == s[i + 1..];
    assert r + (EncodeByte(s[i]) + Encode(s[i + 1..])) == (r + EncodeByte(s[i])) + Encode(s[i + 1..]);
  }

  method EncodeLoop(s: seq<Byte>) returns (r: seq<Byte>)
    ensures r == Encode(s)
  {
    r := [];
    var i := 0;
    assert s[0..] == s;
    assert Encode([]) == [];
    hide Encode;
    while i != |s|
      invariant 0 <= i <= |s| && r + Encode(s[i..]) == Encode(s)
      decreases |s| - i
    {
      EncodeStep(s, i, r);
      if IsAlnum(s[i]) {
        r := r + [s[i]];
      } else {
        r := r + [PERCENT, Nibble(s[i] / 16), Nibble(s[i] % 16)];
      }
      i := i + 1;
    }
  }

  /** An escape at this position: a percent sign and two hexadecimal digits. */
  predicate EscapeAt(t: seq<Byte>, i: nat) {
    i + 2 < |t| && t[i] == PERCENT && IsXDigit(t[i + 1]) && IsXDigit(t[i + 2])
  }

  lemma DecodeFrom(t: seq<Byte>, i: nat, r: seq<Byte>)
    requires i <= |t|
    ensures r + Decode(t[i..]) ==
            if i == |t| || t[i] == 0 then r
            else if EscapeAt(t, i) then
              (r + [16 * NibbleOf(t[i + 1]) + NibbleOf(t[i + 2])]) + Decode(t[i + 3..])
            else if t[i] == PERCENT then r + Decode(t[i + 1..])
            else (r + [t[i]]) + Decode(t[i + 1..])
  {
    hide NibbleOf, IsXDigit;
    var rest := t[i..];
    assert i < |t| ==> rest[1..] == t[i + 1..];
    assert i + 2 < |t| ==> rest[3..] == t[i + 3..];
  }

  method DecodeLoop(t: seq<Byte>) returns (r: seq<Byte>)
    ensures r == Decode(t)
  {
    hide Decode, NibbleOf, IsXDigit;
    r := [];
    var i := 0;
    assert t[0..] == t && [] + Decode(t) == Decode(t);
    while i < |t| && t[i] != 0
      invariant 0 <= i <= |t| && r + Decode(t[i..]) == Decode(t)
      decreases |t| - i
    {
      DecodeFrom(t, i, r);
      if t[i] == PERCENT {
        i := i + 1;
        if i + 1 < |t| && IsXDigit(t[i]) && IsXDigit(t[i + 1]) {
          r := r + [16 * NibbleOf(t[i]) + NibbleOf(t[i + 1])];
          i := i + 2;
        }
      } else {
        r := r + [t[i]];
        i := i + 1;
      }
    }
    DecodeFrom(t, i, r);
  }

  // ---------------------------------------------------------------- file names

  function FileName(key: Key): Result<seq<Byte>> {
    match Pack(key)
    case Err => Err
    case Ok(p) => Ok(Encode(p))
  }

  function KeyOf(name: seq<Byte>): Result<Key> {
    Unpack(Decode(name))
  }

  /** A saved key is loaded unchanged, and its file name is a plain one: not empty, without '/', and
      neither "." nor "..". */
  lemma SavedKeyIsLoaded(key: Key)
    requires |key.k1| <= 255 && |key.k2| <= 255
    ensures FileName(key).Ok? && KeyOf(FileName(key).value) == Ok(key)
    ensures FileName(key).value != [] && 47 !in FileName(key).value && 46 !in FileName(key).value
  {
    UnpackPack(key);
    DecodeEncode(Pack(key).value);
    EncodedBytes(Pack(key).value);
  }

  /** Different keys get different file names. */
  lemma FileNamesInjective(a: Key, b: Key)
    requires FileName(a).Ok? && FileName(a) == FileName(b)
    ensures a == b
  {
    SavedKeyIsLoaded(a);
    SavedKeyIsLoaded(b);
  }

  // ---------------------------------------------------------------- the tag of a row name

  predicate IsTagged(k1: string) {
    k1 != "" && FindLast(k1, '{') >= 0 && k1[|k1| - 1] == '}'
  }

  function Untagged(k1: string): string {
    if IsTagged(k1) then k1[..FindLast(k1, '{')] else k1
  }

  function SetTag(k1: string, tag: U32): string {
    Untagged(k1) + ("{" + ("0x" + HexString(tag)) + "}")
  }

  datatype Tag = NoTag | Tag(value: nat)

  /** GetK1Tag; what the stream makes of a text that is not 0x and up to eight hexadecimal digits is left
      open. */
  function GetTag(k1: string, other: string -> nat): Tag {
    if !IsTagged(k1) then NoTag
    else
      var s := k1[FindLast(k1, '{') + 1..|k1| - 1];
      if "0x" <= s && 2 < |s| <= 10 && AllHex(s[2..]) then Tag(HexValue(s[2..])) else Tag(other(s))
  }

  lemma TagText(base: string, tag: U32)
    ensures var k1 := base + ("{" + ("0x" + HexString(tag)) + "}");
            && IsTagged(k1) && FindLast(k1, '{') == |base|
            && k1[|base| + 1..|k1| - 1] == "0x" + HexString(tag)
  {
    hide FindLast, HexString;
    var text := "0x" + HexString(tag);
    var k1 := base + ("{" + text + "}");
    HexRoundTrip(tag);
    assert '{' !in text;
    assert k1[|base|] == '{' && k1[|k1| - 1] == '}' && k1[|base| + 1..|k1| - 1] == text;
    assert forall k :: |base| < k < |k1| - 1 ==> k1[k] == text[k - |base| - 1];
  }

  /** A row name has a tag if and only if it ends in a brace and an opening one is in it. */
  lemma TaggedIff(k1: string, other: string -> nat)
    ensures GetTag(k1, other) == NoTag <==> k1 == "" || k1[|k1| - 1] != '}' || '{' !in k1
  {
    hide FindLast;
    if FindLast(k1, '{') >= 0 {
      assert k1[FindLast(k1, '{')] in k1;
    }
  }

  lemma TagExample()
    ensures SetTag("row", 0x1f) == "row{0x1f}"
  {
    assert HexString(0x1f) == HexString(1) + [HexDigit(15)] && HexString(1) == "1";
    hide HexString, FindLast;
    assert "row"[2] != '}';
  }

  /** The tag that is set is the one that is read, and it replaces the previous one. */
  lemma TagRoundTrip(k1: string, tag: U32, other: string -> nat)
    ensures GetTag(SetTag(k1, tag), other) == Tag(tag)
    ensures Untagged(SetTag(k1, tag)) == Untagged(k1)
    ensures forall t: U32 :: SetTag(SetTag(k1, t), tag) == SetTag(k1, tag)
  {
    hide FindLast, HexString;
    HexRoundTrip(tag);
    Pow16Values();
    HexLength(tag, 8);
    TagText(Untagged(k1), tag);
    assert ("0x" + HexString(tag))[2..] == HexString(tag);
    forall t: U32
      ensures Untagged(SetTag(k1, t)) == Untagged(k1)
    {
      TagText(Untagged(k1), t);
      assert SetTag(k1, t)[..|Untagged(k1)|] == Untagged(k1);
    }
  }
}
