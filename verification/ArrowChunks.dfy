/**
 The ArrowDataObject: serialized tables kept as header-prefixed chunks, back to back and rounded up
 to four bytes, in one buffer of fixed capacity.  A chunk is found by walking from the first one, and
 whole objects are concatenated by copying their chunks as one strip of bytes.

 A serialized table is an opaque sequence of bytes here; the buffer is the object's data region, the
 user capacity without the eight bytes of meta data in front of it.
 */
module ArrowChunks {
  import opened Common

  const HEADER: int := 16
  const META: int := 8
  const MAGIC: int := 0xf4D0_2112

  datatype Chunk = Chunk(rows: nat, data: seq<Byte>)

  /** The data region, how much of it is in use, and the chunk count kept in the meta data. */
  datatype Store = Store(buf: seq<Byte>, size: nat, num: nat)

  // ---------------------------------------------------------------- bytes

  /** A number in n little-endian bytes. */
  function Put(v: nat, n: nat): (s: seq<Byte>)
    ensures |s| == n
  {
    if n == 0 then [] else [v % 256] + Put(v / 256, n - 1)
  }

  function Take(s: seq<Byte>): nat {
    if s == [] then 0 else s[0] + 256 * Take(s[1..])
  }

  function Pow256(n: nat): nat {
    if n == 0 then 1 else 256 * Pow256(n - 1)
  }

  lemma {:induction false} TakePut(v: nat, n: nat)
    requires v < Pow256(n)
    ensures Take(Put(v, n)) == v
  {
    if n > 0 {
      TakePut(v / 256, n - 1);
      assert Put(v, n)[1..] == Put(v / 256, n - 1);
    }
  }

  lemma Pow256Values()
    ensures Pow256(4) == WORD && Pow256(8) == UINT64
  {
    assert Pow256(2) == 0x1_0000;
    assert Pow256(4) == 0x1_0000 * 0x1_0000;
    assert Pow256(6) == 0x1_0000_0000_0000;
  }

  function Header(length: nat, rows: nat): (h: seq<Byte>)
    ensures |h| == HEADER
  {
    Put(MAGIC, 4) + Put(length, 4) + Put(rows, 8)
  }

  /** The layout of a chunk header: magic number, length and rows, each least significant byte first. */
  lemma HeaderBytes(length: nat, rows: nat)
    ensures var h := Header(length, rows);
            && h[..4] == [0x12] + [0x21] + [0xd0] + [0xf4]
            && h[4..8] == Put(length, 4) && h[8..16] == Put(rows, 8)
  {
    var h := Header(length, rows);
    var m := Put(MAGIC, 4);
    assert h[..4] == m && h[4..8] == Put(length, 4) && h[8..16] == Put(rows, 8);
    hide Header;
    assert m == [0x12] + Put(0xf4d021, 3);
    assert Put(0xf4d021, 3) == [0x21] + Put(0xf4d0, 2);
    assert Put(0xf4d0, 2) == [0xd0] + Put(0xf4, 1);
    assert Put(0xf4, 1) == [0xf4] + Put(0, 0);
  }

  function Magic(buf: seq<Byte>, o: nat): nat
    requires o + HEADER <= |buf|
  {
    Take(buf[o..o + 4])
  }

  function Length(buf: seq<Byte>, o: nat): nat
    requires o + HEADER <= |buf|
  {
    Take(buf[o + 4..o + 8])
  }

  function Rows(buf: seq<Byte>, o: nat): nat
    requires o + HEADER <= |buf|
  {
    Take(buf[o + 8..o + 16])
  }

  // ---------------------------------------------------------------- layout

  function RoundUp(n: nat): (r: nat)
    ensures n <= r < n + 4 && r % 4 == 0
  {
    if n % 4 != 0 then n - n % 4 + 4 else n
  }

  /** The bytes a chunk takes up, header and padding included. */
  function Span(c: Chunk): (n: nat)
    ensures n >= HEADER && n % 4 == 0
  {
    RoundUp(HEADER + |c.data|)
  }

  ghost predicate HoldsAt(buf: seq<Byte>, o: nat, c: Chunk) {
    && o + HEADER + |c.data| <= |buf|
    && Magic(buf, o) == MAGIC && Length(buf, o) == |c.data| && Rows(buf, o) == c.rows
    && buf[o + HEADER..o + HEADER + |c.data|] == c.data
  }

  /** The chunks lie back to back from one offset to another. */
  ghost predicate Layout(buf: seq<Byte>, from: nat, to: nat, cs: seq<Chunk>)
    decreases |cs|
  {
    if cs == [] then from == to
    else HoldsAt(buf, from, cs[0]) && Layout(buf, from + Span(cs[0]), to, cs[1..])
  }

  function Spans(cs: seq<Chunk>): nat {
    if cs == [] then 0 else Span(cs[0]) + Spans(cs[1..])
  }

  ghost predicate WellFormed(s: Store, cs: seq<Chunk>) {
    && s.size <= |s.buf| && |s.buf| + META < WORD
    && Layout(s.buf, 0, s.size, cs)
    && s.num == |cs|
  }

  lemma {:induction false} LayoutEnd(buf: seq<Byte>, from: nat, to: nat, cs: seq<Chunk>)
    requires Layout(buf, from, to, cs)
    ensures to == from + Spans(cs) && Spans(cs) >= HEADER * |cs|
    decreases |cs|
  {
    hide HoldsAt, Span;
    if cs != [] {
      LayoutEnd(buf, from + Span(cs[0]), to, cs[1..]);
    }
  }

  lemma HoldsAtFrame(a: seq<Byte>, o: nat, b: seq<Byte>, p: nat, c: Chunk)
    requires HoldsAt(a, o, c) && p + HEADER + |c.data| <= |b|
    requires a[o..o + HEADER + |c.data|] == b[p..p + HEADER + |c.data|]
    ensures HoldsAt(b, p, c)
  {
    hide Take;
    var n := HEADER + |c.data|;
    SubSlice(a, o, n, 0, 4);
    SubSlice(b, p, n, 0, 4);
    SubSlice(a, o, n, 4, 8);
    SubSlice(b, p, n, 4, 8);
    SubSlice(a, o, n, 8, 16);
    SubSlice(b, p, n, 8, 16);
    SubSlice(a, o, n, 16, n);
    SubSlice(b, p, n, 16, n);
  }

  lemma SubSlice(a: seq<Byte>, o: nat, n: nat, i: nat, j: nat)
    requires o + n <= |a| && i <= j <= n
    ensures a[o..o + n][i..j] == a[o + i..o + j]
  {
    var s, t := a[o..o + n][i..j], a[o + i..o + j];
    assert forall k :: 0 <= k < |s| ==> s[k] == t[k];
  }

  /** A strip of chunks stays a strip of chunks wherever its bytes are copied. */
  lemma {:induction false} LayoutMoves(a: seq<Byte>, from: nat, to: nat, b: seq<Byte>, at: nat, cs: seq<Chunk>)
    requires Layout(a, from, to, cs) && from <= to <= |a| && at + (to - from) <= |b|
    requires a[from..to] == b[at..at + (to - from)]
    ensures Layout(b, at, at + (to - from), cs)
    decreases |cs|
  {
    hide HoldsAt, Take;
    if cs != [] {
      var n := Span(cs[0]);
      LayoutEnd(a, from + n, to, cs[1..]);
      var m, size := HEADER + |cs[0].data|, to - from;
      SubSlice(a, from, size, n, size);
      SubSlice(b, at, size, n, size);
      LayoutMoves(a, from + n, to, b, at + n, cs[1..]);
      SubSlice(a, from, size, 0, m);
      SubSlice(b, at, size, 0, m);
      HoldsAtFrame(a, from, b, at, cs[0]);
    }
  }

  lemma {:induction false} LayoutAppend(buf: seq<Byte>, from: nat, mid: nat, to: nat, cs: seq<Chunk>, ds: seq<Chunk>)
    requires Layout(buf, from, mid, cs) && Layout(buf, mid, to, ds)
    ensures Layout(buf, from, to, cs + ds)
    decreases |cs|
  {
    hide HoldsAt, Span;
    if cs == [] {
      assert cs + ds == ds;
    } else {
      LayoutAppend(buf, from + Span(cs[0]), mid, to, cs[1..], ds);
      assert (cs + ds)[1..] == cs[1..] + ds;
    }
  }

  // ---------------------------------------------------------------- appending a table

  /** roundupChunkSize on 32-bit numbers. */
  function RoundUp32(n: nat): nat {
    RoundUp(n % WORD) % WORD
  }

  /** Space left after a header, in the 64-bit arithmetic of the source: it wraps around when fewer
      than sixteen bytes are left. */
  function Available(s: Store): nat
    requires s.size <= |s.buf|
  {
    (|s.buf| - s.size - HEADER + UINT64) % UINT64
  }

  predicate Rejected(s: Store, length: nat)
    requires s.size <= |s.buf|
  {
    Available(s) < length
  }

  /** ModifyUserSizes: refuses what exceeds the capacity, and its answer is ignored. */
  function Resized(s: Store, size: nat): Store {
    if META + size > META + |s.buf| then s else s.(size := size)
  }

  function TableAppended(s: Store, c: Chunk): Store
    requires s.size <= |s.buf|
  {
    if Rejected(s, |c.data|) then s
    else
      var s1 := s.(buf := Blit(s.buf, s.size, Header(|c.data| % WORD, c.rows) + c.data));
      var s2 := Resized(s1, (s.size + RoundUp32(HEADER + |c.data|)) % WORD);
      s2.(num := (s.num + 1) % WORD)
  }

  lemma HeaderReads(length: nat, rows: nat, data: seq<Byte>)
    requires length == |data| < WORD && rows < UINT64
    ensures HoldsAt(Header(length, rows) + data, 0, Chunk(rows, data))
  {
    hide Take, Put, Pow256;
    var h := Header(length, rows);
    var b := h + data;
    Pow256Values();
    TakePut(MAGIC, 4);
    TakePut(length, 4);
    TakePut(rows, 8);
    assert b[0..4] == Put(MAGIC, 4) && b[4..8] == Put(length, 4) && b[8..16] == Put(rows, 8);
    assert b[16..16 + length] == data;
  }

  lemma BlitSlices(buf: seq<Byte>, o: nat, bytes: seq<Byte>)
    requires o + |bytes| <= |buf|
    ensures Blit(buf, o, bytes)[o..o + |bytes|] == bytes && Blit(buf, o, bytes)[..o] == buf[..o]
  {
  }

  lemma LayoutKept(s: Store, cs: seq<Chunk>, bytes: seq<Byte>)
    requires WellFormed(s, cs)
    ensures Layout(Blit(s.buf, s.size, bytes), 0, s.size, cs)
  {
    hide Layout, Blit;
    var b := Blit(s.buf, s.size, bytes);
    assert s.buf[0..s.size] == b[0..s.size];
    LayoutMoves(s.buf, 0, s.size, b, 0, cs);
  }

  /** Without wrap-around, an append writes the chunk behind the others and counts it. */
  lemma AppendEffect(s: Store, cs: seq<Chunk>, c: Chunk)
    requires WellFormed(s, cs) && Span(c) <= |s.buf| - s.size
    ensures !Rejected(s, |c.data|)
    ensures TableAppended(s, c) ==
            Store(Blit(s.buf, s.size, Header(|c.data|, c.rows) + c.data), s.size + Span(c), s.num + 1)
  {
    hide Layout, HoldsAt, Header, Blit, RoundUp32, RoundUp, Spans;
    LayoutEnd(s.buf, 0, s.size, cs);
    RoundUpSmall(HEADER + |c.data|);
  }

  lemma RoundUpSmall(n: nat)
    requires RoundUp(n) < WORD
    ensures RoundUp32(n) == RoundUp(n)
  {
    assert n % WORD == n;
  }

  lemma ChunkWritten(buf: seq<Byte>, o: nat, c: Chunk)
    requires c.rows < UINT64 && o + Span(c) <= |buf| < WORD
    ensures Layout(Blit(buf, o, Header(|c.data|, c.rows) + c.data), o, o + Span(c), [c])
  {
    hide Layout, HoldsAt, Header, Blit;
    var bytes := Header(|c.data|, c.rows) + c.data;
    HeaderReads(|c.data|, c.rows, c.data);
    BlitSlices(buf, o, bytes);
    assert bytes[0..|bytes|] == bytes;
    HoldsAtFrame(bytes, 0, Blit(buf, o, bytes), o, c);
    LayoutOne(Blit(buf, o, bytes), o, c);
  }

  /** The table goes in when its chunk fits once rounded up. */
  lemma AppendFits(s: Store, cs: seq<Chunk>, c: Chunk)
    requires WellFormed(s, cs) && c.rows < UINT64 && Span(c) <= |s.buf| - s.size
    ensures !Rejected(s, |c.data|) && WellFormed(TableAppended(s, c), cs + [c])
  {
    hide Layout, HoldsAt, Header, Blit, TableAppended, Span;
    var bytes := Header(|c.data|, c.rows) + c.data;
    AppendEffect(s, cs, c);
    LayoutKept(s, cs, bytes);
    ChunkWritten(s.buf, s.size, c);
    LayoutAppend(Blit(s.buf, s.size, bytes), 0, s.size, s.size + Span(c), cs, [c]);
  }

  lemma LayoutOne(buf: seq<Byte>, o: nat, c: Chunk)
    requires HoldsAt(buf, o, c)
    ensures Layout(buf, o, o + Span(c), [c])
  {
    assert [c][1..] == [];
  }

  lemma SpansOne(c: Chunk)
    ensures Spans([c]) == Span(c)
  {
    assert [c][1..] == [];
  }

  lemma {:induction false} SpansAppend(cs: seq<Chunk>, ds: seq<Chunk>)
    ensures Spans(cs + ds) == Spans(cs) + Spans(ds)
  {
    if cs == [] {
      assert cs + ds == ds;
    } else {
      assert (cs + ds)[1..] == cs[1..] + ds;
      SpansAppend(cs[1..], ds);
    }
  }

  /** Appending a table answers with a capacity error exactly when sixteen or more bytes are left but
      too few for the header and the table.  Otherwise it reports success, and the object then holds
      the table exactly when its chunk fits rounded up to four bytes: not when only the rounding is
      missing, and not when fewer than sixteen bytes are left. */
  lemma AppendTableIff(s: Store, cs: seq<Chunk>, c: Chunk)
    requires WellFormed(s, cs) && c.rows < UINT64 && |c.data| < UINT64 / 2
    ensures Rejected(s, |c.data|) <==> HEADER <= |s.buf| - s.size < HEADER + |c.data|
    ensures !Rejected(s, |c.data|) ==>
              (WellFormed(TableAppended(s, c), cs + [c]) <==> Span(c) <= |s.buf| - s.size)
  {
    hide Layout, HoldsAt, Header, Blit, Spans;
    if Span(c) <= |s.buf| - s.size {
      AppendFits(s, cs, c);
    } else if !Rejected(s, |c.data|) {
      var t := TableAppended(s, c);
      LayoutEnd(s.buf, 0, s.size, cs);
      SpansAppend(cs, [c]);
      SpansOne(c);
      if WellFormed(t, cs + [c]) {
        LayoutEnd(t.buf, 0, t.size, cs + [c]);
      }
    }
  }

  /** Two appends that report success and lose the table: three bytes of padding do not fit, and
      there is not even room for the header. */
  lemma AppendLosesTable(c: Chunk)
    requires |c.data| == 1
    ensures var s := Store(seq(17, i => 0), 0, 0);
            WellFormed(s, []) && !Rejected(s, 1) && TableAppended(s, c).size == 0 && TableAppended(s, c).num == 1
    ensures var s := Store(seq(15, i => 0), 0, 0);
            WellFormed(s, []) && !Rejected(s, 1) && TableAppended(s, c).size == 0 && TableAppended(s, c).num == 1
  {
    hide Layout, Header, Blit;
    FreshWellFormed(Store(seq(17, i => 0), 0, 0));
    FreshWellFormed(Store(seq(15, i => 0), 0, 0));
  }

  // ---------------------------------------------------------------- appending an object

  datatype Status = Success | OutOfMemory | Invalid

  /** doAppendChunkStrip with the data region and chunk count of another object. */
  function StripStatus(s: Store, src: Store): Status
    requires s.size <= |s.buf| && src.size <= |src.buf|
  {
    if src.size == 0 || src.num == 0 then Success
    else if |s.buf| - s.size < src.size then OutOfMemory
    else if |src.buf| < HEADER || Magic(src.buf, 0) != MAGIC then Invalid
    else Success
  }

  function AppendStrip(s: Store, src: Store): Store
    requires s.size <= |s.buf| && src.size <= |src.buf|
  {
    if src.size == 0 || src.num == 0 || StripStatus(s, src) != Success then s
    else
      var s1 := s.(buf := Blit(s.buf, s.size, src.buf[..src.size]));
      Resized(s1, (s.size + src.size) % WORD).(num := (s.num + src.num) % WORD)
  }

  /** What becomes of an append of any object, well formed or not: nothing to copy is a success, then
      too little room and a first chunk without its magic number are refused, and only a copy changes
      anything. */
  lemma StripOutcome(s: Store, src: Store)
    requires s.size <= |s.buf| && src.size <= |src.buf| && |s.buf| < WORD
    ensures var empty, fits := src.size == 0 || src.num == 0, s.size + src.size <= |s.buf|;
            var marked := HEADER <= |src.buf| && Magic(src.buf, 0) == MAGIC;
            && (StripStatus(s, src) == Success <==> empty || (fits && marked))
            && (StripStatus(s, src) == OutOfMemory <==> !empty && !fits)
            && (AppendStrip(s, src).size == s.size + src.size <==> src.size == 0 || (!empty && fits && marked))
            && (empty || !fits || !marked ==> AppendStrip(s, src) == s)
  {
    hide Magic, Blit;
  }

  lemma StripIsEmptyIff(src: Store, ds: seq<Chunk>)
    requires WellFormed(src, ds)
    ensures src.size == 0 <==> ds == []
    ensures ds != [] ==> |src.buf| >= HEADER && Magic(src.buf, 0) == MAGIC
  {
    LayoutEnd(src.buf, 0, src.size, ds);
  }

  lemma StripLanded(s: Store, src: Store, ds: seq<Chunk>)
    requires WellFormed(src, ds) && s.size + src.size <= |s.buf|
    ensures Layout(Blit(s.buf, s.size, src.buf[..src.size]), s.size, s.size + src.size, ds)
  {
    hide Layout, Blit;
    var bytes := src.buf[..src.size];
    BlitSlices(s.buf, s.size, bytes);
    assert src.buf[0..src.size] == bytes;
    LayoutMoves(src.buf, 0, src.size, Blit(s.buf, s.size, bytes), s.size, ds);
  }

  /** Appending an object adds all its chunks if they fit, and otherwise changes nothing. */
  lemma AppendStripIff(s: Store, cs: seq<Chunk>, src: Store, ds: seq<Chunk>)
    requires WellFormed(s, cs) && WellFormed(src, ds)
    ensures StripStatus(s, src) == if src.size <= |s.buf| - s.size then Success else OutOfMemory
    ensures WellFormed(AppendStrip(s, src), if StripStatus(s, src) == Success then cs + ds else cs)
  {
    hide Layout, Blit, Magic;
    StripIsEmptyIff(src, ds);
    if ds == [] {
      assert cs + ds == cs;
    } else if src.size <= |s.buf| - s.size {
      var b := Blit(s.buf, s.size, src.buf[..src.size]);
      LayoutEnd(s.buf, 0, s.size, cs);
      LayoutEnd(src.buf, 0, src.size, ds);
      LayoutKept(s, cs, src.buf[..src.size]);
      StripLanded(s, src, ds);
      LayoutAppend(b, 0, s.size, s.size + src.size, cs, ds);
    }
  }

  // ---------------------------------------------------------------- finding a chunk

  /** The offset of the i-th chunk. */
  function Offset(cs: seq<Chunk>, i: nat): nat
    requires i <= |cs|
  {
    Spans(cs[..i])
  }

  lemma {:induction false} SpansAligned(cs: seq<Chunk>)
    ensures Spans(cs) % 4 == 0
  {
    hide Span;
    if cs != [] {
      SpansAligned(cs[1..]);
    }
  }

  lemma {:induction false} OffsetIsSpans(cs: seq<Chunk>, i: nat)
    requires i <= |cs|
    ensures Offset(cs, i) == Spans(cs[..i])
    decreases i
  {
    if i > 0 {
      OffsetIsSpans(cs[1..], i - 1);
      assert cs[..i][1..] == cs[1..][..i - 1];
    }
  }

  /** In every well-formed object each chunk starts, and the data ends, at a multiple of four. */
  lemma ChunksAreAligned(s: Store, cs: seq<Chunk>, i: nat)
    requires WellFormed(s, cs) && i <= |cs|
    ensures Offset(cs, i) % 4 == 0 && s.size % 4 == 0
  {
    hide Layout, Offset, Spans;
    OffsetIsSpans(cs, i);
    SpansAligned(cs[..i]);
    LayoutEnd(s.buf, 0, s.size, cs);
    SpansAligned(cs);
  }

  lemma {:induction false} ChunkAt(buf: seq<Byte>, from: nat, to: nat, cs: seq<Chunk>, i: nat)
    requires Layout(buf, from, to, cs) && i < |cs|
    ensures HoldsAt(buf, from + Offset(cs, i), cs[i])
    ensures Offset(cs, i + 1) == Offset(cs, i) + Span(cs[i])
    ensures from + Offset(cs, i + 1) <= to
    decreases |cs|
  {
    hide HoldsAt, Span;
    if i == 0 {
      assert cs[..1] == [cs[0]] && [cs[0]][1..] == [];
      LayoutEnd(buf, from + Span(cs[0]), to, cs[1..]);
    } else {
      ChunkAt(buf, from + Span(cs[0]), to, cs[1..], i - 1);
      assert cs[..i][1..] == cs[1..][..i - 1] && cs[..i + 1][1..] == cs[1..][..i];
    }
  }

  datatype Found = NotFound | At(offset: nat)

  /** locateChunk: walk from chunk to chunk by the lengths in their headers. */
  method LocateChunk(s: Store, ghost cs: seq<Chunk>, id: int) returns (r: Found)
    requires WellFormed(s, cs)
    ensures 0 <= id < |cs| ==> r.At? && r.offset == Offset(cs, id) && HoldsAt(s.buf, r.offset, cs[id])
    ensures !(0 <= id < |cs|) ==> r == NotFound
  {
    hide Layout, HoldsAt, Magic, Length, Rows, Span;
    if id < 0 || id >= s.num {
      return NotFound;
    }
    var ptr := 0;
    assert cs[..0] == [];
    for i := 0 to id
      invariant ptr == Offset(cs, i)
    {
      ChunkAt(s.buf, 0, s.size, cs, i);
      ReadLength(s.buf, ptr, cs[i]);
      ptr := ptr + RoundUp32(HEADER + Length(s.buf, ptr));
    }
    ChunkAt(s.buf, 0, s.size, cs, id);
    r := At(ptr);
  }

  lemma ReadLength(buf: seq<Byte>, o: nat, c: Chunk)
    requires HoldsAt(buf, o, c) && o + Span(c) <= |buf| < WORD
    ensures o + HEADER <= |buf| && RoundUp32(HEADER + Length(buf, o)) == Span(c)
    ensures Rows(buf, o) == c.rows && Magic(buf, o) == MAGIC
  {
    hide RoundUp32, RoundUp;
    RoundUpSmall(HEADER + |c.data|);
  }

  function TotalRows(cs: seq<Chunk>): nat {
    if cs == [] then 0 else TotalRows(cs[..|cs| - 1]) + cs[|cs| - 1].rows
  }

  /** NumberOfRows adds up the headers; no chunk on the way is found invalid. */
  method NumberOfRows(s: Store, ghost cs: seq<Chunk>) returns (rows: nat)
    requires WellFormed(s, cs)
    ensures rows == TotalRows(cs) % UINT64
  {
    hide Layout, HoldsAt, Magic, Length, Rows, Span;
    rows := 0;
    var ptr := 0;
    assert cs[..0] == [];
    for i := 0 to s.num
      invariant ptr == Offset(cs, i)
      invariant rows == TotalRows(cs[..i]) % UINT64
    {
      ChunkAt(s.buf, 0, s.size, cs, i);
      ReadLength(s.buf, ptr, cs[i]);
      assert Magic(s.buf, ptr) == MAGIC;
      assert cs[..i + 1][..i] == cs[..i];
      rows := (rows + Rows(s.buf, ptr)) % UINT64;
      ptr := ptr + RoundUp32(HEADER + Length(s.buf, ptr));
    }
    assert cs[..s.num] == cs;
  }

  // ---------------------------------------------------------------- runs of appends

  datatype Op = Table(c: Chunk) | Object(src: Store, chunks: seq<Chunk>)

  /** The table is accepted without there being room for its rounded chunk. */
  predicate Loses(s: Store, c: Chunk)
    requires s.size <= |s.buf|
  {
    Span(c) > |s.buf| - s.size && !Rejected(s, |c.data|)
  }

  ghost predicate OpOk(op: Op) {
    match op
    case Table(c) => c.rows < UINT64 && |c.data| < UINT64 / 2
    case Object(src, ds) => WellFormed(src, ds)
  }

  function Apply(s: Store, op: Op): (r: Store)
    requires s.size <= |s.buf| && (op.Object? ==> op.src.size <= |op.src.buf|)
  {
    match op
    case Table(c) => TableAppended(s, c)
    case Object(src, ds) => AppendStrip(s, src)
  }

  /** The chunks an append adds: all of them or none. */
  function Added(s: Store, op: Op): seq<Chunk>
    requires s.size <= |s.buf| && (op.Object? ==> op.src.size <= |op.src.buf|)
  {
    match op
    case Table(c) => if Rejected(s, |c.data|) then [] else [c]
    case Object(src, ds) => if StripStatus(s, src) == Success then ds else []
  }

  /** The run of appends from s leads to a store with these chunks added, losing no table. */
  ghost predicate Run(s: Store, ops: seq<Op>, s': Store, added: seq<Chunk>)
    decreases |ops|
  {
    if ops == [] then s' == s && added == []
    else
      && s.size <= |s.buf| && OpOk(ops[0]) && (ops[0].Table? ==> !Loses(s, ops[0].c))
      && Added(s, ops[0]) <= added
      && Run(Apply(s, ops[0]), ops[1..], s', added[|Added(s, ops[0])|..])
  }

  /** After every run of appends in which no table is lost, the data region is a gapless run of
      exactly the accepted chunks in order, contents intact. */
  lemma {:induction false} EveryRun(s: Store, cs: seq<Chunk>, ops: seq<Op>, s': Store, added: seq<Chunk>)
    requires WellFormed(s, cs) && Run(s, ops, s', added)
    ensures WellFormed(s', cs + added)
    decreases |ops|
  {
    hide WellFormed, Apply, Added, Loses, OpOk;
    if ops == [] {
      assert cs + added == cs;
    } else {
      OpStep(s, cs, ops[0]);
      var a := Added(s, ops[0]);
      EveryRun(Apply(s, ops[0]), cs + a, ops[1..], s', added[|a|..]);
      assert (cs + a) + added[|a|..] == cs + added;
    }
  }

  lemma OpStep(s: Store, cs: seq<Chunk>, op: Op)
    requires WellFormed(s, cs) && OpOk(op) && (op.Table? ==> !Loses(s, op.c))
    ensures s.size <= |s.buf| && (op.Object? ==> op.src.size <= |op.src.buf|)
    ensures WellFormed(Apply(s, op), cs + Added(s, op))
  {
    hide Layout, TableAppended, AppendStrip, Rejected, StripStatus, Span;
    assert cs + [] == cs;
    match op
    case Table(c) => if !Rejected(s, |c.data|) { AppendFits(s, cs, c); } else { RejectedUnchanged(s, c); }
    case Object(src, ds) => AppendStripIff(s, cs, src, ds);
  }

  lemma RejectedUnchanged(s: Store, c: Chunk)
    requires s.size <= |s.buf| && Rejected(s, |c.data|)
    ensures TableAppended(s, c) == s
  {
  }

  // ---------------------------------------------------------------- concatenating objects

  function TotalSize(srcs: seq<Store>): nat {
    if srcs == [] then 0 else TotalSize(srcs[..|srcs| - 1]) + srcs[|srcs| - 1].size
  }

  function Concat(css: seq<seq<Chunk>>): seq<Chunk> {
    if css == [] then [] else Concat(css[..|css| - 1]) + css[|css| - 1]
  }

  ghost predicate AllWellFormed(srcs: seq<Store>, css: seq<seq<Chunk>>) {
    |srcs| == |css| && forall i :: 0 <= i < |srcs| ==> WellFormed(srcs[i], css[i])
  }

  datatype MakeResult = Empty | Made(store: Store) | Failed

  method SumSizes(srcs: seq<Store>) returns (size: nat)
    ensures size == TotalSize(srcs) % WORD
  {
    size := 0;
    for i := 0 to |srcs|
      invariant size == TotalSize(srcs[..i]) % WORD
    {
      assert srcs[..i + 1][..i] == srcs[..i];
      size := (size + srcs[i].size) % WORD;
    }
    assert srcs[..|srcs|] == srcs;
  }

  method AppendAll(empty: Store, srcs: seq<Store>, ghost css: seq<seq<Chunk>>) returns (r: MakeResult)
    requires AllWellFormed(srcs, css) && WellFormed(empty, []) && empty.size == 0
    ensures r.Made? <==> TotalSize(srcs) <= |empty.buf|
    ensures r.Made? ==> WellFormed(r.store, Concat(css))
    ensures r != Empty
  {
    hide WellFormed, AppendStrip, StripStatus;
    var fado := empty;
    assert srcs[..0] == [] && css[..0] == [];
    for i := 0 to |srcs|
      invariant WellFormed(fado, Concat(css[..i]))
      invariant fado.size == TotalSize(srcs[..i]) && |fado.buf| == |empty.buf|
    {
      assert srcs[..i + 1][..i] == srcs[..i] && css[..i + 1][..i] == css[..i];
      AppendStripIff(fado, Concat(css[..i]), srcs[i], css[i]);
      StripSize(fado, Concat(css[..i]), srcs[i], css[i]);
      if StripStatus(fado, srcs[i]) != Success {
        TotalMonotone(srcs, i + 1);
        return Failed;
      }
      fado := AppendStrip(fado, srcs[i]);
    }
    assert srcs[..|srcs|] == srcs && css[..|css|] == css;
    SizeBound(fado, Concat(css));
    r := Made(fado);
  }

  /** Sums the sizes in 32 bits, allocates, and appends object after object.  The allocator may give
      more than it is asked for.  The result holds all chunks exactly when the true sum and the meta
      data fit 32 bits.  When the sum wraps around the answer is an error, or an empty object that
      looks like success if the sum is a multiple of 2^32. */
  method Make(srcs: seq<Store>, ghost css: seq<seq<Chunk>>, allocate: nat -> nat) returns (r: MakeResult)
    requires AllWellFormed(srcs, css)
    requires forall n: nat :: n < WORD ==> n <= allocate(n) < WORD
    ensures r == Empty <==> TotalSize(srcs) % WORD == 0
    ensures r.Made? <==> 0 < TotalSize(srcs) < 0xffff_fff8
    ensures r.Made? ==> WellFormed(r.store, Concat(css))
  {
    hide WellFormed;
    var size := SumSizes(srcs);
    if size == 0 {
      return Empty;
    }
    var request := (META + size) % WORD;
    if request < META {
      return Failed;
    }
    var fado := Store(seq(allocate(request) - META, i => 0), 0, 0);
    FreshWellFormed(fado);
    r := AppendAll(fado, srcs, css);
  }

  lemma ConcatTwo(cs: seq<Chunk>)
    ensures Concat([[], cs]) == cs
  {
    var none: seq<Chunk> := [];
    assert [none][..0] == [] && Concat([none]) == none;
    assert [none, cs][..1] == [none];
    assert Concat([none, cs]) == Concat([none]) + cs;
  }

  /** An empty input is skipped, not an error: with it the condition for Make to succeed holds, and the
      chunks it then promises are those of the other input. */
  lemma EmptyInputIsSkipped(empty: Store, s: Store, cs: seq<Chunk>)
    requires WellFormed(empty, []) && WellFormed(s, cs) && cs != []
    ensures AllWellFormed([empty, s], [[], cs])
    ensures 0 < TotalSize([empty, s]) < WORD - META && Concat([[], cs]) == cs
  {
    StripIsEmptyIff(empty, []);
    StripIsEmptyIff(s, cs);
    SizeBound(s, cs);
    hide WellFormed;
    assert TotalSize([empty]) == empty.size && TotalSize([empty, s]) == s.size by {
      assert [empty, s][..1] == [empty] && [empty][..0] == [];
    }
    ConcatTwo(cs);
  }

  lemma FreshWellFormed(s: Store)
    requires s.size == 0 && s.num == 0 && |s.buf| + META < WORD
    ensures WellFormed(s, [])
  {
  }

  lemma SizeBound(s: Store, cs: seq<Chunk>)
    requires WellFormed(s, cs)
    ensures s.size <= |s.buf| && |s.buf| + META < WORD
  {
  }

  lemma StripSize(s: Store, cs: seq<Chunk>, src: Store, ds: seq<Chunk>)
    requires WellFormed(s, cs) && WellFormed(src, ds)
    ensures s.size <= |s.buf| && src.size <= |src.buf|
    ensures |AppendStrip(s, src).buf| == |s.buf|
    ensures StripStatus(s, src) == Success ==> AppendStrip(s, src).size == s.size + src.size
  {
    hide Layout, Blit, Magic;
    StripIsEmptyIff(src, ds);
  }

  lemma {:induction false} TotalMonotone(srcs: seq<Store>, i: nat)
    requires i <= |srcs|
    ensures TotalSize(srcs[..i]) <= TotalSize(srcs)
    decreases |srcs|
  {
    if i < |srcs| {
      TotalMonotone(srcs[..|srcs| - 1], i);
      assert srcs[..|srcs| - 1][..i] == srcs[..i];
    } else {
      assert srcs[..i] == srcs;
    }
  }

  // ---------------------------------------------------------------- the object

  class ArrowDataObject {
    const buf: array<Byte>
    var dataSize: nat
    var numChunks: nat

    ghost function Model(): Store
      reads this, buf
    {
      Store(buf[..], dataSize, numChunks)
    }

    constructor (buf: array<Byte>)
      requires buf.Length + META < WORD
      ensures this.buf == buf && WellFormed(Model(), [])
    {
      this.buf := buf;
      dataSize, numChunks := 0, 0;
    }

    /** doAppendTables for one serialized table. */
    method AppendTable(rows: nat, table: seq<Byte>) returns (status: Status)
      requires dataSize <= buf.Length && |table| < UINT64 / 2
      modifies this, buf
      ensures Model() == TableAppended(old(Model()), Chunk(rows, table))
      ensures status == Success <==> !Rejected(old(Model()), |table|)
    {
      hide Header, RoundUp32, Blit;
      status := Success;
      var available := (buf.Length - dataSize - HEADER + UINT64) % UINT64;
      if available < |table| {
        return OutOfMemory;
      }
      Memcpy(buf, dataSize, Header(|table| % WORD, rows) + table);
      var newSize := (dataSize + RoundUp32(HEADER + |table|)) % WORD;
      if META + newSize <= META + buf.Length {
        dataSize := newSize;
      }
      numChunks := (numChunks + 1) % WORD;
    }

    /** Append for another object: its chunks are copied as one strip. */
    method Append(src: ArrowDataObject) returns (status: Status)
      requires dataSize <= buf.Length && src.dataSize <= src.buf.Length
      modifies this, buf
      ensures Model() == AppendStrip(old(Model()), old(src.Model()))
      ensures status == StripStatus(old(Model()), old(src.Model()))
    {
      hide Blit, Magic;
      if src.dataSize == 0 || src.numChunks == 0 {
        return Success;
      }
      if buf.Length - dataSize < src.dataSize {
        return OutOfMemory;
      }
      if src.buf.Length < HEADER || Magic(src.buf[..], 0) != MAGIC {
        return Invalid;
      }
      var size, num, strip := src.dataSize, src.numChunks, src.buf[..src.dataSize];
      assert strip == src.buf[..][..src.dataSize];
      Memcpy(buf, dataSize, strip);
      var newSize := (dataSize + size) % WORD;
      if META + newSize <= META + buf.Length {
        dataSize := newSize;
      }
      numChunks := (numChunks + num) % WORD;
      return Success;
    }
  }
}
