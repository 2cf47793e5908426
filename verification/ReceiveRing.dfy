/**
 The receive buffer of NNTI in queuing mode: messages of any length are copied into one
 payload at offsets the buffer chooses, and are released in the order they arrived.

 The buffer itself keeps only a read and a write offset.  The model adds the messages that
 are still live, so that one can say what the two offsets are supposed to mean.
 */
module ReceiveRing {
  import opened Common

  /** A message that was copied in: where the buffer put it and what was sent. */
  datatype Message = Message(offset: nat, data: seq<Byte>) {
    function End(): nat { offset + |data| }
  }

  /** The offsets and contents of a queuing buffer, with its live messages oldest first. */
  datatype Ring = Ring(payload: seq<Byte>, read: nat, write: nat, live: seq<Message>)

  // ---------------------------------------------------------------- the code's steps

  /** An offset into the payload, with the end folded onto the start. */
  function Wrap(x: nat, n: nat): (r: nat)
    requires x <= n && n > 0
    ensures r == x % n
  {
    if x == n then 0 else x
  }

  /** Where copy_in puts a message: the memcpy target and the next write offset. */
  datatype Placement = NoMemory | Placed(offset: nat, next: nat)

  function Place(n: nat, read: nat, write: nat, size: nat): Placement
    requires read < n && write < n
  {
    if write < read then
      if read - write >= size then Placed(write, write + size) else NoMemory
    else if n - write >= size then
      Placed(write, Wrap(write + size, n))
    else if read > size then
      Placed(0, size)
    else
      Placed(write, write)  // the OVERFLOW branch: nothing is reserved, the copy still happens
  }

  ghost predicate InRange(s: Ring) {
    s.read < |s.payload| && s.write < |s.payload|
  }

  function Sent(s: Ring, data: seq<Byte>): Ring
    requires InRange(s)
  {
    match Place(|s.payload|, s.read, s.write, |data|)
    case NoMemory => s
    case Placed(offset, next) =>
      Ring(Blit(s.payload, offset, data), s.read, next, s.live + [Message(offset, data)])
  }

  /** event_complete for the oldest live message. */
  function Released(s: Ring): Ring
    requires InRange(s) && s.live != [] && s.live[0].End() <= |s.payload|
  {
    s.(read := Wrap(s.live[0].End(), |s.payload|), live := s.live[1..])
  }

  /** The free bytes lie between the two offsets and are too few. */
  predicate TooFew(s: Ring, size: nat) {
    s.write < s.read < s.write + size
  }

  /** copy_in refuses a message, and then changes nothing, if and only if the bytes between the offsets
      are too few.  Every other message becomes the newest live one: at the write offset, or at the
      front if and only if it fits there and not at the back. */
  lemma RefusedIff(s: Ring, data: seq<Byte>)
    requires InRange(s)
    ensures Sent(s, data).live == s.live <==> TooFew(s, |data|)
    ensures TooFew(s, |data|) ==> Sent(s, data) == s
    ensures !TooFew(s, |data|) ==>
              var offset := if s.read <= s.write && |s.payload| - s.write < |data| < s.read then 0 else s.write;
              && Sent(s, data).live == s.live + [Message(offset, data)]
              && Sent(s, data).payload == Blit(s.payload, offset, data)
              && Sent(s, data).read == s.read
  {
    hide Blit;
    if !TooFew(s, |data|) {
      assert |Sent(s, data).live| == |s.live| + 1;
    }
  }

  // ---------------------------------------------------------------- what the offsets mean

  /** The messages lie back to back, from one offset to another. */
  ghost predicate Chain(ms: seq<Message>, from: nat, to: nat) {
    if ms == [] then from == to
    else ms[0].offset == from && Chain(ms[1..], ms[0].End(), to)
  }

  ghost predicate Straight(s: Ring) {
    s.read <= s.write && Chain(s.live, s.read, s.write)
  }

  /** The first k messages run from the read offset up to a gap at the back of the payload,
      and the others start over at offset 0.  The gap is shorter than half of the payload. */
  ghost predicate WrappedAt(s: Ring, k: nat, gap: nat) {
    && k <= |s.live|
    && s.write < s.read <= gap <= |s.payload|
    && (gap < |s.payload| ==> s.write > 0 && |s.payload| - gap + 2 <= gap)
    && Chain(s.live[..k], s.read, gap)
    && Chain(s.live[k..], 0, s.write)
  }

  ghost predicate Layout(s: Ring) {
    Straight(s) || exists k: nat, gap: nat :: WrappedAt(s, k, gap)
  }

  ghost predicate Intact(s: Ring) {
    forall m <- s.live :: m.offset < |s.payload| && m.End() <= |s.payload|
                          && s.payload[m.offset..m.End()] == m.data
  }

  ghost predicate Valid(s: Ring) {
    InRange(s) && Layout(s) && Intact(s)
  }

  // ---------------------------------------------------------------- chains

  lemma {:induction false} ChainAppend(ms: seq<Message>, from: nat, to: nat, m: Message)
    requires Chain(ms, from, to) && m.offset == to
    ensures Chain(ms + [m], from, m.End())
  {
    if ms == [] {
      assert (ms + [m])[1..] == [];
    } else {
      ChainAppend(ms[1..], ms[0].End(), to, m);
      assert (ms + [m])[1..] == ms[1..] + [m];
    }
  }

  lemma {:induction false} ChainBounds(ms: seq<Message>, from: nat, to: nat)
    requires Chain(ms, from, to)
    ensures from <= to
    ensures forall m <- ms :: from <= m.offset && m.End() <= to
    ensures forall i, j :: 0 <= i < j < |ms| ==> ms[i].End() <= ms[j].offset
  {
    if ms != [] {
      ChainBounds(ms[1..], ms[0].End(), to);
    }
  }

  /** Where the live messages can be, whichever layout the ring is in. */
  lemma LiveRegion(s: Ring)
    requires InRange(s) && Layout(s)
    ensures s.live == [] ==> s.read == s.write
    ensures forall m <- s.live ::
              if s.read <= s.write then s.read <= m.offset && m.End() <= s.write
              else m.End() <= s.write || (s.read <= m.offset && m.End() <= |s.payload|)
  {
    if Straight(s) {
      ChainBounds(s.live, s.read, s.write);
    } else {
      var k: nat, gap: nat :| WrappedAt(s, k, gap);
      ChainBounds(s.live[..k], s.read, gap);
      ChainBounds(s.live[k..], 0, s.write);
      assert s.live == s.live[..k] + s.live[k..];
    }
  }

  /** No two live messages share a byte of the payload. */
  lemma LiveDisjoint(s: Ring, i: nat, j: nat)
    requires InRange(s) && Layout(s)
    requires i < j < |s.live|
    ensures s.live[i].End() <= s.live[j].offset || s.live[j].End() <= s.live[i].offset
  {
    hide Chain;
    if Straight(s) {
      ChainBounds(s.live, s.read, s.write);
    } else {
      var k: nat, gap: nat :| WrappedAt(s, k, gap);
      var back, front := s.live[..k], s.live[k..];
      ChainBounds(back, s.read, gap);
      ChainBounds(front, 0, s.write);
      assert i < k ==> s.live[i] == back[i];
      assert j < k ==> s.live[j] == back[j];
      assert i >= k ==> s.live[i] == front[i - k];
      assert j >= k ==> s.live[j] == front[j - k];
    }
  }

  // ---------------------------------------------------------------- copy_in

  /** What a sender can check before copy_in: the message neither reaches the OVERFLOW branch
      nor fills the ring to the last byte. */
  predicate Admissible(n: nat, read: nat, write: nat, size: nat)
    requires read < n && write < n
  {
    if write < read then read - write != size
    else if n - write >= size then !(size > 0 && read == 0 && write + size == n)
    else read > size
  }

  lemma CopyInBetween(s: Ring, data: seq<Byte>)
    requires InRange(s) && Layout(s) && s.write + |data| < s.read
    ensures Layout(Sent(s, data))
  {
    var t, m := Sent(s, data), Message(s.write, data);
    var k: nat, gap: nat :| WrappedAt(s, k, gap);
    ChainAppend(s.live[k..], 0, s.write, m);
    assert t.live[k..] == s.live[k..] + [m] && t.live[..k] == s.live[..k];
    assert WrappedAt(t, k, gap);
  }

  lemma CopyInAtBack(s: Ring, data: seq<Byte>)
    requires InRange(s) && Straight(s) && s.write + |data| <= |s.payload|
    requires s.write + |data| == |s.payload| ==> s.read > 0
    ensures InRange(Sent(s, data)) && Layout(Sent(s, data))
  {
    var n, t := |s.payload|, Sent(s, data);
    ChainAppend(s.live, s.read, s.write, Message(s.write, data));
    if s.write + |data| == n {
      assert t.live[..|t.live|] == t.live;
      assert WrappedAt(t, |t.live|, n);
    } else {
      assert Straight(t);
    }
  }

  lemma CopyInAtFront(s: Ring, data: seq<Byte>)
    requires InRange(s) && Straight(s) && |s.payload| - s.write < |data| < s.read
    ensures Layout(Sent(s, data))
  {
    var t, m := Sent(s, data), Message(0, data);
    ChainAppend([], 0, 0, m);
    assert [] + [m] == [m];
    assert t.live[|s.live|..] == [m] && t.live[..|s.live|] == s.live;
    assert WrappedAt(t, |s.live|, s.write);
  }

  lemma StraightIff(s: Ring)
    requires Layout(s)
    ensures Straight(s) <==> s.read <= s.write
  {
  }

  lemma CopyInKeepsLayout(s: Ring, data: seq<Byte>)
    requires InRange(s) && Layout(s)
    requires Admissible(|s.payload|, s.read, s.write, |data|)
    ensures InRange(Sent(s, data)) && Layout(Sent(s, data))
  {
    StraightIff(s);
    if s.write + |data| < s.read {
      CopyInBetween(s, data);
    } else if s.read <= s.write {
      if |data| <= |s.payload| - s.write {
        CopyInAtBack(s, data);
      } else {
        CopyInAtFront(s, data);
      }
    }
  }

  lemma BlitSpares(payload: seq<Byte>, offset: nat, data: seq<Byte>, m: Message)
    requires m.End() <= |payload|
    requires m.End() <= offset || offset + |data| <= m.offset || m.data == [] || data == []
    ensures Blit(payload, offset, data)[m.offset..m.End()] == payload[m.offset..m.End()]
  {
    hide Blit;
    var r := Blit(payload, offset, data);
    assert forall i :: m.offset <= i < m.End() ==> r[i] == payload[i];
  }

  lemma BlitLands(payload: seq<Byte>, offset: nat, data: seq<Byte>)
    requires offset + |data| <= |payload|
    ensures Blit(payload, offset, data)[offset..offset + |data|] == data
  {
    hide Blit;
    var r := Blit(payload, offset, data);
    assert forall i :: 0 <= i < |data| ==> r[offset + i] == data[i];
  }

  /** An admissible copy writes only where no live message is. */
  lemma CopyInKeepsBytes(s: Ring, data: seq<Byte>)
    requires Valid(s)
    requires Admissible(|s.payload|, s.read, s.write, |data|)
    ensures Intact(Sent(s, data))
  {
    hide Blit, Layout;
    LiveRegion(s);
    var t := Sent(s, data);
    if t != s {
      var added := t.live[|s.live|];
      BlitLands(s.payload, added.offset, data);
      forall m | m in t.live
        ensures m.offset < |t.payload| && m.End() <= |t.payload| && t.payload[m.offset..m.End()] == m.data
      {
        if m in s.live {
          assert m.End() <= added.offset || added.End() <= m.offset || m.data == [] || data == [];
          BlitSpares(s.payload, added.offset, data, m);
        } else {
          assert m == added;
        }
      }
    }
  }

  /** copy_in keeps the ring valid exactly when the message is admissible. */
  lemma CopyInValidIff(s: Ring, data: seq<Byte>)
    requires Valid(s)
    ensures Admissible(|s.payload|, s.read, s.write, |data|) <==> Valid(Sent(s, data))
  {
    var n, t := |s.payload|, Sent(s, data);
    if Admissible(n, s.read, s.write, |data|) {
      CopyInKeepsLayout(s, data);
      CopyInKeepsBytes(s, data);
    } else {
      var m := t.live[|s.live|];
      assert m in t.live && |m.data| > 0;
      if t.write == t.read && Straight(t) {
        ChainBounds(t.live, t.read, t.write);
      }
    }
  }

  lemma {:induction false} FirstWithBytes(ms: seq<Message>, from: nat, to: nat) returns (m: Message)
    requires Chain(ms, from, to) && from < to
    ensures m in ms && m.offset == from && |m.data| > 0
  {
    if |ms[0].data| > 0 {
      m := ms[0];
    } else {
      m := FirstWithBytes(ms[1..], from, to);
    }
  }

  /** Why an exactly full ring has to be shut out.  The write offset then equals the read offset
      as in an empty ring, so some next message is accepted on top of a live one. */
  lemma ExactFillClobbers(s: Ring, data: seq<Byte>) returns (size: nat, victim: Message)
    requires Valid(s)
    requires !Admissible(|s.payload|, s.read, s.write, |data|)
    requires s.write < s.read || |data| <= |s.payload| - s.write
    ensures var t := Sent(s, data);
            && InRange(t) && t.read == t.write && victim in t.live
            && var p := Place(|t.payload|, t.read, t.write, size);
               p.Placed? && p.offset < victim.End() && victim.offset < p.offset + size
  {
    var n, t, m := |s.payload|, Sent(s, data), Message(s.write, data);
    size := 1;
    if s.write < s.read {
      var k: nat, gap: nat :| WrappedAt(s, k, gap);
      if s.read < gap {
        victim := FirstWithBytes(s.live[..k], s.read, gap);
      } else {
        // the read offset sits at the gap: a message that does not fit there lands at the front
        ChainAppend(s.live[k..], 0, s.write, m);
        victim := FirstWithBytes(s.live[k..] + [m], 0, s.read);
        size := n - s.read + 1;
      }
    } else {
      ChainAppend(s.live, s.read, s.write, m);
      victim := FirstWithBytes(t.live, 0, n);
    }
  }

  /** Two inadmissible messages to an empty ring of four bytes: one of five bytes runs past the end,
      and one of four bytes leaves a full ring that looks empty. */
  lemma InadmissibleExamples(payload: seq<Byte>, four: seq<Byte>, five: seq<Byte>)
    requires |payload| == 4 && |four| == 4 && |five| == 5
    ensures var s := Ring(payload, 0, 0, []);
            && Valid(s)
            && !Valid(Sent(s, four)) && Sent(s, four).write == 0 && Sent(s, four).live == [Message(0, four)]
            && !Valid(Sent(s, five)) && Sent(s, five).live == [Message(0, five)]
  {
    var s := Ring(payload, 0, 0, []);
    assert Straight(s);
    CopyInValidIff(s, four);
    CopyInValidIff(s, five);
    assert [] + [Message(0, four)] == [Message(0, four)] && [] + [Message(0, five)] == [Message(0, five)];
  }

  // ---------------------------------------------------------------- event_complete

  /** Releasing the oldest message keeps the ring valid. */
  lemma CompleteKeepsValid(s: Ring)
    requires Valid(s) && s.live != []
    ensures Valid(Released(s))
  {
    var n, t := |s.payload|, Released(s);
    if Straight(s) {
      ChainBounds(s.live[1..], s.live[0].End(), s.write);
      assert Straight(t);
    } else {
      var k: nat, gap: nat :| WrappedAt(s, k, gap);
      ChainBounds(s.live[..k], s.read, gap);
      ChainBounds(s.live[k..], 0, s.write);
      if k == 0 {
        assert s.live[0..] == s.live;
        ChainBounds(t.live, s.live[0].End(), s.write);
        assert Straight(t);
      } else {
        CompleteAtBack(s, k, gap);
      }
    }
  }

  lemma CompleteAtBack(s: Ring, k: nat, gap: nat)
    requires InRange(s) && Intact(s) && WrappedAt(s, k, gap) && k > 0
    ensures InRange(Released(s)) && Layout(Released(s))
  {
    var n, t := |s.payload|, Released(s);
    assert s.live[..k][1..] == t.live[..k - 1];
    assert s.live[k..] == t.live[k - 1..];
    ChainBounds(t.live[..k - 1], s.live[0].End(), gap);
    if s.live[0].End() == n {
      // nothing starts at the end of the payload, so this was the last message at the back
      assert k == 1;
      assert t.live[0..] == t.live;
      assert Straight(t);
    } else {
      assert WrappedAt(t, k - 1, gap);
    }
  }

  /** The source logs an out-of-order completion when the event does not start at the read offset.
      For events completed in order this happens exactly when the message skipped a gap. */
  lemma InOrderWarningIff(s: Ring)
    requires Valid(s) && s.live != []
    ensures s.live[0].offset != s.read <==> s.write < s.read && s.live[0].offset == 0
  {
    if !Straight(s) {
      var k: nat, gap: nat :| WrappedAt(s, k, gap);
      assert s.live == s.live[..k] + s.live[k..];
      assert k > 0 ==> s.live[..k][0] == s.live[0];
    }
  }

  // ---------------------------------------------------------------- completing out of order

  /** The two offsets mark this byte as belonging to a message. */
  predicate InUse(s: Ring, x: nat) {
    if s.read <= s.write then s.read <= x < s.write else x < s.write || s.read <= x
  }

  /** An admissible copy changes no byte in use. */
  lemma CopySparesInUse(s: Ring, data: seq<Byte>, x: nat)
    requires InRange(s) && x < |s.payload| && InUse(s, x)
    requires Admissible(|s.payload|, s.read, s.write, |data|)
    ensures Sent(s, data).payload[x] == s.payload[x]
  {
  }

  /** Completing the i-th live message: the read offset moves behind it, past those before it. */
  function Overtaken(s: Ring, i: nat): Ring
    requires InRange(s) && i < |s.live| && s.live[i].End() <= |s.payload|
  {
    s.(read := Wrap(s.live[i].End(), |s.payload|), live := s.live[i + 1..])
  }

  ghost function ReleasedTimes(s: Ring, k: nat): (r: Ring)
    requires Valid(s) && k <= |s.live|
    ensures Valid(r)
    decreases k
  {
    if k == 0 then s
    else
      assert s.live[0] in s.live;
      CompleteKeepsValid(s);
      ReleasedTimes(Released(s), k - 1)
  }

  lemma ReleaseFreesOldest(s: Ring, x: nat)
    requires Valid(s) && s.live != [] && x < |s.payload|
    ensures s.live[0].End() <= |s.payload|
    ensures !InUse(s, x) || s.live[0].offset <= x < s.live[0].End() ==> !InUse(Released(s), x)
  {
    assert s.live[0] in s.live;
    if Straight(s) {
      ChainBounds(s.live[1..], s.live[0].End(), s.write);
    } else {
      var k: nat, gap: nat :| WrappedAt(s, k, gap);
      ChainBounds(s.live[..k], s.read, gap);
      ChainBounds(s.live[k..], 0, s.write);
      assert if k > 0 then s.live[..k][0] == s.live[0] else s.live[k..][0] == s.live[0];
    }
  }

  /** Completing a message out of order is completing every message up to it: the later ones keep
      their place and their bytes, and no byte of the others is in use any more. */
  lemma {:induction false} OvertakenIsReleases(s: Ring, i: nat)
    requires Valid(s) && i < |s.live|
    ensures s.live[i].End() <= |s.payload|
    ensures Overtaken(s, i) == ReleasedTimes(s, i + 1) && Valid(Overtaken(s, i))
    decreases i
  {
    assert s.live[i] in s.live && s.live[0] in s.live;
    CompleteKeepsValid(s);
    if i > 0 {
      OvertakenIsReleases(Released(s), i - 1);
      assert Released(s).live[i..] == s.live[i + 1..];
    } else {
      assert ReleasedTimes(s, 1) == ReleasedTimes(Released(s), 0);
    }
  }

  lemma {:induction false} ReleasesFree(s: Ring, k: nat, x: nat)
    requires Valid(s) && k <= |s.live| && x < |s.payload| && !InUse(s, x)
    ensures !InUse(ReleasedTimes(s, k), x)
    decreases k
  {
    hide Layout, InUse;
    assert k > 0 ==> s.live[0] in s.live;
    if k > 0 {
      ReleaseFreesOldest(s, x);
      CompleteKeepsValid(s);
      ReleasesFree(Released(s), k - 1, x);
    }
  }

  /** Which messages lose their protection: all those before the one that was completed. */
  lemma {:induction false} OvertakenExposes(s: Ring, i: nat, j: nat, x: nat)
    requires Valid(s) && j <= i < |s.live| && s.live[j].offset <= x < s.live[j].End()
    ensures s.live[i].End() <= |s.payload| && !InUse(Overtaken(s, i), x)
    decreases j
  {
    hide Layout, InUse;
    assert s.live[j] in s.live && s.live[0] in s.live;
    OvertakenIsReleases(s, i);
    ReleaseFreesOldest(s, x);
    CompleteKeepsValid(s);
    hide Intact;
    if j == 0 {
      ReleasesFree(Released(s), i, x);
    } else {
      OvertakenIsReleases(Released(s), i - 1);
      OvertakenExposes(Released(s), i - 1, j - 1, x);
    }
  }

  /** Exactly the messages after the completed one stay protected. */
  lemma OvertakenInUseIff(s: Ring, i: nat, j: nat, x: nat)
    requires Valid(s) && i < |s.live| && j < |s.live| && s.live[j].offset <= x < s.live[j].End()
    ensures s.live[i].End() <= |s.payload|
    ensures InUse(Overtaken(s, i), x) <==> i < j
  {
    OvertakenIsReleases(s, i);
    if j <= i {
      OvertakenExposes(s, i, j, x);
    } else {
      var t := Overtaken(s, i);
      hide Layout, Intact;
      LiveRegion(t);
      assert t.live[j - i - 1] == s.live[j] && s.live[j] in t.live;
    }
  }

  /** A message lost that way: of two live ones in a ring of four bytes the second is completed, and
      two admissible sends later the byte of the first is another. */
  lemma OutOfOrderLosesMessage(payload: seq<Byte>, a: Byte, b: Byte, two: seq<Byte>, c: Byte)
    requires |payload| == 4 && |two| == 2 && a != c
    ensures var s := Sent(Sent(Ring(payload, 0, 0, []), [a]), [b]);
            && s.live == [Message(0, [a]), Message(1, [b])] && s.payload[0] == a
            && var t := Overtaken(s, 1);
               && Admissible(4, t.read, t.write, 2) && InRange(Sent(t, two))
               && Admissible(4, Sent(t, two).read, Sent(t, two).write, 1)
               && Sent(Sent(t, two), [c]).payload[0] == c
  {
    assert [] + [Message(0, [a])] + [Message(1, [b])] == [Message(0, [a]), Message(1, [b])];
  }

  // ---------------------------------------------------------------- runs

  datatype Op = Send(data: seq<Byte>) | Release

  /** A ring together with what it accepted and what its reader found when releasing messages. */
  datatype Run = Run(ring: Ring, accepted: seq<seq<Byte>>, delivered: seq<seq<Byte>>)

  function Empty(payload: seq<Byte>): Run {
    Run(Ring(payload, 0, 0, []), [], [])
  }

  /** One operation: a sender copies in, or the reader reads the oldest message where its event
      says it is and completes the event.  With no event to complete the reader does nothing. */
  function Step(r: Run, op: Op): (r': Run)
    requires Valid(r.ring)
  {
    var s := r.ring;
    match op
    case Send(data) =>
      var t := Sent(s, data);
      Run(t, if t.live == s.live then r.accepted else r.accepted + [data], r.delivered)
    case Release =>
      if s.live == [] then r
      else
        assert s.live[0] in s.live;
        Run(Released(s), r.accepted, r.delivered + [s.payload[s.live[0].offset..s.live[0].End()]])
  }

  /** The ring is valid in every state of the run. */
  ghost predicate StaysValid(r: Run, ops: seq<Op>)
    decreases |ops|
  {
    Valid(r.ring) && (ops != [] ==> StaysValid(Step(r, ops[0]), ops[1..]))
  }

  /** Every message sent in the run is admissible when it is sent. */
  ghost predicate SendsAdmissible(r: Run, ops: seq<Op>)
    decreases |ops|
  {
    Valid(r.ring) && ops != [] ==>
      && (ops[0].Send? ==> Admissible(|r.ring.payload|, r.ring.read, r.ring.write, |ops[0].data|))
      && SendsAdmissible(Step(r, ops[0]), ops[1..])
  }

  ghost function Data(ms: seq<Message>): (ds: seq<seq<Byte>>)
    ensures |ds| == |ms|
  {
    if ms == [] then [] else [ms[0].data] + Data(ms[1..])
  }

  lemma {:induction false} DataAppend(ms: seq<Message>, m: Message)
    ensures Data(ms + [m]) == Data(ms) + [m.data]
  {
    if ms == [] {
      assert (ms + [m])[1..] == [];
    } else {
      assert (ms + [m])[1..] == ms[1..] + [m];
      DataAppend(ms[1..], m);
    }
  }

  /** Delivered messages followed by live ones are the accepted ones, in order and byte for byte. */
  ghost predicate Fifo(r: Run) {
    r.delivered + Data(r.ring.live) == r.accepted
  }

  lemma StepKeepsFifo(r: Run, op: Op)
    requires Valid(r.ring) && Fifo(r)
    ensures Fifo(Step(r, op))
  {
    var s, t := r.ring, Step(r, op).ring;
    match op
    case Send(data) =>
      if t.live != s.live {
        DataAppend(s.live, t.live[|s.live|]);
      }
    case Release =>
      if s.live != [] {
        assert s.live[0] in s.live;
      }
  }

  function RunOps(r: Run, ops: seq<Op>): Run
    requires StaysValid(r, ops)
    decreases |ops|
  {
    if ops == [] then r else RunOps(Step(r, ops[0]), ops[1..])
  }

  /** A run keeps the ring valid throughout exactly when each of its sends is admissible. */
  lemma {:induction false} RunValidIff(r: Run, ops: seq<Op>)
    requires Valid(r.ring)
    ensures StaysValid(r, ops) <==> SendsAdmissible(r, ops)
    decreases |ops|
  {
    if ops != [] {
      var r' := Step(r, ops[0]);
      match ops[0] {
        case Send(data) => CopyInValidIff(r.ring, data);
        case Release => if r.ring.live != [] { CompleteKeepsValid(r.ring); }
      }
      if Valid(r'.ring) {
        RunValidIff(r', ops[1..]);
      }
    }
  }

  lemma {:induction false} RunIsFifo(r: Run, ops: seq<Op>)
    requires StaysValid(r, ops) && Fifo(r)
    ensures Valid(RunOps(r, ops).ring) && Fifo(RunOps(r, ops))
    decreases |ops|
  {
    if ops != [] {
      StepKeepsFifo(r, ops[0]);
      RunIsFifo(Step(r, ops[0]), ops[1..]);
    }
  }

  /** The messages of a run for which there was room when they were sent. */
  ghost function Fitting(r: Run, ops: seq<Op>): seq<seq<Byte>>
    requires StaysValid(r, ops)
    decreases |ops|
  {
    if ops == [] then []
    else (if ops[0].Send? && !TooFew(r.ring, |ops[0].data|) then [ops[0].data] else []) +
         Fitting(Step(r, ops[0]), ops[1..])
  }

  /** Exactly those messages are accepted, in the order they were sent. */
  lemma {:induction false} RunAccepts(r: Run, ops: seq<Op>)
    requires StaysValid(r, ops)
    ensures RunOps(r, ops).accepted == r.accepted + Fitting(r, ops)
    decreases |ops|
  {
    hide Valid, Sent, TooFew;
    if ops != [] {
      StepAccepts(r, ops[0]);
      RunAccepts(Step(r, ops[0]), ops[1..]);
    }
  }

  lemma StepAccepts(r: Run, op: Op)
    requires Valid(r.ring)
    ensures Step(r, op).accepted ==
            r.accepted + if op.Send? && !TooFew(r.ring, |op.data|) then [op.data] else []
  {
    hide Sent, TooFew;
    if op.Send? {
      RefusedIff(r.ring, op.data);
    }
    assert r.accepted + [] == r.accepted;
  }

  /** The whole promise of the queuing buffer, for every payload and every run of admissible sends
      and in-order releases: live messages lie inside the payload, do not overlap and still hold
      the bytes that were sent, and everything accepted is delivered unchanged in order. */
  lemma EveryRun(payload: seq<Byte>, ops: seq<Op>)
    requires payload != [] && SendsAdmissible(Empty(payload), ops)
    ensures StaysValid(Empty(payload), ops)
    ensures var r := RunOps(Empty(payload), ops);
            && Intact(r.ring)
            && (forall i, j :: 0 <= i < j < |r.ring.live| ==>
                  r.ring.live[i].End() <= r.ring.live[j].offset || r.ring.live[j].End() <= r.ring.live[i].offset)
            && r.delivered + Data(r.ring.live) == r.accepted
  {
    var e := Empty(payload);
    assert Straight(e.ring);
    RunValidIff(e, ops);
    RunIsFifo(e, ops);
    var s := RunOps(e, ops).ring;
    forall i, j | 0 <= i < j < |s.live|
      ensures s.live[i].End() <= s.live[j].offset || s.live[j].End() <= s.live[i].offset
    {
      LiveDisjoint(s, i, j);
    }
  }

  /** Releasing every live message brings the read offset back to the write offset. */
  lemma {:induction false} DrainReturnsToWrite(r: Run)
    requires Valid(r.ring)
    ensures var ops := seq(|r.ring.live|, i => Release);
            && StaysValid(r, ops)
            && var s := RunOps(r, ops).ring;
               s.live == [] && s.read == s.write == r.ring.write
    decreases |r.ring.live|
  {
    var ops := seq(|r.ring.live|, i => Release);
    if r.ring.live == [] {
      LiveRegion(r.ring);
    } else {
      CompleteKeepsValid(r.ring);
      var r' := Step(r, Release);
      assert ops[1..] == seq(|r'.ring.live|, i => Release);
      DrainReturnsToWrite(r');
    }
  }

  // ---------------------------------------------------------------- what becomes of overtaken messages

  lemma {:induction false} RunAppend(r: Run, a: seq<Op>, b: seq<Op>)
    requires StaysValid(r, a) && StaysValid(RunOps(r, a), b)
    ensures StaysValid(r, a + b) && RunOps(r, a + b) == RunOps(RunOps(r, a), b)
    decreases |a|
  {
    hide Valid, Step;
    if a == [] {
      assert a + b == b;
    } else {
      assert (a + b)[1..] == a[1..] + b;
      RunAppend(Step(r, a[0]), a[1..], b);
    }
  }

  lemma RunOne(r: Run, op: Op)
    requires Valid(r.ring) && Valid(Step(r, op).ring)
    ensures StaysValid(r, [op]) && RunOps(r, [op]) == Step(r, op)
  {
    hide Valid, Step;
    assert [op][1..] == [];
  }

  /** A message sent to an empty ring and released again moves both offsets behind it. */
  lemma SendAndRelease(r: Run, data: seq<Byte>) returns (ops: seq<Op>)
    requires Valid(r.ring) && r.ring.live == [] && r.ring.write + |data| <= |r.ring.payload|
    requires r.ring.write == 0 ==> |data| < |r.ring.payload|
    ensures StaysValid(r, ops)
    ensures var s := RunOps(r, ops).ring;
            && s.live == [] && |s.payload| == |r.ring.payload| && Valid(s)
            && s.read == s.write == Wrap(r.ring.write + |data|, |s.payload|)
  {
    LiveRegion(r.ring);
    var r1 := Step(r, Send(data));
    CopyInValidIff(r.ring, data);
    assert r1.ring.live == [Message(r.ring.write, data)];
    CompleteKeepsValid(r1.ring);
    RunOne(r, Send(data));
    RunOne(r1, Release);
    ops := [Send(data)] + [Release];
    RunAppend(r, [Send(data)], [Release]);
  }

  /** From an empty ring every byte can be given any value by admissible sends. */
  lemma EmptyRingWrites(r: Run, x: nat, c: Byte) returns (ops: seq<Op>)
    requires Valid(r.ring) && r.ring.live == [] && x < |r.ring.payload| && |r.ring.payload| > 1
    ensures StaysValid(r, ops) && |RunOps(r, ops).ring.payload| == |r.ring.payload|
    ensures RunOps(r, ops).ring.payload[x] == c
  {
    hide RunOps, StaysValid;
    var n, w := |r.ring.payload|, r.ring.write;
    var move: seq<Byte> := seq(if x >= w then x - w else n - w, _ => 0);
    ops := SendAndRelease(r, move);
    var r1 := RunOps(r, ops);
    var data: seq<Byte> := seq(if x >= w then 1 else x + 1, _ => c);
    CopyInValidIff(r1.ring, data);
    RunOne(r1, Send(data));
    RunAppend(r, ops, [Send(data)]);
    ops := ops + [Send(data)];
  }

  /** Every byte of every overtaken message can be lost: there is a run of admissible sends and in-order
      releases of the later messages that puts any other value there. */
  lemma OvertakenCanBeLost(s: Ring, i: nat, j: nat, x: nat, c: Byte) returns (ops: seq<Op>)
    requires Valid(s) && j < i < |s.live| && s.live[j].offset <= x < s.live[j].End()
    ensures s.live[i].End() <= |s.payload| && x < |s.payload|
    ensures var r := Run(Overtaken(s, i), [], []);
            && StaysValid(r, ops) && SendsAdmissible(r, ops)
            && |RunOps(r, ops).ring.payload| == |s.payload| && RunOps(r, ops).ring.payload[x] == c
  {
    hide RunOps, StaysValid, SendsAdmissible, Layout, Overtaken, ReleasedTimes;
    assert s.live[j] in s.live;
    OvertakenIsReleases(s, i);
    OvertakenSize(s, i);
    MessageNeedsTwoBytes(s, j);
    var r := Run(Overtaken(s, i), [], []);
    var drain := seq(|r.ring.live|, k => Release);
    DrainReturnsToWrite(r);
    DrainKeepsPayload(r, drain);
    var more := EmptyRingWrites(RunOps(r, drain), x, c);
    RunAppend(r, drain, more);
    ops := drain + more;
    RunValidIff(r, ops);
  }

  lemma OvertakenSize(s: Ring, i: nat)
    requires InRange(s) && i < |s.live| && s.live[i].End() <= |s.payload|
    ensures Overtaken(s, i).payload == s.payload
  {
  }

  lemma MessageNeedsTwoBytes(s: Ring, j: nat)
    requires Valid(s) && j < |s.live| && |s.live[j].data| > 0
    ensures |s.payload| > 1
  {
    LiveRegion(s);
    assert s.live[j] in s.live;
  }

  lemma {:induction false} DrainKeepsPayload(r: Run, ops: seq<Op>)
    requires StaysValid(r, ops) && forall op <- ops :: op == Release
    ensures RunOps(r, ops).ring.payload == r.ring.payload && Valid(RunOps(r, ops).ring)
    decreases |ops|
  {
    hide Valid;
    if ops != [] {
      assert ops[0] in ops && forall op <- ops[1..] :: op in ops;
      ReleaseKeepsPayload(r);
      DrainKeepsPayload(Step(r, ops[0]), ops[1..]);
    }
  }

  lemma ReleaseKeepsPayload(r: Run)
    requires Valid(r.ring)
    ensures Step(r, Release).ring.payload == r.ring.payload
  {
  }

  // ---------------------------------------------------------------- the buffer object

  datatype Rc = Accepted | NoMem

  datatype Event = Event(offset: nat, length: nat)

  class ReceiveBuffer {
    const queuing: bool
    const payload: array<Byte>
    var nextRead: nat
    var nextWrite: nat
    ghost var live: seq<Message>

    ghost function Model(): Ring
      reads this, payload
    {
      Ring(payload[..], nextRead, nextWrite, live)
    }

    constructor (queuing: bool, payload: array<Byte>)
      requires payload.Length > 0
      ensures this.queuing == queuing && this.payload == payload
      ensures Model() == Empty(payload[..]).ring && Valid(Model())
    {
      this.queuing := queuing;
      this.payload := payload;
      nextRead, nextWrite := 0, 0;
      live := [];
    }

    method CopyIn(requestedOffset: nat, buf: seq<Byte>) returns (rc: Rc, actualOffset: nat)
      requires requestedOffset < UINT64 && |buf| < UINT64 && payload.Length < UINT64
      requires InRange(Model())
      modifies this, payload
      ensures queuing ==> Model() == Sent(old(Model()), buf)
      ensures queuing ==> (rc == Accepted <==> Place(payload.Length, old(nextRead), old(nextWrite), |buf|).Placed?)
      ensures queuing ==> (rc == NoMem <==> old(nextWrite) < old(nextRead) < old(nextWrite) + |buf|)
      ensures queuing && rc == Accepted ==> live == old(live) + [Message(actualOffset, buf)]
      ensures queuing && rc == Accepted && old(nextRead) <= old(nextWrite) ==>
                (actualOffset != old(nextWrite) <==>
                 payload.Length - old(nextWrite) < |buf| < old(nextRead))
      ensures !queuing ==>
                && nextRead == old(nextRead) && nextWrite == old(nextWrite) && live == old(live)
                && actualOffset == requestedOffset
                && (requestedOffset + |buf| <= payload.Length ==> rc == Accepted)
                && (rc == Accepted ==> payload[..] == Blit(old(payload[..]), requestedOffset, buf))
                && (rc == NoMem ==> payload[..] == old(payload[..]))
      // without queuing, an accepted copy stays inside the payload unless the 64-bit sum wraps
      ensures !queuing && rc == Accepted ==>
                (requestedOffset + |buf| <= payload.Length <==> requestedOffset + |buf| < UINT64)
    {
      rc := Accepted;
      actualOffset := requestedOffset;
      if queuing {
        var currentOffset := nextWrite;
        if nextWrite < nextRead {
          if nextRead - nextWrite >= |buf| {
            nextWrite := nextWrite + |buf|;
          } else {
            rc := NoMem;
          }
        } else {
          if payload.Length - nextWrite >= |buf| {
            nextWrite := (nextWrite + |buf|) % payload.Length;
          } else if nextRead > |buf| {
            currentOffset := 0;
            nextWrite := |buf|;
          }
        }
        if rc == Accepted {
          actualOffset := currentOffset;
          Memcpy(payload, currentOffset, buf);
          live := live + [Message(currentOffset, buf)];
        }
      } else {
        if (requestedOffset + |buf|) % UINT64 <= payload.Length {
          Memcpy(payload, requestedOffset, buf);
        } else {
          rc := NoMem;
        }
      }
    }

    ghost predicate IsLive(event: Event, i: nat)
      reads this
    {
      i < |live| && event == Event(live[i].offset, |live[i].data|)
    }

    /** Any event moves the read offset past its message.  Completing the oldest live message
        releases exactly that one, completing another one overtakes those before it. */
    method EventComplete(event: Event)
      requires InRange(Model()) && payload.Length < UINT64
      requires event.offset < UINT64 && event.length < UINT64
      modifies this
      ensures !queuing ==> Model() == old(Model())
      ensures queuing ==> nextRead == (event.offset + event.length) % UINT64 % payload.Length
      ensures nextWrite == old(nextWrite) && payload[..] == old(payload[..])
      ensures queuing && event.offset + event.length <= payload.Length ==>
                && (old(IsLive(event, 0)) ==> Model() == Released(old(Model())))
                && forall i: nat :: old(IsLive(event, i)) ==> nextRead == Overtaken(old(Model()), i).read
    {
      if queuing {
        nextRead := (event.offset + event.length) % UINT64 % payload.Length;
        if IsLive(event, 0) {
          live := live[1..];
        }
      }
    }
  }
}
