/**
 What several components share: results, machine words, and copying bytes into a buffer.
 */
module Common {

  datatype Option<T> = None | Some(value: T)

  datatype Result<T> = Ok(value: T) | Err

  type Byte = x: int | 0 <= x < 256

  const WORD: int := 0x1_0000_0000
  const UINT64: int := 0x1_0000_0000_0000_0000

  type U32 = x: int | 0 <= x < WORD
  type U64 = x: int | 0 <= x < UINT64

  /** The part of a memcpy that lands inside the buffer; the rest runs past its end. */
  function Blit(buf: seq<Byte>, offset: nat, data: seq<Byte>): (r: seq<Byte>)
    ensures |r| == |buf|
    ensures forall i :: 0 <= i < |r| ==>
                          r[i] == if offset <= i < offset + |data| then data[i - offset] else buf[i]
  {
    if offset >= |buf| then buf
    else if offset + |data| >= |buf| then buf[..offset] + data[..|buf| - offset]
    else buf[..offset] + data + buf[offset + |data|..]
  }

  method Memcpy(buf: array<Byte>, offset: nat, data: seq<Byte>)
    modifies buf
    ensures buf[..] == Blit(old(buf[..]), offset, data)
  {
    hide Blit;
    forall i | 0 <= i < |data| && offset + i < buf.Length {
      buf[offset + i] := data[i];
    }
  }
}
