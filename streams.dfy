/** The two ends of the connection as the endpoints see them. The peer's
    bytes are a finite script fixed in advance (everything it will ever send,
    followed by end of stream); what an endpoint writes is appended to a log. */
module Streams {
  import opened Bytes
  import opened Wrappers

  /** `DataInputStream` over the socket. */
  class DataInputStream {
    const data: seq<byte>
    var pos: nat

    ghost predicate Valid()
      reads this
    {
      pos <= |data|
    }

    /** What has not been read yet. */
    ghost function Remaining(): seq<byte>
      reads this
      requires Valid()
    {
      data[pos..]
    }

    constructor (data: seq<byte>)
      ensures Valid() && this.data == data && pos == 0
    {
      this.data := data;
      pos := 0;
    }

    /** `readFully(new byte[n])`: exactly the next `n` bytes; at end of
        stream before that, whatever arrived is consumed and it fails. */
    method ReadFully(n: nat) returns (r: Option<seq<byte>>)
      requires Valid()
      modifies this
      ensures Valid()
      ensures n <= old(|Remaining()|) ==>
                r == Some(old(Remaining())[..n]) && pos == old(pos) + n
      ensures n > old(|Remaining()|) ==> r == None && pos == |data|
    {
      if pos + n <= |data| {
        assert data[pos..][..n] == data[pos..pos + n];
        r := Some(data[pos..pos + n]);
        pos := pos + n;
      } else {
        r := None;
        pos := |data|;
      }
    }

    /** `read(b)`: -1 at end of stream; otherwise the next bytes, as many
        as are there up to `b.Length`, are copied to the front of `b`, the
        rest of `b` is left as it was, and their number is returned. */
    method Read(b: array<byte>) returns (n: int)
      requires Valid()
      modifies this, b
      ensures Valid()
      ensures b.Length > 0 && old(Remaining()) == [] ==>
                n == -1 && pos == old(pos) && b[..] == old(b[..])
      ensures b.Length == 0 || old(Remaining()) != [] ==>
                var k := Chunk(b.Length, |old(Remaining())|);
                n == k && pos == old(pos) + k && b[..] == old(Remaining())[..k] + old(b[..])[k..]
    {
      if b.Length == 0 {
        return 0;
      }
      if pos == |data| {
        return -1;
      }
      var start := pos;
      var k := Chunk(b.Length, |data| - start);
      ghost var before := b[..];
      for i := 0 to k
        invariant pos == start
        invariant b[..i] == data[start..start + i] && b[i..] == before[i..]
      {
        b[i] := data[start + i];
        assert b[..i + 1] == data[start..start + i + 1];
      }
      assert data[start..][..k] == data[start..start + k];
      pos := start + k;
      n := k;
    }
  }

  /** How many bytes one `read` into a buffer of `room` bytes takes when
      `left` are waiting. */
  function Chunk(room: nat, left: nat): (k: nat)
    ensures k <= room && k <= left && (k == room || k == left)
  {
    if left < room then left else room
  }

  /** The bytes of several writes, one after another. */
  function Concat(parts: seq<seq<byte>>): (r: seq<byte>)
    decreases |parts|
  {
    if parts == [] then [] else parts[0] + Concat(parts[1..])
  }

  lemma {:induction false} ConcatAppend(parts: seq<seq<byte>>, b: seq<byte>)
    ensures Concat(parts + [b]) == Concat(parts) + b
    decreases |parts|
  {
    if parts == [] {
      assert [] + [b] == [b];
    } else {
      assert (parts + [b])[1..] == parts[1..] + [b];
      ConcatAppend(parts[1..], b);
    }
  }

  /** `DataOutputStream` over the socket; `flush` has no logical effect.
      The log keeps the writes apart; the bytes on the wire are their
      concatenation. */
  class DataOutputStream {
    var writes: seq<seq<byte>>

    ghost function Written(): seq<byte>
      reads this
    {
      Concat(writes)
    }

    constructor ()
      ensures writes == [] && Written() == []
    {
      writes := [];
    }

    /** `write(b)`: the bytes of `b` follow everything written before. */
    method Write(b: seq<byte>)
      modifies this
      ensures writes == old(writes) + [b]
      ensures Written() == old(Written()) + b
    {
      ConcatAppend(writes, b);
      writes := writes + [b];
    }
  }
}
