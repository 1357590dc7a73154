/** The part of `java.nio.ByteBuffer` the codec and the controller use:
    a fixed backing array with a cursor (`position`) and a `limit`. Every
    buffer in the modelled code is switched to little-endian order right
    after it is made, so `putInt`/`getInt` here are the little-endian ones.
    Where Java throws, a method returns `false`, `None` or `Err`, and
    nothing is changed. */
module Buffers {
  import opened Bytes
  import opened Wrappers

  class ByteBuffer {
    const hb: array<byte>
    var position: nat
    var limit: nat

    ghost predicate Valid()
      reads this
    {
      position <= limit <= hb.Length
    }

    /** The bytes between the cursor and the limit. */
    ghost function Remaining(): seq<byte>
      reads this, hb
      requires Valid()
    {
      hb[position..limit]
    }

    /** `ByteBuffer.allocate(capacity)`: zero-filled, cursor at 0. */
    constructor Allocate(capacity: nat)
      ensures Valid() && fresh(hb)
      ensures hb.Length == capacity && position == 0 && limit == capacity
      ensures forall k :: 0 <= k < capacity ==> hb[k] == 0
    {
      hb := new byte[capacity](_ => 0);
      position, limit := 0, capacity;
    }

    /** `ByteBuffer.wrap(a)`: a buffer over `a` itself. */
    constructor Wrap(a: array<byte>)
      ensures Valid() && hb == a && position == 0 && limit == a.Length
    {
      hb := a;
      position, limit := 0, a.Length;
    }

    /** `putInt(v)`: writes the four bytes of `v` at the cursor and moves it
        past them; overflows when fewer than four bytes remain. */
    method PutInt(v: int32) returns (ok: bool)
      requires Valid()
      modifies this`position, hb
      ensures Valid() && limit == old(limit)
      ensures ok == (old(position) + 4 <= limit)
      ensures ok ==> position == old(position) + 4
                     && hb[..] == old(hb[..])[..old(position)] + LittleEndian(v)
                                  + old(hb[..])[old(position) + 4..]
      ensures !ok ==> position == old(position) && hb[..] == old(hb[..])
    {
      ok := position + 4 <= limit;
      if ok {
        var b := LittleEndian(v);
        hb[position] := b[0];
        hb[position + 1] := b[1];
        hb[position + 2] := b[2];
        hb[position + 3] := b[3];
        position := position + 4;
      }
    }

    /** `put(src)`: copies `src` at the cursor and moves it past them;
        overflows, writing nothing, when fewer than `|src|` bytes remain. */
    method Put(src: seq<byte>) returns (ok: bool)
      requires Valid()
      modifies this`position, hb
      ensures Valid() && limit == old(limit)
      ensures ok == (old(position) + |src| <= limit)
      ensures ok ==> position == old(position) + |src|
                     && hb[..] == old(hb[..])[..old(position)] + src
                                  + old(hb[..])[old(position) + |src|..]
      ensures !ok ==> position == old(position) && hb[..] == old(hb[..])
    {
      ok := position + |src| <= limit;
      if ok {
        var p := position;
        forall k | p <= k < p + |src| {
          hb[k] := src[k - p];
        }
        position := position + |src|;
        assert hb[..] == old(hb[..])[..old(position)] + src + old(hb[..])[old(position) + |src|..];
      }
    }

    /** `getInt()`: reads four bytes at the cursor and moves past them;
        underflows when fewer than four remain. */
    method GetInt() returns (r: Option<int32>)
      requires Valid()
      modifies this`position
      ensures Valid()
      ensures old(position) + 4 <= limit ==>
                r == Some(FromLittleEndian(hb[old(position)..old(position) + 4]))
                && position == old(position) + 4
      ensures old(position) + 4 > limit ==> r == None && position == old(position)
    {
      if position + 4 <= limit {
        r := Some(FromLittleEndian(hb[position..position + 4]));
        position := position + 4;
      } else {
        r := None;
      }
    }

    /** `get(dst)` with `dst.length == n`: reads `n` bytes at the cursor and
        moves past them; underflows when fewer than `n` remain. */
    method Get(n: nat) returns (r: Option<seq<byte>>)
      requires Valid()
      modifies this`position
      ensures Valid()
      ensures old(position) + n <= limit ==>
                r == Some(hb[old(position)..old(position) + n]) && position == old(position) + n
      ensures old(position) + n > limit ==> r == None && position == old(position)
    {
      if position + n <= limit {
        r := Some(hb[position..position + n]);
        position := position + n;
      } else {
        r := None;
      }
    }

    /** `flip()`: the written part becomes the readable part. */
    method Flip()
      requires Valid()
      modifies this`position, this`limit
      ensures Valid() && limit == old(position) && position == 0
    {
      limit := position;
      position := 0;
    }
  }
}
