/** `TriboMessage`: one frame of the instrument protocol. On the wire a frame
    is a 12-byte header of three little-endian `int`s (`readWrite`, `type`,
    `length`) followed by `length` octets of UTF-8 text. */
module Messages {
  import opened Bytes
  import opened Wrappers
  import opened Buffers
  import Utf8

  const HeaderSize: nat := 12

  /** The field values of a `TriboMessage` object. */
  datatype Frame = Frame(readWrite: int32, typeId: int32, length: int32, message: string)

  /** A text `String.getBytes` can turn into a Java array. */
  predicate Encodable(s: string) {
    |Utf8.Encode(s)| <= MaxInt32
  }

  /** The `length` field counts the UTF-8 octets of `message`. */
  predicate Consistent(f: Frame) {
    f.length == |Utf8.Encode(f.message)|
  }

  /** A frame whose bytes fit a Java array, so that a reader that takes
      the header and then `len` bytes gets it back whole. */
  predicate Deliverable(f: Frame) {
    Consistent(f) && HeaderSize + f.length <= MaxInt32
  }

  /** The frame the constructor builds: `readWrite` is 1 (write) and
      `length` is the UTF-8 length of the text. */
  function Make(typeId: int32, message: string): (f: Frame)
    requires Encodable(message)
    ensures Consistent(f) && f.readWrite == 1
    ensures f.typeId == typeId && f.message == message
  {
    Frame(1, typeId, |Utf8.Encode(message)|, message)
  }

  /** The bytes `toBytes` produces from the field values of a message. */
  function Encode(f: Frame): (r: seq<byte>)
    ensures |r| == HeaderSize + |Utf8.Encode(f.message)|
  {
    LittleEndian(f.readWrite) + LittleEndian(f.typeId) + LittleEndian(f.length)
    + Utf8.Encode(f.message)
  }

  /** The bytes of several frames sent one after another. */
  function EncodeAll(fs: seq<Frame>): seq<byte>
    decreases |fs|
  {
    if fs == [] then [] else Encode(fs[0]) + EncodeAll(fs[1..])
  }

  lemma {:induction false} EncodeAllAppend(fs: seq<Frame>, gs: seq<Frame>)
    ensures EncodeAll(fs + gs) == EncodeAll(fs) + EncodeAll(gs)
    decreases |fs|
  {
    if fs == [] {
      assert fs + gs == gs;
    } else {
      assert (fs + gs)[1..] == fs[1..] + gs;
      EncodeAllAppend(fs[1..], gs);
    }
  }

  /** What `fromBytes` makes of a buffer whose remaining bytes are `b`: the
      decoded message and the number of bytes it consumed, or the exception
      it throws. The stored `length` is recomputed by the constructor from
      the decoded text; `readWrite` is the header's. */
  function Decode(b: seq<byte>): Result<(Frame, nat), Fault> {
    if |b| < HeaderSize then Err(BufferUnderflow)
    else
      var len := FromLittleEndian(b[8..12]);
      if len < 0 then Err(NegativeArraySize)
      else if |b| - HeaderSize < len then Err(BufferUnderflow)
      else
        var msg := Utf8.Decode(b[HeaderSize..HeaderSize + len]);
        if !Encodable(msg) then Err(OutOfMemory)
        else
          var f := Make(FromLittleEndian(b[4..8]), msg);
          Ok((f.(readWrite := FromLittleEndian(b[0..4])), HeaderSize + len))
  }

  /** Layout: bytes 0-3, 4-7 and 8-11 read back as `readWrite`, `type` and
      `length`, and the payload octets follow unchanged. */
  lemma EncodeLayout(f: Frame)
    ensures var r := Encode(f);
            |r| == HeaderSize + |Utf8.Encode(f.message)|
            && FromLittleEndian(r[0..4]) == f.readWrite
            && FromLittleEndian(r[4..8]) == f.typeId
            && FromLittleEndian(r[8..12]) == f.length
            && r[HeaderSize..] == Utf8.Encode(f.message)
  {
    var r := Encode(f);
    assert r[0..4] == LittleEndian(f.readWrite);
    assert r[4..8] == LittleEndian(f.typeId);
    assert r[8..12] == LittleEndian(f.length);
    ReadWritten(f.readWrite);
    ReadWritten(f.typeId);
    ReadWritten(f.length);
  }

  /** Round trip: decoding the bytes of a consistent frame, whatever follows
      them, gives back the frame (its `readWrite` included) and consumes
      exactly its bytes. */
  lemma DecodeEncode(f: Frame, rest: seq<byte>)
    requires Consistent(f)
    ensures Decode(Encode(f) + rest) == Ok((f, |Encode(f)|))
  {
    var e := Encode(f);
    var b := e + rest;
    EncodeLayout(f);
    assert b[0..4] == e[0..4] && b[4..8] == e[4..8] && b[8..12] == e[8..12];
    assert b[HeaderSize..HeaderSize + f.length] == Utf8.Encode(f.message);
    Utf8.DecodeEncode(f.message);
  }

  /** `fromBytes` consumes exactly the header and `len` payload bytes, and
      fails when fewer than `len` bytes follow the header. */
  lemma DecodeConsumes(b: seq<byte>)
    requires |b| >= HeaderSize
    ensures var len := FromLittleEndian(b[8..12]);
            (Decode(b).Ok? ==> Decode(b).value.1 == HeaderSize + len)
            && (0 <= len && |b| < HeaderSize + len ==> Decode(b) == Err(BufferUnderflow))
            && (0 <= len <= |b| - HeaderSize ==> Decode(b) == Decode(b[..HeaderSize + len]))
  {
    var len := FromLittleEndian(b[8..12]);
    if 0 <= len <= |b| - HeaderSize {
      var p := b[..HeaderSize + len];
      assert p[0..4] == b[0..4] && p[4..8] == b[4..8] && p[8..12] == b[8..12];
      assert p[HeaderSize..HeaderSize + len] == b[HeaderSize..HeaderSize + len];
    }
  }

  /** A decoded message keeps the header's `readWrite` (not the
      constructor's 1) and satisfies the length invariant; it re-encodes to
      the payload exactly when the payload is well-formed UTF-8, and then
      its `length` is the header's. */
  lemma DecodedFields(b: seq<byte>)
    requires Decode(b).Ok?
    ensures var f := Decode(b).value.0; var len := FromLittleEndian(b[8..12]);
            f.readWrite == FromLittleEndian(b[0..4])
            && f.typeId == FromLittleEndian(b[4..8])
            && Consistent(f)
            && (Utf8.Encode(f.message) == b[HeaderSize..HeaderSize + len]
                <==> Utf8.WellFormed(b[HeaderSize..HeaderSize + len]))
            && (Utf8.WellFormed(b[HeaderSize..HeaderSize + len]) ==> f.length == len)
  {
    var len := FromLittleEndian(b[8..12]);
    Utf8.EncodeDecode(b[HeaderSize..HeaderSize + len]);
  }

  /** `Decode` once the header was read and `body` holds the payload. */
  lemma DecodeFound(b: seq<byte>, body: seq<byte>)
    requires |b| >= HeaderSize && 0 <= FromLittleEndian(b[8..12]) <= |b| - HeaderSize
    requires body == b[HeaderSize..HeaderSize + FromLittleEndian(b[8..12])]
    ensures var msg := Utf8.Decode(body);
            Decode(b) == if !Encodable(msg) then Err(OutOfMemory)
                         else Ok((Make(FromLittleEndian(b[4..8]), msg).(readWrite := FromLittleEndian(b[0..4])),
                                  HeaderSize + FromLittleEndian(b[8..12])))
  {
  }

  /** A slice of the bytes between `p` and `q` is a slice of the array. */
  lemma Window(a: array<byte>, p: nat, q: nat, i: nat, j: nat)
    requires p <= q <= a.Length && i <= j <= q - p
    ensures a[p..q][i..j] == a[p + i..p + j]
  {
    var s := a[p..q][i..j];
    forall k | 0 <= k < j - i
      ensures s[k] == a[p + i + k]
    {
    }
  }

  /** `TriboMessage` itself: four public, mutable fields. */
  class TriboMessage {
    var readWrite: int32
    var typeId: int32
    var length: int32
    var message: string

    function Value(): Frame
      reads this
    {
      Frame(readWrite, typeId, length, message)
    }

    /** `new TriboMessage(type, message)`. */
    constructor (typeId: int32, message: string)
      requires Encodable(message)
      ensures Value() == Make(typeId, message)
    {
      readWrite := 1;
      this.typeId := typeId;
      this.message := message;
      length := |Utf8.Encode(message)|;
    }

    /** `toBytes()`: a fresh array of exactly 12 + payload octets holding
        the header fields and the payload. */
    method ToBytes() returns (a: array<byte>)
      requires HeaderSize + |Utf8.Encode(message)| <= MaxInt32
      ensures fresh(a) && a[..] == Encode(Value())
    {
      var msgBytes := Utf8.Encode(message);
      var buffer := new ByteBuffer.Allocate(HeaderSize + |msgBytes|);
      var ok := buffer.PutInt(readWrite);
      assert ok && buffer.hb[..4] == LittleEndian(readWrite);
      ok := buffer.PutInt(typeId);
      assert ok && buffer.hb[..8] == LittleEndian(readWrite) + LittleEndian(typeId);
      ok := buffer.PutInt(length);
      assert ok && buffer.hb[..HeaderSize] == LittleEndian(readWrite) + LittleEndian(typeId) + LittleEndian(length);
      ok := buffer.Put(msgBytes);
      assert ok && buffer.hb[..] == buffer.hb[..HeaderSize] + msgBytes;
      a := buffer.hb;
    }

    /** The three `getInt` calls of `fromBytes`: `readWrite`, `type` and
        `len`, or an underflow when fewer than 12 bytes remain. */
    static method ReadHeader(buffer: ByteBuffer) returns (h: Result<(int32, int32, int32), Fault>)
      requires buffer.Valid()
      modifies buffer
      ensures buffer.Valid() && buffer.limit == old(buffer.limit)
      ensures var b := old(buffer.Remaining());
              (h.Ok? <==> |b| >= HeaderSize)
              && (h.Ok? ==> h.value == (FromLittleEndian(b[0..4]), FromLittleEndian(b[4..8]), FromLittleEndian(b[8..12]))
                            && buffer.position == old(buffer.position) + HeaderSize)
              && (h.Err? ==> h.error == BufferUnderflow)
    {
      ghost var p := buffer.position;
      var rw := buffer.GetInt();
      if rw.None? { return Err(BufferUnderflow); }
      var ty := buffer.GetInt();
      if ty.None? { return Err(BufferUnderflow); }
      var len := buffer.GetInt();
      if len.None? { return Err(BufferUnderflow); }
      Window(buffer.hb, p, buffer.limit, 0, 4);
      Window(buffer.hb, p, buffer.limit, 4, 8);
      Window(buffer.hb, p, buffer.limit, 8, 12);
      h := Ok((rw.value, ty.value, len.value));
    }

    /** `TriboMessage.fromBytes(buffer)`: reads the header and the payload
        at the buffer's cursor, builds the message and then overwrites its
        `readWrite` with the header's. */
    static method FromBytes(buffer: ByteBuffer) returns (r: Result<TriboMessage, Fault>)
      requires buffer.Valid()
      modifies buffer
      ensures buffer.Valid() && buffer.limit == old(buffer.limit)
      ensures var d := Decode(old(buffer.Remaining()));
              (r.Ok? <==> d.Ok?)
              && (r.Ok? ==> fresh(r.value) && r.value.Value() == d.value.0
                            && buffer.position == old(buffer.position) + d.value.1)
              && (r.Err? ==> r.error == d.error)
    {
      ghost var b := buffer.Remaining();
      ghost var p := buffer.position;
      var h := ReadHeader(buffer);
      if h.Err? { return Err(h.error); }
      var (rw, ty, len) := h.value;
      if len < 0 { return Err(NegativeArraySize); }
      var msgBytes := buffer.Get(len);
      if msgBytes.None? { return Err(BufferUnderflow); }
      Window(buffer.hb, p, buffer.limit, HeaderSize, HeaderSize + len);
      var msg := Utf8.Decode(msgBytes.value);
      DecodeFound(b, msgBytes.value);
      if |Utf8.Encode(msg)| > MaxInt32 { return Err(OutOfMemory); }
      var tm := new TriboMessage(ty, msg);
      tm.readWrite := rw;
      r := Ok(tm);
    }
  }
}
