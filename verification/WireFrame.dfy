/** The versioned frame envelope of the server (src/ducknng_wire_core.c): a
    22-byte little-endian header, then name, error text and payload. */
module WireFrame {
  import opened Buffers
  import opened Leb128
  import opened CheckedArithmetic
  import opened Options
  import opened Widths

  const HEADER_LEN: nat := 22
  const MAX_METHOD_NAME_LEN: nat := 128
  const RPC_CALL: nat := 1
  const RPC_ERROR: nat := 3
  const RPC_EVENT: nat := 4
  const STATUS_DISABLED: nat := 10
  const STATUS_UNSPECIFIED: nat := 255

  // ---- fixed-width little-endian integers ----

  function U32(v: nat): (s: bytes)
    requires v < TWO_32
    ensures |s| == 4
  {
    [v % 256, v / 256 % 256, v / 256 / 256 % 256, v / 256 / 256 / 256 % 256]
  }

  function U64(v: nat): (s: bytes)
    requires v < TWO_64
    ensures |s| == 8
  {
    U32(v % TWO_32) + U32(v / TWO_32)
  }

  function Read32(s: bytes, i: nat): (v: nat)
    requires i + 4 <= |s|
    ensures v < TWO_32
  {
    s[i] + 0x100 * s[i + 1] as int + 0x1_0000 * s[i + 2] as int + 0x100_0000 * s[i + 3] as int
  }

  function Read64(s: bytes, i: nat): (v: nat)
    requires i + 8 <= |s|
    ensures v < TWO_64
  {
    Read32(s, i) + TWO_32 * Read32(s, i + 4)
  }

  lemma Read32AtWrite(v: nat, before: bytes, after: bytes)
    requires v < TWO_32
    ensures Read32(before + U32(v) + after, |before|) == v
  {
    var s := before + U32(v) + after;
    var i := |before|;
    assert s[i] == U32(v)[0] && s[i + 1] == U32(v)[1] && s[i + 2] == U32(v)[2] && s[i + 3] == U32(v)[3];
  }

  /** Reading and writing four bytes are mutually inverse. */
  lemma Write32OfRead(s: bytes, i: nat)
    requires i + 4 <= |s|
    ensures U32(Read32(s, i)) == s[i..i + 4]
  {
    Digits(s[i], s[i + 1], s[i + 2], s[i + 3]);
  }

  lemma Digits(a: byte, b: byte, c: byte, d: byte)
    ensures U32(a + 0x100 * b as int + 0x1_0000 * c as int + 0x100_0000 * d as int) == [a, b, c, d]
  {
    var x: int := c + 256 * d as int;
    var w: int := b + 256 * x;
    var v: int := a + 256 * w;
    assert v / 256 == w && w / 256 == x && x / 256 == d;
  }

  lemma Write64OfRead(s: bytes, i: nat)
    requires i + 8 <= |s|
    ensures U64(Read64(s, i)) == s[i..i + 8]
  {
    hide U32, Read32;
    Write32OfRead(s, i);
    Write32OfRead(s, i + 4);
    assert s[i..i + 8] == s[i..i + 4] + s[i + 4..i + 8];
    assert Read64(s, i) % TWO_32 == Read32(s, i) && Read64(s, i) / TWO_32 == Read32(s, i + 4);
  }

  // ---- frames ----

  /** `ducknng_frame_parts`. */
  datatype Parts = Parts(kind: byte, status: int, flags: nat, name: Slice, error: Slice, payload: Slice)

  /** A decoded frame; the slices are views into the message. */
  datatype Frame = Frame(kind: byte, status: byte, flags: nat, name: bytes, error: bytes, payload: bytes)

  /** `ducknng_frame_parts_validate`: the required size, or nothing. */
  function Validate(p: Parts, requirePayload: bool): Option<nat> {
    if p.kind > RPC_EVENT || p.name.Len() > MAX_METHOD_NAME_LEN || p.error.Len() > UINT32_MAX
      || p.flags >= TWO_24 then None
    else if p.name.Len() > 0 && p.name.Missing? then None
    else if p.error.Len() > 0 && p.error.Missing? then None
    else if requirePayload && p.payload.Len() > 0 && p.payload.Missing? then None
    else if p.kind == RPC_ERROR && (p.status <= 0 || p.status > STATUS_DISABLED || p.error.Len() == 0) then None
    else if p.kind != RPC_ERROR && (p.status != 0 || p.error.Len() != 0) then None
    else AddAll(SIZE_MAX, HEADER_LEN, [p.name.Len(), p.error.Len(), p.payload.Len()])
  }

  /** The header's control word: status in the top byte, flags below it. */
  function Header(kind: byte, control: nat, name: nat, error: nat, payload: nat): (s: bytes)
    requires control < TWO_32 && name < TWO_32 && error < TWO_32 && payload < TWO_64
    ensures |s| == HEADER_LEN
  {
    [1, kind] + U32(control) + U32(name) + U32(error) + U64(payload)
  }

  /** The message with that content. */
  function Message(f: Frame, statusByte: byte): bytes
    requires f.flags < TWO_24 && |f.name| < TWO_32 && |f.error| < TWO_32 && |f.payload| < TWO_64
  {
    Header(f.kind, f.flags + TWO_24 * statusByte as int, |f.name|, |f.error|, |f.payload|) + f.name + f.error
      + f.payload
  }

  /** The two checked additions of the decoder and the three of the encoder. */
  lemma SizeOfTwo(a: nat, b: nat)
    ensures AddAll(SIZE_MAX, HEADER_LEN, [a, b]) == Sum?(SIZE_MAX, HEADER_LEN + a, b)
  {
    AddAllExact(SIZE_MAX, HEADER_LEN, [a, b]);
    assert [a, b][1..] == [b] && [b][1..] == [];
    assert Total([a, b]) == a + Total([b]) && Total([b]) == b;
  }

  lemma SizeOfThree(a: nat, b: nat, c: nat)
    ensures AddAll(SIZE_MAX, HEADER_LEN, [a, b, c]) == Sum?(SIZE_MAX, HEADER_LEN + a + b, c)
  {
    AddAllExact(SIZE_MAX, HEADER_LEN, [a, b, c]);
    assert [a, b, c][1..] == [b, c] && [b, c][1..] == [c] && [c][1..] == [];
    assert Total([a, b, c]) == a + Total([b, c]) && Total([b, c]) == b + Total([c]) && Total([c]) == c;
  }

  /** `ducknng_decode_frame_bytes`. */
  function DecodeFrame(data: bytes): Option<Frame> {
    if |data| < HEADER_LEN || data[0] != 1 || data[1] > RPC_EVENT then None else
    var control, nameLen, errorLen, payloadLen := Read32(data, 2), Read32(data, 6), Read32(data, 10), Read64(data, 14);
    var status := control / TWO_24;
    if nameLen > MAX_METHOD_NAME_LEN then None
    else match AddAll(SIZE_MAX, HEADER_LEN, [nameLen, errorLen])
      case None => None
      case Some(fixedLen) =>
        if |data| < fixedLen || payloadLen != |data| - fixedLen then None
        else if data[1] == RPC_ERROR && (status > STATUS_DISABLED || errorLen == 0) then None
        else if data[1] != RPC_ERROR && (status != 0 || errorLen != 0) then None
        else
          assert fixedLen == HEADER_LEN + nameLen + errorLen by { SizeOfTwo(nameLen, errorLen); }
          Some(Frame(
            data[1],
            if data[1] != RPC_ERROR then 0 else if status == 0 then STATUS_UNSPECIFIED else status,
            control % TWO_24,
            data[HEADER_LEN..HEADER_LEN + nameLen],
            data[HEADER_LEN + nameLen..fixedLen],
            data[fixedLen..]))
  }

  /** The parts a decoded frame stands for. */
  function AsParts(f: Frame): Parts {
    Parts(f.kind, f.status, f.flags, Present(f.name), Present(f.error), Present(f.payload))
  }

  /** What the encoder accepts: its own kinds and statuses, 24 bits of flags, a
      bounded name, error text exactly on error frames, and a size that fits. */
  predicate Sendable(f: Frame)
    ensures Sendable(f) <==> Validate(AsParts(f), true).Some?
  {
    SizeOfThree(|f.name|, |f.error|, |f.payload|);
    && f.kind <= RPC_EVENT && f.flags < TWO_24 && |f.name| <= MAX_METHOD_NAME_LEN && |f.error| < TWO_32
    && (if f.kind == RPC_ERROR then 1 <= f.status <= STATUS_DISABLED && f.error != []
        else f.status == 0 && f.error == [])
    && HEADER_LEN + |f.name| + |f.error| + |f.payload| <= SIZE_MAX
  }

  /** Where a header laid out as five 32-bit words puts its fields. */
  lemma HeaderReads(kind: byte, control: nat, name: nat, error: nat, low: nat, high: nat, body: bytes)
    requires control < TWO_32 && name < TWO_32 && error < TWO_32 && low < TWO_32 && high < TWO_32
    ensures var m := [1, kind] + U32(control) + U32(name) + U32(error) + (U32(low) + U32(high)) + body;
      && |m| == HEADER_LEN + |body| && m[0] == 1 && m[1] == kind && m[21] == U32(high)[3]
      && Read32(m, 2) == control && Read32(m, 6) == name && Read32(m, 10) == error
      && Read64(m, 14) == low + TWO_32 * high && m[HEADER_LEN..] == body
  {
    hide U32, Read32;
    var m := [1, kind] + U32(control) + U32(name) + U32(error) + (U32(low) + U32(high)) + body;
    var h0: bytes := [1, kind];
    var h1 := h0 + U32(control);
    var h2 := h1 + U32(name);
    var h3 := h2 + U32(error);
    var h4 := h3 + U32(low);
    assert m == h0 + U32(control) + m[6..];
    Read32AtWrite(control, h0, m[6..]);
    assert m == h1 + U32(name) + m[10..];
    Read32AtWrite(name, h1, m[10..]);
    assert m == h2 + U32(error) + m[14..];
    Read32AtWrite(error, h2, m[14..]);
    assert m == h3 + U32(low) + m[18..];
    Read32AtWrite(low, h3, m[18..]);
    assert m == h4 + U32(high) + m[22..];
    Read32AtWrite(high, h4, m[22..]);
  }

  lemma HeaderFields(f: Frame, statusByte: byte)
    requires f.flags < TWO_24 && |f.name| < TWO_32 && |f.error| < TWO_32 && |f.payload| < TWO_64
    ensures var m := Message(f, statusByte);
      && |m| == HEADER_LEN + |f.name| + |f.error| + |f.payload|
      && m[0] == 1 && m[1] == f.kind && m[21] == U32(|f.payload| / TWO_32)[3]
      && Read32(m, 2) == f.flags + TWO_24 * statusByte as int
      && Read32(m, 6) == |f.name| && Read32(m, 10) == |f.error| && Read64(m, 14) == |f.payload|
      && m[HEADER_LEN..] == f.name + f.error + f.payload
  {
    hide U32, Read32;
    var control := f.flags + TWO_24 * statusByte as int;
    var low, high := |f.payload| % TWO_32, |f.payload| / TWO_32;
    HeaderReads(f.kind, control, |f.name|, |f.error|, low, high, f.name + f.error + f.payload);
    assert Message(f, statusByte)
      == [1, f.kind] + U32(control) + U32(|f.name|) + U32(|f.error|) + (U32(low) + U32(high))
      + (f.name + f.error + f.payload);
  }

  /** A frame the encoder accepts decodes to its own content. */
  lemma FrameRoundTrip(f: Frame)
    requires Sendable(f)
    ensures DecodeFrame(Message(f, f.status)) == Some(f)
  {
    hide U32, Read32, Header, Message;
    SizeOfTwo(|f.name|, |f.error|);
    HeaderFields(f, f.status);
    MessageSlices(f, f.status);
  }

  lemma MessageSlices(f: Frame, statusByte: byte)
    requires f.flags < TWO_24 && |f.name| < TWO_32 && |f.error| < TWO_32 && |f.payload| < TWO_64
    ensures var m := Message(f, statusByte);
      var n, e := HEADER_LEN + |f.name|, HEADER_LEN + |f.name| + |f.error|;
      && e <= |m| && m[HEADER_LEN..n] == f.name && m[n..e] == f.error && m[e..] == f.payload
  {
    hide Header;
    var h := Header(f.kind, f.flags + TWO_24 * statusByte as int, |f.name|, |f.error|, |f.payload|);
    assert Message(f, statusByte) == h + f.name + f.error + f.payload;
  }

  /** Any bytes the decoder accepts are the one message with that content; only
      an error frame of an older peer, whose status byte is zero, decodes to a
      status no encoder writes. Its slices cover everything after the header. */
  lemma AcceptedBytes(data: bytes)
    requires DecodeFrame(data).Some?
    ensures var f := DecodeFrame(data).value;
      && f.flags < TWO_24 && |f.name| <= MAX_METHOD_NAME_LEN && |f.error| < TWO_32 && |f.payload| < TWO_64
      && data == Message(f, if f.status == STATUS_UNSPECIFIED then 0 else f.status)
      && (|data| <= SIZE_MAX && f.status != STATUS_UNSPECIFIED ==> Sendable(f))
      && (f.status == STATUS_UNSPECIFIED ==> f.kind == RPC_ERROR && f.error != [])
  {
    hide U32, Read32;
    var f := DecodeFrame(data).value;
    var nameLen, errorLen := Read32(data, 6), Read32(data, 10);
    SizeOfTwo(nameLen, errorLen);
    var control := Read32(data, 2);
    assert control == control % TWO_24 + TWO_24 * (control / TWO_24);
    HeaderBytes(data);
    var e := HEADER_LEN + nameLen + errorLen;
    assert data
      == data[..HEADER_LEN] + data[HEADER_LEN..HEADER_LEN + nameLen] + data[HEADER_LEN + nameLen..e] + data[e..];
  }

  lemma HeaderBytes(data: bytes)
    requires |data| >= HEADER_LEN && data[0] == 1
    ensures data[..HEADER_LEN] == Header(data[1], Read32(data, 2), Read32(data, 6), Read32(data, 10), Read64(data, 14))
  {
    hide U32, Read32;
    Write32OfRead(data, 2);
    Write32OfRead(data, 6);
    Write32OfRead(data, 10);
    Write64OfRead(data, 14);
    assert data[..HEADER_LEN] == [data[0], data[1]] + data[2..6] + data[6..10] + data[10..14] + data[14..22];
  }

  /** So decoding is injective: distinct messages never mean the same frame. */
  lemma DecodeInjective(a: bytes, b: bytes)
    requires DecodeFrame(a).Some? && DecodeFrame(a) == DecodeFrame(b)
    ensures a == b
  {
    hide *;
    AcceptedBytes(a);
    AcceptedBytes(b);
  }

  /** No proper prefix and no extension of an accepted message is accepted. */
  lemma PrefixFree(a: bytes, b: bytes)
    requires DecodeFrame(a).Some? && DecodeFrame(b).Some? && a <= b
    ensures a == b
  {
    hide Read32;
    SizeOfTwo(Read32(a, 6), Read32(a, 10));
    SameHeader(a, b);
    assert |a| == |b|;
  }

  lemma SameHeader(a: bytes, b: bytes)
    requires |a| >= HEADER_LEN && a <= b
    ensures Read32(a, 6) == Read32(b, 6) && Read32(a, 10) == Read32(b, 10) && Read64(a, 14) == Read64(b, 14)
  {
    assert forall i :: 0 <= i < HEADER_LEN ==> a[i] == b[i];
  }

  // ---- the encoders, in place ----

  /** The frame that valid parts describe. */
  function AsFrame(p: Parts): Frame
    requires Validate(p, false).Some?
  {
    var Text := (slice: Slice) => if slice.Present? then slice.data else [];
    Frame(p.kind, p.status, p.flags, Text(p.name), Text(p.error), Text(p.payload))
  }

  /** Header, name and error: what `ducknng_wire_write_prefix` writes. The payload
      is counted in the header but need not be at hand. */
  function Prefix(p: Parts): (s: bytes)
    requires Validate(p, false).Some?
    ensures |s| + p.payload.Len() == Validate(p, false).value
  {
    SizeOfThree(p.name.Len(), p.error.Len(), p.payload.Len());
    var f := AsFrame(p);
    Header(p.kind, p.flags + TWO_24 * p.status, |f.name|, |f.error|, p.payload.Len()) + f.name + f.error
  }

  /** Whole-frame encoding is prefix encoding followed by the payload. */
  lemma PrefixThenPayload(p: Parts)
    requires Validate(p, true).Some?
    ensures Validate(p, false) == Validate(p, true) && Sendable(AsFrame(p))
    ensures Prefix(p) + AsFrame(p).payload == Message(AsFrame(p), p.status)
  {
    hide Header;
    SizeOfThree(p.name.Len(), p.error.Len(), p.payload.Len());
  }

  method Store(d: array<byte>, at: nat, source: bytes) returns (end: nat)
    requires at + |source| <= d.Length
    modifies d
    ensures end == at + |source|
    ensures d[..end] == old(d[..at]) + source
    ensures forall i :: end <= i < d.Length ==> d[i] == old(d[i])
  {
    end := at + |source|;
    forall i | at <= i < end {
      d[i] := source[i - at];
    }
  }

  method WriteHeader(p: Parts, d: array<byte>) returns (offset: nat)
    requires Validate(p, false).Some? && |Prefix(p)| <= d.Length
    modifies d
    ensures offset == HEADER_LEN && forall i :: offset <= i < d.Length ==> d[i] == old(d[i])
    ensures d[..offset] == Prefix(p)[..offset]
  {
    hide U32;
    SizeOfThree(p.name.Len(), p.error.Len(), p.payload.Len());
    offset := Store(d, 0, seq(HEADER_LEN, _ => 0));
    offset := Store(d, 0, [1, p.kind]);
    offset := Store(d, offset, U32(p.flags + TWO_24 * p.status));
    offset := Store(d, offset, U32(p.name.Len()));
    offset := Store(d, offset, U32(p.error.Len()));
    offset := Store(d, offset, U64(p.payload.Len()));
    var f := AsFrame(p);
    assert d[..offset] == Header(p.kind, p.flags + TWO_24 * p.status, |f.name|, |f.error|, p.payload.Len());
  }

  /** `ducknng_wire_write_prefix`. */
  method WritePrefix(p: Parts, d: array<byte>) returns (offset: nat)
    requires Validate(p, false).Some? && |Prefix(p)| <= d.Length
    modifies d
    ensures offset == |Prefix(p)| && d[..offset] == Prefix(p)
    ensures forall i :: offset <= i < d.Length ==> d[i] == old(d[i])
  {
    hide Header;
    SizeOfThree(p.name.Len(), p.error.Len(), p.payload.Len());
    offset := WriteHeader(p, d);
    if p.name.Len() > 0 {
      offset := Store(d, offset, p.name.data);
    }
    if p.error.Len() > 0 {
      offset := Store(d, offset, p.error.data);
    }
  }

  /** `ducknng_encode_frame_prefix`. */
  method EncodeFramePrefix(p: Parts, d: array?<byte>, capacity: nat) returns (rc: int, written: nat)
    requires d != null ==> capacity <= d.Length
    modifies d
    ensures Validate(p, false).None? ==> rc == -1 && written == 0
    ensures Validate(p, false).Some? ==>
      written == |Prefix(p)| && (rc == 0 <==> d != null && |Prefix(p)| <= capacity) && (rc == 0 || rc == -1)
    ensures rc == 0 ==> d[..written] == Prefix(p) && d[written..] == old(d[written..])
    ensures rc != 0 && d != null ==> d[..] == old(d[..])
  {
    var required := Validate(p, false);
    if required.None? { return -1, 0; }
    assert |Prefix(p)| == required.value - p.payload.Len();
    written := required.value - p.payload.Len();
    if d == null || capacity < written { return -1, written; }
    var _ := WritePrefix(p, d);
    rc := 0;
  }

  /** `ducknng_encode_frame_bytes`: an invalid frame reports size zero, a valid one
      the exact size it needs, and the destination is written only when it fits. */
  method EncodeFrameBytes(p: Parts, d: array?<byte>, capacity: nat) returns (rc: int, written: nat)
    requires d != null ==> capacity <= d.Length
    modifies d
    ensures Validate(p, true).None? ==> rc == -1 && written == 0
    ensures Validate(p, true).Some? ==>
      && Sendable(AsFrame(p)) && written == |Message(AsFrame(p), p.status)|
      && (rc == 0 <==> d != null && written <= capacity) && (rc == 0 || rc == -1)
    ensures rc == 0 ==> d[..written] == Message(AsFrame(p), p.status) && d[written..] == old(d[written..])
    ensures rc != 0 && d != null ==> d[..] == old(d[..])
  {
    hide Header;
    var required := Validate(p, true);
    if required.None? { return -1, 0; }
    PrefixThenPayload(p);
    written := required.value;
    if d == null || capacity < written { return -1, written; }
    var offset := WritePrefix(p, d);
    if p.payload.Len() > 0 {
      offset := Store(d, offset, p.payload.data);
    }
    rc := 0;
  }
}
