/** The frame envelope with every number written out, as src/include/ducknng_wire_core.h
    fixes it: which frames are sent, which bytes they are, and what those bytes mean. */
module FrameSpelling {
  import opened Leb128
  import opened Options
  import opened Widths
  import opened WireFrame

  /** A number in `n` bytes, the low one first. */
  function Little(v: nat, n: nat): (s: bytes)
    ensures |s| == n
  {
    if n == 0 then [] else [v % 256] + Little(v / 256, n - 1)
  }

  /** Version 1, kind, 24 bits of flags, status, three lengths, and the three texts. */
  function Spelled(kind: byte, status: byte, flags: nat, name: bytes, error: bytes, payload: bytes): bytes {
    [1, kind] + Little(flags, 3) + [status] + Little(|name|, 4) + Little(|error|, 4) + Little(|payload|, 8)
    + name + error + payload
  }

  lemma LittleFour(v: nat)
    requires v < TWO_32
    ensures Little(v, 4) == U32(v)
  {
    var a, b, c := v / 256, v / 256 / 256, v / 256 / 256 / 256;
    assert Little(c, 1) == [c % 256] + Little(c / 256, 0);
    assert Little(b, 2) == [b % 256] + Little(c, 1);
    assert Little(a, 3) == [a % 256] + Little(b, 2);
  }

  lemma LittleControl(flags: nat, status: byte)
    requires flags < TWO_24
    ensures Little(flags, 3) + [status] == U32(flags + TWO_24 * status as int)
  {
    var v := flags + TWO_24 * status as int;
    var a, b := flags / 256, flags / 256 / 256;
    assert Little(b, 1) == [b % 256] + Little(b / 256, 0);
    assert Little(a, 2) == [a % 256] + Little(b, 1);
    assert v / 256 == a + 65536 * status as int && v / 256 / 256 == b + 256 * status as int;
    assert v / 256 / 256 / 256 == status && b < 256;
  }

  lemma LittleEight(v: nat)
    requires v < TWO_64
    ensures Little(v, 8) == U64(v)
  {
    hide Little, U32;
    var low, high := v % TWO_32, v / TWO_32;
    FourOfEight(low, high);
    LittleFour(low);
    LittleFour(high);
  }

  /** The low four of eight bytes. */
  lemma FourOfEight(low: nat, high: nat)
    requires low < TWO_32
    ensures Little(low + TWO_32 * high, 8) == Little(low, 4) + Little(high, 4)
  {
    hide Little;
    var a, b, c := low / 256, low / 256 / 256, low / 256 / 256 / 256;
    OneByte(low, 0x100_0000 * high, 7);
    OneByte(a, 0x1_0000 * high, 6);
    OneByte(b, 0x100 * high, 5);
    OneByte(c, high, 4);
    OneByte(low, 0, 3);
    OneByte(a, 0, 2);
    OneByte(b, 0, 1);
    OneByte(c, 0, 0);
    assert c / 256 == 0 && |Little(0, 0)| == 0;
  }

  lemma OneByte(v: nat, w: nat, n: nat)
    ensures Little(v + 256 * w, n + 1) == [v % 256] + Little(v / 256 + w, n)
  {
    assert (v + 256 * w) % 256 == v % 256 && (v + 256 * w) / 256 == v / 256 + w;
  }

  /** These are the bytes of the message. */
  lemma MessageSpelled(f: Frame, status: byte)
    requires f.flags < TWO_24 && |f.name| < TWO_32 && |f.error| < TWO_32 && |f.payload| < TWO_64
    ensures Message(f, status) == Spelled(f.kind, status, f.flags, f.name, f.error, f.payload)
  {
    hide Little, U32, U64;
    LittleControl(f.flags, status);
    LittleFour(|f.name|);
    LittleFour(|f.error|);
    LittleEight(|f.payload|);
  }

  /** Manifests, calls, results and events (0, 1, 2, 4) are sent without status and error text,
      errors (3) with a status of 1 to 10 and a text, and nothing else is sent. */
  lemma SentIff(f: Frame)
    ensures Validate(AsParts(f), true).Some? <==>
      && f.flags < 0x100_0000 && |f.name| <= 128 && |f.error| <= 0xffff_ffff
      && 22 + |f.name| + |f.error| + |f.payload| <= SIZE_MAX
      && ((f.kind in {0, 1, 2, 4} && f.status == 0 && f.error == [])
          || (f.kind == 3 && 1 <= f.status <= 10 && f.error != []))
  {
    assert Sendable(f) <==> Validate(AsParts(f), true).Some?;
  }

  /** What any such bytes mean to the decoder: an error without status is one of an older
      peer, everything that would not be sent otherwise is refused. */
  lemma SpelledDecodes(kind: byte, status: byte, flags: nat, name: bytes, error: bytes, payload: bytes)
    requires flags < 0x100_0000 && |name| <= 0xffff_ffff && |error| <= 0xffff_ffff
    requires 22 + |name| + |error| + |payload| <= SIZE_MAX
    ensures DecodeFrame(Spelled(kind, status, flags, name, error, payload)) ==
      if |name| > 128 then None
      else if kind in {0, 1, 2, 4} && status == 0 && error == [] then Some(Frame(kind, 0, flags, name, [], payload))
      else if kind == 3 && status <= 10 && error != [] then
        Some(Frame(3, if status == 0 then 255 else status, flags, name, error, payload))
      else None
  {
    hide Spelled, Message, U32, Read32;
    var f := Frame(kind, status, flags, name, error, payload);
    MessageSpelled(f, status);
    HeaderFields(f, status);
    MessageSlices(f, status);
    SizeOfTwo(|name|, |error|);
  }

  /** Bytes of another version, or too few for a header, mean nothing. */
  lemma OtherVersions(data: bytes)
    requires |data| < 22 || data[0] != 1
    ensures DecodeFrame(data) == None
  {
  }
}
