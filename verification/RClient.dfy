/** The R reference client of the frame envelope (README.Rmd, lines 1390-1432),
    and what it and the server's codec make of each other's frames.

    R's `as.integer` turns a value past 2^31 - 1 into NA, which `writeBin` stores
    as the pattern of 2^31. Indexing is one-based, `a:b` counts down when `b < a`,
    and a raw subscript past the end reads 00. */
module RClient {
  import opened Leb128
  import opened CheckedArithmetic
  import opened Options
  import opened WireFrame
  import opened Widths

  // ---- writing ----

  /** The 32-bit pattern of `as.integer(x)`. */
  function AsInteger(x: nat): (bits: nat)
    ensures bits <= TWO_31
  {
    if x < TWO_31 then x else TWO_31
  }

  function WriteU32(x: nat): bytes {
    U32(AsInteger(x))
  }

  function WriteU64(x: nat): bytes {
    WriteU32(x % TWO_32) + WriteU32(x / TWO_32)
  }

  /** `encode_ducknng_call_frame`. */
  function EncodeCall(name: bytes, payload: bytes, flags: nat): bytes {
    [1, 1] + WriteU32(flags) + WriteU32(|name|) + WriteU32(0) + WriteU64(|payload|) + name + payload
  }

  /** The lengths that survive `as.integer`. */
  predicate Carries64(x: nat) {
    x % TWO_32 <= TWO_31 && x / TWO_32 <= TWO_31
  }

  /** A 32-bit value is read back if and only if it is at most 2^31. */
  lemma U32Carried(x: nat)
    requires x < TWO_32
    ensures Read32(WriteU32(x), 0) == x <==> x <= TWO_31
  {
    Read32AtWrite(AsInteger(x), [], []);
    assert [] + U32(AsInteger(x)) + [] == WriteU32(x);
  }

  /** A 64-bit value is read back if and only if both its halves are. */
  lemma U64Carried(x: nat)
    requires x < TWO_64
    ensures Read64(WriteU64(x), 0) == x <==> Carries64(x)
  {
    hide U32, Read32;
    var low, high := AsInteger(x % TWO_32), AsInteger(x / TWO_32);
    var s := WriteU64(x);
    assert s == [] + U32(low) + U32(high) && s == U32(low) + U32(high) + [];
    Read32AtWrite(low, [], U32(high));
    Read32AtWrite(high, U32(low), []);
  }

  /** Three gibibytes is a length the client cannot announce. */
  lemma U64NotAlwaysCarried()
    ensures Read64(WriteU64(0xC000_0000), 0) == TWO_31
  {
    var s := WriteU64(0xC000_0000);
    assert s == [] + U32(TWO_31) + U32(0) && s == U32(TWO_31) + U32(0) + [];
    Read32AtWrite(TWO_31, [], U32(0));
    Read32AtWrite(0, U32(TWO_31), []);
  }

  // ---- reading ----

  /** `buf[i]` on raw bytes. */
  function At(buf: bytes, i: int): byte {
    if 1 <= i <= |buf| then buf[i - 1] else 0
  }

  function Ascending(buf: bytes, a: int, n: nat): (s: bytes)
    ensures |s| == n && forall i | 0 <= i < n :: s[i] == At(buf, a + i)
  {
    if n == 0 then [] else Ascending(buf, a, n - 1) + [At(buf, a + n - 1)]
  }

  function Descending(buf: bytes, a: int, n: nat): (s: bytes)
    ensures |s| == n && forall i | 0 <= i < n :: s[i] == At(buf, a - i)
  {
    if n == 0 then [] else Descending(buf, a, n - 1) + [At(buf, a - n + 1)]
  }

  /** `buf[a:b]`. */
  function Range(buf: bytes, a: int, b: int): (s: bytes)
    ensures |s| == if a <= b then b - a + 1 else a - b + 1
  {
    if a <= b then Ascending(buf, a, b - a + 1) else Descending(buf, a, a - b + 1)
  }

  function DropTrailingZeros(s: bytes): (r: bytes)
    ensures r <= s && (r == [] || r[|r| - 1] != 0)
  {
    if s != [] && s[|s| - 1] == 0 then DropTrailingZeros(s[..|s| - 1]) else s
  }

  /** `rawToChar`: trailing NULs are dropped, an embedded one is an error. */
  function RawToChar(s: bytes): Option<bytes> {
    var text := DropTrailingZeros(s);
    if 0 in text then None else Some(text)
  }

  datatype Reply = Reply(version: byte, kind: byte, name: bytes, error: bytes, payload: bytes)

  /** Where the error text starts, one-based, and where the payload does. */
  function ErrorStart(buf: bytes): nat
    requires |buf| >= HEADER_LEN
  {
    23 + Read32(buf, 6)
  }

  function PayloadStart(buf: bytes): nat
    requires |buf| >= HEADER_LEN
  {
    ErrorStart(buf) + Read32(buf, 10)
  }

  function NameSlice(buf: bytes): bytes
    requires |buf| >= HEADER_LEN
  {
    Range(buf, 23, ErrorStart(buf) - 1)
  }

  function ErrorSlice(buf: bytes): bytes
    requires |buf| >= HEADER_LEN
  {
    if Read32(buf, 10) > 0 then Range(buf, ErrorStart(buf), PayloadStart(buf) - 1) else []
  }

  function PayloadSlice(buf: bytes): bytes
    requires |buf| >= HEADER_LEN
  {
    if Read64(buf, 14) > 0 then Range(buf, PayloadStart(buf), PayloadStart(buf) + Read64(buf, 14) - 1) else []
  }

  /** `decode_ducknng_exec_reply`, with the payload bytes left undecoded. */
  function DecodeReply(buf: bytes): Option<Reply> {
    if |buf| < HEADER_LEN then None else
    match (RawToChar(NameSlice(buf)), if Read32(buf, 10) > 0 then RawToChar(ErrorSlice(buf)) else Some([]))
    case (Some(name), Some(error)) => Some(Reply(buf[0], buf[1], name, error, PayloadSlice(buf)))
    case _ => None
  }

  // ---- what the slices are ----

  /** An ascending range that stays inside the buffer is a plain slice. */
  lemma RangeIsSlice(buf: bytes, a: int, b: int)
    requires 1 <= a <= b <= |buf|
    ensures Range(buf, a, b) == buf[a - 1..b]
  {
    hide Ascending;
  }

  lemma {:induction false} TextKept(s: bytes)
    requires 0 !in s
    ensures RawToChar(s) == Some(s)
  {
    assert s != [] ==> s[|s| - 1] in s;
  }

  /** A buffer whose header lengths match the rest, whatever they are. */
  predicate WellFormed(buf: bytes) {
    |buf| >= HEADER_LEN && |buf| == HEADER_LEN + Read32(buf, 6) + Read32(buf, 10) + Read64(buf, 14)
  }

  /** The decoder's slices of it: error and payload are the stretches after the name, each
      beginning where the one before ends, the last ending with the buffer; the name is
      the stretch in front of them, and the three cover everything after the header, if
      and only if it is not empty. */
  lemma SlicesCover(buf: bytes)
    requires WellFormed(buf)
    ensures var n, e := HEADER_LEN + Read32(buf, 6), HEADER_LEN + Read32(buf, 6) + Read32(buf, 10);
      && ErrorSlice(buf) == buf[n..e] && PayloadSlice(buf) == buf[e..]
      && (NameSlice(buf) == buf[HEADER_LEN..n] <==> Read32(buf, 6) > 0)
      && (NameSlice(buf) + ErrorSlice(buf) + PayloadSlice(buf) == buf[HEADER_LEN..] <==> Read32(buf, 6) > 0)
  {
    hide Read32, Range;
    var n, e := HEADER_LEN + Read32(buf, 6), HEADER_LEN + Read32(buf, 6) + Read32(buf, 10);
    if Read32(buf, 6) > 0 { RangeIsSlice(buf, 23, n); }
    if Read32(buf, 10) > 0 { RangeIsSlice(buf, n + 1, e); }
    if Read64(buf, 14) > 0 { RangeIsSlice(buf, e + 1, |buf|); }
  }

  /** A buffer laid out as header, name, error and payload. */
  predicate LaidOut(buf: bytes, kind: byte, name: bytes, error: bytes, payload: bytes) {
    && |buf| >= HEADER_LEN && buf[HEADER_LEN..] == name + error + payload
    && buf[0] == 1 && buf[1] == kind && buf[21] == 0
    && Read32(buf, 6) == |name| && Read32(buf, 10) == |error| && Read64(buf, 14) == |payload|
  }

  /** The one-byte string an empty name is mistaken for, or nothing. */
  predicate NameReadable(name: bytes, rest: bytes) {
    name != [] || rest == [] || rest[0] == 0
  }

  /** The slices of such a buffer. */
  lemma LaidOutSlices(buf: bytes, kind: byte, name: bytes, error: bytes, payload: bytes)
    requires LaidOut(buf, kind, name, error, payload)
    ensures (name != [] ==> NameSlice(buf) == name) && ErrorSlice(buf) == error && PayloadSlice(buf) == payload
  {
    hide Read32, Range, NameSlice, ErrorSlice, PayloadSlice;
    assert |buf| == HEADER_LEN + |name| + |error| + |payload|;
    SlicesCover(buf);
    var n, e := HEADER_LEN + |name|, HEADER_LEN + |name| + |error|;
    assert buf[HEADER_LEN..n] == buf[HEADER_LEN..][..|name|];
    assert buf[n..e] == buf[HEADER_LEN..][|name|..|name| + |error|];
    assert buf[e..] == buf[HEADER_LEN..][|name| + |error|..];
  }

  /** Such a buffer is decoded faithfully if and only if its name is not empty, or
      the byte that would stand in for it is absent or NUL. */
  lemma DecodeLaidOut(buf: bytes, kind: byte, name: bytes, error: bytes, payload: bytes)
    requires LaidOut(buf, kind, name, error, payload) && 0 !in name && 0 !in error
    ensures DecodeReply(buf) == Some(Reply(1, kind, name, error, payload)) <==> NameReadable(name, error + payload)
  {
    hide Read32, Range, RawToChar, DropTrailingZeros;
    LaidOutSlices(buf, kind, name, error, payload);
    TextKept(name);
    TextKept(error);
    if name == [] {
      assert buf[HEADER_LEN..] == error + payload;
      EmptyName(buf, error + payload);
    }
  }

  /** A zero byte with something else after it. */
  predicate InnerZero(s: bytes) {
    exists i, j | 0 <= i < j < |s| :: s[i] == 0 && s[j] != 0
  }

  /** The text with only zero bytes cut off its end. */
  predicate CutAt(text: bytes, s: bytes) {
    text <= s && 0 !in text && forall i | |text| <= i < |s| :: s[i] == 0
  }

  lemma {:induction false} ZerosCut(s: bytes)
    ensures forall i | |DropTrailingZeros(s)| <= i < |s| :: s[i] == 0
  {
    if s != [] && s[|s| - 1] == 0 { ZerosCut(s[..|s| - 1]); }
  }

  lemma ZeroText(s: bytes)
    ensures RawToChar(s).None? <==> InnerZero(s)
    ensures RawToChar(s).Some? ==> CutAt(RawToChar(s).value, s)
  {
    hide DropTrailingZeros;
    var text := DropTrailingZeros(s);
    ZerosCut(s);
    if 0 in text {
      var i :| 0 <= i < |text| && text[i] == 0;
      assert s[i] == 0 && s[|text| - 1] != 0;
    }
  }

  /** Zero bytes in a reply that has a name: it cannot be read if and only if name or error text
      has one with something after it; at their ends they are cut off. */
  lemma ZerosInReply(buf: bytes, kind: byte, name: bytes, error: bytes, payload: bytes)
    requires LaidOut(buf, kind, name, error, payload) && name != []
    ensures DecodeReply(buf).None? <==> InnerZero(name) || InnerZero(error)
    ensures DecodeReply(buf).Some? ==>
      var r := DecodeReply(buf).value;
      CutAt(r.name, name) && CutAt(r.error, error) && r.payload == payload && r.kind == kind && r.version == 1
  {
    hide Read32, Range, RawToChar, InnerZero, NameSlice, ErrorSlice, PayloadSlice;
    LaidOutSlices(buf, kind, name, error, payload);
    ZeroText(name);
    ZeroText(error);
    if error == [] { NoZero(); }
  }

  lemma NoZero()
    ensures RawToChar([]) == Some([])
  {
  }

  lemma EmptyName(buf: bytes, rest: bytes)
    requires |buf| >= HEADER_LEN && buf[HEADER_LEN..] == rest && buf[21] == 0
    ensures RawToChar(Range(buf, 23, 22)) == Some(if rest == [] || rest[0] == 0 then [] else [rest[0]])
  {
    var first := At(buf, 23);
    assert rest != [] ==> rest[0] == buf[HEADER_LEN..][0];
    assert Range(buf, 23, 22) == [first, 0];
    assert [first, 0][..1] == [first] && [first][..0] == [];
    assert DropTrailingZeros([first, 0]) == DropTrailingZeros([first]);
  }

  // ---- a call read back by the client ----

  /** Where a call frame puts its fields. */
  lemma CallFields(name: bytes, payload: bytes, flags: nat)
    ensures var m := EncodeCall(name, payload, flags);
      && |m| == HEADER_LEN + |name| + |payload| && m[0] == 1 && m[1] == 1 && m[HEADER_LEN..] == name + payload
      && Read32(m, 2) == AsInteger(flags) && Read32(m, 6) == AsInteger(|name|) && Read32(m, 10) == 0
      && Read64(m, 14) == AsInteger(|payload| % TWO_32) + TWO_32 * AsInteger(|payload| / TWO_32)
      && (|payload| < TWO_52 ==> m[21] == 0)
  {
    hide U32, Read32, AsInteger;
    var low, high := AsInteger(|payload| % TWO_32), AsInteger(|payload| / TWO_32);
    HeaderReads(1, AsInteger(flags), AsInteger(|name|), AsInteger(0), low, high, name + payload);
    assert EncodeCall(name, payload, flags)
      == [1, 1] + U32(AsInteger(flags)) + U32(AsInteger(|name|)) + U32(AsInteger(0))
      + (U32(low) + U32(high)) + (name + payload);
    HighByte(|payload|);
  }

  lemma HighByte(length: nat)
    ensures AsInteger(0) == 0 && (length < TWO_52 ==> U32(AsInteger(length / TWO_32))[3] == 0)
  {
  }

  /** The client reads its own call back - version 1, type 1, the method, no error
      and the exact payload - if and only if `as.integer` kept every length and the
      name is not empty or is followed by nothing or a NUL. */
  lemma CallRoundTrip(name: bytes, payload: bytes, flags: nat)
    requires 0 !in name && |payload| < TWO_52
    ensures DecodeReply(EncodeCall(name, payload, flags)) == Some(Reply(1, 1, name, [], payload))
      <==> |name| <= TWO_31 && Carries64(|payload|) && NameReadable(name, payload)
  {
    hide Read32, Range, RawToChar, EncodeCall;
    var m := EncodeCall(name, payload, flags);
    CallFields(name, payload, flags);
    if |name| <= TWO_31 && Carries64(|payload|) {
      assert name + [] + payload == name + payload && [] + payload == payload;
      DecodeLaidOut(m, 1, name, [], payload);
    } else if |name| > TWO_31 {
      RawToCharShrinks(Range(m, 23, 22 + TWO_31));
    }
  }

  lemma RawToCharShrinks(s: bytes)
    ensures RawToChar(s).Some? ==> |RawToChar(s).value| <= |s|
  {
  }

  /** The empty method name is read back as the first payload byte. */
  lemma EmptyNameMisread()
    ensures DecodeReply(EncodeCall([], [65], 0)) == Some(Reply(1, 1, [65], [], [65]))
  {
    hide Read32, Range, RawToChar, EncodeCall;
    var m := EncodeCall([], [65], 0);
    CallFields([], [65], 0);
    assert m[HEADER_LEN..] == [65];
    EmptyName(m, [65]);
    RangeIsSlice(m, 23, 23);
    assert m[22..23] == m[HEADER_LEN..];
  }

  // ---- splitting a stream of calls ----

  datatype Call = Call(name: bytes, payload: bytes, flags: nat)

  /** The calls whose header fields all survive `as.integer`. */
  predicate Carried(c: Call) {
    c.flags <= TWO_31 && |c.name| <= TWO_31 && Carries64(|c.payload|)
  }

  function Bytes(c: Call): bytes {
    EncodeCall(c.name, c.payload, c.flags)
  }

  function Stream(cs: seq<Call>): bytes {
    if cs == [] then [] else Bytes(cs[0]) + Stream(cs[1..])
  }

  /** Two streams that start with a call and agree on their bytes start with the same call. */
  lemma CallsPrefixFree(a: Call, b: Call, afterA: bytes, afterB: bytes)
    requires Carried(a) && Carried(b) && Bytes(a) + afterA == Bytes(b) + afterB
    ensures a == b && afterA == afterB
  {
    hide U32, EncodeCall;
    var whole := Bytes(a) + afterA;
    CallFields(a.name, a.payload, a.flags);
    CallFields(b.name, b.payload, b.flags);
    SameReads(Bytes(a), whole);
    SameReads(Bytes(b), whole);
    assert |a.name| == |b.name| && |a.payload| == |b.payload| && a.flags == b.flags;
    BodySplits(a, afterA, whole);
    BodySplits(b, afterB, whole);
  }

  lemma SameReads(m: bytes, whole: bytes)
    requires |m| >= HEADER_LEN && m <= whole
    ensures Read32(m, 2) == Read32(whole, 2) && Read32(m, 6) == Read32(whole, 6) && Read64(m, 14) == Read64(whole, 14)
  {
  }

  lemma BodySplits(c: Call, after: bytes, whole: bytes)
    requires Carried(c) && whole == Bytes(c) + after
    ensures var n := HEADER_LEN + |c.name|;
      && |whole| >= n + |c.payload| && whole[HEADER_LEN..n] == c.name
      && whole[n..n + |c.payload|] == c.payload && whole[n + |c.payload|..] == after
  {
    hide EncodeCall, Read32;
    CallFields(c.name, c.payload, c.flags);
    var m := Bytes(c);
    var n := HEADER_LEN + |c.name|;
    assert whole[HEADER_LEN..n] == m[HEADER_LEN..][..|c.name|];
    assert whole[n..n + |c.payload|] == m[HEADER_LEN..][|c.name|..];
  }

  /** So no call frame is a proper prefix of another. */
  lemma PrefixFreeCalls(a: Call, b: Call)
    requires Carried(a) && Carried(b) && Bytes(a) <= Bytes(b)
    ensures a == b
  {
    hide EncodeCall;
    assert Bytes(a) + Bytes(b)[|Bytes(a)|..] == Bytes(b) + [];
    CallsPrefixFree(a, b, Bytes(b)[|Bytes(a)|..], []);
  }

  /** Any concatenation of call frames splits in one way only. */
  lemma {:induction false} StreamSplits(a: seq<Call>, b: seq<Call>)
    requires (forall c <- a :: Carried(c)) && (forall c <- b :: Carried(c)) && Stream(a) == Stream(b)
    ensures a == b
  {
    hide EncodeCall, Carried;
    if a != [] { CallFields(a[0].name, a[0].payload, a[0].flags); }
    if b != [] { CallFields(b[0].name, b[0].payload, b[0].flags); }
    if a != [] && b != [] {
      CallsPrefixFree(a[0], b[0], Stream(a[1..]), Stream(b[1..]));
      StreamSplits(a[1..], b[1..]);
    }
  }

  // ---- client and server ----

  /** The server accepts a client's call, with the fields the client meant, if and
      only if the method name fits its limit, the flags leave the status byte zero
      and the payload length survived `as.integer`. */
  lemma ServerReadsCall(name: bytes, payload: bytes, flags: nat)
    requires |payload| < TWO_52
    ensures DecodeFrame(EncodeCall(name, payload, flags)) == Some(Frame(RPC_CALL, 0, flags, name, [], payload))
      <==> |name| <= MAX_METHOD_NAME_LEN && flags < TWO_24 && Carries64(|payload|)
    ensures DecodeFrame(EncodeCall(name, payload, flags)).Some?
      <==> |name| <= MAX_METHOD_NAME_LEN && flags < TWO_24 && Carries64(|payload|)
  {
    hide Read32, EncodeCall;
    var m := EncodeCall(name, payload, flags);
    CallFields(name, payload, flags);
    SizeOfTwo(AsInteger(|name|), 0);
    if |name| <= MAX_METHOD_NAME_LEN {
      var n := HEADER_LEN + |name|;
      assert m[HEADER_LEN..n] == m[HEADER_LEN..][..|name|] == name;
      assert m[n..n] == [];
      assert m[n..] == m[HEADER_LEN..][|name|..] == payload;
    }
  }

  /** The client recovers any reply the server can send whose name and error text
      hold no NUL, if and only if the name can be told from what follows it. */
  lemma ClientReadsReply(f: Frame)
    requires Sendable(f) && 0 !in f.name && 0 !in f.error && |f.payload| < TWO_52
    ensures DecodeReply(Message(f, f.status)) == Some(Reply(1, f.kind, f.name, f.error, f.payload))
      <==> NameReadable(f.name, f.error + f.payload)
  {
    hide Message, DecodeReply, Read32;
    HeaderFields(f, f.status);
    HighByte(|f.payload|);
    DecodeLaidOut(Message(f, f.status), f.kind, f.name, f.error, f.payload);
  }
}
