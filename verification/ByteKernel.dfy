/** The writer and the reader of the Quack byte kernel
    (src/ducknng_quack_core.c). A payload is encoded twice by the same calls: a
    first pass with a writer that only measures, a second into a buffer of the
    measured size (src/ducknng_quack.c, lines 1491-1524). */
module ByteKernel {
  import opened Buffers
  import opened Leb128
  import opened Widths

  // ---- writing, as values ----

  /** A writer's state: `data` is the destination of a fixed writer. */
  datatype WriterState = WriterState(fixed: bool, data: bytes, position: nat, status: Status)

  /** The effect of one `ducknng_qk_write_bytes` call: all of the chunk or none
      of it, and nothing at all once the writer has failed. */
  function Put(w: WriterState, chunk: bytes): (r: WriterState)
    requires w.fixed && w.status.Good? ==> w.position <= |w.data|
    ensures r.fixed && r.status.Good? ==> r.position <= |r.data|
    ensures !w.status.Good? ==> r == w
  {
    var next := w.position + |chunk|;
    if !w.status.Good? then w
    else if next > SIZE_MAX then w.(status := Overflow)
    else if !w.fixed then w.(position := next)
    else if next > |w.data| then w.(status := NoSpace)
    else w.(position := next, data := w.data[..w.position] + chunk + w.data[next..])
  }

  /** The same for a source whose pointer may be missing: invalid unless it is empty. */
  function PutSlice(w: WriterState, source: Slice): (r: WriterState)
    requires w.fixed && w.status.Good? ==> w.position <= |w.data|
    ensures !w.status.Good? ==> r == w
  {
    match source
    case Present(chunk) => Put(w, chunk)
    case Missing(n) => if w.status.Good? && n > 0 then w.(status := Invalid) else Put(w, [])
  }

  function PutAll(w: WriterState, chunks: seq<bytes>): (r: WriterState)
    requires w.fixed && w.status.Good? ==> w.position <= |w.data|
    ensures r.fixed && r.status.Good? ==> r.position <= |r.data|
    decreases |chunks|
  {
    if chunks == [] then w else PutAll(Put(w, chunks[0]), chunks[1..])
  }

  function Flatten(chunks: seq<bytes>): bytes {
    if chunks == [] then [] else chunks[0] + Flatten(chunks[1..])
  }

  /** Byte-at-a-time writes. */
  function Singles(s: bytes): seq<bytes> {
    if s == [] then [] else [[s[0]]] + Singles(s[1..])
  }

  const MEASURE: WriterState := WriterState(false, [], 0, Good)

  function Fixed(buffer: bytes): WriterState {
    WriterState(true, buffer, 0, Good)
  }

  lemma {:induction false} PutAllSticky(w: WriterState, chunks: seq<bytes>)
    requires !w.status.Good?
    ensures PutAll(w, chunks) == w
  {
    if chunks != [] {
      PutAllSticky(w, chunks[1..]);
    }
  }

  lemma {:induction false} PutAllConcat(w: WriterState, a: seq<bytes>, b: seq<bytes>)
    requires w.fixed && w.status.Good? ==> w.position <= |w.data|
    ensures PutAll(w, a + b) == PutAll(PutAll(w, a), b)
    decreases |a|
  {
    if a == [] {
      assert a + b == b;
    } else {
      assert (a + b)[1..] == a[1..] + b;
      PutAllConcat(Put(w, a[0]), a[1..], b);
    }
  }

  lemma {:induction false} FlattenSingles(s: bytes)
    ensures Flatten(Singles(s)) == s
  {
    if s != [] {
      FlattenSingles(s[1..]);
    }
  }

  /** A measuring writer ends at the exact size of the output, or reports that
      no size can hold it. */
  lemma {:induction false} MeasureExact(w: WriterState, chunks: seq<bytes>)
    requires !w.fixed && w.status.Good? && w.position <= SIZE_MAX
    ensures var total := w.position + |Flatten(chunks)|;
      if total <= SIZE_MAX then PutAll(w, chunks) == w.(position := total)
      else PutAll(w, chunks).status.Overflow?
    decreases |chunks|
  {
    if chunks != [] {
      var next := Put(w, chunks[0]);
      if next.status.Good? {
        MeasureExact(next, chunks[1..]);
      } else {
        PutAllSticky(next, chunks[1..]);
      }
    }
  }

  /** A fixed writer with room enough lays the chunks down one after another and
      leaves the rest of its buffer alone. */
  lemma {:induction false} FixedExact(w: WriterState, chunks: seq<bytes>)
    requires w.fixed && w.status.Good? && |w.data| <= SIZE_MAX
    requires w.position + |Flatten(chunks)| <= |w.data|
    ensures var total := w.position + |Flatten(chunks)|;
      PutAll(w, chunks) == w.(position := total, data := w.data[..w.position] + Flatten(chunks) + w.data[total..])
    decreases |chunks|
  {
    var flat := Flatten(chunks);
    var total := w.position + |flat|;
    if chunks == [] {
      assert w.data == w.data[..w.position] + [] + w.data[w.position..];
    } else {
      var next := Put(w, chunks[0]);
      FixedExact(next, chunks[1..]);
      assert next.data[..next.position] == w.data[..w.position] + chunks[0];
      assert next.data[total..] == w.data[total..];
      assert w.data[..w.position] + chunks[0] + Flatten(chunks[1..]) == w.data[..w.position] + flat;
    }
  }

  /** A fixed writer without room enough fails for that reason, has written a
      prefix of the output and touched nothing past it. */
  lemma {:induction false} FixedShort(w: WriterState, chunks: seq<bytes>)
    requires w.fixed && w.status.Good? && |w.data| <= SIZE_MAX && w.position <= |w.data|
    requires |w.data| < w.position + |Flatten(chunks)| <= SIZE_MAX
    ensures var r := PutAll(w, chunks);
      && r.status.NoSpace? && |r.data| == |w.data| && w.position <= r.position <= |r.data|
      && r.data[r.position..] == w.data[r.position..]
      && r.data[..r.position] <= w.data[..w.position] + Flatten(chunks)
    decreases |chunks|
  {
    var next := Put(w, chunks[0]);
    if next.status.Good? {
      FixedShort(next, chunks[1..]);
      var r := PutAll(w, chunks);
      assert next.data[..next.position] == w.data[..w.position] + chunks[0];
      assert next.data[..next.position] + Flatten(chunks[1..]) == w.data[..w.position] + Flatten(chunks);
      assert next.data[r.position..] == w.data[r.position..];
    } else {
      PutAllSticky(next, chunks[1..]);
    }
  }

  /** Measure, allocate exactly that much, encode again: the second pass cannot
      run out of room and fills the buffer with the whole output. */
  lemma TwoPass(chunks: seq<bytes>, buffer: bytes)
    requires PutAll(MEASURE, chunks).status.Good?
    requires |buffer| == PutAll(MEASURE, chunks).position
    ensures PutAll(Fixed(buffer), chunks) == WriterState(true, Flatten(chunks), |buffer|, Good)
  {
    MeasureExact(MEASURE, chunks);
    FixedExact(Fixed(buffer), chunks);
    assert buffer[..0] + Flatten(chunks) + buffer[|buffer|..] == Flatten(chunks);
  }

  // ---- writing, in place ----

  method CopyInto(target: array<byte>, from: nat, source: bytes)
    requires from + |source| <= target.Length
    modifies target
    ensures target[..] == old(target[..])[..from] + source + old(target[..])[from + |source|..]
  {
    forall i | from <= i < from + |source| {
      target[i] := source[i - from];
    }
  }

  class Writer {
    var data: array?<byte>
    var capacity: nat
    var position: nat
    var fixed: bool
    var status: Status

    ghost predicate Valid()
      reads this
    {
      && position <= SIZE_MAX
      && (fixed && status.Good? ==> position <= capacity)
      && (capacity > 0 && status.Good? ==> data != null)
      && (data != null ==> capacity <= data.Length)
    }

    ghost function View(): (w: WriterState)
      requires Valid()
      reads this, data
    {
      WriterState(fixed, if fixed && data != null then data[..capacity] else [], position, status)
    }

    constructor InitMeasure()
      ensures Valid() && View() == MEASURE && data == null
    {
      data, capacity, position, fixed, status := null, 0, 0, false, Good;
    }

    constructor InitFixed(destination: array?<byte>, size: nat)
      requires destination != null ==> size <= destination.Length
      ensures Valid() && data == destination
      ensures destination != null ==> View() == Fixed(destination[..size])
      ensures destination == null ==> View() == Fixed([]).(status := if size > 0 then Invalid else Good)
    {
      data, capacity, position, fixed := destination, size, 0, true;
      status := if size > 0 && destination == null then Invalid else Good;
    }

    /** The copy of a fixed writer that has room; nothing is copied for nothing. */
    method Copy(source: bytes)
      requires Valid() && fixed && status.Good? && position + |source| <= capacity && position + |source| <= SIZE_MAX
      modifies this`position, data
      ensures Valid() && View() == Put(old(View()), source)
    {
      ghost var before := View();
      if |source| > 0 {
        CopyInto(data, position, source);
        ghost var next := position + |source|;
        assert data[..capacity] == old(data[..capacity])[..position] + source + old(data[..capacity])[next..];
      } else {
        assert before.data == before.data[..position] + source + before.data[position..];
      }
      position := position + |source|;
    }

    /** `ducknng_qk_write_bytes`. */
    method WriteBytes(slice: Slice) returns (rc: int)
      requires Valid()
      modifies this, data
      ensures Valid() && data == old(data)
      ensures View() == PutSlice(old(View()), slice)
      ensures rc == if status.Good? then 0 else -1
    {
      if !status.Good? { return -1; }
      if slice.Len() > 0 && slice.Missing? {
        status := Invalid;
        return -1;
      }
      var source := if slice.Present? then slice.data else [];
      if position + |source| > SIZE_MAX {
        status := Overflow;
        return -1;
      }
      if fixed {
        if position + |source| > capacity {
          status := NoSpace;
          return -1;
        }
        Copy(source);
      } else {
        position := position + |source|;
      }
      return 0;
    }

    method WriteU8(value: byte) returns (rc: int)
      requires Valid()
      modifies this, data
      ensures Valid() && data == old(data)
      ensures View() == Put(old(View()), [value])
      ensures rc == if status.Good? then 0 else -1
    {
      rc := WriteBytes(Present([value]));
    }

    /** `ducknng_qk_write_uleb128`: one byte at a time, so a full buffer keeps
        the bytes that fitted. */
    method WriteUleb128(value: uint64) returns (rc: int)
      requires Valid()
      modifies this, data
      ensures Valid() && data == old(data)
      ensures View() == PutAll(old(View()), Singles(Uleb(value)))
      ensures rc == if status.Good? then 0 else -1
    {
      var v: nat := value;
      while true
        invariant Valid() && data == old(data)
        invariant PutAll(View(), Singles(Uleb(v))) == PutAll(old(View()), Singles(Uleb(value)))
        decreases v
      {
        ghost var before, all := View(), Singles(Uleb(v));
        var low: byte := v % 128;
        if v / 128 != 0 {
          low := low + 128;
        }
        assert all == [[low]] + if v < 128 then [] else Singles(Uleb(v / 128));
        v := v / 128;
        rc := WriteU8(low);
        if rc != 0 {
          PutAllSticky(View(), all[1..]);
          return -1;
        }
        if v == 0 {
          assert PutAll(before, all) == View();
          return 0;
        }
      }
    }

    /** `ducknng_qk_write_sleb128`. */
    method WriteSleb128(value: int64) returns (rc: int)
      requires Valid()
      modifies this, data
      ensures Valid() && data == old(data)
      ensures View() == PutAll(old(View()), Singles(Sleb(value)))
      ensures rc == if status.Good? then 0 else -1
    {
      var v: int := value;
      while true
        invariant Valid() && data == old(data)
        invariant PutAll(View(), Singles(Sleb(v))) == PutAll(old(View()), Singles(Sleb(value)))
        decreases if v < 0 then -v else v, if LastGroup(v) then 0 else 1
      {
        ghost var before, all := View(), Singles(Sleb(v));
        var next := FloorStep(v);
        var low: byte := v - next * 128;
        var sign := low >= 64;
        var more := !((next == 0 && !sign) || (next == -1 && sign));
        assert more == !LastGroup(v);
        if more {
          low := low + 128;
        }
        assert all == [[low]] + if more then Singles(Sleb(next)) else [];
        rc := WriteU8(low);
        if rc != 0 {
          PutAllSticky(View(), all[1..]);
          return -1;
        }
        if !more {
          assert PutAll(before, all) == View();
          return 0;
        }
        v := next;
      }
    }

    /** `ducknng_qk_write_counted`. */
    method WriteCounted(source: Slice) returns (rc: int)
      requires Valid() && source.Len() <= SIZE_MAX
      modifies this, data
      ensures Valid() && data == old(data)
      ensures View() == PutSlice(PutAll(old(View()), Singles(Uleb(source.Len()))), source)
      ensures rc == if status.Good? then 0 else -1
    {
      rc := WriteUleb128(source.Len());
      if rc != 0 { return -1; }
      rc := WriteBytes(source);
    }
  }

  // ---- reading, as values ----

  function ReadU8(s: bytes): (p: Parsed<byte>)
    ensures p.Got? ==> Consumes(s, p.rest)
  {
    if s == [] then Bad(Truncated) else Got(s[0], s[1..])
  }

  function ReadBoolean(s: bytes): (p: Parsed<bool>)
    ensures p.Got? ==> Consumes(s, p.rest)
  {
    if s == [] then Bad(Truncated) else if s[0] > 1 then Bad(Invalid) else Got(s[0] == 1, s[1..])
  }

  function U16(v: nat): bytes
    requires v < 0x1_0000
  {
    [v % 256, v / 256]
  }

  function ReadU16(s: bytes): (p: Parsed<nat>)
    ensures p.Got? ==> Consumes(s, p.rest) && p.value < 0x1_0000
  {
    if |s| < 2 then Bad(Truncated) else Got(s[0] + 256 * (s[1] as int), s[2..])
  }

  function Counted(source: bytes): bytes {
    Uleb(|source|) + source
  }

  function ReadCounted(s: bytes): (p: Parsed<bytes>)
    ensures p.Got? ==> Consumes(s, p.rest)
  {
    var (length, body) :- ReadUleb(s);
    if length > SIZE_MAX then Bad(Overflow)
    else if length > |body| then Bad(Truncated)
    else Got(body[..length], body[length..])
  }

  lemma U16RoundTrip(v: nat, rest: bytes)
    requires v < 0x1_0000
    ensures ReadU16(U16(v) + rest) == Got(v, rest)
  {
    assert (U16(v) + rest)[2..] == rest;
  }

  lemma CountedRoundTrip(source: bytes, rest: bytes)
    requires |source| <= SIZE_MAX
    ensures ReadCounted(Counted(source) + rest) == Got(source, rest)
  {
    assert Counted(source) + rest == Uleb(|source|) + (source + rest);
    UlebRoundTrip(|source|, source + rest);
    assert (source + rest)[..|source|] == source && (source + rest)[|source|..] == rest;
  }

  // ---- reading, in place ----

  class Reader {
    const data: bytes
    var off: nat
    var status: Status

    ghost predicate Valid()
      reads this
    {
      off <= |data|
    }

    ghost function Unread(): bytes
      requires Valid()
      reads this
    {
      data[off..]
    }

    constructor (source: Slice)
      ensures Valid() && off == 0
      ensures source.Present? ==> data == source.data && status.Good?
      ensures source.Missing? ==> data == [] && status == if source.Len() > 0 then Invalid else Good
    {
      data := if source.Present? then source.data else [];
      off, status := 0, if source.Len() > 0 && source.Missing? then Invalid else Good;
    }

    /** The state a read that yields `p` leaves behind. */
    ghost predicate After<T>(p: Parsed<T>, rc: int)
      requires Valid()
      reads this
    {
      match p
      case Got(_, rest) => rc == 0 && Unread() == rest && status.Good?
      case Bad(s) => rc == -1 && status == s
    }

    /** `ducknng_qk_reader_need`. */
    method Need(size: nat) returns (rc: int)
      requires Valid()
      modifies this`status
      ensures Valid() && (rc == 0 || rc == -1)
      ensures rc == 0 <==> old(status).Good? && size <= |Unread()|
      ensures status == if old(status).Good? && rc != 0 then Truncated else old(status)
    {
      if !status.Good? { return -1; }
      if size > |data| - off {
        status := Truncated;
        return -1;
      }
      return 0;
    }

    method NextU8() returns (rc: int, out: byte)
      requires Valid()
      modifies this
      ensures Valid()
      ensures !old(status).Good? ==> rc == -1 && status == old(status) && off == old(off)
      ensures old(status).Good? ==> After(ReadU8(old(Unread())), rc)
      ensures rc == 0 ==> old(Unread()) == [out] + Unread()
    {
      out := 0;
      rc := Need(1);
      if rc != 0 { return; }
      out := data[off];
      off := off + 1;
    }

    method NextBoolean() returns (rc: int, out: bool)
      requires Valid()
      modifies this
      ensures Valid()
      ensures !old(status).Good? ==> rc == -1 && status == old(status) && off == old(off)
      ensures old(status).Good? ==> After(ReadBoolean(old(Unread())), rc)
      ensures rc == 0 ==> ReadBoolean(old(Unread())).value == out
    {
      var value: byte;
      out := false;
      rc, value := NextU8();
      if rc != 0 { return; }
      if value > 1 {
        status := Invalid;
        return -1, false;
      }
      out := value == 1;
    }

    method NextU16le() returns (rc: int, out: nat)
      requires Valid()
      modifies this
      ensures Valid()
      ensures !old(status).Good? ==> rc == -1 && status == old(status) && off == old(off)
      ensures old(status).Good? ==> After(ReadU16(old(Unread())), rc)
      ensures rc == 0 ==> ReadU16(old(Unread())).value == out
    {
      out := 0;
      rc := Need(2);
      if rc != 0 { return; }
      out := data[off] + 256 * (data[off + 1] as int);
      off := off + 2;
    }

    /** `ducknng_qk_read_uleb128`. */
    method NextUleb128() returns (rc: int, out: nat)
      requires Valid()
      modifies this
      ensures Valid()
      ensures !old(status).Good? ==> rc == -1 && status == old(status) && off == old(off)
      ensures old(status).Good? ==> After(ReadUleb(old(Unread())), rc)
      ensures rc == 0 ==> ReadUleb(old(Unread())).value == out
    {
      out := 0;
      var value: nat, shift := 0, 0;
      while true
        invariant Valid()
        invariant !old(status).Good? ==> status == old(status) && off == old(off) && shift == 0
        invariant old(status).Good? ==>
          status.Good? && ReadUlebFrom(Unread(), shift, value) == ReadUleb(old(Unread()))
        decreases |data| - off, 64 - shift
      {
        if shift >= 64 {
          status := Overflow;
          return -1, 0;
        }
        var low: byte;
        rc, low := NextU8();
        if rc != 0 { return; }
        if shift == 63 && low % 128 >= 2 {
          status := Overflow;
          return -1, 0;
        }
        value := value + Shl(low % 128, shift);
        if low < 128 {
          return 0, value;
        }
        shift := shift + 7;
      }
    }

    /** `ducknng_qk_read_sleb128`. */
    method NextSleb128() returns (rc: int, out: int)
      requires Valid()
      modifies this
      ensures Valid()
      ensures !old(status).Good? ==> rc == -1 && status == old(status) && off == old(off)
      ensures old(status).Good? ==> After(ReadSleb(old(Unread())), rc)
      ensures rc == 0 ==> ReadSleb(old(Unread())).value == out
    {
      hide Shl, Pow2, Signed64;
      out := 0;
      var bits: int, shift := 0, 0;
      while true
        invariant Valid()
        invariant !old(status).Good? ==> status == old(status) && off == old(off) && shift == 0
        invariant old(status).Good? ==>
          status.Good? && ReadSlebFrom(Unread(), shift, bits) == ReadSleb(old(Unread()))
        decreases |data| - off, 64 - shift
      {
        if shift >= 64 {
          status := Overflow;
          return -1, 0;
        }
        var low: byte;
        rc, low := NextU8();
        if rc != 0 { return; }
        if shift == 63 && low % 128 != 0 && low % 128 != 127 {
          status := Overflow;
          return -1, 0;
        }
        bits := bits + Shl(low % 128, shift) % TWO_64;
        if low < 128 {
          if shift < 63 && low % 128 >= 64 {
            bits := bits + (TWO_64 - Pow2(shift + 7));
          }
          return 0, Signed64(bits);
        }
        shift := shift + 7;
      }
    }

    /** `ducknng_qk_read_counted`: a view of the counted bytes. */
    method NextCounted() returns (rc: int, out: bytes)
      requires Valid()
      modifies this
      ensures Valid()
      ensures !old(status).Good? ==> rc == -1 && status == old(status) && off == old(off)
      ensures old(status).Good? ==> After(ReadCounted(old(Unread())), rc)
      ensures rc == 0 ==> ReadCounted(old(Unread())).value == out
    {
      hide ReadUleb, ReadUlebFrom;
      var length: nat;
      out := [];
      rc, length := NextUleb128();
      if rc != 0 { return; }
      if length > SIZE_MAX {
        status := Overflow;
        return -1, [];
      }
      rc := Need(length);
      if rc != 0 { return; }
      out := data[off..off + length];
      off := off + length;
    }
  }
}
