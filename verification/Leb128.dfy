/** The variable-length integers of the Quack byte kernel
    (src/ducknng_quack_core.c), as values: what the writers emit and what the
    readers accept. A reader takes the unread bytes and returns what is left. */
module Leb128 {
  import opened Widths

  type byte = x: int | 0 <= x < 256
  type bytes = seq<byte>

  type uint64 = x: int | 0 <= x < TWO_64
  type int64 = x: int | -TWO_63 <= x < TWO_63

  /** The sticky error kinds of a reader or a writer. */
  datatype Status = Good | Invalid | Overflow | NoSpace | Truncated

  /** What one read delivers: a value and the unread rest, or an error. */
  datatype Parsed<+T> = Got(value: T, rest: bytes) | Bad(status: Status) {
    predicate IsFailure() {
      Bad?
    }

    function PropagateFailure<U>(): Parsed<U>
      requires Bad?
    {
      Bad(status)
    }

    function Extract(): (T, bytes)
      requires Got?
    {
      (value, rest)
    }
  }

  /** `rest` is what is left of `s` after at least one byte was read. */
  predicate Consumes(s: bytes, rest: bytes) {
    |rest| < |s| && s[|s| - |rest|..] == rest
  }

  /** The bytes a read consumed. */
  function Used(s: bytes, rest: bytes): bytes
    requires Consumes(s, rest)
  {
    s[..|s| - |rest|]
  }

  /** `x << n` on unbounded integers. */
  function Shl(x: int, n: nat): (r: int)
    ensures x >= 0 ==> r >= x
  {
    if n == 0 then x else 2 * Shl(x, n - 1)
  }

  /** `1 << n`. */
  function Pow2(n: nat): (p: int) {
    Shl(1, n)
  }

  lemma {:induction false} ShlAdd(a: int, b: int, n: nat)
    ensures Shl(a + b, n) == Shl(a, n) + Shl(b, n)
  {
    if n > 0 {
      ShlAdd(a, b, n - 1);
    }
  }

  lemma {:induction false} ShlMonotone(a: int, b: int, n: nat)
    requires a <= b
    ensures Shl(a, n) <= Shl(b, n)
    ensures Shl(0, n) == 0
  {
    if n > 0 {
      ShlMonotone(a, b, n - 1);
    }
  }

  /** Shifting by seven more bits moves one group up. */
  lemma {:induction false} ShlSeven(a: int, n: nat)
    ensures Shl(a, n + 7) == 128 * Shl(a, n) == Shl(128 * a, n)
  {
    if n == 0 {
      assert Shl(a, 7) == 2 * Shl(a, 6) == 4 * Shl(a, 5) == 8 * Shl(a, 4);
      assert Shl(a, 4) == 2 * Shl(a, 3) == 4 * Shl(a, 2) == 8 * Shl(a, 1);
    } else {
      ShlSeven(a, n - 1);
    }
  }

  lemma {:induction false} ShlShl(a: int, m: nat, n: nat)
    ensures Shl(Shl(a, m), n) == Shl(a, m + n)
  {
    if n > 0 {
      ShlShl(a, m, n - 1);
    }
  }

  /** A group and the groups above it, shifted together. */
  lemma GroupsJoin(d: int, w: int, shift: nat)
    ensures Shl(d, shift) + Shl(w, shift + 7) == Shl(d + 128 * w, shift)
  {
    ShlSeven(w, shift);
    ShlAdd(d, 128 * w, shift);
  }

  lemma Pow2Values()
    ensures Pow2(0) == 1 && Pow2(1) == 2 && Pow2(63) == TWO_63 && Pow2(64) == TWO_64
  {
    ShlSeven(1, 0);
    ShlSeven(1, 7);
    ShlSeven(1, 14);
    ShlSeven(1, 21);
    ShlSeven(1, 28);
    ShlSeven(1, 35);
    ShlSeven(1, 42);
    ShlSeven(1, 49);
    ShlSeven(1, 56);
  }

  // ---- unsigned ----

  /** The bytes `ducknng_qk_write_uleb128` emits: seven bits at a time, low bits
      first, the top bit of a byte announcing another one. */
  function Uleb(v: nat): (s: bytes)
    ensures s != []
  {
    if v < 128 then [v] else [128 + v % 128] + Uleb(v / 128)
  }

  /** `ducknng_qk_read_uleb128` with `shift` bits of the value in `acc`. */
  function ReadUlebFrom(s: bytes, shift: nat, acc: nat): (p: Parsed<nat>)
    decreases |s|
  {
    if shift >= 64 then Bad(Overflow)
    else if s == [] then Bad(Truncated)
    else if shift == 63 && s[0] % 128 >= 2 then Bad(Overflow)
    else
      var acc' := acc + Shl(s[0] % 128, shift);
      if s[0] < 128 then Got(acc', s[1..]) else ReadUlebFrom(s[1..], shift + 7, acc')
  }

  function ReadUleb(s: bytes): (p: Parsed<nat>)
    ensures p.Got? ==> Consumes(s, p.rest)
  {
    UlebConsumes(s, 0, 0);
    ReadUlebFrom(s, 0, 0)
  }

  lemma {:induction false} UlebConsumes(s: bytes, shift: nat, acc: nat)
    ensures var p := ReadUlebFrom(s, shift, acc); p.Got? ==> Consumes(s, p.rest)
    decreases |s|
  {
    if s != [] && s[0] >= 128 {
      UlebConsumes(s[1..], shift + 7, acc + Shl(s[0] % 128, shift));
    }
  }

  /** A value that still fits after seven bits are taken off. */
  lemma TakeSevenBits(v: nat, shift: nat)
    requires shift % 7 == 0 && shift <= 63 && 128 <= v < Pow2(64 - shift)
    ensures shift + 7 <= 63 && v / 128 < Pow2(64 - (shift + 7))
  {
    Pow2Values();
    if shift < 57 {
      ShlSeven(1, 57 - shift);
    }
  }

  lemma {:induction false} UlebRoundTripFrom(v: nat, shift: nat, acc: nat, rest: bytes)
    requires shift % 7 == 0 && shift <= 63 && v < Pow2(64 - shift)
    ensures ReadUlebFrom(Uleb(v) + rest, shift, acc) == Got(acc + Shl(v, shift), rest)
    decreases v
  {
    hide Shl, Pow2;
    if v < 128 {
      UlebLast(v, shift, acc, rest);
    } else {
      TakeSevenBits(v, shift);
      assert Uleb(v) + rest == [128 + v % 128] + (Uleb(v / 128) + rest);
      UlebMore(v % 128, shift, acc, Uleb(v / 128) + rest);
      UlebRoundTripFrom(v / 128, shift + 7, acc + Shl(v % 128, shift), rest);
      GroupsJoin(v % 128, v / 128, shift);
    }
  }

  lemma UlebLast(d: nat, shift: nat, acc: nat, rest: bytes)
    requires d < 128 && shift <= 63 && d < Pow2(64 - shift)
    ensures ReadUlebFrom([d] + rest, shift, acc) == Got(acc + Shl(d, shift), rest)
  {
    assert ([d] + rest)[1..] == rest;
    if shift == 63 { Pow2Values(); }
  }

  lemma UlebMore(d: nat, shift: nat, acc: nat, tail: bytes)
    requires d < 128 && shift < 63
    ensures ReadUlebFrom([128 + d] + tail, shift, acc) == ReadUlebFrom(tail, shift + 7, acc + Shl(d, shift))
  {
    assert ([128 + d] + tail)[1..] == tail;
  }

  /** Reading what was written recovers every 64-bit value and leaves the bytes
      that follow untouched. */
  lemma UlebRoundTrip(v: uint64, rest: bytes)
    ensures ReadUleb(Uleb(v) + rest) == Got(v, rest)
  {
    Pow2Values();
    UlebRoundTripFrom(v, 0, 0, rest);
  }

  lemma {:induction false} UlebCutFrom(v: nat, shift: nat, acc: nat, cut: nat)
    requires shift % 7 == 0 && shift <= 63 && v < Pow2(64 - shift) && cut < |Uleb(v)|
    ensures ReadUlebFrom(Uleb(v)[..cut], shift, acc) == Bad(Truncated)
    decreases v
  {
    hide Shl, Pow2;
    if cut > 0 {
      TakeSevenBits(v, shift);
      assert Uleb(v)[..cut] == [128 + v % 128] + Uleb(v / 128)[..cut - 1];
      UlebMore(v % 128, shift, acc, Uleb(v / 128)[..cut - 1]);
      UlebCutFrom(v / 128, shift + 7, acc + Shl(v % 128, shift), cut - 1);
    }
  }

  /** Cutting an encoding anywhere is detected as truncation. */
  lemma UlebCut(v: uint64, cut: nat)
    requires cut < |Uleb(v)|
    ensures ReadUleb(Uleb(v)[..cut]) == Bad(Truncated)
  {
    Pow2Values();
    UlebCutFrom(v, 0, 0, cut);
  }

  /** The value a run of groups stands for. */
  function Groups(used: bytes): (w: nat) {
    if used == [] then 0 else used[0] % 128 + 128 * Groups(used[1..])
  }

  lemma {:induction false} UlebAcceptedFrom(s: bytes, shift: nat, acc: nat) returns (used: bytes)
    requires shift % 7 == 0
    requires ReadUlebFrom(s, shift, acc).Got?
    ensures s == used + ReadUlebFrom(s, shift, acc).rest && used != []
    ensures shift <= 63 && 7 * |used| + shift <= 70
    ensures Groups(used) < Pow2(64 - shift)
    ensures ReadUlebFrom(s, shift, acc).value == acc + Shl(Groups(used), shift)
    decreases |s|
  {
    hide Shl, Pow2, Groups;
    var d, tail := s[0] % 128, s[1..];
    assert s == [s[0]] + tail;
    if s[0] < 128 {
      used := [s[0]];
      UlebAcceptedLast(s[0], shift);
    } else {
      UlebMore(d, shift, acc, tail);
      var used' := UlebAcceptedFrom(tail, shift + 7, acc + Shl(d, shift));
      used := [s[0]] + used';
      GroupsCons(s[0], used', shift);
    }
  }

  lemma GroupsCons(b: byte, used: bytes, shift: nat)
    ensures Groups([b] + used) == b % 128 + 128 * Groups(used)
    ensures Shl(b % 128, shift) + Shl(Groups(used), shift + 7) == Shl(Groups([b] + used), shift)
    ensures shift <= 57 && Groups(used) < Pow2(57 - shift) ==> Groups([b] + used) < Pow2(64 - shift)
  {
    assert ([b] + used)[1..] == used;
    GroupsJoin(b % 128, Groups(used), shift);
    if shift <= 57 { ShlSeven(1, 57 - shift); }
  }

  /** Groups as both writers lay them out: every byte but the last announces another. */
  predicate Continued(used: bytes) {
    used != [] && used[|used| - 1] < 128 && forall i :: 0 <= i < |used| - 1 ==> used[i] >= 128
  }

  lemma {:induction false} UlebShape(s: bytes, shift: nat, acc: nat, used: bytes)
    requires ReadUlebFrom(s, shift, acc).Got? && s == used + ReadUlebFrom(s, shift, acc).rest
    ensures Continued(used)
    decreases |s|
  {
    if s[0] >= 128 {
      UlebConsumes(s[1..], shift + 7, acc + Shl(s[0] % 128, shift));
      assert s[1..] == used[1..] + ReadUlebFrom(s, shift, acc).rest;
      UlebShape(s[1..], shift + 7, acc + Shl(s[0] % 128, shift), used[1..]);
    }
  }

  lemma UlebAcceptedLast(b: byte, shift: nat)
    requires b < 128 && shift % 7 == 0 && shift <= 63 && (shift == 63 ==> b < 2)
    ensures Groups([b]) == b < Pow2(64 - shift)
  {
    if shift != 63 { ShlSeven(1, 57 - shift); } else { Pow2Values(); }
  }

  /** Groups are the writer's own bytes for the number they stand for exactly
      when the last one adds something or is the only one. */
  lemma {:induction false} GroupsCanonical(used: bytes)
    requires Continued(used)
    ensures used == Uleb(Groups(used)) <==> |used| == 1 || used[|used| - 1] != 0
    ensures Groups(used) == 0 ==> used[|used| - 1] == 0
  {
    hide Uleb, Groups;
    if |used| == 1 {
      GroupOfOne(used[0]);
      assert used == [used[0]];
    } else {
      var tail := used[1..];
      assert used == [used[0]] + tail && tail[|tail| - 1] == used[|used| - 1];
      GroupsCanonical(tail);
      GroupsStep(used[0], tail);
      UlebStep(used[0], Groups(tail), tail);
      if |tail| == 1 {
        GroupOfOne(tail[0]);
        assert tail == [tail[0]];
      }
    }
  }

  lemma GroupOfOne(b: byte)
    requires b < 128
    ensures Groups([b]) == b && Uleb(b) == [b]
  {
    assert [b][1..] == [];
  }

  lemma GroupsStep(b: byte, used: bytes)
    ensures Groups([b] + used) == b % 128 + 128 * Groups(used)
  {
    assert ([b] + used)[1..] == used;
  }

  /** A continued group in front of an encoding. */
  lemma UlebStep(b: byte, w: nat, used: bytes)
    requires b >= 128 && used != []
    ensures [b] + used == Uleb(b % 128 + 128 * w) <==> w != 0 && used == Uleb(w)
  {
    var v := b % 128 + 128 * w;
    assert v / 128 == w && v % 128 == b % 128;
    assert ([b] + used)[1..] == used;
    if w != 0 {
      assert Uleb(v) == [b] + Uleb(w);
      assert Uleb(v)[1..] == Uleb(w);
    }
  }

  /** The reader also accepts padded encodings. Whatever it accepts is a 64-bit
      value in at most ten bytes, and those bytes are the writer's own exactly
      when they do not end in a zero group that adds nothing. */
  lemma UlebAccepted(s: bytes)
    requires ReadUleb(s).Got?
    ensures ReadUleb(s).value < TWO_64
    ensures var used := Used(s, ReadUleb(s).rest);
      && |used| <= 10
      && (used == Uleb(ReadUleb(s).value) <==> |used| == 1 || used[|used| - 1] != 0)
  {
    var used := UlebAcceptedFrom(s, 0, 0);
    UlebShape(s, 0, 0, used);
    GroupsCanonical(used);
    Pow2Values();
    assert used == Used(s, ReadUleb(s).rest);
  }

  // ---- signed ----

  /** C division, truncating toward zero. */
  function TruncatedQuotient(x: int, y: int): int
    requires y > 0
  {
    if x >= 0 then x / y else -(-x / y)
  }

  /** The quotient step of `ducknng_qk_write_sleb128`: a truncated quotient
      corrected by one, which is the floor. */
  function FloorStep(v: int): (q: int)
    ensures q == v / 128
  {
    var next := TruncatedQuotient(v, 128);
    if v < 0 && v - 128 * next != 0 then next - 1 else next
  }

  predicate LastGroup(v: int) {
    (v / 128 == 0 && v % 128 < 64) || (v / 128 == -1 && v % 128 >= 64)
  }

  /** The bytes `ducknng_qk_write_sleb128` emits. */
  function Sleb(v: int): (s: bytes)
    ensures s != []
    decreases if v < 0 then -v else v
  {
    if LastGroup(v) then [v % 128] else [128 + v % 128] + Sleb(v / 128)
  }

  /** 64 bits read as a two's-complement number. */
  function Signed64(bits: int): int {
    if bits < TWO_63 then bits else bits - TWO_64
  }

  /** `ducknng_qk_read_sleb128` with `shift` bits collected in `bits`. The two
      `|=` of the source meet only clear bits, so they are sums. */
  function ReadSlebFrom(s: bytes, shift: nat, bits: int): (p: Parsed<int>)
    decreases |s|
  {
    if shift >= 64 then Bad(Overflow)
    else if s == [] then Bad(Truncated)
    else if shift == 63 && s[0] % 128 != 0 && s[0] % 128 != 127 then Bad(Overflow)
    else
      var bits' := bits + Shl(s[0] % 128, shift) % TWO_64;
      if s[0] < 128 then
        Got(Signed64(if shift < 63 && s[0] % 128 >= 64 then bits' + (TWO_64 - Pow2(shift + 7)) else bits'), s[1..])
      else ReadSlebFrom(s[1..], shift + 7, bits')
  }

  function ReadSleb(s: bytes): (p: Parsed<int>)
    ensures p.Got? ==> Consumes(s, p.rest)
  {
    SlebConsumes(s, 0, 0);
    ReadSlebFrom(s, 0, 0)
  }

  lemma {:induction false} SlebConsumes(s: bytes, shift: nat, bits: int)
    ensures var p := ReadSlebFrom(s, shift, bits); p.Got? ==> Consumes(s, p.rest)
    decreases |s|
  {
    if s != [] && s[0] >= 128 {
      SlebConsumes(s[1..], shift + 7, bits + Shl(s[0] % 128, shift) % TWO_64);
    }
  }

  /** A group below the last bit position keeps all its seven bits, and stays
      above the bits already collected. */
  lemma GroupFits(d: nat, shift: nat)
    requires d < 128 && shift % 7 == 0 && shift < 63
    ensures 0 <= Shl(d, shift) < TWO_63
    ensures Shl(d, shift) + Pow2(shift) <= Pow2(shift + 7) <= TWO_63
  {
    ShlMonotone(0, d, shift);
    ShlMonotone(d + 1, 128, shift);
    ShlAdd(d, 1, shift);
    ShlSeven(1, shift);
    ShlMonotone(1, Pow2(56 - shift), shift + 7);
    ShlShl(1, 56 - shift, shift + 7);
    Pow2Values();
  }

  lemma SlebMore(d: nat, shift: nat, bits: nat, tail: bytes)
    requires d < 128 && shift % 7 == 0 && shift < 63
    ensures ReadSlebFrom([128 + d] + tail, shift, bits) == ReadSlebFrom(tail, shift + 7, bits + Shl(d, shift))
  {
    GroupFits(d, shift);
    assert ([128 + d] + tail)[1..] == tail;
  }

  /** The last group of an encoding: the sign bits above it come out set or
      clear as the value needs. */
  lemma SlebLast(v: int, shift: nat, bits: nat, rest: bytes)
    requires shift % 7 == 0 && shift <= 63 && bits < Pow2(shift)
    requires -Pow2(63 - shift) <= v < Pow2(63 - shift) && LastGroup(v)
    ensures ReadSlebFrom([v % 128] + rest, shift, bits) == Got(bits + Shl(v, shift), rest)
  {
    if shift < 63 {
      SlebLastBelow63(v, shift, bits, rest);
    } else {
      SlebLastAt63(v, bits, rest);
    }
  }

  lemma SlebLastBelow63(v: int, shift: nat, bits: nat, rest: bytes)
    requires shift % 7 == 0 && shift < 63 && bits < Pow2(shift)
    requires -Pow2(63 - shift) <= v < Pow2(63 - shift) && LastGroup(v)
    ensures ReadSlebFrom([v % 128] + rest, shift, bits) == Got(bits + Shl(v, shift), rest)
  {
    var d := v % 128;
    GroupFits(d, shift);
    SignedRange(v, shift);
    assert Shl(d, shift) == if v < 0 then Shl(v, shift) + Pow2(shift + 7) else Shl(v, shift) by {
      ShlAdd(v, 128, shift);
      ShlSeven(1, shift);
    }
    SlebLastUnfold(d, shift, bits, rest);
  }

  lemma SlebLastUnfold(d: nat, shift: nat, bits: nat, rest: bytes)
    requires d < 128 && shift < 63 && 0 <= Shl(d, shift) < TWO_63
    ensures ReadSlebFrom([d] + rest, shift, bits) ==
      Got(Signed64(bits + Shl(d, shift) + if d >= 64 then TWO_64 - Pow2(shift + 7) else 0), rest)
  {
    assert ([d] + rest)[1..] == rest && ([d] + rest)[0] == d;
  }

  lemma SlebLastAt63(v: int, bits: nat, rest: bytes)
    requires bits < Pow2(63) && -1 <= v < 1
    ensures ReadSlebFrom([v % 128] + rest, 63, bits) == Got(bits + Shl(v, 63), rest)
  {
    assert ([v % 128] + rest)[1..] == rest;
    Pow2Values();
    ShlAdd(-1, 1, 63);
    ShlAdd(-1, 128, 63);
    ShlSeven(1, 63);
    ShlMonotone(0, 0, 63);
    assert Shl(127, 63) == 127 * TWO_63;
  }

  /** A value of `63 - shift` bits and a sign, moved up by `shift` bits. */
  lemma SignedRange(v: int, shift: nat)
    requires shift <= 63 && -Pow2(63 - shift) <= v < Pow2(63 - shift)
    ensures -TWO_63 <= Shl(v, shift) && Shl(v, shift) + Pow2(shift) <= TWO_63
    ensures v >= 0 ==> Shl(v, shift) >= 0
    ensures v < 0 ==> Shl(v, shift) <= -Pow2(shift)
  {
    var h := Pow2(63 - shift);
    ShlShl(1, 63 - shift, shift);
    Pow2Values();
    ShlMonotone(v + 1, h, shift);
    ShlAdd(v, 1, shift);
    ShlMonotone(-h, v, shift);
    ShlAdd(-h, h, shift);
    ShlMonotone(0, 0, shift);
    if v >= 0 {
      ShlMonotone(0, v, shift);
    } else {
      ShlMonotone(v + 1, 0, shift);
    }
  }

  lemma SignedTakeSevenBits(v: int, shift: nat)
    requires shift % 7 == 0 && shift <= 63 && -Pow2(63 - shift) <= v < Pow2(63 - shift)
    requires !LastGroup(v)
    ensures shift + 7 <= 63
    ensures -Pow2(63 - (shift + 7)) <= v / 128 < Pow2(63 - (shift + 7))
  {
    if shift < 63 {
      ShlSeven(1, 56 - shift);
    } else {
      Pow2Values();
    }
  }

  lemma {:induction false} SlebRoundTripFrom(v: int, shift: nat, bits: nat, rest: bytes)
    requires shift % 7 == 0 && shift <= 63 && bits < Pow2(shift)
    requires -Pow2(63 - shift) <= v < Pow2(63 - shift)
    ensures ReadSlebFrom(Sleb(v) + rest, shift, bits) == Got(bits + Shl(v, shift), rest)
    decreases if v < 0 then -v else v
  {
    hide Shl, Pow2, ReadSlebFrom;
    if LastGroup(v) {
      SlebLast(v, shift, bits, rest);
    } else {
      var d, n := v % 128, v / 128;
      SignedTakeSevenBits(v, shift);
      GroupFits(d, shift);
      SlebStep(v, shift, bits, rest);
      SlebRoundTripFrom(n, shift + 7, bits + Shl(d, shift), rest);
      GroupsJoin(d, n, shift);
    }
  }

  lemma SlebStep(v: int, shift: nat, bits: nat, rest: bytes)
    requires !LastGroup(v) && shift % 7 == 0 && shift < 63
    ensures ReadSlebFrom(Sleb(v) + rest, shift, bits)
         == ReadSlebFrom(Sleb(v / 128) + rest, shift + 7, bits + Shl(v % 128, shift))
  {
    assert Sleb(v) + rest == [128 + v % 128] + (Sleb(v / 128) + rest);
    SlebMore(v % 128, shift, bits, Sleb(v / 128) + rest);
  }

  /** Reading what was written recovers every signed 64-bit value. */
  lemma SlebRoundTrip(v: int64, rest: bytes)
    ensures ReadSleb(Sleb(v) + rest) == Got(v, rest)
  {
    Pow2Values();
    SlebRoundTripFrom(v, 0, 0, rest);
  }

  lemma {:induction false} SlebCutFrom(v: int, shift: nat, bits: nat, cut: nat)
    requires shift % 7 == 0 && shift <= 63
    requires -Pow2(63 - shift) <= v < Pow2(63 - shift) && cut < |Sleb(v)|
    ensures ReadSlebFrom(Sleb(v)[..cut], shift, bits) == Bad(Truncated)
    decreases if v < 0 then -v else v
  {
    hide Shl, Pow2, LastGroup;
    if cut > 0 {
      var d := v % 128;
      SignedTakeSevenBits(v, shift);
      assert Sleb(v)[..cut] == [128 + d] + Sleb(v / 128)[..cut - 1];
      SlebMore(d, shift, bits, Sleb(v / 128)[..cut - 1]);
      GroupFits(d, shift);
      SlebCutFrom(v / 128, shift + 7, bits + Shl(d, shift), cut - 1);
    }
  }

  lemma SlebCut(v: int64, cut: nat)
    requires cut < |Sleb(v)|
    ensures ReadSleb(Sleb(v)[..cut]) == Bad(Truncated)
  {
    Pow2Values();
    SlebCutFrom(v, 0, 0, cut);
  }

  /** The number a run of groups stands for, the top bit of the last one its sign. */
  function SignedGroups(used: bytes): int {
    if used == [] then 0
    else if |used| == 1 then Signed7(used[0] % 128)
    else used[0] % 128 + 128 * SignedGroups(used[1..])
  }

  /** Seven bits read as a two's-complement number. */
  function Signed7(d: nat): int
    requires d < 128
  {
    if d >= 64 then d - 128 else d
  }

  lemma SignedGroupsCons(b: byte, used: bytes, shift: nat)
    requires used != []
    ensures SignedGroups([b] + used) == b % 128 + 128 * SignedGroups(used)
    ensures Shl(b % 128, shift) + Shl(SignedGroups(used), shift + 7) == Shl(SignedGroups([b] + used), shift)
    ensures shift <= 56 && -Pow2(56 - shift) <= SignedGroups(used) < Pow2(56 - shift)
      ==> -Pow2(63 - shift) <= SignedGroups([b] + used) < Pow2(63 - shift)
  {
    assert ([b] + used)[1..] == used;
    assert SignedGroups([b] + used) == b % 128 + 128 * SignedGroups(used);
    hide Shl, SignedGroups;
    GroupsJoin(b % 128, SignedGroups(used), shift);
    if shift <= 56 { ShlSeven(1, 56 - shift); }
  }

  lemma LastGroupRange(d: nat, shift: nat)
    requires d < 128 && shift % 7 == 0 && shift <= 63 && (shift == 63 ==> d == 0 || d == 127)
    ensures LastGroup(Signed7(d)) && Signed7(d) % 128 == d
    ensures -Pow2(63 - shift) <= Signed7(d) < Pow2(63 - shift)
  {
    if shift != 63 { ShlSeven(1, 56 - shift); }
  }

  lemma {:induction false} SlebAcceptedFrom(s: bytes, shift: nat, bits: nat) returns (used: bytes)
    requires shift % 7 == 0 && bits < Pow2(shift)
    requires ReadSlebFrom(s, shift, bits).Got?
    ensures s == used + ReadSlebFrom(s, shift, bits).rest && Continued(used)
    ensures shift <= 63 && 7 * |used| + shift <= 70
    ensures ReadSlebFrom(s, shift, bits).value == bits + Shl(SignedGroups(used), shift)
    ensures -Pow2(63 - shift) <= SignedGroups(used) < Pow2(63 - shift)
    decreases |s|
  {
    hide Shl, Pow2, LastGroup, Signed7, ReadSlebFrom;
    SlebHead(s, shift, bits);
    var d, tail := s[0] % 128, s[1..];
    assert s == [s[0]] + tail;
    if s[0] < 128 {
      used := [s[0]];
      LastGroupRange(d, shift);
      SlebLast(Signed7(d), shift, bits, tail);
    } else {
      SlebMore(d, shift, bits, tail);
      GroupFits(d, shift);
      var used' := SlebAcceptedFrom(tail, shift + 7, bits + Shl(d, shift));
      used := [s[0]] + used';
      SignedGroupsCons(s[0], used', shift);
    }
  }

  /** What acceptance says about the first byte: no tenth byte announces another. */
  lemma SlebHead(s: bytes, shift: nat, bits: int)
    requires shift % 7 == 0 && ReadSlebFrom(s, shift, bits).Got?
    ensures s != [] && shift <= 63 && (shift == 63 ==> s[0] == 0 || s[0] == 127)
  {
  }

  /** No last group that only repeats the sign of the one before it. */
  predicate Minimal(used: bytes)
    requires used != []
  {
    |used| == 1 || var before, last := used[|used| - 2] % 128, used[|used| - 1];
                   !(last == 0 && before < 64) && !(last == 127 && before >= 64)
  }

  lemma SlebOfSign(v: int)
    requires -1 <= v <= 0
    ensures Sleb(v) == [v % 128]
  {
  }

  /** A continued group in front of a signed encoding. */
  lemma SlebCons(b: byte, w: int, used: bytes)
    requires b >= 128 && used != []
    ensures [b] + used == Sleb(b % 128 + 128 * w) <==> !LastGroup(b % 128 + 128 * w) && used == Sleb(w)
  {
    var v := b % 128 + 128 * w;
    assert v / 128 == w && v % 128 == b % 128;
    if [b] + used == Sleb(v) {
      assert !LastGroup(v) by { assert |[b] + used| > 1; }
      assert ([b] + used)[1..] == Sleb(v)[1..];
    }
  }

  lemma LastGroupOf(d: nat, w: int)
    requires d < 128
    ensures LastGroup(d + 128 * w) <==> (w == 0 && d < 64) || (w == -1 && d >= 64)
  {
    assert (d + 128 * w) / 128 == w && (d + 128 * w) % 128 == d;
  }

  lemma OneGroup(b: byte)
    requires b < 128
    ensures SignedGroups([b]) == Signed7(b) && [b] == Sleb(Signed7(b)) && Minimal([b])
  {
    LastGroupRange(b, 0);
  }

  lemma SplitFirst(used: bytes)
    requires Continued(used) && |used| > 1
    ensures used == [used[0]] + used[1..] && used[0] >= 128 && Continued(used[1..])
    ensures SignedGroups(used) == used[0] % 128 + 128 * SignedGroups(used[1..])
  {
  }

  lemma {:induction false} SignedGroupsCanonical(used: bytes)
    requires Continued(used)
    ensures used == Sleb(SignedGroups(used)) <==> Minimal(used)
  {
    hide Sleb, Minimal, SignedGroups;
    if |used| == 1 {
      assert used == [used[0]];
      OneGroup(used[0]);
    } else {
      SplitFirst(used);
      SignedGroupsCanonical(used[1..]);
      AnotherGroup(used[0], used[1..], SignedGroups(used[1..]));
    }
  }

  lemma AnotherGroup(b: byte, tail: bytes, w: int)
    requires b >= 128 && Continued(tail) && w == SignedGroups(tail) && (tail == Sleb(w) <==> Minimal(tail))
    ensures [b] + tail == Sleb(b % 128 + 128 * w) <==> Minimal([b] + tail)
  {
    hide Sleb, LastGroup;
    SlebCons(b, w, tail);
    LastGroupOf(b % 128, w);
    assert ([b] + tail)[|tail|] == tail[|tail| - 1];
    if |tail| == 1 {
      assert ([b] + tail)[0] == b;
    } else {
      assert ([b] + tail)[|tail| - 1] == tail[|tail| - 2];
      if -1 <= w <= 0 { SlebOfSign(w); }
    }
  }

  /** Whatever bytes the signed reader accepts, it delivers a 64-bit number from at most
      ten bytes, and those bytes are the writer's own exactly when their last group does
      more than repeat a sign. */
  lemma SlebAccepted(s: bytes)
    requires ReadSleb(s).Got?
    ensures -TWO_63 <= ReadSleb(s).value < TWO_63
    ensures var used := Used(s, ReadSleb(s).rest);
      && used != [] && |used| <= 10
      && (used == Sleb(ReadSleb(s).value) <==> Minimal(used))
  {
    hide ReadSlebFrom, SignedGroups;
    Pow2Values();
    var used := SlebAcceptedFrom(s, 0, 0);
    SignedGroupsCanonical(used);
    assert used == Used(s, ReadSleb(s).rest);
    assert Shl(SignedGroups(used), 0) == SignedGroups(used);
  }
}
