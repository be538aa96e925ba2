/** The 128-bit multiply builtin of the Emscripten side module
    (src/ducknng_wasm_builtins.c): a 64x64->128 multiply assembled from 32-bit
    halves, and the wrapping 128x128 multiply built on it.

    A limb is a natural number below 2^64. `x & lower_mask` is `x % TWO_32`,
    `x >> 32` is `x / TWO_32`, and every C operator that can wrap is followed by
    an explicit `Wrap64`. */
module WideMultiply {
  import opened Widths

  type Word = x: nat | x < TWO_64

  /** The union of an `__int128` and its two limbs, low limb first. */
  datatype TwoWords = TwoWords(low: Word, high: Word) {
    /** The 128-bit pattern as an unsigned number. */
    function Value(): (v: nat)
      ensures v < TWO_128
    {
      high * TWO_64 + low
    }

    /** The same pattern read as a two's-complement `__int128`. */
    function Signed(): (v: int)
      ensures -TWO_127 <= v < TWO_127
      ensures v % TWO_128 == Value()
    {
      if Value() < TWO_127 then Value() else Value() - TWO_128
    }
  }

  /** What storing a mathematical result in a `uint64_t` leaves behind. */
  function Wrap64(x: nat): (w: Word)
    ensures x < TWO_64 ==> w == x
  {
    x % TWO_64
  }

  // ---- 64 x 64 -> 128 ----

  lemma ProductBound(x: nat, y: nat, n: nat, m: nat)
    requires x <= n && y <= m
    ensures x * y <= n * m
  {
    assert n * m == x * y + (n - x) * m + x * (m - y);
  }

  /** Schoolbook expansion of the product of two numbers split at a radix. */
  lemma SplitProduct(radix: nat, h: nat, l: nat, h': nat, l': nat)
    ensures (h * radix + l) * (h' * radix + l')
         == h * h' * (radix * radix) + (h * l' + l * h') * radix + l * l'
  {
    var x, y := h * radix, h' * radix;
    assert (x + l) * (y + l') == x * y + x * l' + l * y + l * l';
    assert x * y == h * h' * (radix * radix);
    assert x * l' == h * l' * radix;
    assert l * y == l * h' * radix;
    assert (h * l' + l * h') * radix == h * l' * radix + l * h' * radix;
  }

  /** One of the two accumulation rounds of `ducknng_mulddi3`: add the partial
      product `p` to the limb pair at bit 32. `stored` lists the exact value
      every assignment stores before it is narrowed to 64 bits. */
  method AccumulateAt32(pair: TwoWords, p: Word) returns (r: TwoWords, ghost stored: seq<nat>)
    requires pair.high < TWO_32 && p <= MAX_HALF_PRODUCT
    ensures r.Value() == pair.Value() + p * TWO_32
    ensures r.high < pair.high + TWO_32
    ensures |stored| == 5 && forall i :: 0 <= i < |stored| ==> stored[i] < TWO_64
  {
    var low, high := pair.low, pair.high;
    var t: Word := low / TWO_32;
    low := low % TWO_32;
    stored := [t, low, t + p];
    t := Wrap64(t + p);
    stored := stored + [low + t % TWO_32 * TWO_32, high + t / TWO_32];
    low := Wrap64(low + Wrap64(t % TWO_32 * TWO_32));
    high := Wrap64(high + t / TWO_32);
    r := TwoWords(low, high);
  }

  /** `ducknng_mulddi3`: the limbs hold the exact product, and none of the
      values stored on the way wraps. */
  method Mulddi3(a: Word, b: Word) returns (r: TwoWords, ghost stored: seq<nat>)
    ensures r.Value() == a * b
    ensures |stored| == 12
    ensures forall i :: 0 <= i < |stored| ==> stored[i] < TWO_64
  {
    var a0, a1, b0, b1 := a % TWO_32, a / TWO_32, b % TWO_32, b / TWO_32;
    var p00: Word := HalfProduct(a0, b0);
    var p10: Word := HalfProduct(a1, b0);
    var p01: Word := HalfProduct(a0, b1);
    var p11: Word := HalfProduct(a1, b1);
    ghost var first, second;
    r := TwoWords(p00, 0);
    r, first := AccumulateAt32(r, p10);
    r, second := AccumulateAt32(r, p01);
    FinalCarry(a, b, r, p00, p10, p01, p11);
    stored := [p00] + first + second + [r.high + p11];
    r := r.(high := Wrap64(r.high + p11));
  }

  const MAX_HALF_PRODUCT: int := 0xFFFF_FFFE_0000_0001

  /** A product of two 32-bit halves, too small to wrap. */
  function HalfProduct(x: nat, y: nat): (p: Word)
    requires x < TWO_32 && y < TWO_32
    ensures p == x * y && p <= MAX_HALF_PRODUCT
  {
    HalfProductBound(x, y);
    Wrap64(x * y)
  }

  lemma HalfProductBound(x: nat, y: nat)
    requires x < TWO_32 && y < TWO_32
    ensures x * y <= MAX_HALF_PRODUCT
  {
    ProductBound(x, y, TWO_32 - 1, TWO_32 - 1);
  }

  lemma FinalCarry(a: Word, b: Word, r: TwoWords, p00: nat, p10: nat, p01: nat, p11: nat)
    requires p00 == a % TWO_32 * (b % TWO_32) && p10 == a / TWO_32 * (b % TWO_32)
    requires p01 == a % TWO_32 * (b / TWO_32) && p11 == a / TWO_32 * (b / TWO_32)
    requires r.Value() == p00 + p10 * TWO_32 + p01 * TWO_32
    ensures (r.high + p11) * TWO_64 + r.low == a * b
    ensures r.high + p11 < TWO_64
  {
    SplitProduct(TWO_32, a / TWO_32, a % TWO_32, b / TWO_32, b % TWO_32);
    assert a == a / TWO_32 * TWO_32 + a % TWO_32 && b == b / TWO_32 * TWO_32 + b % TWO_32;
    ProductBound(a, b, TWO_64 - 1, TWO_64 - 1);
  }

  // ---- 128 x 128 -> 128, wrapping ----

  /** Residues are unique: two congruent numbers within one modulus are equal. */
  lemma UniqueResidue(m: int, x: int, y: int, k: int)
    requires m > 0 && x == y + k * m && -m < x - y < m
    ensures x == y
  {
    assert k >= 1 ==> k * m >= m;
    assert k <= -1 ==> k * m <= -m;
  }

  lemma ModIs(m: int, x: int, r: int, k: int)
    requires m > 0 && x == r + k * m && 0 <= r < m
    ensures x % m == r
  {
    assert x == m * (x / m) + x % m;
    assert x % m == r + (k - x / m) * m;
    UniqueResidue(m, x % m, r, k - x / m);
  }

  /** `__multi3`: the product modulo 2^128, although its cross terms wrap. */
  method Multi3(x: TwoWords, y: TwoWords) returns (r: TwoWords)
    ensures r.Value() == x.Value() * y.Value() % TWO_128
  {
    ghost var stored;
    r, stored := Mulddi3(x.low, y.low);
    var cross := Wrap64(Wrap64(x.high * y.low) + Wrap64(x.low * y.high));
    CrossTerms(x, y, r, cross);
    r := r.(high := Wrap64(r.high + cross));
  }

  lemma CrossTerms(x: TwoWords, y: TwoWords, r: TwoWords, cross: Word)
    requires r.Value() == x.low * y.low
    requires cross == Wrap64(Wrap64(x.high * y.low) + Wrap64(x.low * y.high))
    ensures r.(high := Wrap64(r.high + cross)).Value() == x.Value() * y.Value() % TWO_128
  {
    var c1, c2 := x.high * y.low, x.low * y.high;
    var k := WrappedSum(c1, c2, r.high, cross);
    var q := x.high * y.high + k;
    SplitProduct(TWO_64, x.high, x.low, y.high, y.low);
    var result := r.(high := Wrap64(r.high + cross));
    assert x.Value() * y.Value() == x.high * y.high * TWO_128 + (c1 + c2) * TWO_64 + r.Value();
    assert x.Value() * y.Value() == result.Value() + q * TWO_128;
    ModIs(TWO_128, x.Value() * y.Value(), result.Value(), q);
  }

  lemma WrappedSum(c1: nat, c2: nat, high: Word, cross: Word) returns (k: nat)
    requires cross == Wrap64(Wrap64(c1) + Wrap64(c2))
    ensures high + c1 + c2 == Wrap64(high + cross) + k * TWO_64
  {
    k := c1 / TWO_64 + c2 / TWO_64 + (Wrap64(c1) + Wrap64(c2)) / TWO_64 + (high + cross) / TWO_64;
  }

  /** Read as signed numbers, a pattern that is the product modulo 2^128 is the
      exact signed product precisely when that product is a 128-bit number. */
  lemma SignedProduct(x: TwoWords, y: TwoWords, r: TwoWords)
    requires r.Value() == x.Value() * y.Value() % TWO_128
    ensures r.Signed() == x.Signed() * y.Signed()
       <==> -TWO_127 <= x.Signed() * y.Signed() < TWO_127
  {
    var sx, sy := x.Signed(), y.Signed();
    var i := if x.Value() < TWO_127 then 0 else 1;
    var j := if y.Value() < TWO_127 then 0 else 1;
    var k := if r.Value() < TWO_127 then 0 else 1;
    var m := TWO_128 as int;
    var q := x.Value() * y.Value() / m;
    assert x.Value() * y.Value() == r.Value() + q * m;
    assert x.Value() == sx + i * m && y.Value() == sy + j * m && r.Value() == r.Signed() + k * m;
    SignedExpansion(m, sx, sy, i, j);
    var d := q + k - (i * sy + j * sx + i * j * m);
    assert sx * sy == r.Signed() + d * m;
    if -TWO_127 <= sx * sy < TWO_127 {
      UniqueResidue(m, sx * sy, r.Signed(), d);
    }
  }

  lemma SignedExpansion(m: int, sx: int, sy: int, i: int, j: int)
    ensures (sx + i * m) * (sy + j * m) == sx * sy + (i * sy + j * sx + i * j * m) * m
  {
    var u, v := i * m, j * m;
    assert (sx + u) * (sy + v) == sx * sy + sx * v + u * sy + u * v;
    assert sx * v == j * sx * m;
    assert u * sy == i * sy * m;
    assert u * v == i * j * m * m;
    assert (i * sy + j * sx + i * j * m) * m == i * sy * m + j * sx * m + i * j * m * m;
  }

  // ---- chains of multiplications ----

  /** A chain of `__multi3` calls: any order, any bracketing. */
  datatype Chain = Operand(x: TwoWords) | Call(left: Chain, right: Chain)

  function Operands(c: Chain): (s: seq<nat>) {
    match c
    case Operand(x) => [x.Value()]
    case Call(l, r) => Operands(l) + Operands(r)
  }

  /** The 128-bit pattern a chain evaluates to, by the contract of `Multi3`. */
  function Evaluate(c: Chain): (v: nat) {
    match c
    case Operand(x) => x.Value()
    case Call(l, r) => Evaluate(l) * Evaluate(r) % TWO_128
  }

  function Product(s: seq<nat>): nat {
    if s == [] then 1 else s[0] * Product(s[1..])
  }

  lemma {:induction false} ProductConcat(s: seq<nat>, t: seq<nat>)
    ensures Product(s + t) == Product(s) * Product(t)
  {
    if s == [] {
      assert s + t == t;
    } else {
      assert (s + t)[1..] == s[1..] + t;
      ProductConcat(s[1..], t);
      var a, b, c := s[0], Product(s[1..]), Product(t);
      assert a * (b * c) == a * b * c;
    }
  }

  /** Reordering the factors of a product does not change it. */
  lemma {:induction false} ProductPermutes(s: seq<nat>, t: seq<nat>)
    requires multiset(s) == multiset(t)
    ensures Product(s) == Product(t)
  {
    if s == [] {
      assert |t| == |multiset(t)| == 0;
    } else {
      var i := RemoveOne(s, t);
      ProductPermutes(s[1..], t[..i] + t[i + 1..]);
      ProductPullOut(t, i);
    }
  }

  lemma RemoveOne<T>(s: seq<T>, t: seq<T>) returns (i: nat)
    requires s != [] && multiset(s) == multiset(t)
    ensures i < |t| && t[i] == s[0]
    ensures multiset(s[1..]) == multiset(t[..i] + t[i + 1..])
  {
    assert s[0] in multiset(t);
    i :| 0 <= i < |t| && t[i] == s[0];
    SplitAt(s, 0);
    SplitAt(t, i);
    assert s[..0] + s[1..] == s[1..];
    Cancel(s[0], multiset(s[1..]), multiset(t[..i] + t[i + 1..]));
  }

  lemma SplitAt<T>(t: seq<T>, i: nat)
    requires i < |t|
    ensures multiset(t) == multiset(t[..i] + t[i + 1..]) + multiset{t[i]}
  {
    assert t == t[..i] + ([t[i]] + t[i + 1..]);
  }

  lemma Cancel<T>(x: T, p: multiset<T>, q: multiset<T>)
    requires p + multiset{x} == q + multiset{x}
    ensures p == q
  {
    assert p == (p + multiset{x}) - multiset{x};
    assert q == (q + multiset{x}) - multiset{x};
  }

  lemma ProductPullOut(t: seq<nat>, i: nat)
    requires i < |t|
    ensures Product(t) == t[i] * Product(t[..i] + t[i + 1..])
  {
    var front, x, back := t[..i], t[i], t[i + 1..];
    assert t == front + ([x] + back);
    ProductConcat(front, [x] + back);
    ProductConcat(front, back);
    ProductCons(x, back);
    Swap(Product(front), x, Product(back));
  }

  lemma ProductCons(x: nat, s: seq<nat>)
    ensures Product([x] + s) == x * Product(s)
  {
    assert ([x] + s)[1..] == s;
  }

  lemma Swap(a: nat, b: nat, c: nat)
    ensures a * (b * c) == b * (a * c)
  {
  }

  lemma ModProduct(m: int, x: int, y: int)
    requires m > 0
    ensures x % m * (y % m) % m == x * y % m
  {
    var i, j := x / m, y / m;
    var p, q := x % m, y % m;
    assert x == p + i * m && y == q + j * m;
    SignedExpansion(m, p, q, i, j);
    var k := i * q + j * p + i * j * m;
    var e := p * q / m;
    assert p * q == p * q % m + e * m;
    assert x * y == p * q % m + (e + k) * m;
    ModIs(m, x * y, p * q % m, e + k);
  }

  lemma {:induction false} ChainIsProduct(c: Chain)
    ensures Evaluate(c) == Product(Operands(c)) % TWO_128
  {
    match c
    case Operand(x) =>
      assert Product([x.Value()]) == x.Value() * Product([x.Value()][1..]);
      ModIs(TWO_128, x.Value(), x.Value(), 0);
    case Call(l, r) =>
      ChainIsProduct(l);
      ChainIsProduct(r);
      ProductConcat(Operands(l), Operands(r));
      ModProduct(TWO_128, Product(Operands(l)), Product(Operands(r)));
  }

  /** Two chains over the same operands agree, whatever their order and
      bracketing, although intermediate products overflow. */
  lemma ChainOrderIrrelevant(c: Chain, d: Chain)
    requires multiset(Operands(c)) == multiset(Operands(d))
    ensures Evaluate(c) == Evaluate(d)
  {
    ChainIsProduct(c);
    ChainIsProduct(d);
    ProductPermutes(Operands(c), Operands(d));
  }
}
