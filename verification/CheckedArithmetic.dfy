/** Checked unsigned arithmetic (src/ducknng_checked.c), the capacity growth
    helper that uses the same overflow discipline (src/ducknng_util.c), and the
    fused form of the multiply check that src/ducknng_wasm_builtins.c exists for.

    `limit` is `SIZE_MAX` or `UINT64_MAX`: the `size_t` and the `uint64_t` pair
    of functions differ in nothing else. */
module CheckedArithmetic {
  import opened Options
  import opened WideMultiply
  import opened Widths

  /** What an `out` pointer points at. */
  class Cell {
    var value: nat

    constructor (initial: nat)
      ensures value == initial
    {
      value := initial;
    }
  }

  /** The value a checked call delivers, `None` standing for the -1 return. */
  function Sum?(limit: nat, a: nat, b: nat): Option<nat> {
    if a + b <= limit then Some(a + b) else None
  }

  function Product?(limit: nat, a: nat, b: nat): Option<nat> {
    if a * b <= limit then Some(a * b) else None
  }

  /** Storing a mathematical result in an unsigned type whose largest value is
      `limit`. */
  function Narrow(limit: nat, x: nat): (r: nat)
    ensures r <= limit
    ensures x <= limit ==> r == x
  {
    assert x <= limit ==> x % (limit + 1) == x by {
      if x <= limit { ModIs(limit + 1, x, x, 0); }
    }
    x % (limit + 1)
  }

  /** `ducknng_size_add`, `ducknng_u64_add`. */
  method CheckedAdd(limit: nat, a: nat, b: nat, out: Cell?) returns (rc: int)
    requires a <= limit && b <= limit
    modifies out
    ensures rc == 0 || rc == -1
    ensures rc == 0 <==> Sum?(limit, a, b).Some?
    ensures out != null ==> out.value == if rc == 0 then a + b else old(out.value)
  {
    if b > limit - a { return -1; }
    if out != null { out.value := Narrow(limit, a + b); }
    return 0;
  }

  /** `ducknng_size_mul`, `ducknng_u64_mul`: the division guard is exact. */
  method CheckedMul(limit: nat, a: nat, b: nat, out: Cell?) returns (rc: int)
    requires a <= limit && b <= limit
    modifies out
    ensures rc == 0 || rc == -1
    ensures rc == 0 <==> Product?(limit, a, b).Some?
    ensures out != null ==> out.value == if rc == 0 then a * b else old(out.value)
  {
    if a != 0 {
      DivisionGuard(limit, a, b);
      if b > limit / a { return -1; }
    }
    if out != null { out.value := Narrow(limit, a * b); }
    return 0;
  }

  /** Comparing with a truncated quotient decides whether the product fits. */
  lemma DivisionGuard(limit: nat, a: nat, b: nat)
    requires a > 0
    ensures b > limit / a <==> a * b > limit
  {
    var q, r := limit / a, limit % a;
    assert limit == a * q + r && 0 <= r < a;
    if b > q {
      assert a * b >= a * (q + 1) == a * q + a;
    } else {
      assert a * b <= a * q;
    }
  }

  // ---- chains of checked calls ----

  function Total(s: seq<nat>): nat {
    if s == [] then 0 else s[0] + Total(s[1..])
  }

  /** Add every number of `s` to `acc`, stopping at the first failing call. */
  function AddAll(limit: nat, acc: nat, s: seq<nat>): Option<nat>
    decreases |s|
  {
    if s == [] then Some(acc)
    else match Sum?(limit, acc, s[0])
      case None => None
      case Some(sum) => AddAll(limit, sum, s[1..])
  }

  /** Multiply `acc` by every number of `s`, stopping at the first failing call. */
  function MulAll(limit: nat, acc: nat, s: seq<nat>): Option<nat>
    decreases |s|
  {
    if s == [] then Some(acc)
    else match Product?(limit, acc, s[0])
      case None => None
      case Some(product) => MulAll(limit, product, s[1..])
  }

  /** A chain of checked additions succeeds exactly when the true total fits. */
  lemma {:induction false} AddAllExact(limit: nat, acc: nat, s: seq<nat>)
    requires acc <= limit
    ensures AddAll(limit, acc, s) == Sum?(limit, acc, Total(s))
    decreases |s|
  {
    if s != [] && acc + s[0] <= limit {
      AddAllExact(limit, acc + s[0], s[1..]);
    }
  }

  lemma {:induction false} TotalPullOut(t: seq<nat>, i: nat)
    requires i < |t|
    ensures Total(t) == t[i] + Total(t[..i] + t[i + 1..])
  {
    if i == 0 {
      assert t[..0] + t[1..] == t[1..];
    } else {
      TotalPullOut(t[1..], i - 1);
      assert (t[..i] + t[i + 1..])[1..] == t[1..][..i - 1] + t[1..][i..];
    }
  }

  lemma {:induction false} TotalPermutes(s: seq<nat>, t: seq<nat>)
    requires multiset(s) == multiset(t)
    ensures Total(s) == Total(t)
  {
    if s == [] {
      assert |t| == |multiset(t)| == 0;
    } else {
      var i := RemoveOne(s, t);
      TotalPermutes(s[1..], t[..i] + t[i + 1..]);
      TotalPullOut(t, i);
    }
  }

  /** Whether a chain of additions fails, and its result, do not depend on the
      order of the operands. */
  lemma AddAllPermutes(limit: nat, acc: nat, s: seq<nat>, t: seq<nat>)
    requires acc <= limit && multiset(s) == multiset(t)
    ensures AddAll(limit, acc, s) == AddAll(limit, acc, t)
  {
    AddAllExact(limit, acc, s);
    AddAllExact(limit, acc, t);
    TotalPermutes(s, t);
  }

  /** The factors before the first zero. */
  function BeforeZero(s: seq<nat>): seq<nat> {
    if s == [] || s[0] == 0 then [] else [s[0]] + BeforeZero(s[1..])
  }

  lemma {:induction false} NonzeroProduct(s: seq<nat>)
    ensures Product(BeforeZero(s)) >= 1
  {
    if s != [] && s[0] != 0 {
      NonzeroProduct(s[1..]);
      ProductCons(s[0], BeforeZero(s[1..]));
    }
  }

  lemma {:induction false} MulAllOfZero(limit: nat, s: seq<nat>)
    ensures MulAll(limit, 0, s) == Some(0)
  {
    if s != [] {
      MulAllOfZero(limit, s[1..]);
    }
  }

  /** Unlike additions, a chain of checked multiplications depends on order: it
      succeeds exactly when the factors ahead of the first zero fit, and a
      successful chain delivers the true product. */
  lemma {:induction false} MulAllExact(limit: nat, acc: nat, s: seq<nat>)
    requires 1 <= acc <= limit
    ensures MulAll(limit, acc, s).Some? <==> acc * Product(BeforeZero(s)) <= limit
    ensures MulAll(limit, acc, s).Some? ==> MulAll(limit, acc, s).value == acc * Product(s)
    decreases |s|
  {
    if s != [] {
      var rest := s[1..];
      ProductCons(s[0], rest);
      assert s == [s[0]] + rest;
      if s[0] == 0 {
        MulAllOfZero(limit, rest);
        ZeroFactor(acc, Product(rest));
      } else {
        ProductCons(s[0], BeforeZero(rest));
        Associate(acc, s[0], Product(BeforeZero(rest)));
        Associate(acc, s[0], Product(rest));
        NonzeroProduct(rest);
        MulAllStep(limit, acc * s[0], acc, s[0], Product(BeforeZero(rest)));
        if acc * s[0] <= limit {
          MulAllExact(limit, acc * s[0], rest);
        }
      }
    }
  }

  lemma ZeroFactor(a: nat, b: nat)
    ensures a * 0 == 0 && a * (0 * b) == 0
  {
  }

  lemma MulAllStep(limit: nat, next: nat, a: nat, b: nat, rest: nat)
    requires a >= 1 && b >= 1 && rest >= 1 && next == a * b
    ensures next >= 1
    ensures next > limit ==> next * rest > limit
  {
    ProductBound(1, 1, a, b);
    ProductBound(next, 1, next, rest);
  }

  lemma Associate(a: nat, b: nat, c: nat)
    ensures a * (b * c) == a * b * c
  {
  }

  /** The order dependence is real: the same factors, one order failing. */
  lemma MulAllOrderMatters(limit: nat)
    requires limit >= 2
    ensures MulAll(limit, 1, [0, limit, 2]) == Some(0)
    ensures MulAll(limit, 1, [limit, 2, 0]) == None
  {
    MulAllOfZero(limit, [limit, 2]);
    assert [0, limit, 2][1..] == [limit, 2];
    assert [limit, 2, 0][1..] == [2, 0];
  }

  // ---- the fused multiply ----

  /** The form LLVM gives the check-then-multiply idiom: one wide multiply, with
      the high limb deciding overflow. It delivers what the idiom delivers. */
  method FusedMul(a: Word, b: Word) returns (r: Option<Word>)
    ensures r == Product?(UINT64_MAX, a, b)
  {
    var wide, _ := Mulddi3(a, b);
    r := if wide.high == 0 then Some(wide.low) else None;
  }

  // ---- growing a buffer ----

  function Doubled(start: nat, times: nat): nat {
    if times == 0 then start else 2 * Doubled(start, times - 1)
  }

  /** `ducknng_grow_capacity`: the smallest doubling of the starting capacity
      that covers `need`, or `need` itself when that doubling would wrap. */
  method GrowCapacity(limit: nat, need: nat, current: nat, minimum: nat)
    returns (capacity: nat, ghost times: nat)
    requires limit >= 1 && need <= limit && current <= limit && minimum <= limit
    ensures need <= capacity <= limit
    ensures var start := if current != 0 then current else if minimum != 0 then minimum else 1;
      && (forall i :: 0 <= i < times ==> Doubled(start, i) < need)
      && if Doubled(start, times) <= limit then Doubled(start, times) >= need && capacity == Doubled(start, times)
         else capacity == need
  {
    ghost var start := if current != 0 then current else if minimum != 0 then minimum else 1;
    capacity := if current != 0 then current else if minimum != 0 then minimum else 1;
    times := 0;
    while capacity < need
      invariant 1 <= capacity <= limit && capacity == Doubled(start, times)
      invariant forall i :: 0 <= i < times ==> Doubled(start, i) < need
      decreases limit - capacity
    {
      if capacity > limit / 2 {
        capacity := need;
        times := times + 1;
        break;
      }
      capacity := capacity * 2;
      times := times + 1;
    }
  }
}
