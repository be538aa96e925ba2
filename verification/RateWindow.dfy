/** The per-identity limit on session opens per second
    (ducknng_service_check_and_record_session_open_locked in src/ducknng_service.c). */
module RateWindow {
  import opened Widths

  const WINDOW_MS: nat := 1000

  /** Whether an open at `time` still counts at `now`, in 64-bit arithmetic. */
  predicate Counts(time: nat, now: nat) {
    (time + WINDOW_MS) % TWO_64 > now
  }

  function Recent(times: seq<nat>, now: nat): seq<nat> {
    if times == [] then []
    else
      var init := Recent(times[..|times| - 1], now);
      if Counts(times[|times| - 1], now) then init + [times[|times| - 1]] else init
  }

  lemma InPlace(i: nat, length: nat)
    requires i < length
    ensures i % length == i
  {
  }

  predicate Ordered(times: seq<nat>) {
    forall i, j | 0 <= i < j < |times| :: times[i] <= times[j]
  }

  /** One identity's record of its opens: a ring buffer whose head every call moves
      back to the start. */
  class Opens {
    var times: array<nat>
    var head: nat
    var count: nat

    ghost predicate Valid()
      reads this, times
    {
      head == 0 && count <= times.Length
    }

    ghost function Contents(): seq<nat>
      requires Valid()
      reads this, times
    {
      times[..count]
    }

    constructor ()
      ensures Valid() && Contents() == [] && fresh(times)
    {
      times := new nat[0];
      head, count := 0, 0;
    }

    /** The expiry loop: the times that still count move to the front, in order. */
    method Expire(now: nat)
      requires Valid()
      modifies this, times
      ensures Valid() && times == old(times) && Contents() == Recent(old(Contents()), now)
    {
      hide Counts;
      ghost var before := Contents();
      var valid := 0;
      for i := 0 to count
        invariant valid <= i && times == old(times) && count == old(count) && head == 0
        invariant times[..valid] == Recent(before[..i], now)
        invariant forall k | i <= k < count :: times[k] == before[k]
        modifies times
      {
        var index := (head + i) % (if times.Length != 0 then times.Length else 1);
        InPlace(i, times.Length);
        assert before[..i + 1][..i] == before[..i];
        if Counts(times[index], now) {
          times[valid] := times[index];
          valid := valid + 1;
        }
      }
      assert before[..count] == before;
      count := valid;
      head := 0;
    }

    /** Check and record: refused when the limit is reached, otherwise remembered. */
    method CheckAndRecord(now: nat, limit: nat) returns (ok: bool)
      requires Valid()
      modifies this, times
      ensures Valid() && (times == old(times) || fresh(times))
      ensures var (accepted, after) := Attempt(old(Contents()), now, limit); ok == accepted && Contents() == after
    {
      if limit == 0 { return true; }
      Expire(now);
      if count >= limit { return false; }
      if count == times.Length {
        var capacity := if times.Length != 0 then times.Length * 2 else 8;
        var larger := new nat[capacity];
        forall i | 0 <= i < count {
          larger[i] := times[i];
        }
        assert larger[..count] == times[..count];
        times := larger;
      }
      times[count] := now;
      count := count + 1;
      ok := true;
    }
  }

  /** What one call does to the record: no limit leaves it alone. */
  function Attempt(times: seq<nat>, now: nat, limit: nat): (bool, seq<nat>) {
    if limit == 0 then (true, times) else
    var live := Recent(times, now);
    if |live| >= limit then (false, live) else (true, live + [now])
  }

  // ---- runs of calls ----

  /** The record and the accepted opens after calls at the given times. */
  function Record(calls: seq<nat>, limit: nat): seq<nat> {
    if calls == [] then [] else Attempt(Record(calls[..|calls| - 1], limit), calls[|calls| - 1], limit).1
  }

  function Accepted(calls: seq<nat>, limit: nat): seq<nat> {
    if calls == [] then []
    else
      var init, now := calls[..|calls| - 1], calls[|calls| - 1];
      if Attempt(Record(init, limit), now, limit).0 then Accepted(init, limit) + [now] else Accepted(init, limit)
  }

  // ---- which accepted opens are remembered, whatever the clock does ----

  /** The positions of the accepted calls. */
  function Positions(calls: seq<nat>, limit: nat): (at: seq<nat>)
    ensures forall k | 0 <= k < |at| :: at[k] < |calls|
  {
    if calls == [] then []
    else
      var init := calls[..|calls| - 1];
      if Attempt(Record(init, limit), calls[|calls| - 1], limit).0 then Positions(init, limit) + [|init|]
      else Positions(init, limit)
  }

  /** An open is remembered as long as it counts at every later call. */
  predicate Remembered(calls: seq<nat>, i: nat, n: nat)
    requires i < |calls| && n <= |calls|
  {
    forall j | i < j < n :: Counts(calls[i], calls[j])
  }

  function Times(calls: seq<nat>, at: seq<nat>): (times: seq<nat>)
    requires forall k | 0 <= k < |at| :: at[k] < |calls|
    ensures |times| == |at|
  {
    if at == [] then [] else Times(calls, at[..|at| - 1]) + [calls[at[|at| - 1]]]
  }

  /** The positions that are remembered before call `n`. */
  function Kept(calls: seq<nat>, at: seq<nat>, n: nat): (kept: seq<nat>)
    requires n <= |calls| && forall k | 0 <= k < |at| :: at[k] < |calls|
    ensures |kept| <= |at| && forall k | 0 <= k < |kept| :: kept[k] < |calls|
  {
    if at == [] then []
    else
      var init := Kept(calls, at[..|at| - 1], n);
      if Remembered(calls, at[|at| - 1], n) then init + [at[|at| - 1]] else init
  }

  /** A call at position `n` leaves those that count at it. */
  lemma {:induction false} RecentKept(calls: seq<nat>, at: seq<nat>, n: nat)
    requires n < |calls| && forall k | 0 <= k < |at| :: at[k] < n
    ensures Recent(Times(calls, Kept(calls, at, n)), calls[n]) == Times(calls, Kept(calls, at, n + 1))
  {
    if at != [] {
      var init, last := at[..|at| - 1], at[|at| - 1];
      RecentKept(calls, init, n);
      assert Remembered(calls, last, n + 1) <==> Remembered(calls, last, n) && Counts(calls[last], calls[n]);
      var kept, kept' := Kept(calls, init, n), Kept(calls, init, n + 1);
      assert (kept + [last])[..|kept|] == kept && (kept' + [last])[..|kept'|] == kept';
      var times := Times(calls, kept);
      assert (times + [calls[last]])[..|times|] == times;
    }
  }

  lemma {:induction false} KeptOfPrefix(calls: seq<nat>, all: seq<nat>, at: seq<nat>, n: nat)
    requires calls <= all && n <= |calls| && forall k | 0 <= k < |at| :: at[k] < |calls|
    ensures Kept(all, at, n) == Kept(calls, at, n) && Times(all, at) == Times(calls, at)
  {
    if at != [] {
      KeptOfPrefix(calls, all, at[..|at| - 1], n);
      assert Remembered(all, at[|at| - 1], n) <==> Remembered(calls, at[|at| - 1], n);
    }
  }

  lemma TimesLast(calls: seq<nat>, at: seq<nat>, n: nat)
    requires n < |calls| && forall k | 0 <= k < |at| :: at[k] < |calls|
    ensures Times(calls, at + [n]) == Times(calls, at) + [calls[n]]
  {
    assert (at + [n])[..|at|] == at;
  }

  lemma KeptLast(calls: seq<nat>, at: seq<nat>)
    requires calls != [] && forall k | 0 <= k < |at| :: at[k] < |calls|
    ensures Kept(calls, at + [|calls| - 1], |calls|) == Kept(calls, at, |calls|) + [|calls| - 1]
  {
    assert (at + [|calls| - 1])[..|at|] == at && Remembered(calls, |calls| - 1, |calls|);
  }

  /** What the last call of a run does. */
  lemma LastCall(calls: seq<nat>, limit: nat)
    requires calls != [] && limit > 0
    ensures var init, now := calls[..|calls| - 1], calls[|calls| - 1];
      var live := Recent(Record(init, limit), now);
      && Attempt(Record(init, limit), now, limit).0 == (|live| < limit)
      && Record(calls, limit) == (if |live| < limit then live + [now] else live)
      && Accepted(calls, limit) == (if |live| < limit then Accepted(init, limit) + [now] else Accepted(init, limit))
      && Positions(calls, limit)
        == (if |live| < limit then Positions(init, limit) + [|init|] else Positions(init, limit))
  {
    hide Recent;
  }

  /** The record is the accepted opens that every later call found counting. */
  lemma {:induction false} RecordIsKept(calls: seq<nat>, limit: nat)
    requires limit > 0
    ensures Record(calls, limit) == Times(calls, Kept(calls, Positions(calls, limit), |calls|))
    ensures Accepted(calls, limit) == Times(calls, Positions(calls, limit))
  {
    if calls != [] {
      hide Recent, Times, Kept, Record, Accepted, Positions;
      LastCall(calls, limit);
      var init, n := calls[..|calls| - 1], |calls| - 1;
      var at := Positions(init, limit);
      RecordIsKept(init, limit);
      KeptOfPrefix(init, calls, at, n);
      KeptOfPrefix(init, calls, Kept(init, at, n), n);
      RecentKept(calls, at, n);
      TimesLast(calls, at, n);
      KeptLast(calls, at);
      TimesLast(calls, Kept(calls, at, |calls|), n);
    }
  }

  /** A call is accepted if and only if fewer than `limit` earlier opens count at it and
      counted at every call since they were made - on any clock. */
  lemma AcceptedIff(calls: seq<nat>, now: nat, limit: nat)
    requires limit > 0
    ensures Attempt(Record(calls, limit), now, limit).0
      <==> |Kept(calls + [now], Positions(calls, limit), |calls| + 1)| < limit
  {
    var all, at := calls + [now], Positions(calls, limit);
    RecordIsKept(calls, limit);
    KeptOfPrefix(calls, all, at, |calls|);
    KeptOfPrefix(calls, all, Kept(calls, at, |calls|), |calls|);
    RecentKept(all, at, |calls|);
  }

  // ---- when the count is the true one ----

  /** The number the code compares with the limit, and the number of accepted opens that
      count at `now`. */
  function Compared(calls: seq<nat>, now: nat, limit: nat): nat {
    |Recent(Record(calls, limit), now)|
  }

  function Current(calls: seq<nat>, now: nat, limit: nat): nat {
    |Recent(Accepted(calls, limit), now)|
  }

  /** The clock goes back over an expiry: an open that one call found expired counts
      again at a later one. */
  predicate Relapses(calls: seq<nat>) {
    exists i, j, k | 0 <= i < j < k < |calls| :: !Counts(calls[i], calls[j]) && Counts(calls[i], calls[k])
  }

  /** Opens at the given positions that count at call `n`. */
  function Counting(calls: seq<nat>, at: seq<nat>, n: nat): (counting: seq<nat>)
    requires n < |calls| && forall k | 0 <= k < |at| :: at[k] < n
    ensures |counting| <= |at|
  {
    if at == [] then []
    else
      var init := Counting(calls, at[..|at| - 1], n);
      if Counts(calls[at[|at| - 1]], calls[n]) then init + [at[|at| - 1]] else init
  }

  lemma {:induction false} RecentIsCounting(calls: seq<nat>, at: seq<nat>, n: nat)
    requires n < |calls| && forall k | 0 <= k < |at| :: at[k] < n
    ensures |Recent(Times(calls, at), calls[n])| == |Counting(calls, at, n)|
  {
    if at != [] {
      var times := Times(calls, at[..|at| - 1]);
      assert (times + [calls[at[|at| - 1]]])[..|times|] == times;
      RecentIsCounting(calls, at[..|at| - 1], n);
    }
  }

  /** Remembered opens count; the numbers agree exactly when all that count are remembered. */
  lemma {:induction false} KeptAmongCounting(calls: seq<nat>, at: seq<nat>, n: nat)
    requires n < |calls| && forall k | 0 <= k < |at| :: at[k] < n
    ensures |Kept(calls, at, n + 1)| <= |Counting(calls, at, n)|
    ensures |Kept(calls, at, n + 1)| == |Counting(calls, at, n)|
      <==> forall k | 0 <= k < |at| :: Counts(calls[at[k]], calls[n]) ==> Remembered(calls, at[k], n + 1)
  {
    if at != [] {
      var init, last := at[..|at| - 1], at[|at| - 1];
      KeptAmongCounting(calls, init, n);
      assert Remembered(calls, last, n + 1) ==> Counts(calls[last], calls[n]);
      assert forall k | 0 <= k < |init| :: at[k] == init[k];
    }
  }

  /** The two numbers at call `n` of a run. */
  lemma CountsAt(calls: seq<nat>, n: nat, limit: nat)
    requires n < |calls| && limit > 0
    ensures var at := Positions(calls[..n], limit);
      && Compared(calls[..n], calls[n], limit) == |Kept(calls, at, n + 1)|
      && Current(calls[..n], calls[n], limit) == |Counting(calls, at, n)|
  {
    var init, at := calls[..n], Positions(calls[..n], limit);
    RecordIsKept(init, limit);
    KeptOfPrefix(init, calls, at, n);
    KeptOfPrefix(init, calls, Kept(init, at, n), n);
    RecentKept(calls, at, n);
    RecentIsCounting(calls, at, n);
  }

  /** With a limit nobody reaches, every call is accepted. */
  lemma {:induction false} AllAccepted(calls: seq<nat>, limit: nat)
    requires limit > |calls|
    ensures |Positions(calls, limit)| == |calls|
    ensures forall i | 0 <= i < |calls| :: Positions(calls, limit)[i] == i
  {
    if calls != [] {
      var init := calls[..|calls| - 1];
      AllAccepted(init, limit);
      RecordIsKept(init, limit);
      RecentShrinks(Record(init, limit), calls[|calls| - 1]);
    }
  }

  lemma {:induction false} RecentShrinks(times: seq<nat>, now: nat)
    ensures |Recent(times, now)| <= |times|
  {
    if times != [] { RecentShrinks(times[..|times| - 1], now); }
  }

  ghost predicate RightAt(calls: seq<nat>, n: nat, limit: nat)
    requires n < |calls|
  {
    Compared(calls[..n], calls[n], limit) == Current(calls[..n], calls[n], limit)
  }

  /** At every call and under every limit the code compares the true number of current
      opens with the limit if and only if the clock never goes back over an expiry. */
  lemma CountsRightIff(calls: seq<nat>)
    ensures (forall n, limit: nat | 0 <= n < |calls| && limit > 0 :: RightAt(calls, n, limit)) <==> !Relapses(calls)
  {
    if Relapses(calls) {
      var i, j, n :| 0 <= i < j < n < |calls| && !Counts(calls[i], calls[j]) && Counts(calls[i], calls[n]);
      var limit := |calls| + 1;
      AllAccepted(calls[..n], limit);
      CountsAt(calls, n, limit);
      var at := Positions(calls[..n], limit);
      KeptAmongCounting(calls, at, n);
      assert at[i] == i && !Remembered(calls, i, n + 1);
      assert !RightAt(calls, n, limit);
    } else {
      forall n, limit: nat | 0 <= n < |calls| && limit > 0 ensures RightAt(calls, n, limit) {
        RightWithoutRelapse(calls, n, limit);
      }
    }
  }

  lemma RightWithoutRelapse(calls: seq<nat>, n: nat, limit: nat)
    requires n < |calls| && limit > 0 && !Relapses(calls)
    ensures RightAt(calls, n, limit)
  {
    CountsAt(calls, n, limit);
    var at := Positions(calls[..n], limit);
    KeptAmongCounting(calls, at, n);
    forall k | 0 <= k < |at| && Counts(calls[at[k]], calls[n]) ensures Remembered(calls, at[k], n + 1) {
      forall j | at[k] < j < n + 1 ensures Counts(calls[at[k]], calls[j]) {
        assert j < n ==> Counts(calls[at[k]], calls[j]);
      }
    }
  }

  /** The system clock may be set back, and then the limit can be exceeded: three opens
      stamped within half a second under a limit of two. */
  lemma ClockSetBack()
    ensures Accepted([10000, 10000, 20000, 10500], 2) == [10000, 10000, 20000, 10500]
    ensures Relapses([10000, 10000, 20000, 10500])
  {
    hide Record, Accepted, Recent, Counts;
    CountsHere();
    var none: seq<nat>, a: nat, b: nat, c: nat := [], 10000, 20000, 10500;
    NoCalls(2);
    AnotherCall(none, a, 2);
    RecentTwo(none, a);
    assert none + [a] == [a];
    assert Record([a], 2) == [a] && Accepted([a], 2) == [a];
    AnotherCall([a], a, 2);
    RecentTwo([a], a);
    assert [a] + [a] == [a, a];
    assert Record([a, a], 2) == [a, a] && Accepted([a, a], 2) == [a, a];
    AnotherCall([a, a], b, 2);
    RecentTwo([a, a], b);
    assert [a, a] + [b] == [a, a, b];
    assert Record([a, a, b], 2) == [b] && Accepted([a, a, b], 2) == [a, a, b];
    AnotherCall([a, a, b], c, 2);
    RecentTwo([b], c);
    var calls := [a, a, b, c];
    assert [a, a, b] + [c] == calls;
    assert !Counts(calls[0], calls[2]) && Counts(calls[0], calls[3]);
  }

  lemma CountsHere()
    ensures Counts(10000, 10000) && !Counts(10000, 20000) && Counts(20000, 10500) && Counts(10000, 10500)
  {
  }

  lemma NoCalls(limit: nat)
    ensures Record([], limit) == [] && Accepted([], limit) == []
  {
  }

  lemma AnotherCall(calls: seq<nat>, now: nat, limit: nat)
    requires limit > 0
    ensures var live := Recent(Record(calls, limit), now);
      && Record(calls + [now], limit) == (if |live| < limit then live + [now] else live)
      && Accepted(calls + [now], limit)
        == (if |live| < limit then Accepted(calls, limit) + [now] else Accepted(calls, limit))
  {
    hide Record, Accepted, Recent;
    assert (calls + [now])[..|calls|] == calls;
    LastCall(calls + [now], limit);
  }

  lemma RecentTwo(times: seq<nat>, now: nat)
    requires |times| <= 2
    ensures Recent(times, now)
      == (if |times| > 0 && Counts(times[0], now) then [times[0]] else [])
       + (if |times| > 1 && Counts(times[1], now) then [times[1]] else [])
  {
    hide Counts;
    if |times| == 2 { assert times[..1] == [times[0]] && [times[0]][..0] == []; }
  }

  // ---- a clock that does not go back ----

  /** A clock that does not go back and stays clear of the 64-bit wrap. */
  predicate Clock(calls: seq<nat>) {
    && Ordered(calls)
    && (forall i | 0 <= i < |calls| :: calls[i] + WINDOW_MS < TWO_64)
  }

  lemma OrderedNeverRelapses(calls: seq<nat>)
    requires Clock(calls)
    ensures !Relapses(calls)
  {
    forall i, j, k | 0 <= i < j < k < |calls| && !Counts(calls[i], calls[j]) ensures !Counts(calls[i], calls[k]) {
      assert calls[j] <= calls[k];
    }
  }

  lemma ClockPrefix(calls: seq<nat>, now: nat)
    requires Clock(calls + [now])
    ensures Clock(calls) && (calls != [] ==> calls[|calls| - 1] <= now)
  {
    var all := calls + [now];
    assert forall i | 0 <= i < |calls| :: all[i] == calls[i];
    assert all[|calls|] == now;
  }

  lemma {:induction false} AcceptedAreCalls(calls: seq<nat>, limit: nat)
    ensures forall time <- Accepted(calls, limit) :: time in calls
  {
    if calls != [] { AcceptedAreCalls(calls[..|calls| - 1], limit); }
  }

  /** Any `limit + 1` consecutive accepted opens span at least a second. */
  predicate Spaced(times: seq<nat>, limit: nat) {
    forall i | 0 <= i && i + limit < |times| :: times[i] + WINDOW_MS <= times[i + limit]
  }

  /** In an ordered record, an open that still counts means all later ones do. */
  lemma {:induction false} SuffixCounts(times: seq<nat>, from: nat, now: nat)
    requires Ordered(times) && from < |times| && times[from] + WINDOW_MS > now
    requires forall i | 0 <= i < |times| :: times[i] + WINDOW_MS < TWO_64
    ensures |Recent(times, now)| >= |times| - from
    decreases |times|
  {
    var init := times[..|times| - 1];
    assert Counts(times[|times| - 1], now);
    if from < |times| - 1 {
      assert Ordered(init);
      SuffixCounts(init, from, now);
    }
  }

  /** On such a clock the limit holds over every run: no second ever sees more than
      `limit` opens of one identity. */
  lemma {:induction false} NeverOverLimit(calls: seq<nat>, limit: nat)
    requires Clock(calls) && limit > 0
    ensures Ordered(Accepted(calls, limit)) && Spaced(Accepted(calls, limit), limit)
  {
    if calls != [] {
      hide Recent, Record, Accepted, Relapses, Ordered, Spaced;
      var init, now := calls[..|calls| - 1], calls[|calls| - 1];
      assert calls == init + [now];
      ClockPrefix(init, now);
      NeverOverLimit(init, limit);
      OrderedNeverRelapses(calls);
      RightWithoutRelapse(calls, |init|, limit);
      LastCall(calls, limit);
      if Compared(init, now, limit) < limit {
        AcceptedAreCalls(init, limit);
        OneMore(Accepted(init, limit), init, now, limit);
      }
    }
  }

  lemma OneMore(opens: seq<nat>, calls: seq<nat>, now: nat, limit: nat)
    requires Ordered(opens) && Spaced(opens, limit) && limit > 0 && Clock(calls + [now])
    requires forall time <- opens :: time in calls
    requires |Recent(opens, now)| < limit
    ensures Ordered(opens + [now]) && Spaced(opens + [now], limit)
  {
    hide Recent;
    ClockBounds(opens, calls, now);
    if |opens| >= limit {
      var from := |opens| - limit;
      if opens[from] + WINDOW_MS > now { SuffixCounts(opens, from, now); }
    }
  }

  lemma ClockBounds(opens: seq<nat>, calls: seq<nat>, now: nat)
    requires Clock(calls + [now]) && forall time <- opens :: time in calls
    ensures forall i | 0 <= i < |opens| :: opens[i] <= now && opens[i] + WINDOW_MS < TWO_64
  {
    var all := calls + [now];
    forall i | 0 <= i < |opens| ensures opens[i] <= now && opens[i] + WINDOW_MS < TWO_64 {
      assert opens[i] in opens;
      var k :| 0 <= k < |calls| && calls[k] == opens[i];
      assert all[k] == opens[i] && all[|calls|] == now;
    }
  }

  /** An open counts for exactly a second: under a limit of one, the next is refused up to 999
      milliseconds later and accepted from 1000 milliseconds on. */
  lemma ExactlyASecond(time: nat, now: nat)
    requires time + 1000 < TWO_64
    ensures Accepted([time, now], 1) == if now < time + 1000 then [time] else [time, now]
  {
    hide Record, Accepted, Recent, Counts;
    OneOpen(time);
    AnotherCall([time], now, 1);
    assert [time] + [now] == [time, now];
    RecentTwo([time], now);
    SecondOver(time, now);
  }

  lemma OneOpen(time: nat)
    ensures Accepted([time], 1) == [time] && Record([time], 1) == [time]
  {
    hide Record, Accepted, Recent, Counts;
    var none: seq<nat> := [];
    NoCalls(1);
    AnotherCall(none, time, 1);
    RecentTwo(none, time);
    assert none + [time] == [time];
  }

  lemma SecondOver(time: nat, now: nat)
    requires time + 1000 < TWO_64
    ensures Counts(time, now) <==> now < time + 1000
  {
  }
}
