/** The in-place operations under the session protocol: the constant-time token
    comparison, and the array that holds a service's sessions (src/ducknng_session.c). */
module SessionTable {
  import opened Options
  import opened Sessions

  // ---- ducknng_session_token_equal ----

  /** The byte at `i`, or the zero that pads the shorter string. */
  function ByteAt(s: seq<bv8>, i: nat): bv8 {
    if i < |s| then s[i] else 0
  }

  /** A length cut down to `unsigned char`. */
  function LowByte(n: nat): bv8 {
    (n % 256) as bv8
  }

  lemma XorIsZero(x: bv8, y: bv8)
    ensures x ^ y == 0 <==> x == y
  {
  }

  lemma OrIsZero(x: bv8, y: bv8)
    ensures x | y == 0 <==> x == 0 && y == 0
  {
  }

  /** The comparison accumulates every difference and stops at none, yet answers equality:
      lengths that agree in their low byte only are told apart by the padding, because C
      strings hold no zero byte. */
  method TokenEqual(a: Option<seq<bv8>>, b: Option<seq<bv8>>) returns (equal: bool)
    requires a.Some? ==> 0 !in a.value
    requires b.Some? ==> 0 !in b.value
    ensures equal <==> a.Some? && b.Some? && a == b
  {
    if a.None? || b.None? { return false; }
    var la, lb := |a.value|, |b.value|;
    var n := if la > lb then la else lb;
    var diff := LowByte(la) ^ LowByte(lb);
    XorIsZero(LowByte(la), LowByte(lb));
    for i := 0 to n
      invariant diff == 0
        <==> LowByte(la) == LowByte(lb) && forall k | 0 <= k < i :: ByteAt(a.value, k) == ByteAt(b.value, k)
    {
      var ca, cb := ByteAt(a.value, i), ByteAt(b.value, i);
      XorIsZero(ca, cb);
      OrIsZero(diff, ca ^ cb);
      diff := diff | (ca ^ cb);
    }
    PaddedEqual(a.value, b.value, n);
    equal := diff == 0;
  }

  lemma PaddedEqual(a: seq<bv8>, b: seq<bv8>, n: nat)
    requires 0 !in a && 0 !in b && |a| <= n && |b| <= n && (n == |a| || n == |b|)
    ensures (forall k | 0 <= k < n :: ByteAt(a, k) == ByteAt(b, k)) <==> a == b
  {
    assert forall k | 0 <= k < |a| :: ByteAt(a, k) != 0 by { assert forall k | 0 <= k < |a| :: a[k] in a; }
    assert forall k | 0 <= k < |b| :: ByteAt(b, k) != 0 by { assert forall k | 0 <= k < |b| :: b[k] in b; }
    assert ByteAt(a, |a|) == 0 && ByteAt(b, |b|) == 0;
    if forall k | 0 <= k < n :: ByteAt(a, k) == ByteAt(b, k) {
      assert |a| == |b|;
      assert forall k | 0 <= k < |a| :: a[k] == ByteAt(a, k) == ByteAt(b, k) == b[k];
    }
  }

  // ---- the session array ----

  function Values(slots: seq<Option<nat>>): (ids: seq<nat>)
    requires forall i | 0 <= i < |slots| :: slots[i].Some?
    ensures |ids| == |slots| && forall i | 0 <= i < |slots| :: ids[i] == slots[i].value
  {
    seq(|slots|, i requires 0 <= i < |slots| => slots[i].value)
  }

  class Table {
    var slots: array<Option<nat>>
    var count: nat

    ghost predicate Valid()
      reads this, slots
    {
      count <= slots.Length && forall i | 0 <= i < count :: slots[i].Some?
    }

    ghost function Contents(): (ids: seq<nat>)
      requires Valid()
      reads this, slots
      ensures |ids| == count && forall i | 0 <= i < count :: ids[i] == slots[i].value
    {
      Values(slots[..count])
    }

    constructor ()
      ensures Valid() && Contents() == [] && fresh(slots)
    {
      slots := new Option<nat>[0];
      count := 0;
    }

    /** The first slot with the given id, or the count. */
    method Find(id: nat) returns (index: nat)
      requires Valid()
      ensures index <= count && (index < count ==> Contents()[index] == id)
      ensures forall k | 0 <= k < index :: Contents()[k] != id
    {
      index := 0;
      while index < count
        invariant index <= count && forall k | 0 <= k < index :: Contents()[k] != id
      {
        if slots[index] == Some(id) { return; }
        index := index + 1;
      }
    }

    /** ducknng_service_detach_session_locked: the later sessions move down by one. */
    method Detach(index: nat) returns (id: nat)
      requires Valid() && index < count
      modifies this, slots
      ensures Valid() && slots == old(slots) && id == old(Contents()[index])
      ensures Contents() == old(Contents())[..index] + old(Contents())[index + 1..]
      ensures slots[count].None?
    {
      id := slots[index].value;
      ghost var before := Contents();
      var i := index;
      while i + 1 < count
        invariant index <= i < count == old(count) && slots == old(slots) && Valid()
        invariant forall k | 0 <= k < index :: slots[k].value == before[k]
        invariant forall k | index <= k < i :: slots[k].value == before[k + 1]
        invariant forall k | i < k < count :: slots[k].value == before[k]
        modifies slots
      {
        slots[i] := slots[i + 1];
        i := i + 1;
      }
      count := count - 1;
      slots[count] := None;
      assert Contents() == before[..index] + before[index + 1..];
    }

    /** Adding at the end, into a larger array when this one is full. */
    method Append(id: nat)
      requires Valid()
      modifies this, slots
      ensures Valid() && Contents() == old(Contents()) + [id]
      ensures slots == old(slots) || (fresh(slots) && old(count == slots.Length))
      ensures slots.Length
        == old(if count < slots.Length then slots.Length else if slots.Length == 0 then 4 else 2 * slots.Length)
    {
      ghost var before := Contents();
      if count == slots.Length {
        Grow();
      }
      slots[count] := Some(id);
      count := count + 1;
      assert Contents() == before + [id];
    }

    method Grow()
      requires Valid() && count == slots.Length
      modifies this
      ensures Valid() && fresh(slots) && Contents() == old(Contents()) && count == old(count)
      ensures slots.Length == if count == 0 then 4 else 2 * count
    {
      ghost var before := Contents();
      var capacity := if slots.Length != 0 then slots.Length * 2 else 4;
      var larger := new Option<nat>[capacity](i => None);
      forall i | 0 <= i < count {
        larger[i] := slots[i];
      }
      slots := larger;
      assert Contents() == before;
    }

    /** ducknng_service_remove_session after its checks: what the protocol calls `Without`. */
    method Remove(id: nat) returns (found: bool)
      requires Valid()
      modifies this, slots
      ensures Valid() && found == (id in old(Contents()))
      ensures Contents() == Without(old(Contents()), id)
    {
      ghost var before := Contents();
      var index := Find(id);
      assert forall k | 0 <= k < index :: before[k] != id;
      found := index < count;
      if found {
        var _ := Detach(index);
        WithoutFirst(before, id, index);
      } else {
        WithoutAbsent(before, id);
      }
    }

    /** The per-identity count made before an add. */
    method CountOwned(sessions: map<nat, Session>, owner: string) returns (n: nat)
      requires Valid()
      ensures n == CountOwner(sessions, Contents(), owner)
    {
      n := 0;
      var i := 0;
      while i < count
        invariant i <= count
          && n + CountOwner(sessions, Contents()[i..], owner) == CountOwner(sessions, Contents(), owner)
      {
        var id := slots[i].value;
        assert Contents()[i..][0] == id && Contents()[i..][1..] == Contents()[i + 1..];
        if id in sessions && sessions[id].owner == owner { n := n + 1; }
        i := i + 1;
      }
    }
  }

  lemma {:induction false} WithoutFirst(table: seq<nat>, id: nat, index: nat)
    requires index < |table| && table[index] == id && forall k | 0 <= k < index :: table[k] != id
    ensures Without(table, id) == table[..index] + table[index + 1..]
  {
    if index > 0 {
      WithoutFirst(table[1..], id, index - 1);
      assert table[..index] == [table[0]] + table[1..][..index - 1];
    }
  }

  lemma {:induction false} WithoutAbsent(table: seq<nat>, id: nat)
    requires id !in table
    ensures Without(table, id) == table
  {
    if table != [] { WithoutAbsent(table[1..], id); }
  }
}
