/** What holds of sessions over whole runs of a service: no use after free, no reuse of
    an id or sharing of a connection, final upload outcomes, limits, and a stop that
    always can finish. */
module SessionRuns {
  import opened Options
  import opened Sessions

  /** The states a new service can get into. */
  ghost predicate Reachable(s: Service) {
    exists threads: nat, maxOpen: nat, maxPerIdentity: nat, steps: seq<Step> ::
      Run(Fresh(threads, maxOpen, maxPerIdentity), steps) == Some(s)
  }

  lemma ReachableInv(s: Service)
    requires Reachable(s)
    ensures Inv(s)
  {
    hide Run, Fresh, Inv;
    var threads: nat, maxOpen: nat, maxPerIdentity: nat, steps :|
      Run(Fresh(threads, maxOpen, maxPerIdentity), steps) == Some(s);
    FreshHolds(threads, maxOpen, maxPerIdentity);
    RunKeeps(Fresh(threads, maxOpen, maxPerIdentity), steps);
  }

  // ---- no use after free ----

  lemma {:induction false} InHolders(threads: seq<Thread>, t: nat)
    requires t < |threads|
    ensures Holds(threads[t]) <= Holders(threads) && Owns(threads[t]) <= Owned(threads)
  {
    HoldersChange(threads, t, threads[t]);
    OwnedChange(threads, t, threads[t]);
  }

  /** A session some thread uses is live and counts that thread. */
  lemma UsedIsLive(s: Service, t: nat)
    requires Reachable(s) && t < |s.threads| && s.threads[t].Using?
    ensures var id := s.threads[t].id;
      id in s.sessions && id !in s.freed && s.sessions[id].refs > 0
  {
    hide Reachable, Placed, Marked, Pooled, Decided, Holders, Owned;
    ReachableInv(s);
    InHolders(s.threads, t);
    assert s.threads[t].id in Holds(s.threads[t]);
  }

  /** A session some thread is to destroy is live, out of the table and closing, and no
      other thread, nor the same one twice, is to destroy it. */
  lemma OwnedIsDetached(s: Service, t: nat, i: nat)
    requires Reachable(s) && t < |s.threads| && s.threads[t].Owning? && i < |s.threads[t].ids|
    ensures var id := s.threads[t].ids[i];
      && id in s.sessions && id !in s.freed && id !in s.table && s.sessions[id].closing
      && Owned(s.threads)[id] == 1
  {
    hide Reachable, Counted, Pooled, Decided, Holders, Owned;
    ReachableInv(s);
    InHolders(s.threads, t);
    var id := s.threads[t].ids[i];
    assert id in Owns(s.threads[t]);
    assert id in Owned(s.threads);
    PlacedOnce(s.table, s.threads, s.sessions.Keys, id);
  }

  /** No two sessions, and no session and opening thread, share a pool connection, and no
      connection is busy for nobody. */
  lemma ConnectionsNotShared(s: Service)
    requires Reachable(s)
    ensures forall a, b | a in s.sessions && b in s.sessions && a != b :: s.sessions[a].slot != s.sessions[b].slot
    ensures forall id, t | id in s.sessions && 0 <= t < |s.threads| && s.threads[t].Opening? ::
      s.sessions[id].slot != s.threads[t].slot
    ensures forall slot <- s.pool ::
      (exists id :: id in s.sessions && s.sessions[id].slot == slot)
      || (exists t :: 0 <= t < |s.threads| && s.threads[t] == Opening(slot))
  {
    hide Reachable, Placed, Counted, Marked, Numbered, Decided;
    ReachableInv(s);
  }

  // ---- nothing is undone ----

  /** What history only adds to. */
  predicate Extends(s: Service, later: Service) {
    && s.freed <= later.freed && s.nextId <= later.nextId
    && s.uploads <= later.uploads && s.rolledBack <= later.rolledBack
    && (forall id <- s.committed :: id in later.committed && later.committed[id] == s.committed[id])
    && (s.shuttingDown ==> later.shuttingDown)
  }

  lemma StepExtends(s: Service, step: Step)
    requires Inv(s) && Next(s, step).Some?
    ensures Extends(s, Next(s, step).value)
  {
    hide Placed, Counted, Marked, Numbered, Pooled, Closing, Without, MayAdd, OwnerAuth;
    if step.Commit? && step.thread < |s.threads| && s.threads[step.thread].Owning? && s.threads[step.thread].ids != [] {
      var id := s.threads[step.thread].ids[0];
      assert id in s.sessions && s.sessions[id].txnOpen ==> id !in s.committed;
    }
  }

  lemma {:induction false} RunExtends(s: Service, steps: seq<Step>)
    requires Inv(s) && Run(s, steps).Some?
    ensures Extends(s, Run(s, steps).value)
    decreases |steps|
  {
    hide Inv, Next;
    if steps != [] {
      StepKeeps(s, steps[0]);
      StepExtends(s, steps[0]);
      RunExtends(Next(s, steps[0]).value, steps[1..]);
    }
  }

  /** Once freed, an id is never live again, however long the service runs. */
  lemma FreedForGood(s: Service, steps: seq<Step>, id: nat)
    requires Reachable(s) && Run(s, steps).Some? && id in s.freed
    ensures id !in Run(s, steps).value.sessions && id !in Run(s, steps).value.table
  {
    hide Reachable, Run, Counted, Marked, Pooled, Decided;
    ReachableInv(s);
    RunKeeps(s, steps);
    RunExtends(s, steps);
    var s' := Run(s, steps).value;
    PlacedOnce(s'.table, s'.threads, s'.sessions.Keys, id);
  }

  /** A freed upload was committed or rolled back, not both, and stays so. */
  lemma UploadOutcomeIsFinal(s: Service, steps: seq<Step>, id: nat)
    requires Reachable(s) && Run(s, steps).Some? && id in s.freed && id in s.uploads
    ensures id in s.committed <==> id !in s.rolledBack
    ensures var s' := Run(s, steps).value;
      && (id in s'.committed <==> id in s.committed) && (id in s'.rolledBack <==> id in s.rolledBack)
      && (id in s.committed ==> s'.committed[id] == s.committed[id])
  {
    hide Reachable, Run, Placed, Counted, Marked, Pooled;
    ReachableInv(s);
    RunKeeps(s, steps);
    RunExtends(s, steps);
  }

  /** Only a commit that flushed and ran COMMIT makes rows durable, and then all that the
      appender holds; it reports the rows that were counted. */
  lemma OnlyCommitCommits(s: Service, step: Step, id: nat)
    requires Inv(s) && Next(s, step).Some? && id !in s.committed && id in Next(s, step).value.committed
    ensures step.Commit? && step.committed && id in s.sessions && (s.sessions[id].appenderOpen ==> step.flushed)
    ensures Next(s, step).value.committed[id] == Saved(s.sessions[id].rows, s.sessions[id].buffered)
    ensures Is(s, step.thread, Owning([id], true))
  {
    hide Placed, Counted, Marked, Numbered, Pooled, Closing, Without, MayAdd, OwnerAuth;
  }

  // ---- limits ----

  /** No more open sessions than the limit, in all and for each identity. */
  ghost predicate Within(s: Service) {
    && (s.maxOpen > 0 ==> |s.table| <= s.maxOpen)
    && (s.maxPerIdentity > 0 ==>
      forall owner | owner != "" :: CountOwner(s.sessions, s.table, owner) <= s.maxPerIdentity)
  }

  /** A count looks at the owners of the table's sessions only. */
  lemma {:induction false} SameOwners(a: map<nat, Session>, b: map<nat, Session>, table: seq<nat>, owner: string)
    requires forall id <- table :: (id in a <==> id in b) && (id in a ==> a[id].owner == b[id].owner)
    ensures CountOwner(a, table, owner) == CountOwner(b, table, owner)
  {
    if table != [] { SameOwners(a, b, table[1..], owner); }
  }

  lemma {:induction false} CountWithout(sessions: map<nat, Session>, table: seq<nat>, id: nat, owner: string)
    ensures CountOwner(sessions, Without(table, id), owner) <= CountOwner(sessions, table, owner)
    ensures |Without(table, id)| <= |table|
  {
    if table != [] && table[0] != id {
      CountWithout(sessions, table[1..], id, owner);
      assert Without(table, id)[1..] == Without(table[1..], id);
    }
  }

  lemma {:induction false} CountAppend(sessions: map<nat, Session>, table: seq<nat>, id: nat, owner: string)
    ensures CountOwner(sessions, table + [id], owner)
      == CountOwner(sessions, table, owner) + (if id in sessions && sessions[id].owner == owner then 1 else 0)
  {
    if table == [] {
      assert ([id])[1..] == [];
    } else {
      assert (table + [id])[1..] == table[1..] + [id];
      CountAppend(sessions, table[1..], id, owner);
    }
  }

  lemma WithoutIsPart(table: seq<nat>, id: nat)
    ensures forall k <- Without(table, id) :: k in table
  {
    if table != [] && table[0] != id { WithoutIsPart(table[1..], id); }
  }

  ghost predicate Shrunk(table: seq<nat>, table': seq<nat>) {
    table' == table || table' == [] || exists id :: table' == Without(table, id)
  }

  /** A step other than an add leaves the table alone or takes sessions out of it. */
  lemma TableShrinks(s: Service, step: Step)
    requires Next(s, step).Some? && !step.Add?
    ensures Shrunk(s.table, Next(s, step).value.table)
  {
    hide MayAdd, OwnerAuth, Without, Closing;
    var s' := Next(s, step).value;
    if step.Remove? || step.Prune? {
      assert s'.table == s.table || s'.table == Without(s.table, step.id);
    }
  }

  ghost predicate SameOwned(s: Service, s': Service) {
    forall id <- s'.sessions :: id in s.sessions && s'.sessions[id].owner == s.sessions[id].owner
  }

  lemma OwnersKept(s: Service, step: Step)
    requires Next(s, step).Some? && !step.Add?
    ensures SameOwned(s, Next(s, step).value)
  {
    hide Next, SameOwned;
    if step.Remove? || step.Prune? || step.DetachAll? {
      DetachingOwners(s, step);
    } else {
      OtherOwners(s, step);
    }
  }

  lemma DetachingOwners(s: Service, step: Step)
    requires Next(s, step).Some? && (step.Remove? || step.Prune? || step.DetachAll?)
    ensures SameOwned(s, Next(s, step).value)
  {
    hide OwnerAuth, Without, Closing;
    ClosingOwners(s.sessions, s.table);
    if !step.DetachAll? { ClosingOwners(s.sessions, [step.id]); }
  }

  lemma OtherOwners(s: Service, step: Step)
    requires Next(s, step).Some? && !step.Add? && !step.Remove? && !step.Prune? && !step.DetachAll?
    ensures SameOwned(s, Next(s, step).value)
  {
    hide OwnerAuth;
  }

  lemma ClosingOwners(sessions: map<nat, Session>, ids: seq<nat>)
    ensures var sessions' := Closing(sessions, ids);
      forall id <- sessions' :: id in sessions && sessions'[id].owner == sessions[id].owner
  {
  }

  lemma TableIsLive(s: Service)
    requires Inv(s)
    ensures forall id <- s.table :: id in s.sessions
  {
    hide Placed, Counted, Marked, Numbered, Pooled, Decided;
    forall id <- s.table ensures id in s.sessions {
      PlacedOnce(s.table, s.threads, s.sessions.Keys, id);
    }
  }

  lemma StepWithin(s: Service, step: Step)
    requires Inv(s) && Within(s) && Next(s, step).Some? && !step.SetLimits?
    ensures Within(Next(s, step).value)
  {
    hide Inv, Next;
    if step.Add? {
      AddWithin(s, step);
    } else {
      var s' := Next(s, step).value;
      TableShrinks(s, step);
      OwnersKept(s, step);
      StepKeeps(s, step);
      TableIsLive(s');
      LimitsStay(s, step);
      forall owner ensures CountOwner(s'.sessions, s'.table, owner) <= CountOwner(s.sessions, s.table, owner) {
        CountShrinks(s, s', owner);
      }
      LengthShrinks(s.table, s'.table);
    }
  }

  lemma LimitsStay(s: Service, step: Step)
    requires Next(s, step).Some? && !step.SetLimits?
    ensures var s' := Next(s, step).value; s'.maxOpen == s.maxOpen && s'.maxPerIdentity == s.maxPerIdentity
  {
    hide MayAdd, OwnerAuth, Without, Closing;
  }

  lemma LengthShrinks(table: seq<nat>, table': seq<nat>)
    requires Shrunk(table, table')
    ensures |table'| <= |table|
  {
    if table' != table && table' != [] {
      var id :| table' == Without(table, id);
      CountWithout(map[], table, id, "");
    }
  }

  lemma CountShrinks(s: Service, s': Service, owner: string)
    requires Shrunk(s.table, s'.table)
    requires SameOwned(s, s') && forall id <- s'.table :: id in s'.sessions
    ensures CountOwner(s'.sessions, s'.table, owner) <= CountOwner(s.sessions, s.table, owner)
  {
    SameOwners(s'.sessions, s.sessions, s'.table, owner);
    if s'.table != s.table && s'.table != [] {
      var id :| s'.table == Without(s.table, id);
      CountWithout(s.sessions, s.table, id, owner);
    }
  }

  lemma AddWithin(s: Service, step: Step)
    requires Inv(s) && Within(s) && step.Add? && Next(s, step).Some?
    ensures Within(Next(s, step).value)
  {
    var s' := Next(s, step).value;
    if s' != s {
      hide Inv, CountOwner;
      assert MayAdd(s, step.owner);
      forall owner ensures CountOwner(s'.sessions, s'.table, owner)
          == CountOwner(s.sessions, s.table, owner) + (if step.owner == owner then 1 else 0) {
        CountAppend(s'.sessions, s.table, s.nextId, owner);
        NewId(s);
        SameOwners(s'.sessions, s.sessions, s.table, owner);
      }
    }
  }

  /** With limits that are not changed, no run exceeds them. */
  lemma {:induction false} RunWithin(s: Service, steps: seq<Step>)
    requires Inv(s) && Within(s) && Run(s, steps).Some? && forall step <- steps :: !step.SetLimits?
    ensures Within(Run(s, steps).value)
    decreases |steps|
  {
    hide Inv, Next, Within;
    if steps != [] {
      StepKeeps(s, steps[0]);
      StepWithin(s, steps[0]);
      RunWithin(Next(s, steps[0]).value, steps[1..]);
    }
  }

  /** Limits that are set and then left alone are kept, if they were not exceeded when set. */
  lemma SetLimitsHold(s: Service, open: nat, each: nat, steps: seq<Step>)
    requires Inv(s) && Run(s, [SetLimits(open, each)] + steps).Some? && forall step <- steps :: !step.SetLimits?
    requires open > 0 ==> |s.table| <= open
    requires each > 0 ==> forall owner | owner != "" :: CountOwner(s.sessions, s.table, owner) <= each
    ensures var s' := Run(s, [SetLimits(open, each)] + steps).value;
      && (open > 0 ==> |s'.table| <= open)
      && (each > 0 ==> forall owner | owner != "" :: CountOwner(s'.sessions, s'.table, owner) <= each)
  {
    hide Next, Inv, CountOwner;
    assert ([SetLimits(open, each)] + steps)[1..] == steps;
    LimitsSet(s, open, each);
    StepKeeps(s, SetLimits(open, each));
    var s1 := Next(s, SetLimits(open, each)).value;
    RunWithin(s1, steps);
    LimitsStayRun(s1, steps);
  }

  lemma LimitsSet(s: Service, open: nat, each: nat)
    ensures Next(s, SetLimits(open, each)) == Some(s.(maxOpen := open, maxPerIdentity := each))
  {
  }

  lemma {:induction false} LimitsStayRun(s: Service, steps: seq<Step>)
    requires Run(s, steps).Some? && forall step <- steps :: !step.SetLimits?
    ensures var s' := Run(s, steps).value; s'.maxOpen == s.maxOpen && s'.maxPerIdentity == s.maxPerIdentity
    decreases |steps|
  {
    hide Next;
    if steps != [] {
      LimitsStay(s, steps[0]);
      LimitsStayRun(Next(s, steps[0]).value, steps[1..]);
    }
  }

  // ---- detached sessions ----

  /** Nobody gets hold of a session that has left the table: it stays out, and the
      number of its users only falls. */
  lemma DetachedOnlyDrains(s: Service, step: Step, id: nat)
    requires Inv(s) && Next(s, step).Some? && id in s.sessions && id !in s.table
    ensures var s' := Next(s, step).value;
      id !in s'.table && (id in s'.sessions ==> s'.sessions[id].refs <= s.sessions[id].refs)
  {
    hide Placed, Counted, Marked, Pooled, Decided, MayAdd, OwnerAuth, Without;
    if step.Remove? || step.Prune? { WithoutIsPart(s.table, step.id); }
    assert id != s.nextId;
  }

  lemma {:induction false} DetachedOnlyDrainsRun(s: Service, steps: seq<Step>, id: nat)
    requires Inv(s) && Run(s, steps).Some? && id in s.sessions && id !in s.table
    ensures var s' := Run(s, steps).value;
      id !in s'.table && (id in s'.sessions ==> s'.sessions[id].refs <= s.sessions[id].refs)
    decreases |steps|
  {
    hide Inv, Next;
    if steps != [] {
      StepKeeps(s, steps[0]);
      DetachedOnlyDrains(s, steps[0], id);
      var s1 := Next(s, steps[0]).value;
      if id in s1.sessions {
        DetachedOnlyDrainsRun(s1, steps[1..], id);
      } else {
        GoneIsGone(s, steps, id);
      }
    }
  }

  lemma GoneIsGone(s: Service, steps: seq<Step>, id: nat)
    requires Inv(s) && steps != [] && Run(s, steps).Some? && id in s.sessions && id !in Next(s, steps[0]).value.sessions
    ensures id !in Run(s, steps).value.sessions && id !in Run(s, steps).value.table
  {
    hide Run, Next, Placed, Counted, Marked, Pooled, Decided;
    assert Run(s, steps) == Run(Next(s, steps[0]).value, steps[1..]) by { RunFirst(s, steps); }
    var s1 := Next(s, steps[0]).value;
    StepKeeps(s, steps[0]);
    StepExtends(s, steps[0]);
    assert id in s1.freed;
    RunKeeps(s1, steps[1..]);
    RunExtends(s1, steps[1..]);
    var s' := Run(s1, steps[1..]).value;
    PlacedOnce(s'.table, s'.threads, s'.sessions.Keys, id);
  }

  lemma RunFirst(s: Service, steps: seq<Step>)
    requires steps != [] && Run(s, steps).Some?
    ensures Next(s, steps[0]).Some? && Run(s, steps) == Run(Next(s, steps[0]).value, steps[1..])
  {
  }

  /** So the pruner, which takes unused sessions only, never waits to destroy one. */
  lemma PruneNeverWaits(s: Service, t: nat, id: nat, steps: seq<Step>)
    requires Inv(s) && Is(s, t, Idle) && id in s.table && id in s.sessions && s.sessions[id].refs == 0
    requires Run(Detached(s, t, id, false), steps).Some?
    ensures var s' := Run(Detached(s, t, id, false), steps).value;
      Is(s', t, Owning([id], false)) && id in s'.sessions ==> Next(s', Destroy(t)).Some?
  {
    var s1 := Detached(s, t, id, false);
    DetachKeeps(s, t, id, false);
    hide Placed, Counted, Marked, Numbered, Pooled, Decided, Run, Next;
    assert id !in s1.table by { DetachLeaves(s, t, id); }
    DetachedOnlyDrainsRun(s1, steps, id);
    DestroyEnabled(Run(s1, steps).value, t, id);
  }

  lemma DetachLeaves(s: Service, t: nat, id: nat)
    requires Inv(s) && Is(s, t, Idle) && id in s.table
    ensures id !in Detached(s, t, id, false).table
  {
    hide Counted, Pooled, Decided;
    DetachKeeps(s, t, id, false);
    var s1 := Detached(s, t, id, false);
    OwnedChange(s.threads, t, Owning([id], false));
    assert id in Owned(s1.threads);
    PlacedOnce(s1.table, s1.threads, s1.sessions.Keys, id);
  }

  lemma DestroyEnabled(s: Service, t: nat, id: nat)
    requires id in s.sessions ==> s.sessions[id].refs == 0
    ensures Is(s, t, Owning([id], false)) && id in s.sessions ==> Next(s, Destroy(t)).Some?
  {
  }

  // ---- stopping ----

  /** Once a stop has begun no session is let in, however long the threads go on. */
  lemma StopAdmitsNobody(s: Service, steps: seq<Step>)
    requires Run(s, [BeginStop] + steps).Some?
    ensures Run(s, [BeginStop] + steps).value.nextId == s.nextId
    ensures forall id <- Run(s, [BeginStop] + steps).value.sessions :: id in s.sessions
  {
    hide Next;
    assert ([BeginStop] + steps)[1..] == steps;
    StopBegun(s);
    StoppingAdmitsNobody(Next(s, BeginStop).value, steps);
  }

  lemma StopBegun(s: Service)
    ensures Next(s, BeginStop).Some?
    ensures var s' := Next(s, BeginStop).value; s'.shuttingDown && s'.nextId == s.nextId && s'.sessions == s.sessions
  {
  }

  lemma {:induction false} StoppingAdmitsNobody(s: Service, steps: seq<Step>)
    requires s.shuttingDown && Run(s, steps).Some?
    ensures Run(s, steps).value.nextId == s.nextId
    ensures forall id <- Run(s, steps).value.sessions :: id in s.sessions
    decreases |steps|
  {
    hide Next;
    if steps != [] {
      StoppingStep(s, steps[0]);
      StoppingAdmitsNobody(Next(s, steps[0]).value, steps[1..]);
    }
  }

  lemma StoppingStep(s: Service, step: Step)
    requires s.shuttingDown && Next(s, step).Some?
    ensures var s' := Next(s, step).value;
      s'.shuttingDown && s'.nextId == s.nextId && forall id <- s'.sessions :: id in s.sessions
  {
    hide OwnerAuth, CountOwner, Without;
  }

  /** After the stop has emptied the table nothing enters it again. */
  lemma {:induction false} StoppedStaysEmpty(s: Service, steps: seq<Step>)
    requires s.shuttingDown && s.table == [] && Run(s, steps).Some?
    ensures Run(s, steps).value.shuttingDown && Run(s, steps).value.table == []
    decreases |steps|
  {
    hide Next;
    if steps != [] {
      StoppedStep(s, steps[0]);
      StoppedStaysEmpty(Next(s, steps[0]).value, steps[1..]);
    }
  }

  lemma StoppedStep(s: Service, step: Step)
    requires s.shuttingDown && s.table == [] && Next(s, step).Some?
    ensures Next(s, step).value.shuttingDown && Next(s, step).value.table == []
  {
    hide OwnerAuth, Closing, CountOwner;
  }

  /** What the threads still have to let go of. */
  function Weight(threads: seq<Thread>): nat {
    if threads == [] then 0 else
    var first := match threads[0] case Using(_) => 1 case Owning(ids, _) => 1 + |ids| case _ => 0;
    first + Weight(threads[1..])
  }

  lemma {:induction false} WeightFalls(threads: seq<Thread>, t: nat, l: Thread)
    requires t < |threads|
    requires Weight([l]) < Weight([threads[t]])
    ensures Weight(threads[t := l]) < Weight(threads)
  {
    assert [l][1..] == [] && [threads[t]][1..] == [];
    if t == 0 {
      assert threads[t := l][1..] == threads[1..];
    } else {
      assert threads[t := l][1..] == threads[1..][t - 1 := l];
      WeightFalls(threads[1..], t - 1, l);
    }
  }

  lemma {:induction false} NothingHeld(threads: seq<Thread>)
    ensures (forall t | 0 <= t < |threads| :: !threads[t].Using?) ==> Holders(threads) == multiset{}
    ensures (forall t | 0 <= t < |threads| :: !threads[t].Owning?) ==> Owned(threads) == multiset{}
  {
    if threads != [] {
      NothingHeld(threads[1..]);
      assert threads == [threads[0]] + threads[1..];
    }
  }

  predicate LetsGo(step: Step) {
    step.Release? || step.Destroy?
  }

  /** No deadlock: from every reachable state, users releasing and owners destroying - in
      some order, with nobody else's help - bring every detached session to its end.
      The table is left alone. */
  lemma {:induction false} Drains(s: Service) returns (steps: seq<Step>)
    requires Inv(s)
    ensures forall step <- steps :: LetsGo(step)
    ensures Run(s, steps).Some?
    ensures var s' := Run(s, steps).value;
      && s'.table == s.table && s'.shuttingDown == s.shuttingDown && Inv(s')
      && (forall t | 0 <= t < |s'.threads| :: !s'.threads[t].Using? && !s'.threads[t].Owning?)
      && multiset(s'.sessions.Keys) == multiset(s.table)
    decreases Weight(s.threads)
  {
    hide Placed, Counted, Marked, Numbered, Pooled, Decided, Next;
    if t :| 0 <= t < |s.threads| && (s.threads[t].Using? || (s.threads[t].Owning? && NobodyUses(s.threads))) {
      var step := if s.threads[t].Using? then Release(t) else Destroy(t);
      LettingGo(s, t, step);
      var s1 := Next(s, step).value;
      StepKeeps(s, step);
      var rest := Drains(s1);
      steps := [step] + rest;
      assert steps[1..] == rest;
    } else {
      steps := [];
      AllDrained(s);
    }
  }

  predicate NobodyUses(threads: seq<Thread>) {
    forall t | 0 <= t < |threads| :: !threads[t].Using?
  }

  lemma LettingGo(s: Service, t: nat, step: Step)
    requires Inv(s) && t < |s.threads|
    requires (s.threads[t].Using? && step == Release(t))
      || (s.threads[t].Owning? && NobodyUses(s.threads) && step == Destroy(t))
    ensures Next(s, step).Some?
    ensures var s' := Next(s, step).value;
      s'.table == s.table && s'.shuttingDown == s.shuttingDown && Weight(s'.threads) < Weight(s.threads)
  {
    hide Marked, Numbered, Pooled, Decided, Holders, Owned, Weight;
    InHolders(s.threads, t);
    NothingHeld(s.threads);
    var l := s.threads[t];
    if l.Using? {
      assert l.id in Holds(l);
      WeightOne(l, Idle);
      WeightFalls(s.threads, t, Idle);
    } else {
      var id := l.ids[0];
      assert id in Owns(l);
      assert id in Owned(s.threads);
      PlacedOnce(s.table, s.threads, s.sessions.Keys, id);
      var l' := if |l.ids| == 1 then Idle else Owning(l.ids[1..], false);
      WeightOne(l, l');
      WeightFalls(s.threads, t, l');
    }
  }

  lemma WeightOne(l: Thread, l': Thread)
    requires l' == Idle || (l.Owning? && l'.Owning? && |l'.ids| < |l.ids|)
    requires l.Using? || l.Owning?
    ensures Weight([l']) < Weight([l])
  {
    assert [l][1..] == [] && [l'][1..] == [];
  }

  lemma AllDrained(s: Service)
    requires Inv(s)
    requires forall t | 0 <= t < |s.threads| ::
      !s.threads[t].Using? && !(s.threads[t].Owning? && NobodyUses(s.threads))
    ensures forall t | 0 <= t < |s.threads| :: !s.threads[t].Using? && !s.threads[t].Owning?
    ensures multiset(s.sessions.Keys) == multiset(s.table)
  {
    hide Counted, Marked, Numbered, Pooled, Decided, Owned, Holders;
    assert NobodyUses(s.threads);
    NothingHeld(s.threads);
  }

  /** A stop always can finish: once the service is shutting down, an idle thread that
      detaches everything and the threads letting go of what they have free every
      session and decide every upload. */
  lemma StopFreesEverything(s: Service, t: nat) returns (steps: seq<Step>)
    requires Reachable(s) && s.shuttingDown && Is(s, t, Idle)
    ensures Run(s, steps).Some? && |steps| >= 1 && steps[0] == DetachAll(t) && forall step <- steps[1..] :: LetsGo(step)
    ensures var s' := Run(s, steps).value;
      && s'.sessions == map[] && s'.table == []
      && (forall id <- s'.uploads :: id in s'.committed <==> id !in s'.rolledBack)
      && (forall slot <- s'.pool :: s'.pool[slot].ByThread?)
  {
    hide Reachable, Placed, Counted, Marked, Numbered, Closing;
    ReachableInv(s);
    StepKeeps(s, DetachAll(t));
    var s1 := Next(s, DetachAll(t)).value;
    var rest := Drains(s1);
    steps := [DetachAll(t)] + rest;
    assert steps[1..] == rest;
    var s' := Run(s1, rest).value;
    assert forall id :: id in multiset(s'.sessions.Keys) <==> id in s'.sessions;
    assert s'.sessions.Keys == {};
  }
}
