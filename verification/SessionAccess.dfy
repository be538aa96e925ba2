/** Who may use, end and commit a session, over single steps and whole runs: only who shows
    the token it was opened with and, if it has an owner, is that owner
    (src/ducknng_session.c, lines 73-84 and 435-477). */
module SessionAccess {
  import opened Options
  import opened Outcomes
  import opened SessionRuns
  import opened Sessions

  /** The token opens the session, and the caller is its owner if it has one. */
  predicate Entitled(x: Session, token: string, caller: string) {
    token != "" && token == x.token && (x.owner == "" || x.owner == caller)
  }

  // ---- single steps ----

  /** An idle thread gets hold of a session if and only if it is in the table and the request
      is entitled to it; otherwise nothing changes. */
  lemma AcquireIff(s: Service, t: nat, id: nat, token: string, caller: string)
    requires Inv(s) && Is(s, t, Idle)
    ensures Next(s, Acquire(t, id, token, caller)).Some?
    ensures var s' := Next(s, Acquire(t, id, token, caller)).value;
      && (s'.threads[t] == Using(id) <==>
            id in s.table && id in s.sessions && token != "" && token == s.sessions[id].token
            && (s.sessions[id].owner == "" || s.sessions[id].owner == caller))
      && (s'.threads[t] != Using(id) ==> s' == s)
  {
    hide Placed, Counted, Numbered, Pooled, Decided;
  }

  /** The same for removing it: the thread then is the one that may commit and must destroy it. */
  lemma RemoveIff(s: Service, t: nat, id: nat, token: string, caller: string)
    requires Inv(s) && Is(s, t, Idle)
    ensures Next(s, Remove(t, id, token, caller)).Some?
    ensures var s' := Next(s, Remove(t, id, token, caller)).value;
      && (s'.threads[t] == Owning([id], true) <==>
            id in s.table && id in s.sessions && token != "" && token == s.sessions[id].token
            && (s.sessions[id].owner == "" || s.sessions[id].owner == caller))
      && (s'.threads[t] != Owning([id], true) ==> s' == s)
  {
    hide Placed, Counted, Numbered, Pooled, Decided, Without, Closing;
  }

  /** The pruner takes a session of the table if and only if nobody uses it, and may not commit it. */
  lemma PruneIff(s: Service, t: nat, id: nat)
    requires Inv(s) && Is(s, t, Idle) && id in s.table && id in s.sessions
    ensures Next(s, Prune(t, id)).Some?
    ensures var s' := Next(s, Prune(t, id)).value;
      if Holders(s.threads)[id] == 0 then s'.threads[t] == Owning([id], false) else s' == s
  {
    hide Placed, Numbered, Pooled, Decided, Without, Closing, Holders;
  }

  /** The sessions of an owner, by their places in the table. */
  function PlacesOf(sessions: map<nat, Session>, table: seq<nat>, owner: string): set<int> {
    set i | 0 <= i < |table| && table[i] in sessions && sessions[table[i]].owner == owner
  }

  lemma {:induction false} CountIs(sessions: map<nat, Session>, table: seq<nat>, owner: string)
    ensures CountOwner(sessions, table, owner) == |PlacesOf(sessions, table, owner)|
  {
    hide CountOwner;
    if table == [] {
      assert PlacesOf(sessions, table, owner) == {};
      CountAppendNothing(sessions, owner);
    } else {
      var n := |table| - 1;
      var init := table[..n];
      assert table == init + [table[n]];
      CountAppend(sessions, init, table[n], owner);
      CountIs(sessions, init, owner);
      var places := PlacesOf(sessions, init, owner);
      if table[n] in sessions && sessions[table[n]].owner == owner {
        assert PlacesOf(sessions, table, owner) == places + {n};
      } else {
        assert PlacesOf(sessions, table, owner) == places;
      }
    }
  }

  lemma CountAppendNothing(sessions: map<nat, Session>, owner: string)
    ensures CountOwner(sessions, [], owner) == 0
  {
  }

  /** A new session is let in if and only if the service is not stopping and no limit is
      reached; it then has the next id and the credentials of the request. */
  lemma AddIff(s: Service, t: nat, owner: string, token: string, upload: bool)
    requires Inv(s) && t < |s.threads| && s.threads[t].Opening?
    ensures Next(s, Add(t, owner, token, upload)).Some?
    ensures var s' := Next(s, Add(t, owner, token, upload)).value;
      if !s.shuttingDown && (s.maxOpen == 0 || |s.table| < s.maxOpen)
         && (s.maxPerIdentity == 0 || owner == "" || |PlacesOf(s.sessions, s.table, owner)| < s.maxPerIdentity) then
        && s'.table == s.table + [s.nextId] && s'.nextId == s.nextId + 1 && s'.threads[t] == Idle
        && s'.sessions == s.sessions[s.nextId := s'.sessions[s.nextId]]
        && var x := s'.sessions[s.nextId];
           && x.owner == owner && x.token == token && x.upload == upload && x.refs == 0 && !x.closing
           && x.slot == s.threads[t].slot && x.appenderOpen == x.txnOpen == upload && x.rows == x.buffered == 0
      else s' == s
  {
    hide Inv, CountOwner, PlacesOf;
    CountIs(s.sessions, s.table, owner);
  }

  /** What a commit request decides about an open upload: it is committed if and only if the
      appender, if still open, was flushed and COMMIT succeeded; it is rolled back at once if and
      only if COMMIT failed; after a failed flush it is left to the destroy. */
  lemma CommitMeans(s: Service, t: nat, id: nat, flushed: bool, committed: bool)
    requires Inv(s) && Is(s, t, Owning([id], true)) && id in s.sessions && s.sessions[id].txnOpen
    ensures Next(s, Commit(t, flushed, committed)).Some?
    ensures var s' := Next(s, Commit(t, flushed, committed)).value;
      var reached := !s.sessions[id].appenderOpen || flushed;
      && (id in s'.committed <==> reached && committed) && (id in s'.rolledBack <==> reached && !committed)
      && id in s'.sessions && !s'.sessions[id].appenderOpen && (s'.sessions[id].txnOpen <==> !reached)
      && s'.threads[t] == Owning([id], false) && s'.table == s.table
  {
    hide Placed, Counted, Marked, Numbered, Pooled;
  }

  // ---- runs ----

  lemma {:induction false} RunLast(s: Service, steps: seq<Step>)
    requires steps != [] && Run(s, steps).Some?
    ensures var n := |steps| - 1;
      Run(s, steps[..n]).Some? && Next(Run(s, steps[..n]).value, steps[n]) == Run(s, steps)
    decreases |steps|
  {
    hide Next;
    var n := |steps| - 1;
    if n == 0 {
      assert steps[..n] == [] && steps[1..] == [];
    } else {
      var init := steps[..n];
      assert init[0] == steps[0] && init[1..] == steps[1..][..n - 1];
      RunLast(Next(s, steps[0]).value, steps[1..]);
    }
  }

  predicate SameCredentials(x: Session, y: Session) {
    x.owner == y.owner && x.token == y.token && x.upload == y.upload
  }

  /** The step opened the session, with the credentials it has. */
  predicate Opens(step: Step, x: Session) {
    step.Add? && x.owner == step.owner && x.token == step.token && x.upload == step.upload
  }

  /** A session keeps its credentials; a new one has those of its add. */
  lemma CredentialsKept(s: Service, step: Step, id: nat)
    requires Inv(s) && Next(s, step).Some? && id in Next(s, step).value.sessions
    ensures var x := Next(s, step).value.sessions[id];
      if id in s.sessions then SameCredentials(s.sessions[id], x) else id == s.nextId && Opens(step, x)
  {
    hide Next, Inv;
    NewId(s);
    if step.Remove? || step.Prune? || step.DetachAll? {
      DetachingCredentials(s, step, id);
    } else {
      OtherCredentials(s, step, id);
    }
  }

  lemma DetachingCredentials(s: Service, step: Step, id: nat)
    requires Next(s, step).Some? && (step.Remove? || step.Prune? || step.DetachAll?)
    requires id in Next(s, step).value.sessions
    ensures id in s.sessions && SameCredentials(s.sessions[id], Next(s, step).value.sessions[id])
  {
    hide OwnerAuth, Without;
  }

  lemma OtherCredentials(s: Service, step: Step, id: nat)
    requires Next(s, step).Some? && !step.Remove? && !step.Prune? && !step.DetachAll?
    requires id in Next(s, step).value.sessions
    ensures var x := Next(s, step).value.sessions[id];
      || (id in s.sessions && SameCredentials(s.sessions[id], x))
      || (id == s.nextId && Opens(step, x))
  {
    hide OwnerAuth, MayAdd;
  }

  /** Between steps a thread comes to use or own a session only by its own entitled request. */
  lemma UsingFrom(s: Service, step: Step, t: nat, id: nat)
    requires Inv(s) && Next(s, step).Some? && Is(Next(s, step).value, t, Using(id)) && !Is(s, t, Using(id))
    ensures step.Acquire? && step.thread == t && step.id == id && id in s.sessions
    ensures Entitled(s.sessions[id], step.token, step.caller)
  {
    hide Placed, Counted, Numbered, Pooled, Decided, Without, Closing, MayAdd;
  }

  lemma OwningFrom(s: Service, step: Step, t: nat, id: nat)
    requires Inv(s) && Next(s, step).Some? && Is(Next(s, step).value, t, Owning([id], true))
      && !Is(s, t, Owning([id], true))
    ensures step.Remove? && step.thread == t && step.id == id && id in s.sessions
    ensures Entitled(s.sessions[id], step.token, step.caller)
  {
    hide Placed, Counted, Numbered, Pooled, Decided, Without, Closing, MayAdd;
  }

  /** Step `j` of the run opened session `id`. */
  predicate OpenedAt(start: Service, steps: seq<Step>, j: nat, id: nat) {
    j < |steps| && steps[j].Add? && Run(start, steps[..j]).Some? && Run(start, steps[..j]).value.nextId == id
  }

  lemma {:induction false} FindOpening(start: Service, steps: seq<Step>, id: nat) returns (j: nat)
    requires Inv(start) && start.sessions == map[] && Run(start, steps).Some? && id in Run(start, steps).value.sessions
    ensures OpenedAt(start, steps, j, id) && Opens(steps[j], Run(start, steps).value.sessions[id])
    decreases |steps|
  {
    hide Next, Inv, Run;
    if steps == [] {
      NoSteps(start);
      assert false;
    }
    var n := |steps| - 1;
    var init := steps[..n];
    RunLast(start, steps);
    var s := Run(start, init).value;
    RunKeeps(start, init);
    CredentialsKept(s, steps[n], id);
    if id in s.sessions {
      j := FindOpening(start, init, id);
      assert init[..j] == steps[..j];
    } else {
      j := n;
    }
  }

  lemma NoSteps(s: Service)
    ensures Run(s, []) == Some(s)
  {
  }

  lemma {:induction false} FindAcquire(start: Service, steps: seq<Step>, t: nat, id: nat) returns (i: nat)
    requires Inv(start) && start.sessions == map[] && Run(start, steps).Some?
      && Is(Run(start, steps).value, t, Using(id))
    ensures id in Run(start, steps).value.sessions
    ensures i < |steps| && steps[i].Acquire? && steps[i].thread == t && steps[i].id == id
    ensures Entitled(Run(start, steps).value.sessions[id], steps[i].token, steps[i].caller)
    decreases |steps|
  {
    hide Next, Inv, Run;
    RunKeeps(start, steps);
    UserIsLive(Run(start, steps).value, t, id);
    if steps == [] {
      NoSteps(start);
      assert false;
    }
    var n := |steps| - 1;
    var init := steps[..n];
    RunLast(start, steps);
    var s := Run(start, init).value;
    RunKeeps(start, init);
    CredentialsKept(s, steps[n], id);
    if Is(s, t, Using(id)) {
      i := FindAcquire(start, init, t, id);
    } else {
      UsingFrom(s, steps[n], t, id);
      i := n;
    }
  }

  lemma UserIsLive(s: Service, t: nat, id: nat)
    requires Inv(s) && Is(s, t, Using(id))
    ensures id in s.sessions
  {
    hide Placed, Marked, Numbered, Pooled, Decided, Holders, Owned;
    InHolders(s.threads, t);
    assert id in Holds(s.threads[t]);
  }

  lemma OwnedIsLive(s: Service, t: nat, id: nat)
    requires Inv(s) && Is(s, t, Owning([id], true))
    ensures id in s.sessions
  {
    hide Counted, Marked, Numbered, Pooled, Decided, Holders, Owned;
    InHolders(s.threads, t);
    assert id in Owns(s.threads[t]);
    assert id in Owned(s.threads);
    PlacedOnce(s.table, s.threads, s.sessions.Keys, id);
  }

  lemma {:induction false} FindRemove(start: Service, steps: seq<Step>, t: nat, id: nat) returns (i: nat)
    requires Inv(start) && start.sessions == map[] && Run(start, steps).Some?
    requires Is(Run(start, steps).value, t, Owning([id], true))
    ensures id in Run(start, steps).value.sessions
    ensures i < |steps| && steps[i].Remove? && steps[i].thread == t && steps[i].id == id
    ensures Entitled(Run(start, steps).value.sessions[id], steps[i].token, steps[i].caller)
    decreases |steps|
  {
    hide Next, Inv, Run;
    RunKeeps(start, steps);
    OwnedIsLive(Run(start, steps).value, t, id);
    if steps == [] {
      NoSteps(start);
      assert false;
    }
    var n := |steps| - 1;
    var init := steps[..n];
    RunLast(start, steps);
    var s := Run(start, init).value;
    RunKeeps(start, init);
    CredentialsKept(s, steps[n], id);
    if Is(s, t, Owning([id], true)) {
      i := FindRemove(start, init, t, id);
    } else {
      OwningFrom(s, steps[n], t, id);
      i := n;
    }
  }

  /** The request shows the token the session was opened with and, if it was opened for an
      owner, comes from that owner. */
  predicate Matches(opening: Step, token: string, caller: string)
    requires opening.Add?
  {
    token != "" && token == opening.token && (opening.owner == "" || opening.owner == caller)
  }

  /** In every run of a service, a thread that uses a session got it by an acquire of its own
      that matches the add which opened that session. */
  lemma UserWasEntitled(threads: nat, maxOpen: nat, maxPerIdentity: nat, steps: seq<Step>, t: nat, id: nat)
      returns (i: nat, j: nat)
    requires Run(Fresh(threads, maxOpen, maxPerIdentity), steps).Some?
    requires Is(Run(Fresh(threads, maxOpen, maxPerIdentity), steps).value, t, Using(id))
    ensures i < |steps| && steps[i].Acquire? && steps[i].thread == t && steps[i].id == id
    ensures OpenedAt(Fresh(threads, maxOpen, maxPerIdentity), steps, j, id)
    ensures Matches(steps[j], steps[i].token, steps[i].caller)
  {
    hide Run, Inv;
    var start := Fresh(threads, maxOpen, maxPerIdentity);
    FreshHolds(threads, maxOpen, maxPerIdentity);
    i := FindAcquire(start, steps, t, id);
    j := FindOpening(start, steps, id);
  }

  /** And every committed upload was committed after a remove that matches the add which
      opened it. */
  lemma {:induction false} CommitWasEntitled(threads: nat, maxOpen: nat, maxPerIdentity: nat, steps: seq<Step>, id: nat)
      returns (i: nat, j: nat)
    requires Run(Fresh(threads, maxOpen, maxPerIdentity), steps).Some?
    requires id in Run(Fresh(threads, maxOpen, maxPerIdentity), steps).value.committed
    ensures i < |steps| && steps[i].Remove? && steps[i].id == id
    ensures OpenedAt(Fresh(threads, maxOpen, maxPerIdentity), steps, j, id)
    ensures Matches(steps[j], steps[i].token, steps[i].caller)
    decreases |steps|
  {
    hide Next, Run, Inv;
    var start := Fresh(threads, maxOpen, maxPerIdentity);
    FreshHolds(threads, maxOpen, maxPerIdentity);
    if steps == [] {
      NoSteps(start);
      assert false;
    }
    var n := |steps| - 1;
    var init := steps[..n];
    RunLast(start, steps);
    var s := Run(start, init).value;
    RunKeeps(start, init);
    if id in s.committed {
      i, j := CommitWasEntitled(threads, maxOpen, maxPerIdentity, init, id);
    } else {
      OnlyCommitCommits(s, steps[n], id);
      i := FindRemove(start, init, steps[n].thread, id);
      j := FindOpening(start, init, id);
    }
    assert init[..j] == steps[..j];
  }
}
