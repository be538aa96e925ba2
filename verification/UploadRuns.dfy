/** Reported and durable rows of uploads over whole runs. A commit reports the rows of the
    batches that were appended, and makes durable what the appender holds; the two differ
    by what refused batches left behind. */
module UploadRuns {
  import opened Options
  import opened Outcomes
  import opened SessionRuns
  import opened Sessions

  /** What a step leaves uncounted in the open appender of an upload. */
  function Left(s: Service, step: Step, id: nat): nat {
    if step.AppendBatch? && Is(s, step.thread, Using(id)) && id in s.sessions && s.sessions[id].upload
       && s.sessions[id].appenderOpen && step.outcome.Refused? then step.outcome.left
    else 0
  }

  /** The same over a run. */
  function LeftOver(s: Service, steps: seq<Step>, id: nat): nat
    requires Run(s, steps).Some?
    decreases |steps|
  {
    if steps == [] then 0 else Left(s, steps[0], id) + LeftOver(Next(s, steps[0]).value, steps[1..], id)
  }

  /** Rows of an upload, live or committed, that are held but not reported. */
  function Uncounted(s: Service, id: nat): int {
    if id in s.committed then s.committed[id].durable - s.committed[id].reported
    else if id in s.sessions then s.sessions[id].buffered - s.sessions[id].rows
    else 0
  }

  predicate Known(s: Service, id: nat) {
    id in s.committed || id in s.sessions
  }

  lemma StepUncounted(s: Service, step: Step, id: nat)
    requires Inv(s) && Next(s, step).Some? && Known(Next(s, step).value, id)
    ensures Uncounted(Next(s, step).value, id) == Uncounted(s, id) + Left(s, step, id)
  {
    hide Inv, Next, Uncounted, Left, Known;
    if step.AppendBatch? {
      AppendUncounted(s, step, id);
    } else if step.Commit? {
      CommitUncounted(s, step, id);
    } else if step.Add? {
      AddUncounted(s, step, id);
    } else {
      RestUncounted(s, step, id);
    }
  }

  lemma AppendUncounted(s: Service, step: Step, id: nat)
    requires Inv(s) && step.AppendBatch? && Next(s, step).Some?
    ensures Uncounted(Next(s, step).value, id) == Uncounted(s, id) + Left(s, step, id)
  {
    hide Placed, Counted, Marked, Numbered, Pooled;
    if id in s.committed && id in s.sessions { assert !s.sessions[id].appenderOpen; }
  }

  lemma CommitUncounted(s: Service, step: Step, id: nat)
    requires Inv(s) && step.Commit? && Next(s, step).Some?
    ensures Uncounted(Next(s, step).value, id) == Uncounted(s, id) + Left(s, step, id)
  {
    hide Placed, Counted, Marked, Numbered, Pooled;
    var owned := s.threads[step.thread].ids[0];
    if id in s.committed && id == owned { assert !s.sessions[id].txnOpen; }
  }

  lemma AddUncounted(s: Service, step: Step, id: nat)
    requires Inv(s) && step.Add? && Next(s, step).Some?
    ensures Uncounted(Next(s, step).value, id) == Uncounted(s, id) + Left(s, step, id)
  {
    hide Inv, MayAdd;
    NewId(s);
    NewNotCommitted(s);
  }

  lemma NewNotCommitted(s: Service)
    requires Inv(s)
    ensures s.nextId !in s.committed
  {
    hide Placed, Counted, Marked, Numbered, Pooled;
  }

  /** The other steps touch no upload, except by destroying it. */
  lemma RestUncounted(s: Service, step: Step, id: nat)
    requires Next(s, step).Some? && !step.AppendBatch? && !step.Commit? && !step.Add? && Known(Next(s, step).value, id)
    ensures Uncounted(Next(s, step).value, id) == Uncounted(s, id) + Left(s, step, id)
  {
    hide Next;
    if step.Remove? || step.Prune? || step.DetachAll? {
      DetachingUploads(s, step, id);
    } else {
      OtherUploads(s, step, id);
    }
  }

  predicate SameCounts(s: Service, s': Service, id: nat) {
    s'.committed == s.committed
      && (id in s'.sessions ==> id in s.sessions && SameUpload(s.sessions[id], s'.sessions[id]))
  }

  lemma DetachingUploads(s: Service, step: Step, id: nat)
    requires Next(s, step).Some? && (step.Remove? || step.Prune? || step.DetachAll?)
    ensures SameCounts(s, Next(s, step).value, id)
  {
    hide OwnerAuth, Without;
  }

  lemma OtherUploads(s: Service, step: Step, id: nat)
    requires Next(s, step).Some? && !step.AppendBatch? && !step.Commit? && !step.Add?
    requires !step.Remove? && !step.Prune? && !step.DetachAll?
    ensures SameCounts(s, Next(s, step).value, id)
  {
    hide OwnerAuth;
  }

  /** An id that was freed without a commit is never committed. */
  lemma {:induction false} FreedNotCommitted(s: Service, steps: seq<Step>, id: nat)
    requires Inv(s) && Run(s, steps).Some? && id in s.freed && id !in s.committed
    ensures id !in Run(s, steps).value.committed
    decreases |steps|
  {
    hide Next, Placed, Counted, Marked, Pooled, Decided;
    if steps != [] {
      var s1 := Next(s, steps[0]).value;
      StepKeeps(s, steps[0]);
      StepExtends(s, steps[0]);
      if id in s1.committed { OnlyCommitCommits(s, steps[0], id); }
      FreedNotCommitted(s1, steps[1..], id);
    }
  }

  /** Before it is known, nothing is held for an id. */
  lemma UnknownBefore(s: Service, step: Step, steps: seq<Step>, id: nat)
    requires Inv(s) && Next(s, step).Some? && Run(Next(s, step).value, steps).Some?
    requires id in Run(Next(s, step).value, steps).value.committed && !Known(Next(s, step).value, id)
    ensures Uncounted(s, id) == 0 && Left(s, step, id) == 0
  {
    hide Next, Run, Placed, Counted, Marked, Pooled;
    var s1 := Next(s, step).value;
    StepKeeps(s, step);
    StepExtends(s, step);
    if id in s1.freed { FreedNotCommitted(s1, steps, id); }
  }

  lemma {:induction false} RunUncounted(s: Service, steps: seq<Step>, id: nat)
    requires Inv(s) && Run(s, steps).Some? && id in Run(s, steps).value.committed
    ensures Uncounted(Run(s, steps).value, id) == Uncounted(s, id) + LeftOver(s, steps, id)
    decreases |steps|
  {
    hide Next, Inv, Uncounted, Left;
    if steps != [] {
      var s1 := Next(s, steps[0]).value;
      StepKeeps(s, steps[0]);
      if Known(s1, id) {
        StepUncounted(s, steps[0], id);
      } else {
        UnknownBefore(s, steps[0], steps[1..], id);
        UnknownHolds(s1, id);
      }
      RunUncounted(s1, steps[1..], id);
    }
  }

  lemma UnknownHolds(s: Service, id: nat)
    requires !Known(s, id)
    ensures Uncounted(s, id) == 0
  {
  }

  /** No refused batch left rows in the open appender of the upload. */
  predicate Clean(s: Service, steps: seq<Step>, id: nat)
    requires Run(s, steps).Some?
    decreases |steps|
  {
    steps == [] || (Left(s, steps[0], id) == 0 && Clean(Next(s, steps[0]).value, steps[1..], id))
  }

  lemma {:induction false} CleanIff(s: Service, steps: seq<Step>, id: nat)
    requires Run(s, steps).Some?
    ensures Clean(s, steps, id) <==> LeftOver(s, steps, id) == 0
    decreases |steps|
  {
    hide Next, Left;
    if steps != [] { CleanIff(Next(s, steps[0]).value, steps[1..], id); }
  }

  /** Over every run of a service: a committed upload has more durable rows than it reported
      by exactly what refused batches left behind, so the report is right if and only if
      none of them left anything. */
  lemma DurableIsReportedIff(threads: nat, maxOpen: nat, maxPerIdentity: nat, steps: seq<Step>, id: nat)
    requires Run(Fresh(threads, maxOpen, maxPerIdentity), steps).Some?
    requires id in Run(Fresh(threads, maxOpen, maxPerIdentity), steps).value.committed
    ensures var start := Fresh(threads, maxOpen, maxPerIdentity);
      var saved := Run(start, steps).value.committed[id];
      && saved.durable == saved.reported + LeftOver(start, steps, id)
      && (saved.durable == saved.reported <==> Clean(start, steps, id))
  {
    hide Run, Inv, LeftOver, Clean;
    var start := Fresh(threads, maxOpen, maxPerIdentity);
    FreshHolds(threads, maxOpen, maxPerIdentity);
    RunUncounted(start, steps, id);
    CleanIff(start, steps, id);
  }
}
