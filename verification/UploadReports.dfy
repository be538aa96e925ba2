/** Uploads from payload to commit: which batches make a commit report fewer rows than it
    saves. */
module UploadReports {
  import opened Options
  import opened Outcomes
  import opened QuackAppend
  import opened QuackPayload
  import opened QuackTransfer
  import opened QuackTypes
  import opened Sessions
  import opened UploadRuns
  import Leb128

  /** What an append request brings to the appender of a table. */
  datatype Source = Source(payload: Leb128.bytes, target: seq<Member>, accepts: nat)

  /** The appends of a run are those of the given batches. */
  predicate From(steps: seq<Step>, sources: seq<Source>) {
    && |sources| == |steps|
    && forall i | 0 <= i < |steps| && steps[i].AppendBatch? ::
         steps[i].outcome == Append(sources[i].payload, sources[i].target, sources[i].accepts)
  }

  /** A batch that is refused although it passed the checks, its first chunk with rows decodes
      and the appender took that one. */
  predicate Halfway(b: Source) {
    && Append(b.payload, b.target, b.accepts).Refused? && Preflight(b.payload, b.target).Some? && b.accepts > 0
    && NonEmpty(PullPayload(ParseSchema(b.payload).rest, b.target).chunks) != []
  }

  /** The step appends to the open upload. */
  predicate Reaches(s: Service, step: Step, id: nat) {
    && step.AppendBatch? && Is(s, step.thread, Using(id)) && id in s.sessions
    && s.sessions[id].upload && s.sessions[id].appenderOpen
  }

  predicate NoneHalfway(s: Service, steps: seq<Step>, sources: seq<Source>, id: nat)
    requires Run(s, steps).Some? && |sources| == |steps|
    decreases |steps|
  {
    steps == [] ||
    (!(Reaches(s, steps[0], id) && Halfway(sources[0]))
     && NoneHalfway(Next(s, steps[0]).value, steps[1..], sources[1..], id))
  }

  lemma {:induction false} CleanIffNoneHalfway(s: Service, steps: seq<Step>, sources: seq<Source>, id: nat)
    requires Run(s, steps).Some? && From(steps, sources)
    ensures Clean(s, steps, id) <==> NoneHalfway(s, steps, sources, id)
    decreases |steps|
  {
    hide Next, Append, Preflight, PullPayload, ParseSchema;
    if steps != [] {
      var step, b := steps[0], sources[0];
      if step.AppendBatch? && step.outcome.Refused? { RefusalLeaves(b.payload, b.target, b.accepts); }
      assert From(steps[1..], sources[1..]);
      CleanIffNoneHalfway(Next(s, step).value, steps[1..], sources[1..], id);
    }
  }

  /** Over every run: a committed upload has exactly the rows it reported if and only if no
      batch sent to it was refused halfway. */
  lemma ReportIsRightIff(threads: nat, maxOpen: nat, maxPerIdentity: nat, steps: seq<Step>, sources: seq<Source>,
      id: nat)
    requires Run(Fresh(threads, maxOpen, maxPerIdentity), steps).Some? && From(steps, sources)
    requires id in Run(Fresh(threads, maxOpen, maxPerIdentity), steps).value.committed
    ensures var start := Fresh(threads, maxOpen, maxPerIdentity);
      var saved := Run(start, steps).value.committed[id];
      saved.durable == saved.reported <==> NoneHalfway(start, steps, sources, id)
  {
    hide Fresh, Run, From, NoneHalfway, Clean, LeftOver;
    DurableIsReportedIff(threads, maxOpen, maxPerIdentity, steps, id);
    CleanIffNoneHalfway(Fresh(threads, maxOpen, maxPerIdentity), steps, sources, id);
  }

  // ---- a run whose report is wrong ----

  /** One thread opens an upload, sends it a batch and commits. */
  const OPEN: seq<Step> := [TakeConnection(0, 0), Add(0, "", "t", true), Acquire(0, 1, "t", "")]
  const CLOSE: seq<Step> := [Release(0), Remove(0, 1, "t", ""), Commit(0, true, true)]

  function SendOne(outcome: Outcome): seq<Step> {
    OPEN + ([AppendBatch(0, outcome)] + CLOSE)
  }

  lemma {:induction false} RunConcat(s: Service, a: seq<Step>, b: seq<Step>)
    requires Run(s, a).Some?
    ensures Run(s, a + b) == Run(Run(s, a).value, b)
    decreases |a|
  {
    hide Next;
    if a == [] {
      assert a + b == b;
    } else {
      assert (a + b)[0] == a[0] && (a + b)[1..] == a[1..] + b;
      RunConcat(Next(s, a[0]).value, a[1..], b);
    }
  }

  /** A run of three steps. */
  lemma ThreeSteps(s: Service, steps: seq<Step>, s1: Service, s2: Service)
    requires |steps| == 3 && Next(s, steps[0]) == Some(s1) && Next(s1, steps[1]) == Some(s2)
    ensures Run(s, steps) == Next(s2, steps[2])
  {
    hide Next;
    assert steps[1..][0] == steps[1] && steps[1..][1..] == [steps[2]] && [steps[2]][1..] == [];
    assert Run(s2, [steps[2]]) == Next(s2, steps[2]);
    assert Run(s1, steps[1..]) == Run(s2, [steps[2]]);
  }

  /** Thread 0 is at work on an open upload, the only session. */
  predicate AtWork(s: Service, x: Session) {
    && s.threads == [Using(1)] && s.table == [1] && s.sessions == map[1 := x] && s.committed == map[]
    && x.token == "t" && x.owner == "" && x.upload && x.appenderOpen && x.txnOpen && x.refs == 1
  }

  lemma Opens()
    ensures Run(Fresh(1, 0, 0), OPEN).Some?
    ensures var x := Session("", "t", 0, true, false, 1, true, true, 0, 0);
      AtWork(Run(Fresh(1, 0, 0), OPEN).value, x)
  {
    var s := Fresh(1, 0, 0);
    assert s.threads == [Idle];
    var s1 := Next(s, OPEN[0]).value;
    assert s1.threads == [Opening(0)];
    var s2 := Next(s1, OPEN[1]).value;
    assert s2.threads == [Idle] && s2.table == [1];
    ThreeSteps(s, OPEN, s1, s2);
  }

  lemma Closes(s: Service, x: Session)
    requires AtWork(s, x)
    ensures Run(s, CLOSE).Some? && Run(s, CLOSE).value.committed == map[1 := Saved(x.rows, x.buffered)]
  {
    var s1 := Next(s, CLOSE[0]).value;
    assert s1.threads == [Idle] && s1.sessions == map[1 := x.(refs := 0)];
    var s2 := Next(s1, CLOSE[1]).value;
    assert s2.threads == [Owning([1], true)] && s2.sessions == map[1 := x.(refs := 0, closing := true)];
    ThreeSteps(s, CLOSE, s1, s2);
  }

  lemma SendOneRuns(outcome: Outcome)
    ensures var end := Run(Fresh(1, 0, 0), SendOne(outcome));
      && end.Some?
      && end.value.committed
         == map[1 := match outcome case Appended(rows) => Saved(rows, rows) case Refused(left) => Saved(0, left)]
  {
    hide Run, Fresh;
    Opens();
    var s := Run(Fresh(1, 0, 0), OPEN).value;
    RunConcat(Fresh(1, 0, 0), OPEN, [AppendBatch(0, outcome)] + CLOSE);
    var s1 := Next(s, AppendBatch(0, outcome)).value;
    Closes(s1, s1.sessions[1]);
    OneStep(s, AppendBatch(0, outcome), CLOSE);
  }

  lemma OneStep(s: Service, step: Step, steps: seq<Step>)
    requires Next(s, step).Some?
    ensures Run(s, [step] + steps) == Run(Next(s, step).value, steps)
  {
    hide Next;
    assert ([step] + steps)[1..] == steps;
  }

  /** The batch that is half appended: its append is refused, the commit after it succeeds,
      reports no rows and saves one. */
  lemma UnreportedRow() returns (payload: Leb128.bytes)
    ensures var steps := SendOne(Append(payload, BYTE_COLUMN, 2));
      && Append(payload, BYTE_COLUMN, 2).Refused?
      && Run(Fresh(1, 0, 0), steps).Some?
      && Run(Fresh(1, 0, 0), steps).value.committed == map[1 := Saved(0, 1)]
  {
    hide Append, Preflight, Run;
    payload := HalfAppended();
    SendOneRuns(Append(payload, BYTE_COLUMN, 2));
  }
}
