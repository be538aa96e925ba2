/** The life of query and upload sessions on a service, over every interleaving of the
    threads that share it (src/ducknng_session.c, src/ducknng_service.c and the
    session handlers of src/ducknng_methods.c).

    Each step is one critical section: what a thread does while it holds `svc->mu`,
    `session->mu` or the pool's mutex. A run is any sequence of such steps by any threads. */
module Sessions {
  import opened Options
  import opened Outcomes

  /** A live session. `closing` and `refs` are the fields the locks protect; `slot` is
      its pinned pool connection. An upload starts with its appender and its
      transaction open. `rows` is the number it reports, `buffered` what its appender holds. */
  datatype Session = Session(owner: string, token: string, slot: nat, upload: bool,
    closing: bool, refs: nat, appenderOpen: bool, txnOpen: bool, rows: nat, buffered: nat)

  /** What a commit reported and what it made durable. */
  datatype Saved = Saved(reported: nat, durable: nat)

  /** What a thread has in its hands between two steps: a pool connection it took for a
      session it is about to add, a session it acquired, or sessions it detached and
      must destroy, in order (`mayCommit` while an upload_commit is still possible). */
  datatype Thread = Idle | Opening(slot: nat) | Using(id: nat) | Owning(ids: seq<nat>, mayCommit: bool)

  /** Who marked a pool connection busy. */
  datatype User = ByThread(thread: nat) | BySession(id: nat)

  /** `pool` has the busy connections only. The last four fields record history. */
  datatype Service = Service(
    table: seq<nat>, sessions: map<nat, Session>, threads: seq<Thread>, pool: map<nat, User>,
    nextId: nat, shuttingDown: bool, maxOpen: nat, maxPerIdentity: nat,
    freed: set<nat>, uploads: set<nat>, committed: map<nat, Saved>, rolledBack: set<nat>)

  function Fresh(threads: nat, maxOpen: nat, maxPerIdentity: nat): Service {
    Service([], map[], seq(threads, i => Idle), map[], 1, false, maxOpen, maxPerIdentity, {}, {}, map[], {})
  }

  datatype Step =
    | TakeConnection(thread: nat, slot: nat)
    | ReturnConnection(thread: nat)
    | Add(thread: nat, owner: string, token: string, upload: bool)
    | Acquire(thread: nat, id: nat, token: string, caller: string)
    | Release(thread: nat)
    | AppendBatch(thread: nat, outcome: Outcome)
    | Remove(thread: nat, id: nat, token: string, caller: string)
    | Prune(thread: nat, id: nat)
    | Commit(thread: nat, flushed: bool, committed: bool)
    | Destroy(thread: nat)
    | BeginStop
    | DetachAll(thread: nat)
    | SetLimits(maxOpen: nat, maxPerIdentity: nat)

  // ---- authorisation ----

  datatype Auth = Allowed | TokenMismatch | IdentityMismatch

  function OwnerAuth(session: Session, token: string, caller: string): Auth {
    if token == "" || session.token != token then TokenMismatch
    else if session.owner != "" && session.owner != caller then IdentityMismatch
    else Allowed
  }

  // ---- the steps ----

  function CountOwner(sessions: map<nat, Session>, table: seq<nat>, owner: string): nat {
    if table == [] then 0 else
    var first := if table[0] in sessions && sessions[table[0]].owner == owner then 1 else 0;
    first + CountOwner(sessions, table[1..], owner)
  }

  /** The checks of a session add, made under the service lock. */
  predicate MayAdd(s: Service, owner: string) {
    && !s.shuttingDown
    && (s.maxOpen > 0 ==> |s.table| < s.maxOpen)
    && (s.maxPerIdentity > 0 && owner != "" ==> CountOwner(s.sessions, s.table, owner) < s.maxPerIdentity)
  }

  function Without(table: seq<nat>, id: nat): seq<nat> {
    if table == [] then [] else if table[0] == id then table[1..] else [table[0]] + Without(table[1..], id)
  }

  function Closing(sessions: map<nat, Session>, ids: seq<nat>): map<nat, Session> {
    map id | id in sessions :: if id in ids then sessions[id].(closing := true) else sessions[id]
  }

  predicate Is(s: Service, t: nat, l: Thread) {
    t < |s.threads| && s.threads[t] == l
  }

  function With(s: Service, t: nat, l: Thread): Service
    requires t < |s.threads|
  {
    s.(threads := s.threads[t := l])
  }

  /** Detaching: out of the table, marked closing, owned by the thread. */
  function Detached(s: Service, t: nat, id: nat, mayCommit: bool): Service
    requires t < |s.threads|
  {
    With(s, t, Owning([id], mayCommit)).(table := Without(s.table, id), sessions := Closing(s.sessions, [id]))
  }

  /** Destroying the first session a thread owns: an open transaction is rolled back, the
      connection goes back to the pool, the memory is freed. */
  function Destroyed(s: Service, t: nat): Service
    requires t < |s.threads| && s.threads[t].Owning? && s.threads[t].ids != [] && s.threads[t].ids[0] in s.sessions
  {
    var ids := s.threads[t].ids;
    var id := ids[0];
    With(s, t, if |ids| == 1 then Idle else Owning(ids[1..], false)).(
      sessions := s.sessions - {id}, pool := s.pool - {s.sessions[id].slot}, freed := s.freed + {id},
      rolledBack := if s.sessions[id].txnOpen then s.rolledBack + {id} else s.rolledBack)
  }

  /** upload_commit: a failed flush leaves the transaction to be rolled back on destroy,
      a failed COMMIT rolls it back at once. */
  function Committed(s: Service, id: nat, flushed: bool, committed: bool): Service
    requires id in s.sessions
  {
    var x := s.sessions[id];
    if !x.upload || !x.txnOpen then s
    else if x.appenderOpen && !flushed then s.(sessions := s.sessions[id := x.(appenderOpen := false)])
    else
      var closed := s.(sessions := s.sessions[id := x.(appenderOpen := false, txnOpen := false)]);
      if committed then closed.(committed := s.committed[id := Saved(x.rows, x.buffered)])
      else closed.(rolledBack := s.rolledBack + {id})
  }

  /** Adding a session: it takes over the connection, enters the table and, for an
      upload, has its transaction open from the start. */
  function Added(s: Service, t: nat, owner: string, token: string, upload: bool): Service
    requires t < |s.threads| && s.threads[t].Opening?
  {
    var slot := s.threads[t].slot;
    var session := Session(owner, token, slot, upload, false, 0, upload, upload, 0, 0);
    With(s, t, Idle).(table := s.table + [s.nextId], sessions := s.sessions[s.nextId := session],
      pool := s.pool[slot := BySession(s.nextId)], nextId := s.nextId + 1,
      uploads := if upload then s.uploads + {s.nextId} else s.uploads)
  }

  function Acquired(s: Service, t: nat, id: nat): Service
    requires t < |s.threads| && id in s.sessions
  {
    With(s, t, Using(id)).(sessions := s.sessions[id := s.sessions[id].(refs := s.sessions[id].refs + 1)])
  }

  function Released(s: Service, t: nat, id: nat): Service
    requires t < |s.threads| && id in s.sessions
  {
    var refs := s.sessions[id].refs;
    With(s, t, Idle).(sessions := s.sessions[id := s.sessions[id].(refs := if refs > 0 then refs - 1 else 0)])
  }

  /** upload_append: refused once the appender is closed. A batch refused on the way is not
      counted, but what was appended of it stays in the appender, which stays open. */
  function Uploaded(s: Service, id: nat, outcome: Outcome): Service
    requires id in s.sessions
  {
    var x := s.sessions[id];
    if !x.upload || !x.appenderOpen then s
    else s.(sessions := s.sessions[id := match outcome
      case Appended(rows) => x.(rows := x.rows + rows, buffered := x.buffered + rows)
      case Refused(left) => x.(buffered := x.buffered + left)])
  }

  function DetachedAll(s: Service, t: nat): Service
    requires t < |s.threads|
  {
    With(s, t, if s.table == [] then Idle else Owning(s.table, false)).(
      table := [], sessions := Closing(s.sessions, s.table))
  }

  /** One step, or `None` where it cannot be taken: the thread is not at that point, or
      `ducknng_session_destroy` is still waiting for the session's users. */
  function Next(s: Service, step: Step): Option<Service> {
    match step
    case TakeConnection(t, slot) =>
      if !Is(s, t, Idle) || slot in s.pool then None
      else Some(With(s, t, Opening(slot)).(pool := s.pool[slot := ByThread(t)]))
    case ReturnConnection(t) =>
      if t >= |s.threads| || !s.threads[t].Opening? then None
      else Some(With(s, t, Idle).(pool := s.pool - {s.threads[t].slot}))
    case Add(t, owner, token, upload) =>
      if t >= |s.threads| || !s.threads[t].Opening? then None
      else if !MayAdd(s, owner) then Some(s) else Some(Added(s, t, owner, token, upload))
    case Acquire(t, id, token, caller) =>
      if !Is(s, t, Idle) then None
      else if id !in s.table || id !in s.sessions || OwnerAuth(s.sessions[id], token, caller) != Allowed
        || s.sessions[id].closing then Some(s)
      else Some(Acquired(s, t, id))
    case Release(t) =>
      if t >= |s.threads| || !s.threads[t].Using? || s.threads[t].id !in s.sessions then None
      else Some(Released(s, t, s.threads[t].id))
    case AppendBatch(t, outcome) =>
      if t >= |s.threads| || !s.threads[t].Using? || s.threads[t].id !in s.sessions then None
      else Some(Uploaded(s, s.threads[t].id, outcome))
    case Remove(t, id, token, caller) =>
      if !Is(s, t, Idle) then None
      else if id !in s.table || id !in s.sessions || OwnerAuth(s.sessions[id], token, caller) != Allowed then Some(s)
      else Some(Detached(s, t, id, true))
    case Prune(t, id) =>
      if !Is(s, t, Idle) || id !in s.table || id !in s.sessions then None
      else if s.sessions[id].closing || s.sessions[id].refs > 0 then Some(s)
      else Some(Detached(s, t, id, false))
    case Commit(t, flushed, committed) =>
      if t >= |s.threads| || !s.threads[t].Owning? || !s.threads[t].mayCommit || |s.threads[t].ids| != 1
        || s.threads[t].ids[0] !in s.sessions then None
      else
        var id := s.threads[t].ids[0];
        Some(Committed(With(s, t, Owning([id], false)), id, flushed, committed))
    case Destroy(t) =>
      if t >= |s.threads| || !s.threads[t].Owning? || s.threads[t].ids == []
        || s.threads[t].ids[0] !in s.sessions then None
      else if s.sessions[s.threads[t].ids[0]].refs > 0 then None
      else Some(Destroyed(s, t))
    case BeginStop => Some(s.(shuttingDown := true))
    case DetachAll(t) =>
      if !Is(s, t, Idle) then None
      else Some(DetachedAll(s, t))
    case SetLimits(open, each) => Some(s.(maxOpen := open, maxPerIdentity := each))
  }

  function Run(s: Service, steps: seq<Step>): Option<Service>
    decreases |steps|
  {
    if steps == [] then Some(s) else
    match Next(s, steps[0])
    case None => None
    case Some(s') => Run(s', steps[1..])
  }

  // ---- who has what ----

  function Holds(l: Thread): multiset<nat> {
    if l.Using? then multiset{l.id} else multiset{}
  }

  function Owns(l: Thread): multiset<nat> {
    if l.Owning? then multiset(l.ids) else multiset{}
  }

  /** All acquired references, and all detached sessions, of all threads. */
  function Holders(threads: seq<Thread>): multiset<nat> {
    if threads == [] then multiset{} else Holds(threads[0]) + Holders(threads[1..])
  }

  function Owned(threads: seq<Thread>): multiset<nat> {
    if threads == [] then multiset{} else Owns(threads[0]) + Owned(threads[1..])
  }

  lemma {:induction false} HoldersChange(threads: seq<Thread>, t: nat, l: Thread)
    requires t < |threads|
    ensures Holds(threads[t]) <= Holders(threads)
    ensures Holders(threads[t := l]) == Holders(threads) - Holds(threads[t]) + Holds(l)
  {
    hide Holds;
    if t == 0 {
      assert threads[t := l][1..] == threads[1..];
    } else {
      assert threads[t := l][1..] == threads[1..][t - 1 := l];
      HoldersChange(threads[1..], t - 1, l);
    }
  }

  lemma {:induction false} OwnedChange(threads: seq<Thread>, t: nat, l: Thread)
    requires t < |threads|
    ensures Owns(threads[t]) <= Owned(threads)
    ensures Owned(threads[t := l]) == Owned(threads) - Owns(threads[t]) + Owns(l)
  {
    hide Owns;
    if t == 0 {
      assert threads[t := l][1..] == threads[1..];
    } else {
      assert threads[t := l][1..] == threads[1..][t - 1 := l];
      OwnedChange(threads[1..], t - 1, l);
    }
  }

  // ---- the invariant ----

  /** Every live session is exactly once in the table or in the hands of one thread. */
  ghost predicate Placed(table: seq<nat>, threads: seq<Thread>, live: set<nat>) {
    && multiset(table) + Owned(threads) == multiset(live)
    && forall t | 0 <= t < |threads| && threads[t].Owning? :: threads[t].ids != []
  }

  /** Each reference count is the number of threads using the session. */
  ghost predicate Counted(sessions: map<nat, Session>, threads: seq<Thread>) {
    && (forall id <- sessions :: sessions[id].refs == Holders(threads)[id])
    && (forall id | id in Holders(threads) :: id in sessions)
  }

  /** A session is marked closing exactly when it has left the table. */
  ghost predicate Marked(sessions: map<nat, Session>, table: seq<nat>) {
    forall id <- sessions :: sessions[id].closing <==> id !in table
  }

  /** Every id ever issued is live or freed, and not both. */
  ghost predicate Numbered(live: set<nat>, freed: set<nat>, nextId: nat) {
    nextId >= 1 && live !! freed && forall id :: 1 <= id < nextId <==> id in live || id in freed
  }

  /** A connection is busy for exactly one live session or one opening thread. */
  ghost predicate Pooled(sessions: map<nat, Session>, threads: seq<Thread>, pool: map<nat, User>) {
    && (forall id <- sessions :: sessions[id].slot in pool && pool[sessions[id].slot] == BySession(id))
    && (forall t | 0 <= t < |threads| && threads[t].Opening? ::
          threads[t].slot in pool && pool[threads[t].slot] == ByThread(t))
    && (forall slot <- pool :: match pool[slot]
          case ByThread(t) => t < |threads| && threads[t] == Opening(slot)
          case BySession(id) => id in sessions && sessions[id].slot == slot)
  }

  /** The outcome of uploads: every one is open, committed or rolled back, and only one
      of these; what was committed is all the session will ever have. */
  ghost predicate Decided(sessions: map<nat, Session>, nextId: nat, uploads: set<nat>, committed: map<nat, Saved>,
      rolledBack: set<nat>)
  {
    && (forall id <- uploads :: id < nextId)
    && (forall id <- sessions :: (sessions[id].upload <==> id in uploads)
          && (sessions[id].appenderOpen ==> sessions[id].txnOpen) && (sessions[id].txnOpen ==> sessions[id].upload))
    && committed.Keys <= uploads && rolledBack <= uploads && committed.Keys !! rolledBack
    && (forall id <- uploads :: (id in sessions && sessions[id].txnOpen) <==> id !in committed && id !in rolledBack)
    && (forall id <- committed :: id in sessions ==> committed[id] == Saved(sessions[id].rows, sessions[id].buffered))
  }

  ghost predicate Inv(s: Service) {
    && Placed(s.table, s.threads, s.sessions.Keys)
    && Counted(s.sessions, s.threads)
    && Marked(s.sessions, s.table)
    && Numbered(s.sessions.Keys, s.freed, s.nextId)
    && Pooled(s.sessions, s.threads, s.pool)
    && Decided(s.sessions, s.nextId, s.uploads, s.committed, s.rolledBack)
  }

  lemma PlacedOnce(table: seq<nat>, threads: seq<Thread>, live: set<nat>, id: nat)
    requires Placed(table, threads, live)
    ensures multiset(table)[id] + Owned(threads)[id] == if id in live then 1 else 0
    ensures id in table ==> id in live && id !in Owned(threads)
    ensures id in Owned(threads) ==> id in live && id !in table
  {
    hide Owned;
    assert (multiset(table) + Owned(threads))[id] == multiset(live)[id];
    assert id in table <==> multiset(table)[id] > 0;
  }

  // ---- what leaves each part of it alone ----

  /** Sessions that differ in nothing a predicate looks at. */
  lemma SameSlots(sessions: map<nat, Session>, sessions': map<nat, Session>, threads: seq<Thread>, pool: map<nat, User>)
    requires Pooled(sessions, threads, pool) && sessions'.Keys == sessions.Keys
    requires forall id <- sessions :: sessions'[id].slot == sessions[id].slot
    ensures Pooled(sessions', threads, pool)
  {
    assert forall id <- sessions' :: id in sessions;
  }

  predicate SameUpload(x: Session, y: Session) {
    x.upload == y.upload && x.appenderOpen == y.appenderOpen && x.txnOpen == y.txnOpen && x.rows == y.rows
    && x.buffered == y.buffered
  }

  lemma SameUploads(s: Service, sessions': map<nat, Session>)
    requires Decided(s.sessions, s.nextId, s.uploads, s.committed, s.rolledBack) && sessions'.Keys == s.sessions.Keys
    requires forall id <- s.sessions :: SameUpload(sessions'[id], s.sessions[id])
    ensures Decided(sessions', s.nextId, s.uploads, s.committed, s.rolledBack)
  {
    assert forall id <- sessions' :: id in s.sessions && SameUpload(sessions'[id], s.sessions[id]);
  }

  lemma SameRefs(sessions: map<nat, Session>, sessions': map<nat, Session>, threads: seq<Thread>)
    requires Counted(sessions, threads) && sessions'.Keys == sessions.Keys
    requires forall id <- sessions :: sessions'[id].refs == sessions[id].refs
    ensures Counted(sessions', threads)
  {
    hide Holders;
    assert forall id <- sessions' :: id in sessions;
  }

  lemma SameMarks(sessions: map<nat, Session>, sessions': map<nat, Session>, table: seq<nat>)
    requires Marked(sessions, table) && sessions'.Keys == sessions.Keys
    requires forall id <- sessions :: sessions'[id].closing == sessions[id].closing
    ensures Marked(sessions', table)
  {
    assert forall id <- sessions' :: id in sessions;
  }

  /** A thread that takes and gives back no connection. */
  lemma NoOpening(sessions: map<nat, Session>, threads: seq<Thread>, pool: map<nat, User>, t: nat, l: Thread)
    requires Pooled(sessions, threads, pool) && t < |threads| && !threads[t].Opening? && !l.Opening?
    ensures Pooled(sessions, threads[t := l], pool)
  {
  }

  /** A thread that detaches and frees nothing. */
  lemma NoOwning(table: seq<nat>, threads: seq<Thread>, live: set<nat>, t: nat, l: Thread)
    requires Placed(table, threads, live) && t < |threads| && Owns(l) == Owns(threads[t])
    requires l.Owning? ==> l.ids != []
    ensures Placed(table, threads[t := l], live)
  {
    hide Owned, Owns;
    OwnedChange(threads, t, l);
  }

  /** A thread that acquires and releases nothing. */
  lemma NoUsing(sessions: map<nat, Session>, threads: seq<Thread>, t: nat, l: Thread)
    requires Counted(sessions, threads) && t < |threads| && Holds(l) == Holds(threads[t])
    ensures Counted(sessions, threads[t := l])
  {
    hide Holders, Holds;
    HoldersChange(threads, t, l);
  }

  // ---- the steps keep it ----

  lemma TakeKeeps(s: Service, t: nat, slot: nat)
    requires Inv(s) && Is(s, t, Idle) && slot !in s.pool
    ensures Inv(With(s, t, Opening(slot)).(pool := s.pool[slot := ByThread(t)]))
  {
    hide Placed, Counted, Marked, Numbered, Decided;
    NoOwning(s.table, s.threads, s.sessions.Keys, t, Opening(slot));
    NoUsing(s.sessions, s.threads, t, Opening(slot));
  }

  lemma ReturnKeeps(s: Service, t: nat)
    requires Inv(s) && t < |s.threads| && s.threads[t].Opening?
    ensures Inv(With(s, t, Idle).(pool := s.pool - {s.threads[t].slot}))
  {
    hide Placed, Counted, Marked, Numbered, Decided;
    NoOwning(s.table, s.threads, s.sessions.Keys, t, Idle);
    NoUsing(s.sessions, s.threads, t, Idle);
  }

  /** A session update that keeps the table, the connections and the uploads. */
  lemma RefsChange(s: Service, t: nat, l: Thread, id: nat, x: Session)
    requires Inv(s) && t < |s.threads| && id in s.sessions && !s.threads[t].Opening? && !l.Opening?
    requires Owns(l) == Owns(s.threads[t]) && !l.Owning?
    requires x == s.sessions[id].(refs := x.refs) && Counted(s.sessions[id := x], s.threads[t := l])
    ensures Inv(With(s, t, l).(sessions := s.sessions[id := x]))
  {
    hide Placed, Counted, Numbered, Decided, Pooled;
    var sessions' := s.sessions[id := x];
    assert sessions'.Keys == s.sessions.Keys;
    NoOwning(s.table, s.threads, s.sessions.Keys, t, l);
    SameSlots(s.sessions, sessions', s.threads, s.pool);
    NoOpening(sessions', s.threads, s.pool, t, l);
    SameUploads(s, sessions');
  }

  lemma AcquireKeeps(s: Service, t: nat, id: nat)
    requires Inv(s) && Is(s, t, Idle) && id in s.sessions
    ensures Inv(Acquired(s, t, id))
  {
    hide Placed, Marked, Numbered, Decided, Pooled, Holders;
    HoldersChange(s.threads, t, Using(id));
    RefsChange(s, t, Using(id), id, s.sessions[id].(refs := s.sessions[id].refs + 1));
  }

  lemma ReleaseKeeps(s: Service, t: nat, id: nat)
    requires Inv(s) && Is(s, t, Using(id)) && id in s.sessions
    ensures Inv(Released(s, t, id))
  {
    hide Placed, Marked, Numbered, Decided, Pooled, Holders;
    HoldersChange(s.threads, t, Idle);
    RefsChange(s, t, Idle, id, Released(s, t, id).sessions[id]);
  }

  lemma AppendKeeps(s: Service, id: nat, outcome: Outcome)
    requires Inv(s) && id in s.sessions
    ensures Inv(Uploaded(s, id, outcome))
  {
    hide Placed, Counted, Marked, Numbered, Pooled, Decided;
    UploadChange(s, id, Uploaded(s, id, outcome).sessions[id]);
    AppendDecides(s, id, outcome);
  }

  lemma AppendDecides(s: Service, id: nat, outcome: Outcome)
    requires Decided(s.sessions, s.nextId, s.uploads, s.committed, s.rolledBack) && id in s.sessions
    ensures Decided(Uploaded(s, id, outcome).sessions, s.nextId, s.uploads, s.committed, s.rolledBack)
  {
    if s.sessions[id].appenderOpen { assert id in s.uploads && id !in s.committed; }
  }

  lemma AddKeeps(s: Service, t: nat, owner: string, token: string, upload: bool)
    requires Inv(s) && t < |s.threads| && s.threads[t].Opening?
    ensures Inv(Added(s, t, owner, token, upload))
  {
    hide Placed, Counted, Numbered, Pooled, Decided;
    var s' := Added(s, t, owner, token, upload);
    var id := s.nextId;
    NewId(s);
    assert s'.sessions.Keys == s.sessions.Keys + {id};
    AddPlaces(s.table, s.threads, s.sessions.Keys, t, id);
    AddCounts(s.sessions, s.threads, t, id, s'.sessions[id]);
    AddNumbers(s.sessions.Keys, s.freed, id);
    AddPools(s.sessions, s.threads, s.pool, t, id, s'.sessions[id]);
    AddDecides(s, id, s'.sessions[id]);
  }

  lemma NewId(s: Service)
    requires Inv(s)
    ensures s.nextId !in s.sessions && s.nextId !in s.freed && s.nextId !in s.table && s.nextId !in s.uploads
  {
    hide Counted, Marked, Pooled;
    PlacedOnce(s.table, s.threads, s.sessions.Keys, s.nextId);
  }

  lemma AddPlaces(table: seq<nat>, threads: seq<Thread>, live: set<nat>, t: nat, id: nat)
    requires Placed(table, threads, live) && t < |threads| && threads[t].Opening? && id !in live
    ensures Placed(table + [id], threads[t := Idle], live + {id})
  {
    hide Owned;
    NoOwning(table, threads, live, t, Idle);
    assert multiset(table + [id]) == multiset(table) + multiset{id};
    assert multiset(live + {id}) == multiset(live) + multiset{id};
  }

  lemma AddCounts(sessions: map<nat, Session>, threads: seq<Thread>, t: nat, id: nat, x: Session)
    requires Counted(sessions, threads) && t < |threads| && threads[t].Opening? && id !in sessions && x.refs == 0
    ensures Counted(sessions[id := x], threads[t := Idle])
  {
    hide Holders;
    NoUsing(sessions, threads, t, Idle);
    assert id !in Holders(threads[t := Idle]);
  }

  lemma AddNumbers(live: set<nat>, freed: set<nat>, id: nat)
    requires Numbered(live, freed, id)
    ensures Numbered(live + {id}, freed, id + 1)
  {
  }

  lemma AddPools(sessions: map<nat, Session>, threads: seq<Thread>, pool: map<nat, User>, t: nat, id: nat, x: Session)
    requires Pooled(sessions, threads, pool) && t < |threads| && threads[t] == Opening(x.slot) && id !in sessions
    ensures Pooled(sessions[id := x], threads[t := Idle], pool[x.slot := BySession(id)])
  {
  }

  lemma AddDecides(s: Service, id: nat, x: Session)
    requires Decided(s.sessions, s.nextId, s.uploads, s.committed, s.rolledBack)
    requires id == s.nextId && id !in s.sessions && x.appenderOpen == x.txnOpen == x.upload
    ensures var uploads := if x.upload then s.uploads + {id} else s.uploads;
      Decided(s.sessions[id := x], s.nextId + 1, uploads, s.committed, s.rolledBack)
  {
  }

  lemma ClosingKeeps(s: Service, ids: seq<nat>)
    requires Inv(s)
    ensures var sessions' := Closing(s.sessions, ids);
      && sessions'.Keys == s.sessions.Keys && Counted(sessions', s.threads) && Pooled(sessions', s.threads, s.pool)
      && Decided(sessions', s.nextId, s.uploads, s.committed, s.rolledBack)
  {
    hide Placed, Counted, Marked, Numbered, Pooled, Decided;
    var sessions' := Closing(s.sessions, ids);
    assert sessions'.Keys == s.sessions.Keys;
    SameSlots(s.sessions, sessions', s.threads, s.pool);
    SameRefs(s.sessions, sessions', s.threads);
    SameUploads(s, sessions');
  }

  lemma {:induction false} WithoutOne(table: seq<nat>, id: nat)
    requires id in table
    ensures multiset(Without(table, id)) == multiset(table) - multiset{id}
  {
    assert table == [table[0]] + table[1..];
    if table[0] != id { WithoutOne(table[1..], id); }
  }

  lemma DetachKeeps(s: Service, t: nat, id: nat, mayCommit: bool)
    requires Inv(s) && Is(s, t, Idle) && id in s.table
    ensures Inv(Detached(s, t, id, mayCommit))
  {
    hide Placed, Counted, Marked, Numbered, Pooled, Decided, Closing, Without;
    ClosingKeeps(s, [id]);
    NoUsing(Closing(s.sessions, [id]), s.threads, t, Owning([id], mayCommit));
    NoOpening(Closing(s.sessions, [id]), s.threads, s.pool, t, Owning([id], mayCommit));
    DetachPlaces(s.table, s.threads, s.sessions.Keys, t, id, mayCommit);
    DetachMarks(s, id);
  }

  lemma DetachPlaces(table: seq<nat>, threads: seq<Thread>, live: set<nat>, t: nat, id: nat, mayCommit: bool)
    requires Placed(table, threads, live) && t < |threads| && threads[t] == Idle && id in table
    ensures Placed(Without(table, id), threads[t := Owning([id], mayCommit)], live)
  {
    hide Owned, Without;
    WithoutOne(table, id);
    OwnedChange(threads, t, Owning([id], mayCommit));
    assert id in multiset(table);
  }

  lemma DetachMarks(s: Service, id: nat)
    requires Inv(s) && id in s.table
    ensures Marked(Closing(s.sessions, [id]), Without(s.table, id))
  {
    hide Placed, Counted, Numbered, Pooled, Decided, Without;
    WithoutOne(s.table, id);
    PlacedOnce(s.table, s.threads, s.sessions.Keys, id);
    var rest := Without(s.table, id);
    forall k ensures k in rest <==> k in s.table && k != id {
      assert k in rest <==> multiset(rest)[k] > 0;
      assert k in s.table <==> multiset(s.table)[k] > 0;
    }
  }

  lemma DetachAllKeeps(s: Service, t: nat)
    requires Inv(s) && Is(s, t, Idle)
    ensures Inv(DetachedAll(s, t))
  {
    hide Placed, Counted, Numbered, Pooled, Decided;
    var l := DetachedAll(s, t).threads[t];
    ClosingKeeps(s, s.table);
    NoUsing(Closing(s.sessions, s.table), s.threads, t, l);
    NoOpening(Closing(s.sessions, s.table), s.threads, s.pool, t, l);
    DetachAllPlaces(s.table, s.threads, s.sessions.Keys, t, l);
  }

  lemma DetachAllPlaces(table: seq<nat>, threads: seq<Thread>, live: set<nat>, t: nat, l: Thread)
    requires Placed(table, threads, live) && t < |threads| && threads[t] == Idle
    requires l == if table == [] then Idle else Owning(table, false)
    ensures Placed([], threads[t := l], live)
  {
    hide Owned;
    OwnedChange(threads, t, l);
    assert multiset(table) == Owns(l);
  }

  lemma DestroyKeeps(s: Service, t: nat)
    requires Inv(s) && t < |s.threads| && s.threads[t].Owning? && s.threads[t].ids != []
    requires s.threads[t].ids[0] in s.sessions && s.sessions[s.threads[t].ids[0]].refs == 0
    ensures Inv(Destroyed(s, t))
  {
    hide Placed, Counted, Numbered, Pooled, Decided;
    var s' := Destroyed(s, t);
    var ids := s.threads[t].ids;
    var id, l := ids[0], s'.threads[t];
    assert s'.sessions.Keys == s.sessions.Keys - {id};
    DestroyPlaces(s.table, s.threads, s.sessions.Keys, t, l);
    DestroyCounts(s.sessions, s.threads, t, id, l);
    DestroyNumbers(s.sessions.Keys, s.freed, s.nextId, id);
    DestroyPools(s.sessions, s.threads, s.pool, t, id, l);
    DestroyDecides(s, id);
  }

  lemma DestroyPlaces(table: seq<nat>, threads: seq<Thread>, live: set<nat>, t: nat, l: Thread)
    requires Placed(table, threads, live) && t < |threads| && threads[t].Owning? && threads[t].ids != []
    requires l == if |threads[t].ids| == 1 then Idle else Owning(threads[t].ids[1..], false)
    ensures Placed(table, threads[t := l], live - {threads[t].ids[0]})
  {
    hide Owned;
    var ids := threads[t].ids;
    assert ids == [ids[0]] + ids[1..];
    OwnedChange(threads, t, l);
    assert Owns(threads[t]) == multiset{ids[0]} + Owns(l);
    assert ids[0] in Owned(threads);
    PlacedOnce(table, threads, live, ids[0]);
    assert multiset(live - {ids[0]}) == multiset(live) - multiset{ids[0]};
  }

  lemma DestroyCounts(sessions: map<nat, Session>, threads: seq<Thread>, t: nat, id: nat, l: Thread)
    requires Counted(sessions, threads) && t < |threads| && threads[t].Owning? && !l.Using?
    requires id in sessions && sessions[id].refs == 0
    ensures Counted(sessions - {id}, threads[t := l])
  {
    hide Holders;
    NoUsing(sessions, threads, t, l);
  }

  lemma DestroyNumbers(live: set<nat>, freed: set<nat>, nextId: nat, id: nat)
    requires Numbered(live, freed, nextId) && id in live
    ensures Numbered(live - {id}, freed + {id}, nextId)
  {
  }

  lemma DestroyPools(sessions: map<nat, Session>, threads: seq<Thread>, pool: map<nat, User>, t: nat, id: nat,
      l: Thread)
    requires Pooled(sessions, threads, pool) && t < |threads| && threads[t].Owning? && !l.Opening? && id in sessions
    ensures Pooled(sessions - {id}, threads[t := l], pool - {sessions[id].slot})
  {
  }

  lemma DestroyDecides(s: Service, id: nat)
    requires Decided(s.sessions, s.nextId, s.uploads, s.committed, s.rolledBack) && id in s.sessions
    ensures Decided(s.sessions - {id}, s.nextId, s.uploads, s.committed,
      if s.sessions[id].txnOpen then s.rolledBack + {id} else s.rolledBack)
  {
  }

  lemma CommitKeeps(s: Service, id: nat, flushed: bool, committed: bool)
    requires Inv(s) && id in s.sessions
    ensures Inv(Committed(s, id, flushed, committed))
  {
    hide Placed, Counted, Marked, Numbered, Pooled, Decided;
    var x := s.sessions[id];
    if x.upload && x.txnOpen {
      if x.appenderOpen && !flushed {
        UploadChange(s, id, x.(appenderOpen := false));
        FlushFailureDecides(s, id);
      } else {
        UploadChange(s, id, x.(appenderOpen := false, txnOpen := false));
        CommitDecides(s, id, committed);
      }
    }
  }

  /** A change to a session's upload state alone. */
  lemma UploadChange(s: Service, id: nat, x: Session)
    requires Inv(s) && id in s.sessions
    requires x.slot == s.sessions[id].slot && x.refs == s.sessions[id].refs && x.closing == s.sessions[id].closing
    ensures var sessions' := s.sessions[id := x];
      && sessions'.Keys == s.sessions.Keys && Counted(sessions', s.threads) && Marked(sessions', s.table)
      && Pooled(sessions', s.threads, s.pool)
  {
    hide Placed, Counted, Marked, Numbered, Pooled, Decided;
    var sessions' := s.sessions[id := x];
    assert sessions'.Keys == s.sessions.Keys;
    SameSlots(s.sessions, sessions', s.threads, s.pool);
    SameRefs(s.sessions, sessions', s.threads);
    SameMarks(s.sessions, sessions', s.table);
  }

  lemma FlushFailureDecides(s: Service, id: nat)
    requires Decided(s.sessions, s.nextId, s.uploads, s.committed, s.rolledBack) && id in s.sessions
    ensures Decided(s.sessions[id := s.sessions[id].(appenderOpen := false)], s.nextId, s.uploads, s.committed,
      s.rolledBack)
  {
  }

  lemma CommitDecides(s: Service, id: nat, committed: bool)
    requires Decided(s.sessions, s.nextId, s.uploads, s.committed, s.rolledBack) && id in s.sessions
      && s.sessions[id].txnOpen
    ensures var x := s.sessions[id];
      Decided(s.sessions[id := x.(appenderOpen := false, txnOpen := false)], s.nextId, s.uploads,
        if committed then s.committed[id := Saved(x.rows, x.buffered)] else s.committed,
        if committed then s.rolledBack else s.rolledBack + {id})
  {
    assert id in s.uploads && id !in s.committed && id !in s.rolledBack;
  }

  /** Every step keeps the invariant. */
  lemma StepKeeps(s: Service, step: Step)
    requires Inv(s) && Next(s, step).Some?
    ensures Inv(Next(s, step).value)
  {
    hide Placed, Counted, Marked, Numbered, Pooled, Decided, MayAdd, OwnerAuth, Added, Acquired, Released, Uploaded,
      Detached, DetachedAll, Destroyed, Committed;
    match step
    case TakeConnection(t, slot) => TakeKeeps(s, t, slot);
    case ReturnConnection(t) => ReturnKeeps(s, t);
    case Add(t, owner, token, upload) => AddKeeps(s, t, owner, token, upload);
    case Acquire(t, id, token, caller) => if id in s.sessions { AcquireKeeps(s, t, id); }
    case Release(t) => ReleaseKeeps(s, t, s.threads[t].id);
    case AppendBatch(t, outcome) => AppendKeeps(s, s.threads[t].id, outcome);
    case Remove(t, id, token, caller) => if id in s.table { DetachKeeps(s, t, id, true); }
    case Prune(t, id) => DetachKeeps(s, t, id, false);
    case Commit(t, flushed, committed) =>
      var id := s.threads[t].ids[0];
      NoOwning(s.table, s.threads, s.sessions.Keys, t, Owning([id], false));
      NoUsing(s.sessions, s.threads, t, Owning([id], false));
      NoOpening(s.sessions, s.threads, s.pool, t, Owning([id], false));
      CommitKeeps(With(s, t, Owning([id], false)), id, flushed, committed);
    case Destroy(t) => DestroyKeeps(s, t);
    case BeginStop =>
    case DetachAll(t) => DetachAllKeeps(s, t);
    case SetLimits(_, _) =>
  }

  lemma {:induction false} FreshHolds(threads: nat, maxOpen: nat, maxPerIdentity: nat)
    ensures Inv(Fresh(threads, maxOpen, maxPerIdentity))
  {
    IdleThreads(Fresh(threads, maxOpen, maxPerIdentity).threads);
  }

  lemma {:induction false} IdleThreads(threads: seq<Thread>)
    requires forall t | 0 <= t < |threads| :: threads[t] == Idle
    ensures Holders(threads) == multiset{} && Owned(threads) == multiset{}
  {
    if threads != [] { IdleThreads(threads[1..]); }
  }

  /** Every reachable state has it, whatever the threads do. */
  lemma {:induction false} RunKeeps(s: Service, steps: seq<Step>)
    requires Inv(s) && Run(s, steps).Some?
    ensures Inv(Run(s, steps).value)
    decreases |steps|
  {
    hide Inv, Next;
    if steps != [] {
      StepKeeps(s, steps[0]);
      RunKeeps(Next(s, steps[0]).value, steps[1..]);
    }
  }
}
