/**
 The jobs table and its row updates: each SQL statement is a guarded update, fenced on the lease
 token where the store fences it.
 */
module JobQueue {
  import opened Prelude

  type JobId = nat
  type Token = nat
  type Kind = nat

  datatype Status = Queued | Running | Retrying | Completed | DeadLetter
  {
    predicate IsTerminal() { Completed? || DeadLetter? }

    predicate CanTransitionTo(next: Status) {
      match this
      case Queued => next.Running?
      case Retrying => next.Running?
      case Running => next.Completed? || next.Retrying? || next.DeadLetter?
      case Completed => false
      case DeadLetter => false
    }
  }

  datatype Job = Job(
    kind: Kind,
    status: Status,
    attempts: nat,
    maxAttempts: nat,
    availableAt: Time,
    lockedUntil: Option<Time>,
    leaseToken: Option<Token>,
    lockedBy: Option<nat>,
    progress: Option<(nat, nat)>,
    updatedAt: Time,
    completedAt: Option<Time>)

  type Jobs = map<JobId, Job>

  function NewJob(kind: Kind, maxAttempts: nat, availableAt: Time, now: Time): Job {
    Job(kind, Queued, 0, maxAttempts, availableAt, None, None, None, None, now, None)
  }

  predicate Claimable(j: Job, now: Time) { (j.status.Queued? || j.status.Retrying?) && j.availableAt <= now }

  function ClaimRow(j: Job, token: Token, worker: nat, now: Time, lease: Time): Job {
    j.(status := Running, lockedUntil := Some(now + lease), leaseToken := Some(token), lockedBy := Some(worker),
       attempts := j.attempts + 1, updatedAt := now)
  }

  /** The WHERE clause every worker write carries: the row is running under this very token. */
  predicate Holds(jobs: Jobs, id: JobId, token: Token) {
    id in jobs && jobs[id].status.Running? && jobs[id].leaseToken == Some(token)
  }

  function HeartbeatRows(jobs: Jobs, id: JobId, token: Token, now: Time, lease: Time): Jobs {
    if Holds(jobs, id, token) then jobs[id := jobs[id].(lockedUntil := Some(now + lease), updatedAt := now)] else jobs
  }

  function CompleteRows(jobs: Jobs, id: JobId, token: Token, now: Time): Jobs {
    if Holds(jobs, id, token)
    then jobs[id := jobs[id].(status := Completed, completedAt := Some(now), lockedUntil := None, updatedAt := now)]
    else jobs
  }

  function FailRows(jobs: Jobs, id: JobId, token: Token, now: Time, nextRun: Time, deadLetter: bool): Jobs {
    if Holds(jobs, id, token)
    then jobs[id := jobs[id].(status := if deadLetter then DeadLetter else Retrying, availableAt := nextRun,
                              lockedUntil := None, updatedAt := now)]
    else jobs
  }

  function ProgressRows(jobs: Jobs, id: JobId, token: Token, current: nat, total: nat, now: Time): Jobs {
    if Holds(jobs, id, token) then jobs[id := jobs[id].(progress := Some((current, total)), updatedAt := now)] else jobs
  }

  predicate Stale(j: Job, now: Time) { j.status.Running? && j.lockedUntil.Some? && j.lockedUntil.value < now }

  /** A reclaim retires the old token by minting another; it never counts an attempt. */
  function ReclaimRow(j: Job, token: Token, now: Time, retryAt: Time): Job {
    var exhausted := j.attempts >= j.maxAttempts;
    j.(status := if exhausted then DeadLetter else Retrying, availableAt := if exhausted then now else retryAt,
       leaseToken := Some(token), lockedBy := None, lockedUntil := None, updatedAt := now)
  }

  function CancelRow(j: Job, now: Time): Job {
    j.(status := DeadLetter, completedAt := Some(now), lockedUntil := None, updatedAt := now)
  }

  predicate Cleared(j: Job, cutoff: Time) {
    j.status.Completed? && match j.completedAt { case Some(t) => t <= cutoff case None => j.updatedAt <= cutoff }
  }

  function ClearRows(jobs: Jobs, cutoff: Time): Jobs {
    map id | id in jobs && !Cleared(jobs[id], cutoff) :: jobs[id]
  }

  // ----- the engine's protocol over those updates -----

  /** The lease a claim grants and the attempt budget registered for each kind of job. */
  datatype Config = Config(lease: Time, budget: map<Kind, nat>)
  {
    predicate Valid() { forall k :: k in budget ==> 1 <= budget[k] }
  }

  /** What a worker keeps of the row it read after its claim committed. */
  datatype Snapshot = Snapshot(id: JobId, token: Token, attempts: nat, kind: Kind)

  /** Why a token exists: minted for `job` when its attempt count was `attempt`, by a claim or by a reclaim. */
  datatype Mint = Mint(job: JobId, attempt: nat, byClaim: bool)

  datatype State = State(jobs: Jobs, used: set<JobId>, minted: map<Token, Mint>, snapshots: set<Snapshot>)

  datatype Event =
    | Enqueue(id: JobId, kind: Kind, availableAt: Time, now: Time)
    | Claim(id: JobId, token: Token, worker: nat, now: Time)
    | Reread(id: JobId, now: Time)
    | Heartbeat(snap: Snapshot, now: Time)
    | Complete(snap: Snapshot, now: Time)
    | Fail(snap: Snapshot, permanent: bool, nextRun: Time, now: Time)
    | ReportProgress(snap: Snapshot, current: nat, total: nat, now: Time)
    | Reclaim(id: JobId, token: Token, retryAt: Time, now: Time)
    | Cancel(id: JobId, now: Time)
    | Retry(id: JobId, newId: JobId, now: Time)
    | Clear(cutoff: Time, now: Time)
  {
    predicate IsWorkerWrite() { Heartbeat? || Complete? || Fail? || ReportProgress? }
  }

  /** The engine's choice between retrying and giving up, taken on the snapshot. */
  predicate GivesUp(c: Config, snap: Snapshot, permanent: bool) {
    permanent || snap.kind !in c.budget || snap.attempts >= c.budget[snap.kind]
  }

  predicate Enabled(c: Config, s: State, e: Event) {
    match e
    case Enqueue(id, kind, availableAt, now) => kind in c.budget && id !in s.used
    case Claim(id, token, worker, now) => id in s.jobs && Claimable(s.jobs[id], now) && token !in s.minted
    case Reread(id, now) => id in s.jobs && s.jobs[id].leaseToken.Some?
    case Heartbeat(snap, now) => snap in s.snapshots
    case Complete(snap, now) => snap in s.snapshots
    case Fail(snap, permanent, nextRun, now) => snap in s.snapshots
    case ReportProgress(snap, current, total, now) => snap in s.snapshots
    case Reclaim(id, token, retryAt, now) => id in s.jobs && Stale(s.jobs[id], now) && token !in s.minted
    case Cancel(id, now) => id in s.jobs && !s.jobs[id].status.IsTerminal()
    case Retry(id, newId, now) => id in s.jobs && s.jobs[id].status.DeadLetter? && newId !in s.used
    case Clear(cutoff, now) => true
  }

  function Next(c: Config, s: State, e: Event): State
    requires Enabled(c, s, e)
  {
    match e
    case Enqueue(id, kind, availableAt, now) =>
      s.(jobs := s.jobs[id := NewJob(kind, c.budget[kind], availableAt, now)], used := s.used + {id})
    case Claim(id, token, worker, now) =>
      var j := ClaimRow(s.jobs[id], token, worker, now, c.lease);
      s.(jobs := s.jobs[id := j], minted := s.minted[token := Mint(id, j.attempts, true)])
    case Reread(id, now) =>
      var j := s.jobs[id];
      s.(snapshots := s.snapshots + {Snapshot(id, j.leaseToken.value, j.attempts, j.kind)})
    case Heartbeat(snap, now) => s.(jobs := HeartbeatRows(s.jobs, snap.id, snap.token, now, c.lease))
    case Complete(snap, now) => s.(jobs := CompleteRows(s.jobs, snap.id, snap.token, now))
    case Fail(snap, permanent, nextRun, now) =>
      s.(jobs := FailRows(s.jobs, snap.id, snap.token, now, nextRun, GivesUp(c, snap, permanent)))
    case ReportProgress(snap, current, total, now) =>
      s.(jobs := ProgressRows(s.jobs, snap.id, snap.token, current, total, now))
    case Reclaim(id, token, retryAt, now) =>
      s.(jobs := s.jobs[id := ReclaimRow(s.jobs[id], token, now, retryAt)],
         minted := s.minted[token := Mint(id, s.jobs[id].attempts, false)])
    case Cancel(id, now) => s.(jobs := s.jobs[id := CancelRow(s.jobs[id], now)])
    case Retry(id, newId, now) =>
      s.(jobs := s.jobs[newId := NewJob(s.jobs[id].kind, s.jobs[id].maxAttempts, now, now)], used := s.used + {newId})
    case Clear(cutoff, now) => s.(jobs := ClearRows(s.jobs, cutoff))
  }

  datatype Run = Run(states: seq<State>, events: seq<Event>)

  /** Each event leads from one state to the next. */
  predicate IsTrace(c: Config, r: Run) {
    && |r.states| == |r.events| + 1
    && forall i :: 0 <= i < |r.events| ==>
         Enabled(c, r.states[i], r.events[i]) && r.states[i + 1] == Next(c, r.states[i], r.events[i])
  }

  predicate IsRun(c: Config, r: Run) { IsTrace(c, r) && r.states[0] == State(map[], {}, map[], {}) }

  // ----- what every step keeps -----

  /** Attempt counts, lease columns and the token all agree with the status of a row. */
  predicate JobOk(c: Config, minted: map<Token, Mint>, id: JobId, j: Job) {
    && j.kind in c.budget && j.maxAttempts == c.budget[j.kind] && j.attempts <= j.maxAttempts
    && (j.status.Running? <==> j.lockedUntil.Some?)
    && (j.status.Queued? ==> j.attempts == 0 && j.leaseToken.None?)
    && (j.status.Retrying? ==> j.attempts < j.maxAttempts)
    && (j.status.Running? ==> 1 <= j.attempts && j.leaseToken.Some?)
    && (j.status.Completed? ==> j.completedAt.Some?)
    && (j.leaseToken.Some? ==> j.leaseToken.value in minted && minted[j.leaseToken.value].job == id
                               && minted[j.leaseToken.value].attempt == j.attempts)
    && (j.status.Running? ==> minted[j.leaseToken.value].byClaim)
  }

  predicate SnapshotOk(s: State, snap: Snapshot) {
    && snap.token in s.minted && s.minted[snap.token].job == snap.id && s.minted[snap.token].attempt == snap.attempts
    && (snap.id in s.jobs ==> s.jobs[snap.id].kind == snap.kind)
    && snap.id in s.used
  }

  ghost predicate Inv(c: Config, s: State) {
    && (forall id :: id in s.jobs ==> id in s.used && JobOk(c, s.minted, id, s.jobs[id]))
    && (forall snap :: snap in s.snapshots ==> SnapshotOk(s, snap))
  }

  /** A row whose token matches a snapshot has the snapshot's attempt count. */
  lemma MatchingTokenMatchesAttempts(c: Config, s: State, snap: Snapshot)
    requires Inv(c, s) && snap in s.snapshots && snap.id in s.jobs && s.jobs[snap.id].leaseToken == Some(snap.token)
    ensures s.jobs[snap.id].attempts == snap.attempts && s.jobs[snap.id].kind == snap.kind
  {
  }

  /** The row a step may touch. */
  function Target(e: Event): Option<JobId> {
    match e
    case Enqueue(id, _, _, _) => Some(id)
    case Claim(id, _, _, _) => Some(id)
    case Reread(_, _) => None
    case Heartbeat(snap, _) => Some(snap.id)
    case Complete(snap, _) => Some(snap.id)
    case Fail(snap, _, _, _) => Some(snap.id)
    case ReportProgress(snap, _, _, _) => Some(snap.id)
    case Reclaim(id, _, _, _) => Some(id)
    case Cancel(id, _) => Some(id)
    case Retry(_, newId, _) => Some(newId)
    case Clear(_, _) => None
  }

  lemma StepFrame(c: Config, s: State, e: Event)
    requires Enabled(c, s, e)
    ensures var t := Next(c, s, e);
            && s.used <= t.used && s.snapshots <= t.snapshots
            && (forall k :: k in s.minted ==> k in t.minted && t.minted[k] == s.minted[k])
            && (forall id :: id in t.jobs && Some(id) != Target(e) ==> id in s.jobs && t.jobs[id] == s.jobs[id])
            && (forall id :: id in s.jobs && id !in t.jobs ==> e.Clear? && s.jobs[id].status.Completed?)
  {
  }

  lemma TargetOk(c: Config, s: State, e: Event)
    requires c.Valid() && Inv(c, s) && Enabled(c, s, e) && Target(e).Some?
    ensures var t, id := Next(c, s, e), Target(e).value;
            && (id in t.jobs ==> id in t.used && JobOk(c, t.minted, id, t.jobs[id]))
            && (id in t.jobs && id in s.jobs ==> t.jobs[id].kind == s.jobs[id].kind)
  {
  }

  lemma InvStep(c: Config, s: State, e: Event)
    requires c.Valid() && Inv(c, s) && Enabled(c, s, e)
    ensures Inv(c, Next(c, s, e))
  {
    var t := Next(c, s, e);
    StepFrame(c, s, e);
    if Target(e).Some? { TargetOk(c, s, e); }
    forall id | id in t.jobs ensures id in t.used && JobOk(c, t.minted, id, t.jobs[id]) {
      if Some(id) != Target(e) {
        assert JobOk(c, s.minted, id, s.jobs[id]);
        JobOkMonotone(c, s.minted, t.minted, id, t.jobs[id]);
      }
    }
    forall snap | snap in t.snapshots ensures SnapshotOk(t, snap) {
      SnapshotStep(c, s, e, snap);
    }
  }

  lemma JobOkMonotone(c: Config, minted: map<Token, Mint>, minted': map<Token, Mint>, id: JobId, j: Job)
    requires JobOk(c, minted, id, j) && forall k :: k in minted ==> k in minted' && minted'[k] == minted[k]
    ensures JobOk(c, minted', id, j)
  {
  }

  lemma SnapshotStep(c: Config, s: State, e: Event, snap: Snapshot)
    requires c.Valid() && Inv(c, s) && Enabled(c, s, e) && snap in Next(c, s, e).snapshots
    ensures SnapshotOk(Next(c, s, e), snap)
  {
  }
}
