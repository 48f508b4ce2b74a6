/**
 The job store: the row updates as methods over a mutable table, with a generator of lease tokens. A ghost state
 follows the table, and every method is proved to be a step of the queue's protocol or to leave it as it was.
 */
module JobStore {
  import opened Prelude
  import opened JobQueue

  class Store {
    const config: Config
    var jobs: Jobs
    var nextToken: Token
    ghost var model: State

    constructor (config: Config)
      requires config.Valid()
      ensures Valid() && this.config == config && model == State(map[], {}, map[], {})
    {
      this.config := config;
      jobs, nextToken := map[], 0;
      model := State(map[], {}, map[], {});
    }

    /** The table is that of a state that keeps the queue's invariant, and the next token was never minted. */
    ghost predicate Valid()
      reads this
    {
      config.Valid() && model.jobs == jobs && Fits(config, model, nextToken)
    }

    // ----- adding jobs -----

    /**
     Inserts a queued job; a non-positive attempt budget or a taken id violates a table constraint. The budget is
     the one registered for the kind, and an id is taken only by a row that is still there: ids are drawn fresh.
     */
    method Enqueue(id: JobId, kind: Kind, maxAttempts: nat, availableAt: Time, now: Time) returns (r: Result<()>)
      requires Valid() && (id in model.used ==> id in jobs)
      requires maxAttempts >= 1 ==> kind in config.budget && config.budget[kind] == maxAttempts
      modifies this
      ensures Valid()
      ensures r == if maxAttempts < 1 then Err(Internal) else if id in old(jobs) then Err(Conflict) else Ok(())
      ensures r.Ok? ==> model == Next(config, old(model), Event.Enqueue(id, kind, availableAt, now))
      ensures r.Err? ==> model == old(model)
      ensures r.Ok? ==> id in jobs && jobs == old(jobs)[id := jobs[id]]
      ensures r.Ok? ==> IsNew(jobs[id], kind, maxAttempts, availableAt)
    {
      if maxAttempts < 1 { return Err(Internal); }
      if id in jobs { return Err(Conflict); }
      FitsStep(config, model, Event.Enqueue(id, kind, availableAt, now), nextToken, nextToken);
      model := Next(config, model, Event.Enqueue(id, kind, availableAt, now));
      jobs := jobs[id := NewJob(kind, maxAttempts, availableAt, now)];
      r := Ok(());
    }

    /** The queue's own entry point: an unregistered kind is refused, and the registry supplies the budget. */
    method EnqueueKind(id: JobId, kind: Kind, now: Time) returns (r: Result<JobId>)
      requires Valid() && id !in model.used
      modifies this
      ensures Valid()
      ensures r == if kind in config.budget then Ok(id) else Err(InvalidInput)
      ensures r.Ok? ==> model == Next(config, old(model), Event.Enqueue(id, kind, now, now))
      ensures r.Err? ==> model == old(model)
      ensures r.Ok? ==> id in jobs && jobs == old(jobs)[id := jobs[id]]
      ensures r.Ok? ==> IsNew(jobs[id], kind, config.budget[kind], now)
    {
      if kind !in config.budget { return Err(InvalidInput); }
      var inserted := Enqueue(id, kind, config.budget[kind], now, now);
      r := Ok(id);
    }

    /** Enqueues a dead-letter job again as a new record; the old row stays as it is. */
    method RetryJob(id: JobId, newId: JobId, now: Time) returns (r: Result<JobId>)
      requires Valid() && (newId in model.used ==> newId in jobs)
      modifies this
      ensures Valid()
      ensures r == if id !in old(jobs) then Err(NotFound)
                   else if !old(jobs)[id].status.DeadLetter? || newId in old(jobs) then Err(Conflict) else Ok(newId)
      ensures r.Ok? ==> model == Next(config, old(model), Event.Retry(id, newId, now))
      ensures r.Err? ==> model == old(model)
      ensures r.Ok? ==> newId in jobs && jobs == old(jobs)[newId := jobs[newId]]
      ensures r.Ok? ==> IsNew(jobs[newId], old(jobs)[id].kind, old(jobs)[id].maxAttempts, now)
    {
      if id !in jobs { return Err(NotFound); }
      if jobs[id].status != DeadLetter { return Err(Conflict); }
      if newId in jobs { return Err(Conflict); }
      FitsStep(config, model, Event.Retry(id, newId, now), nextToken, nextToken);
      model := Next(config, model, Event.Retry(id, newId, now));
      jobs := jobs[newId := NewJob(jobs[id].kind, jobs[id].maxAttempts, now, now)];
      r := Ok(newId);
    }

    // ----- claiming -----

    /**
     The claiming transaction: the oldest claimable job of the given kinds (no kinds means any) that no other
     transaction has locked goes to the worker under a new token.
     */
    method ClaimNext(worker: nat, kinds: set<Kind>, now: Time, locked: set<JobId>) returns (claimed: Option<JobId>)
      requires Valid()
      modifies this
      ensures Valid()
      ensures claimed.None? ==> model == old(model)
      ensures forall id :: id in old(jobs) && (old(jobs)[id].status.Queued? || old(jobs)[id].status.Retrying?)
                && old(jobs)[id].availableAt <= now && (kinds == {} || old(jobs)[id].kind in kinds) && id !in locked
                ==> claimed.Some? && claimed.value in old(jobs)
                    && old(jobs)[claimed.value].availableAt <= old(jobs)[id].availableAt
      ensures claimed.Some? ==> claimed.value in old(jobs) && claimed.value !in locked
      ensures claimed.Some? ==> var j := old(jobs)[claimed.value];
                && (j.status.Queued? || j.status.Retrying?) && j.availableAt <= now && (kinds == {} || j.kind in kinds)
      ensures claimed.Some? ==> claimed.value in jobs && jobs == old(jobs)[claimed.value := jobs[claimed.value]]
      ensures claimed.Some? ==> var j, k := old(jobs)[claimed.value], jobs[claimed.value];
                && k.status.Running? && k.lockedUntil == Some(now + config.lease) && k.lockedBy == Some(worker)
                && k.leaseToken == Some(old(nextToken)) && k.attempts == j.attempts + 1 && k.kind == j.kind
                && k.maxAttempts == j.maxAttempts && k.availableAt == j.availableAt && k.progress == j.progress
      ensures claimed.Some? ==> Enabled(config, old(model), Event.Claim(claimed.value, old(nextToken), worker, now))
      ensures claimed.Some?
              ==> model == Next(config, old(model), Event.Claim(claimed.value, old(nextToken), worker, now))
    {
      claimed := FindCandidate(kinds, now, locked);
      forall id | id in jobs && (jobs[id].status.Queued? || jobs[id].status.Retrying?) && jobs[id].availableAt <= now
                  && (kinds == {} || jobs[id].kind in kinds) && id !in locked
        ensures claimed.Some? && jobs[claimed.value].availableAt <= jobs[id].availableAt
      {
        assert Candidate(jobs, id, kinds, now, locked);
      }
      if claimed.None? { return; }
      var id, token := claimed.value, nextToken;
      NextTokenIsNew(config, model, token);
      FitsStep(config, model, Event.Claim(id, token, worker, now), token, token + 1);
      nextToken := nextToken + 1;
      model := Next(config, model, Event.Claim(id, token, worker, now));
      var j := jobs[id];
      jobs := jobs[id := j.(status := Running, lockedUntil := Some(now + config.lease), leaseToken := Some(token),
                            lockedBy := Some(worker), attempts := j.attempts + 1, updatedAt := now)];
    }

    method FindCandidate(kinds: set<Kind>, now: Time, locked: set<JobId>) returns (best: Option<JobId>)
      ensures best.None? ==> forall id :: !Candidate(jobs, id, kinds, now, locked)
      ensures best.Some?
              ==> Candidate(jobs, best.value, kinds, now, locked) && Oldest(jobs, best.value, kinds, now, locked)
    {
      best := None;
      var rest := jobs.Keys;
      while rest != {}
        invariant rest <= jobs.Keys
        invariant best.Some? ==> Candidate(jobs, best.value, kinds, now, locked)
        invariant forall id :: Candidate(jobs, id, kinds, now, locked) && id !in rest
                    ==> best.Some? && jobs[best.value].availableAt <= jobs[id].availableAt
        decreases rest
      {
        var id :| id in rest;
        if Candidate(jobs, id, kinds, now, locked)
           && (best.None? || jobs[id].availableAt < jobs[best.value].availableAt) {
          best := Some(id);
        }
        rest := rest - {id};
      }
    }

    /**
     The re-read that follows the commit of a claim: the row as it is by then, which is all the worker knows. What
     happened in between, it sees too; a row deleted by then is not found.
     */
    method Reread(id: JobId, now: Time) returns (r: Result<Job>)
      requires Valid()
      modifies this
      ensures Valid() && jobs == old(jobs)
      ensures r == if id in jobs then Ok(jobs[id]) else Err(NotFound)
      ensures r.Ok? && r.value.leaseToken.Some? ==> model == Next(config, old(model), Event.Reread(id, now))
      ensures r.Ok? && r.value.leaseToken.Some? ==> SnapshotOf(id, r.value) in model.snapshots
      ensures r.Err? || r.value.leaseToken.None? ==> model == old(model)
    {
      if id !in jobs { return Err(NotFound); }
      r := Ok(jobs[id]);
      if jobs[id].leaseToken.Some? {
        FitsStep(config, model, Event.Reread(id, now), nextToken, nextToken);
        model := Next(config, model, Event.Reread(id, now));
      }
    }

    // ----- the worker's fenced writes -----

    /** Extends the lease; false says the lease is no longer the caller's. */
    method Heartbeat(id: JobId, token: Token, now: Time) returns (alive: bool)
      requires Valid()
      modifies this
      ensures Valid() && alive == Holds(old(jobs), id, token) && (!alive ==> model == old(model))
      ensures alive ==> id in jobs && jobs == old(jobs)[id := jobs[id]]
      ensures alive ==> jobs[id] == old(jobs)[id].(lockedUntil := Some(now + config.lease), updatedAt := now)
      ensures forall snap :: Presents(old(model), snap, id, token)
                ==> model == Next(config, old(model), Event.Heartbeat(snap, now))
    {
      alive := Holds(jobs, id, token);
      if alive {
        RowChangeKeeps(config, model, id, jobs[id].(lockedUntil := Some(now + config.lease), updatedAt := now));
        jobs := jobs[id := jobs[id].(lockedUntil := Some(now + config.lease), updatedAt := now)];
        model := model.(jobs := jobs);
      }
    }

    method Complete(id: JobId, token: Token, now: Time) returns (ok: bool)
      requires Valid()
      modifies this
      ensures Valid() && ok == Holds(old(jobs), id, token) && (!ok ==> model == old(model))
      ensures ok ==> id in jobs && jobs == old(jobs)[id := jobs[id]]
      ensures ok ==> jobs[id].status.Completed? && jobs[id].completedAt == Some(now) && jobs[id].lockedUntil.None?
      ensures ok ==> jobs[id].leaseToken == Some(token) && SameWork(old(jobs)[id], jobs[id])
      ensures forall snap :: Presents(old(model), snap, id, token)
                ==> model == Next(config, old(model), Event.Complete(snap, now))
    {
      ok := Holds(jobs, id, token);
      if ok {
        var done := jobs[id].(status := Completed, completedAt := Some(now), lockedUntil := None, updatedAt := now);
        RowChangeKeeps(config, model, id, done);
        jobs := jobs[id := done];
        model := model.(jobs := jobs);
      }
    }

    /** Retrying a job whose attempts are spent would break the invariant; the engine never asks for it. */
    method Fail(id: JobId, token: Token, now: Time, nextRun: Time, deadLetter: bool) returns (ok: bool)
      requires Valid()
      modifies this
      ensures ok == Holds(old(jobs), id, token) && (!ok ==> model == old(model))
      ensures ok ==> id in jobs && jobs == old(jobs)[id := jobs[id]]
      ensures ok ==> jobs[id].status == if deadLetter then DeadLetter else Retrying
      ensures ok ==> jobs[id].availableAt == nextRun && jobs[id].lockedUntil.None? && SameWork(old(jobs)[id], jobs[id])
      ensures !ok || deadLetter || old(jobs)[id].attempts < old(jobs)[id].maxAttempts ==> Valid()
      ensures forall snap, permanent ::
        Presents(old(model), snap, id, token) && deadLetter == GivesUp(config, snap, permanent)
        ==> Valid() && model == Next(config, old(model), Event.Fail(snap, permanent, nextRun, now))
    {
      var next := Retrying;
      if deadLetter { next := DeadLetter; }
      ok := Holds(jobs, id, token);
      if ok {
        var failed := jobs[id].(status := next, availableAt := nextRun, lockedUntil := None, updatedAt := now);
        PresentedMayRetry(config, model, id, token);
        if deadLetter || jobs[id].attempts < jobs[id].maxAttempts { RowChangeKeeps(config, model, id, failed); }
        jobs := jobs[id := failed];
        model := model.(jobs := jobs);
      }
    }

    /** The engine's decision between retrying and giving up, taken on what the worker knows. */
    method FinishFailure(snap: Snapshot, permanent: bool, nextRun: Time, now: Time) returns (ok: bool)
      requires Valid() && snap in model.snapshots
      modifies this
      ensures Valid() && ok == Holds(old(jobs), snap.id, snap.token)
      ensures model == Next(config, old(model), Event.Fail(snap, permanent, nextRun, now))
      ensures ok ==> snap.id in jobs && jobs == old(jobs)[snap.id := jobs[snap.id]]
      ensures ok ==> var j := old(jobs)[snap.id];
                jobs[snap.id].status == if permanent || j.attempts >= j.maxAttempts then DeadLetter else Retrying
      ensures ok ==> jobs[snap.id].availableAt == nextRun && jobs[snap.id].attempts == old(jobs)[snap.id].attempts
    {
      var exhausted := snap.kind !in config.budget || snap.attempts >= config.budget[snap.kind];
      assert Presents(model, snap, snap.id, snap.token) && (permanent || exhausted) == GivesUp(config, snap, permanent);
      if Holds(jobs, snap.id, snap.token) { RowOfSnapshot(config, model, snap); }
      ok := Fail(snap.id, snap.token, now, nextRun, permanent || exhausted);
    }

    method UpdateProgress(id: JobId, token: Token, current: nat, total: nat, now: Time)
      requires Valid()
      modifies this
      ensures Valid() && (!Holds(old(jobs), id, token) ==> model == old(model))
      ensures Holds(old(jobs), id, token) ==> id in jobs && jobs == old(jobs)[id := jobs[id]]
      ensures Holds(old(jobs), id, token)
              ==> jobs[id] == old(jobs)[id].(progress := Some((current, total)), updatedAt := now)
      ensures forall snap :: Presents(old(model), snap, id, token)
                ==> model == Next(config, old(model), Event.ReportProgress(snap, current, total, now))
    {
      if Holds(jobs, id, token) {
        RowChangeKeeps(config, model, id, jobs[id].(progress := Some((current, total)), updatedAt := now));
        jobs := jobs[id := jobs[id].(progress := Some((current, total)), updatedAt := now)];
        model := model.(jobs := jobs);
      }
    }

    // ----- the reaper -----

    /** Reclaims one job if it is still stale when its row is locked, under a token no worker has. */
    method ReclaimOne(id: JobId, now: Time, backoffFor: nat -> Time) returns (ok: bool)
      requires Valid()
      modifies this
      ensures Valid()
      ensures ok <==> && id in old(jobs) && old(jobs)[id].status.Running?
                      && old(jobs)[id].lockedUntil.Some? && old(jobs)[id].lockedUntil.value < now
      ensures ok ==> Reclaimed(config, old(model), model, ReclaimOf(old(jobs), id, old(nextToken), now, backoffFor))
      ensures ok ==> nextToken == old(nextToken) + 1
      ensures ok ==> id in jobs && jobs == old(jobs)[id := jobs[id]] && SameWork(old(jobs)[id], jobs[id])
      ensures ok ==> var j, k := old(jobs)[id], jobs[id];
                && k.status == (if j.attempts < j.maxAttempts then Retrying else DeadLetter)
                && k.availableAt == (if j.attempts < j.maxAttempts then now + backoffFor(j.attempts) else now)
                && k.lockedBy.None? && k.lockedUntil.None? && k.leaseToken == Some(old(nextToken))
      ensures !ok ==> model == old(model) && nextToken == old(nextToken)
    {
      if id !in jobs || !Stale(jobs[id], now) { return false; }
      var j := jobs[id];
      var next, availableAt := Retrying, now + backoffFor(j.attempts);
      ghost var e := Event.Reclaim(id, nextToken, availableAt, now);
      ReclaimIsStep(config, model, e, nextToken);
      if j.attempts >= j.maxAttempts { next, availableAt := DeadLetter, now; }
      jobs := jobs[id := j.(status := next, availableAt := availableAt, leaseToken := Some(nextToken), lockedBy := None,
                            lockedUntil := None, updatedAt := now)];
      model := Next(config, model, e);
      nextToken := nextToken + 1;
      ok := true;
    }

    /**
     The reaper sweep: it reclaims every stale job once, each under a fresh token of its own, and touches nothing
     else; as far as the queue is concerned it is that many reclaims, one after the other.
     */
    method RecoverStale(now: Time, backoffFor: nat -> Time)
      returns (recovered: nat, ghost ids: seq<JobId>, ghost trace: Run)
      requires Valid()
      modifies this
      ensures Valid() && ListsStale(old(jobs), ids, now) && recovered == |ids|
      ensures Swept(old(jobs), jobs, ids, |ids|, old(nextToken), now, backoffFor)
      ensures forall id :: id in ids <==> (id in old(jobs) && old(jobs)[id].status.Running?
                && old(jobs)[id].lockedUntil.Some? && old(jobs)[id].lockedUntil.value < now)
      ensures jobs.Keys == old(jobs).Keys && forall id :: id in jobs && id !in ids ==> jobs[id] == old(jobs)[id]
      ensures forall id :: id in ids ==> var j, k := old(jobs)[id], jobs[id];
                && k.status == (if j.attempts < j.maxAttempts then Retrying else DeadLetter)
                && k.availableAt == (if j.attempts < j.maxAttempts then now + backoffFor(j.attempts) else now)
                && k.lockedBy.None? && k.lockedUntil.None? && SameWork(j, k)
      ensures Sweeps(config, old(model), model, trace, ids, |ids|)
    {
      var stale := SelectStale(jobs, now);
      ids := stale;
      ghost var before, floor := jobs, nextToken;
      recovered, trace := ReclaimAll(stale, now, backoffFor);
      SweptMeans(before, jobs, ids, floor, now, backoffFor);
    }

    method ReclaimAll(ids: seq<JobId>, now: Time, backoffFor: nat -> Time) returns (recovered: nat, ghost trace: Run)
      requires Valid() && ListsStale(jobs, ids, now)
      modifies this
      ensures Valid() && recovered == |ids| && Swept(old(jobs), jobs, ids, |ids|, old(nextToken), now, backoffFor)
      ensures Sweeps(config, old(model), model, trace, ids, |ids|)
    {
      ghost var before, floor, start := jobs, nextToken, model;
      recovered, trace := 0, Run([model], []);
      for i := 0 to |ids|
        invariant Valid() && recovered == i && nextToken == floor + i
        invariant Swept(before, jobs, ids, i, floor, now, backoffFor)
        invariant Sweeps(config, start, model, trace, ids, i)
      {
        ghost var middle := model;
        var ok := ReclaimNth(before, ids, i, floor, now, backoffFor);
        trace := SweepTrace(config, start, middle, trace, ids, i, model);
        if ok { recovered := recovered + 1; }
      }
    }

    /** One turn of the sweep: the row is still stale, since no earlier turn touched it. */
    method ReclaimNth(ghost before: Jobs, ids: seq<JobId>, i: nat, ghost floor: Token, now: Time,
                      backoffFor: nat -> Time)
      returns (ok: bool)
      requires Valid() && i < |ids| && ListsStale(before, ids, now) && nextToken == floor + i
      requires Swept(before, jobs, ids, i, floor, now, backoffFor)
      modifies this
      ensures ok && Valid() && nextToken == floor + i + 1 && Swept(before, jobs, ids, i + 1, floor, now, backoffFor)
      ensures ReclaimedJob(config, old(model), model, ids[i])
    {
      StillStale(before, jobs, ids, i, floor, now, backoffFor);
      ghost var s := model;
      ok := ReclaimOne(ids[i], now, backoffFor);
      TurnSweeps(config, before, s, model, ids, i, floor, now, backoffFor);
    }

    // ----- administration -----

    /** Moves a job that has not ended to dead_letter. */
    method CancelJob(id: JobId, now: Time) returns (r: Result<()>)
      requires Valid()
      modifies this
      ensures Valid()
      ensures r == if id !in old(jobs) then Err(NotFound)
                   else if old(jobs)[id].status in {Completed, DeadLetter} then Err(Conflict) else Ok(())
      ensures r.Ok? ==> model == Next(config, old(model), Event.Cancel(id, now))
      ensures r.Err? ==> model == old(model)
      ensures r.Ok? ==> id in jobs && jobs == old(jobs)[id := jobs[id]] && SameWork(old(jobs)[id], jobs[id])
      ensures r.Ok? ==> jobs[id].status.DeadLetter? && jobs[id].completedAt == Some(now) && jobs[id].lockedUntil.None?
    {
      if id !in jobs { return Err(NotFound); }
      if jobs[id].status.IsTerminal() { return Err(Conflict); }
      FitsStep(config, model, Event.Cancel(id, now), nextToken, nextToken);
      model := Next(config, model, Event.Cancel(id, now));
      jobs := jobs[id := CancelRow(jobs[id], now)];
      r := Ok(());
    }

    /** Deletes old completed jobs and says how many there were. */
    method ClearCompleted(cutoff: Time, now: Time) returns (deleted: nat)
      requires Valid()
      modifies this
      ensures Valid() && model == Next(config, old(model), Event.Clear(cutoff, now))
      ensures deleted == |old(jobs)| - |jobs|
      ensures jobs.Keys <= old(jobs).Keys && forall id :: id in jobs ==> jobs[id] == old(jobs)[id]
      ensures forall id :: id in old(jobs) && old(jobs)[id].completedAt.Some?
                ==> (id !in jobs <==> old(jobs)[id].status.Completed? && old(jobs)[id].completedAt.value <= cutoff)
      ensures forall id :: id in old(jobs) && old(jobs)[id].completedAt.None?
                ==> (id !in jobs <==> old(jobs)[id].status.Completed? && old(jobs)[id].updatedAt <= cutoff)
    {
      FitsStep(config, model, Event.Clear(cutoff, now), nextToken, nextToken);
      model := Next(config, model, Event.Clear(cutoff, now));
      var gone := set id | id in jobs && Cleared(jobs[id], cutoff);
      ClearRemoves(jobs, gone, cutoff);
      jobs := jobs - gone;
      deleted := |gone|;
    }
  }

  /** A fresh queued record, ready from `availableAt` on, that nobody has worked on. */
  predicate IsNew(j: Job, kind: Kind, maxAttempts: nat, availableAt: Time) {
    && j.kind == kind && j.status.Queued? && j.attempts == 0 && j.maxAttempts == maxAttempts
    && j.availableAt == availableAt && j.lockedUntil.None? && j.leaseToken.None? && j.lockedBy.None?
    && j.progress.None? && j.completedAt.None?
  }

  /** What the job is and how far it got: kind, attempts, budget and progress are the same. */
  predicate SameWork(j: Job, k: Job) {
    k.kind == j.kind && k.attempts == j.attempts && k.maxAttempts == j.maxAttempts && k.progress == j.progress
  }

  /** What a worker that holds the row knows of it is so: its attempts, and its budget from the registry. */
  lemma RowOfSnapshot(c: Config, s: State, snap: Snapshot)
    requires Inv(c, s) && snap in s.snapshots && Holds(s.jobs, snap.id, snap.token)
    ensures s.jobs[snap.id].attempts == snap.attempts && snap.kind in c.budget
    ensures s.jobs[snap.id].maxAttempts == c.budget[snap.kind]
  {
    MatchingTokenMatchesAttempts(c, s, snap);
    assert JobOk(c, s.minted, snap.id, s.jobs[snap.id]);
  }

  /** What a finished sweep did to each stale row. */
  lemma SweptMeans(before: Jobs, after: Jobs, ids: seq<JobId>, floor: Token, now: Time, backoffFor: nat -> Time)
    requires ListsStale(before, ids, now) && Swept(before, after, ids, |ids|, floor, now, backoffFor)
    ensures forall id :: id in ids <==> (id in before && before[id].status.Running?
              && before[id].lockedUntil.Some? && before[id].lockedUntil.value < now)
    ensures after.Keys == before.Keys && forall id :: id in after && id !in ids ==> after[id] == before[id]
    ensures forall id :: id in ids ==> var j, k := before[id], after[id];
              && k.status == (if j.attempts < j.maxAttempts then Retrying else DeadLetter)
              && k.availableAt == (if j.attempts < j.maxAttempts then now + backoffFor(j.attempts) else now)
              && k.lockedBy.None? && k.lockedUntil.None? && SameWork(j, k)
  {
    forall id | id in ids ensures exists token :: SweptOne(before, after, id, token, now, backoffFor) {
      var k :| 0 <= k < |ids| && ids[k] == id;
      assert SweptOne(before, after, ids[k], floor + k, now, backoffFor);
    }
  }

  /** The state keeps the queue's invariant and every token minted so far is below `next`. */
  ghost predicate Fits(c: Config, s: State, next: Token) { Inv(c, s) && forall t :: t in s.minted ==> t < next }

  lemma FitsStep(c: Config, s: State, e: Event, next: Token, next': Token)
    requires c.Valid() && Fits(c, s, next) && Enabled(c, s, e) && next <= next'
    requires e.Claim? || e.Reclaim? ==> e.token < next'
    ensures Fits(c, Next(c, s, e), next')
  {
    InvStep(c, s, e);
  }

  /** The next token is new to every worker. */
  lemma NextTokenIsNew(c: Config, s: State, next: Token)
    requires Fits(c, s, next)
    ensures next !in s.minted && forall snap :: snap in s.snapshots ==> snap.token != next
  {
    assert forall snap :: snap in s.snapshots ==> SnapshotOk(s, snap);
  }

  lemma ClearRemoves(jobs: Jobs, gone: set<JobId>, cutoff: Time)
    requires forall id :: id in gone <==> id in jobs && Cleared(jobs[id], cutoff)
    ensures jobs - gone == ClearRows(jobs, cutoff) && |jobs - gone| == |jobs| - |gone|
    ensures forall id :: id in jobs && id !in jobs - gone ==> jobs[id].status.Completed?
  {
    SizeAfterRemoval(jobs, gone);
  }

  /** A worker that knows this snapshot presents its id and token. */
  predicate Presents(s: State, snap: Snapshot, id: JobId, token: Token) {
    snap in s.snapshots && snap.id == id && snap.token == token
  }

  function SnapshotOf(id: JobId, j: Job): Snapshot
    requires j.leaseToken.Some?
  {
    Snapshot(id, j.leaseToken.value, j.attempts, j.kind)
  }

  function ReclaimOf(jobs: Jobs, id: JobId, token: Token, now: Time, backoffFor: nat -> Time): Event
    requires id in jobs
  {
    Reclaim(id, token, now + backoffFor(jobs[id].attempts), now)
  }

  /** Rewriting one row, with its kind and attempts as they were, keeps the invariant if the row fits it. */
  lemma RowChangeKeeps(c: Config, s: State, id: JobId, j: Job)
    requires Inv(c, s) && id in s.jobs && JobOk(c, s.minted, id, j) && j.kind == s.jobs[id].kind
    ensures Inv(c, s.(jobs := s.jobs[id := j]))
  {
  }

  /** A worker whose snapshot does not give up has an attempt to spare on the row, too. */
  lemma PresentedMayRetry(c: Config, s: State, id: JobId, token: Token)
    requires Inv(c, s) && Holds(s.jobs, id, token)
    ensures forall snap, permanent :: Presents(s, snap, id, token) && !GivesUp(c, snap, permanent)
              ==> s.jobs[id].attempts < s.jobs[id].maxAttempts
  {
    forall snap, permanent | Presents(s, snap, id, token) && !GivesUp(c, snap, permanent)
      ensures s.jobs[id].attempts < s.jobs[id].maxAttempts
    {
      MatchingTokenMatchesAttempts(c, s, snap);
      assert JobOk(c, s.minted, id, s.jobs[id]);
    }
  }

  /** The step reclaims a job, and no worker knows the token it mints. */
  ghost predicate Reclaimed(c: Config, s: State, t: State, e: Event) {
    e.Reclaim? && Enabled(c, s, e) && t == Next(c, s, e) && forall snap :: snap in t.snapshots ==> snap.token != e.token
  }

  ghost predicate ReclaimedJob(c: Config, s: State, t: State, id: JobId) {
    exists e :: Reclaimed(c, s, t, e) && e.id == id
  }

  lemma ReclaimIsStep(c: Config, s: State, e: Event, next: Token)
    requires c.Valid() && Fits(c, s, next) && e.Reclaim? && e.token == next && e.id in s.jobs
    requires Stale(s.jobs[e.id], e.now)
    ensures Reclaimed(c, s, Next(c, s, e), e) && Fits(c, Next(c, s, e), next + 1)
    ensures Next(c, s, e).jobs == s.jobs[e.id := ReclaimRow(s.jobs[e.id], next, e.now, e.retryAt)]
  {
    NextTokenIsNew(c, s, next);
    FitsStep(c, s, e, next, next + 1);
  }

  /** The trace leads from s to t by reclaiming the first n of these jobs, in this order. */
  ghost predicate Sweeps(c: Config, s: State, t: State, trace: Run, ids: seq<JobId>, n: nat) {
    && IsTrace(c, trace) && |trace.events| == n <= |ids| && trace.states[0] == s && trace.states[n] == t
    && forall i :: 0 <= i < n ==> trace.events[i].Reclaim? && trace.events[i].id == ids[i]
  }

  lemma SweepTrace(c: Config, s: State, t: State, trace: Run, ids: seq<JobId>, n: nat, u: State) returns (trace': Run)
    requires Sweeps(c, s, t, trace, ids, n) && n < |ids|
    requires ReclaimedJob(c, t, u, ids[n])
    ensures Sweeps(c, s, u, trace', ids, n + 1)
  {
    var e :| Reclaimed(c, t, u, e) && e.id == ids[n];
    trace' := Run(trace.states + [u], trace.events + [e]);
  }

  ghost predicate Oldest(jobs: Jobs, best: JobId, kinds: set<Kind>, now: Time, locked: set<JobId>)
    requires best in jobs
  {
    forall id :: Candidate(jobs, id, kinds, now, locked) ==> jobs[best].availableAt <= jobs[id].availableAt
  }

  predicate Candidate(jobs: Jobs, id: JobId, kinds: set<Kind>, now: Time, locked: set<JobId>) {
    id in jobs && Claimable(jobs[id], now) && (kinds == {} || jobs[id].kind in kinds) && id !in locked
  }

  /** `ids` lists the stale jobs, once each. */
  predicate ListsStale(jobs: Jobs, ids: seq<JobId>, now: Time) {
    && Distinct(ids) && (forall id :: id in ids ==> id in jobs)
    && forall id :: id in jobs ==> (id in ids <==> Stale(jobs[id], now))
  }

  ghost predicate SweptOne(before: Jobs, after: Jobs, id: JobId, token: Token, now: Time, backoffFor: nat -> Time) {
    && id in before && id in after
    && after[id] == ReclaimRow(before[id], token, now, now + backoffFor(before[id].attempts))
  }

  /** `after` is `before` with the first n of the stale `ids` reclaimed, the k-th of them under token floor + k. */
  ghost predicate Swept(before: Jobs, after: Jobs, ids: seq<JobId>, n: nat, floor: Token, now: Time,
                        backoffFor: nat -> Time)
    requires n <= |ids|
  {
    && after.Keys == before.Keys
    && (forall id :: id in before && !Stale(before[id], now) ==> after[id] == before[id])
    && (forall k :: n <= k < |ids| ==> ids[k] in before && after[ids[k]] == before[ids[k]])
    && (forall k :: 0 <= k < n ==> SweptOne(before, after, ids[k], floor + k, now, backoffFor))
  }

  lemma SweepStep(before: Jobs, after: Jobs, ids: seq<JobId>, n: nat, floor: Token, now: Time, backoffFor: nat -> Time)
    requires ListsStale(before, ids, now) && n < |ids| && Swept(before, after, ids, n, floor, now, backoffFor)
    ensures ids[n] in after && Stale(after[ids[n]], now)
    ensures var row := ReclaimRow(after[ids[n]], floor + n, now, now + backoffFor(after[ids[n]].attempts));
            Swept(before, after[ids[n] := row], ids, n + 1, floor, now, backoffFor)
  {
    assert ids[n] in ids;
    var next := after[ids[n] := ReclaimRow(after[ids[n]], floor + n, now, now + backoffFor(after[ids[n]].attempts))];
    forall k | 0 <= k < n ensures SweptOne(before, next, ids[k], floor + k, now, backoffFor) {
      assert SweptOne(before, after, ids[k], floor + k, now, backoffFor);
    }
  }

  lemma StillStale(before: Jobs, jobs: Jobs, ids: seq<JobId>, n: nat, floor: Token, now: Time, backoffFor: nat -> Time)
    requires ListsStale(before, ids, now) && n < |ids| && Swept(before, jobs, ids, n, floor, now, backoffFor)
    ensures ids[n] in jobs && Stale(jobs[ids[n]], now)
  {
    assert ids[n] in ids;
  }

  /** Reclaiming the n-th stale job is the next turn of the sweep. */
  lemma TurnSweeps(c: Config, before: Jobs, s: State, t: State, ids: seq<JobId>, n: nat, floor: Token, now: Time,
                   backoffFor: nat -> Time)
    requires ListsStale(before, ids, now) && n < |ids| && Swept(before, s.jobs, ids, n, floor, now, backoffFor)
    requires ids[n] in s.jobs && Reclaimed(c, s, t, ReclaimOf(s.jobs, ids[n], floor + n, now, backoffFor))
    ensures Swept(before, t.jobs, ids, n + 1, floor, now, backoffFor) && ReclaimedJob(c, s, t, ids[n])
  {
    SweepStep(before, s.jobs, ids, n, floor, now, backoffFor);
  }

  method SelectStale(jobs: Jobs, now: Time) returns (ids: seq<JobId>)
    ensures ListsStale(jobs, ids, now)
  {
    ids := [];
    var rest := jobs.Keys;
    while rest != {}
      invariant rest <= jobs.Keys && Distinct(ids)
      invariant forall id :: id in ids <==> id in jobs && id !in rest && Stale(jobs[id], now)
      decreases rest
    {
      var id :| id in rest;
      if Stale(jobs[id], now) { ids := ids + [id]; }
      rest := rest - {id};
    }
  }
}
