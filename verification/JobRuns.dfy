/** The job queue over whole runs: fencing, single terminal writes, bounded work, lease exclusivity. */
module JobRuns {
  import opened Prelude
  import opened JobQueue

  lemma {:induction false} InvAt(c: Config, r: Run, n: nat)
    requires c.Valid() && IsRun(c, r) && n < |r.states|
    ensures Inv(c, r.states[n])
  {
    if n > 0 {
      InvAt(c, r, n - 1);
      InvStep(c, r.states[n - 1], r.events[n - 1]);
    }
  }

  // ----- fencing -----

  /** A worker write changes at most its own row, and only while that row runs under the claim that minted its token. */
  lemma FencedWrite(c: Config, r: Run, n: nat)
    requires c.Valid() && IsRun(c, r) && n < |r.events| && r.events[n].IsWorkerWrite()
    requires r.states[n + 1].jobs != r.states[n].jobs
    ensures var s, t, snap := r.states[n], r.states[n + 1], r.events[n].snap;
            && Holds(s.jobs, snap.id, snap.token)
            && snap.token in s.minted && s.minted[snap.token] == Mint(snap.id, s.jobs[snap.id].attempts, true)
            && s.jobs[snap.id].attempts == snap.attempts
            && t.jobs == s.jobs[snap.id := t.jobs[snap.id]]
  {
    var s, snap := r.states[n], r.events[n].snap;
    assert r.states[n + 1] == Next(c, s, r.events[n]);
    InvAt(c, r, n);
    MatchingTokenMatchesAttempts(c, s, snap);
    assert JobOk(c, s.minted, snap.id, s.jobs[snap.id]);
  }

  /** Some row is running under this token. */
  ghost predicate Live(s: State, token: Token) { exists id :: Holds(s.jobs, id, token) }

  lemma LiveStep(c: Config, s: State, e: Event, token: Token)
    requires c.Valid() && Inv(c, s) && Enabled(c, s, e) && token in s.minted && Live(Next(c, s, e), token)
    ensures Live(s, token)
  {
    var t := Next(c, s, e);
    var id :| Holds(t.jobs, id, token);
    StepFrame(c, s, e);
    assert Holds(s.jobs, id, token);
  }

  lemma DeadAt(c: Config, r: Run, n: nat, token: Token)
    requires c.Valid() && IsRun(c, r) && n < |r.events| && token in r.states[n].minted && !Live(r.states[n], token)
    ensures token in r.states[n + 1].minted && !Live(r.states[n + 1], token)
  {
    var s, e := r.states[n], r.events[n];
    InvAt(c, r, n);
    StepFrame(c, s, e);
    if Live(Next(c, s, e), token) { LiveStep(c, s, e, token); }
  }

  /** Once superseded, a token never has effect again: no later row ever runs under it. */
  lemma {:induction false} SupersededTokenStaysDead(c: Config, r: Run, m: nat, n: nat, token: Token)
    requires c.Valid() && IsRun(c, r) && m <= n < |r.states|
    requires token in r.states[m].minted && !Live(r.states[m], token)
    ensures token in r.states[n].minted && !Live(r.states[n], token)
    decreases n
  {
    if m < n {
      SupersededTokenStaysDead(c, r, m, n - 1, token);
      DeadAt(c, r, n - 1, token);
    }
  }

  /** ... and so a worker still presenting it changes nothing at all. */
  lemma SupersededWorkerIsHarmless(c: Config, r: Run, m: nat, n: nat)
    requires c.Valid() && IsRun(c, r) && m <= n < |r.events| && r.events[n].IsWorkerWrite()
    requires r.events[n].snap.token in r.states[m].minted && !Live(r.states[m], r.events[n].snap.token)
    ensures r.states[n + 1] == r.states[n]
  {
    SupersededTokenStaysDead(c, r, m, n, r.events[n].snap.token);
    assert !Holds(r.states[n].jobs, r.events[n].snap.id, r.events[n].snap.token);
    assert r.states[n + 1] == Next(c, r.states[n], r.events[n]);
  }

  // ----- terminal rows -----

  predicate TerminalIn(s: State, id: JobId) { id in s.jobs && s.jobs[id].status.IsTerminal() }

  /** Row `id` of `s` is frozen in `t`: unchanged, or deleted after completing. */
  predicate FrozenSince(s: State, t: State, id: JobId)
    requires id in s.jobs
  {
    id in t.used && if id in t.jobs then t.jobs[id] == s.jobs[id] else s.jobs[id].status.Completed?
  }

  lemma FrozenStep(c: Config, s: State, e: Event, id: JobId)
    requires Enabled(c, s, e) && id in s.used && (TerminalIn(s, id) || id !in s.jobs)
    ensures var t := Next(c, s, e);
            id in t.used && (id in t.jobs ==> id in s.jobs && t.jobs[id] == s.jobs[id])
            && (id in s.jobs && id !in t.jobs ==> s.jobs[id].status.Completed?)
  {
  }

  lemma {:induction false} TerminalRowsFrozen(c: Config, r: Run, m: nat, n: nat, id: JobId)
    requires c.Valid() && IsRun(c, r) && m <= n < |r.states| && TerminalIn(r.states[m], id)
    ensures FrozenSince(r.states[m], r.states[n], id)
    decreases n
  {
    InvAt(c, r, m);
    if m < n {
      TerminalRowsFrozen(c, r, m, n - 1, id);
      FrozenStep(c, r.states[n - 1], r.events[n - 1], id);
    }
  }

  /** Step `n` writes a terminal status to row `id`. */
  predicate TerminalWrite(r: Run, n: nat, id: JobId)
    requires n + 1 < |r.states|
  {
    TerminalIn(r.states[n + 1], id) && !TerminalIn(r.states[n], id)
  }

  /** A job gets at most one terminal write in any run. */
  lemma AtMostOneTerminalWrite(c: Config, r: Run, m: nat, n: nat, id: JobId)
    requires c.Valid() && IsRun(c, r) && m < |r.events| && n < |r.events|
    requires TerminalWrite(r, m, id) && TerminalWrite(r, n, id)
    ensures m == n
  {
    if m < n {
      NoTerminalWriteAfter(c, r, m + 1, n, id);
    } else if n < m {
      NoTerminalWriteAfter(c, r, n + 1, m, id);
    }
  }

  lemma NoTerminalWriteAfter(c: Config, r: Run, m: nat, n: nat, id: JobId)
    requires c.Valid() && IsRun(c, r) && m <= n < |r.events| && TerminalIn(r.states[m], id)
    ensures !TerminalWrite(r, n, id)
  {
    TerminalRowsFrozen(c, r, m, n, id);
    FrozenStep(c, r.states[n], r.events[n], id);
  }

  /** The only ways a job ends: completed or given up for cause by its worker, found spent by the reaper, cancelled. */
  lemma WhyJobsEnd(c: Config, r: Run, n: nat, id: JobId)
    requires c.Valid() && IsRun(c, r) && n < |r.events| && TerminalWrite(r, n, id)
    ensures id in r.states[n].jobs
    ensures var j, k, e := r.states[n].jobs[id], r.states[n + 1].jobs[id], r.events[n];
            && (k.status.Completed? <==> e.Complete?)
            && (k.status.Completed? ==> e.snap.id == id && j.status.Running? && k.completedAt == Some(e.now))
            && (k.status.DeadLetter? ==>
                  || (e.Cancel? && e.id == id)
                  || (e.Fail? && e.snap.id == id && j.status.Running? && (e.permanent || j.attempts == j.maxAttempts))
                  || (e.Reclaim? && e.id == id && j.status.Running? && j.attempts == j.maxAttempts))
  {
    InvAt(c, r, n);
    var s, e := r.states[n], r.events[n];
    StepFrame(c, s, e);
    assert r.states[n + 1] == Next(c, s, e);
    if id in s.jobs { assert JobOk(c, s.minted, id, s.jobs[id]); }
    if e.Fail? && Holds(s.jobs, e.snap.id, e.snap.token) { MatchingTokenMatchesAttempts(c, s, e.snap); }
  }

  /** The reaper ends a job exactly when its attempts are spent, and otherwise sends it back for another. */
  lemma ReaperEndsSpentJobsOnly(c: Config, r: Run, n: nat, id: JobId)
    requires c.Valid() && IsRun(c, r) && n < |r.events| && r.events[n].Reclaim? && r.events[n].id == id
    ensures id in r.states[n].jobs && id in r.states[n + 1].jobs
    ensures var j, k := r.states[n].jobs[id], r.states[n + 1].jobs[id];
            && (k.status.DeadLetter? <==> Claims(r, n, id) == j.maxAttempts)
            && (k.status.Retrying? <==> Claims(r, n, id) < j.maxAttempts)
            && k.progress == j.progress && k.attempts == j.attempts
  {
    assert Enabled(c, r.states[n], r.events[n]) && r.states[n + 1] == Next(c, r.states[n], r.events[n]);
    AttemptsCountClaims(c, r, n, id);
  }

  // ----- legal transitions and bounded work -----

  /** A status change is outside the lifecycle table exactly when it is the cancel of a job no worker holds. */
  lemma LegalTransition(c: Config, s: State, e: Event, id: JobId)
    requires c.Valid() && Inv(c, s) && Enabled(c, s, e) && id in s.jobs && id in Next(c, s, e).jobs
    requires Next(c, s, e).jobs[id].status != s.jobs[id].status
    ensures var before, after := s.jobs[id].status, Next(c, s, e).jobs[id].status;
            before.CanTransitionTo(after) <==> !(e.Cancel? && e.id == id && (before.Queued? || before.Retrying?))
  {
  }

  /** The same, for any event of any run. */
  lemma LegalTransitionAt(c: Config, r: Run, n: nat, id: JobId)
    requires c.Valid() && IsRun(c, r) && n < |r.events| && id in r.states[n].jobs && id in r.states[n + 1].jobs
    requires r.states[n + 1].jobs[id].status != r.states[n].jobs[id].status
    ensures var before, after, e := r.states[n].jobs[id].status, r.states[n + 1].jobs[id].status, r.events[n];
            before.CanTransitionTo(after) <==> !(e.Cancel? && e.id == id && (before.Queued? || before.Retrying?))
  {
    InvAt(c, r, n);
    LegalTransition(c, r.states[n], r.events[n], id);
  }

  function Then(c: Config, r: Run, e: Event): Run
    requires IsRun(c, r) && Enabled(c, r.states[|r.events|], e)
  {
    Run(r.states + [Next(c, r.states[|r.events|], e)], r.events + [e])
  }

  lemma ThenIsRun(c: Config, r: Run, e: Event)
    requires IsRun(c, r) && Enabled(c, r.states[|r.events|], e)
    ensures IsRun(c, Then(c, r, e))
  {
  }

  /** A job cancelled while queued, and one cancelled while retrying: both leave the table. */
  lemma CancelLeavesTheTable() returns (c: Config, queued: Run, retrying: Run)
    ensures c.Valid() && IsRun(c, queued) && |queued.events| == 2 && queued.events[1] == Cancel(0, 1)
    ensures 0 in queued.states[1].jobs && 0 in queued.states[2].jobs
    ensures queued.states[1].jobs[0].status.Queued?
    ensures !queued.states[1].jobs[0].status.CanTransitionTo(queued.states[2].jobs[0].status)
    ensures IsRun(c, retrying) && |retrying.events| == 5 && retrying.events[4] == Cancel(0, 3)
    ensures 0 in retrying.states[4].jobs && 0 in retrying.states[5].jobs
    ensures retrying.states[4].jobs[0].status.Retrying?
    ensures !retrying.states[4].jobs[0].status.CanTransitionTo(retrying.states[5].jobs[0].status)
  {
    c := Config(10, map[0 := 2]);
    var r := Run([State(map[], {}, map[], {})], []);
    ThenIsRun(c, r, Enqueue(0, 0, 0, 0));
    r := Then(c, r, Enqueue(0, 0, 0, 0));
    ThenIsRun(c, r, Cancel(0, 1));
    queued := Then(c, r, Cancel(0, 1));
    retrying := RetryingCancelled(c, r);
  }

  lemma RetryingCancelled(c: Config, r: Run) returns (retrying: Run)
    requires c == Config(10, map[0 := 2]) && IsRun(c, r) && r.events == [Enqueue(0, 0, 0, 0)]
    ensures IsRun(c, retrying) && |retrying.events| == 5 && retrying.events[4] == Cancel(0, 3)
    ensures 0 in retrying.states[4].jobs && 0 in retrying.states[5].jobs
    ensures retrying.states[4].jobs[0].status.Retrying?
    ensures !retrying.states[4].jobs[0].status.CanTransitionTo(retrying.states[5].jobs[0].status)
  {
    retrying := FailedOnce(c, r);
    ThenIsRun(c, retrying, Cancel(0, 3));
    retrying := Then(c, retrying, Cancel(0, 3));
  }

  /** The first job is claimed and fails with an attempt to spare. */
  lemma FailedOnce(c: Config, r: Run) returns (failed: Run)
    requires c == Config(10, map[0 := 2]) && IsRun(c, r) && r.events == [Enqueue(0, 0, 0, 0)]
    ensures IsRun(c, failed) && |failed.events| == 4 && failed.events[1].Claim? && failed.events[3].Fail?
    ensures forall i :: 1 <= i <= 4 ==> 0 in failed.states[i].jobs
    ensures failed.states[1].jobs[0].status.Queued? && failed.states[2].jobs[0].status.Running?
    ensures failed.states[3].jobs[0].status.Running? && failed.states[4].jobs[0].status.Retrying?
    ensures failed.states[4].jobs[0].attempts == 1 && failed.states[4].jobs[0].availableAt == 2
    ensures failed.states[4].jobs[0].kind == 0 && failed.states[4].minted.Keys == {7}
  {
    assert r.states[1] == Next(c, r.states[0], r.events[0]);
    var snap := Snapshot(0, 7, 1, 0);
    ThenIsRun(c, r, Claim(0, 7, 0, 1));
    failed := Then(c, r, Claim(0, 7, 0, 1));
    ThenIsRun(c, failed, Reread(0, 1));
    failed := Then(c, failed, Reread(0, 1));
    ThenIsRun(c, failed, Fail(snap, false, 2, 2));
    failed := Then(c, failed, Fail(snap, false, 2, 2));
  }

  /** In some run, some event other than a cancel takes a job from one status to the other. */
  ghost predicate Happens(before: Status, after: Status) {
    exists c, r, n :: Changes(c, r, n, before, after)
  }

  ghost predicate Changes(c: Config, r: Run, n: nat, before: Status, after: Status) {
    && c.Valid() && IsRun(c, r) && n < |r.events| && !r.events[n].Cancel?
    && 0 in r.states[n].jobs && 0 in r.states[n + 1].jobs
    && r.states[n].jobs[0].status == before != after && r.states[n + 1].jobs[0].status == after
  }

  /** The lifecycle table lists exactly the changes that happen without an admin: none missing, none idle. */
  lemma TableIsTight(before: Status, after: Status)
    ensures before.CanTransitionTo(after) <==> Happens(before, after)
  {
    if Happens(before, after) {
      var c, r, n :| Changes(c, r, n, before, after);
      LegalTransitionAt(c, r, n, 0);
    }
    var c := Config(10, map[0 := 2]);
    var r := Run([State(map[], {}, map[], {})], []);
    ThenIsRun(c, r, Enqueue(0, 0, 0, 0));
    r := Then(c, r, Enqueue(0, 0, 0, 0));
    if before.Running? && after.DeadLetter? {
      GivenUp(c, r);
    } else {
      FullLife(c, r);
    }
  }

  lemma GivenUp(c: Config, r: Run)
    requires c == Config(10, map[0 := 2]) && IsRun(c, r) && r.events == [Enqueue(0, 0, 0, 0)]
    ensures Happens(Running, DeadLetter)
  {
    assert r.states[1] == Next(c, r.states[0], r.events[0]);
    ThenIsRun(c, r, Claim(0, 7, 0, 1));
    var q := Then(c, r, Claim(0, 7, 0, 1));
    ThenIsRun(c, q, Reread(0, 1));
    q := Then(c, q, Reread(0, 1));
    var e := Fail(Snapshot(0, 7, 1, 0), true, 2, 2);
    ThenIsRun(c, q, e);
    assert Changes(c, Then(c, q, e), 3, Running, DeadLetter);
  }

  lemma FullLife(c: Config, r: Run)
    requires c == Config(10, map[0 := 2]) && IsRun(c, r) && r.events == [Enqueue(0, 0, 0, 0)]
    ensures Happens(Queued, Running) && Happens(Running, Retrying)
    ensures Happens(Retrying, Running) && Happens(Running, Completed)
  {
    var q := FailedOnce(c, r);
    assert Changes(c, q, 1, Queued, Running);
    assert Changes(c, q, 3, Running, Retrying);
    ThenIsRun(c, q, Claim(0, 8, 0, 3));
    q := Then(c, q, Claim(0, 8, 0, 3));
    assert Changes(c, q, 4, Retrying, Running);
    ThenIsRun(c, q, Reread(0, 3));
    q := Then(c, q, Reread(0, 3));
    var e := Complete(Snapshot(0, 8, 2, 0), 4);
    ThenIsRun(c, q, e);
    assert Changes(c, Then(c, q, e), 6, Running, Completed);
  }

  /** Status changes a job can still make. */
  function Budget(j: Job): int {
    if j.status.IsTerminal() then 0
    else 2 * (j.maxAttempts - j.attempts) + if j.status.Running? then 1 else 0
  }

  predicate Changed(r: Run, n: nat, id: JobId)
    requires n + 1 < |r.states|
  {
    id in r.states[n].jobs && id in r.states[n + 1].jobs
    && r.states[n].jobs[id].status != r.states[n + 1].jobs[id].status
  }

  function StatusChanges(r: Run, n: nat, id: JobId): nat
    requires n < |r.states|
  {
    if n == 0 then 0 else StatusChanges(r, n - 1, id) + if Changed(r, n - 1, id) then 1 else 0
  }

  lemma BudgetStep(c: Config, s: State, e: Event, id: JobId)
    requires c.Valid() && Inv(c, s) && Enabled(c, s, e) && id in s.jobs && id in Next(c, s, e).jobs
    ensures var j, k := s.jobs[id], Next(c, s, e).jobs[id];
            && k.maxAttempts == j.maxAttempts
            && (k.status == j.status ==> Budget(k) == Budget(j))
            && (k.status != j.status ==> Budget(k) < Budget(j))
  {
  }

  predicate WithinBudget(c: Config, s: State, id: JobId, changes: nat, max: nat) {
    && (id in s.jobs ==> s.jobs[id].maxAttempts == max && changes + Budget(s.jobs[id]) <= 2 * max)
    && (id !in s.jobs && id in s.used ==> changes <= 2 * max)
    && (id !in s.used ==> changes == 0)
  }

  lemma {:induction false} BudgetAt(c: Config, r: Run, n: nat, id: JobId) returns (max: nat)
    requires c.Valid() && IsRun(c, r) && n < |r.states|
    ensures WithinBudget(c, r.states[n], id, StatusChanges(r, n, id), max)
    decreases n
  {
    if n == 0 {
      max := 0;
    } else {
      max := BudgetAt(c, r, n - 1, id);
      var s, e := r.states[n - 1], r.events[n - 1];
      var t := r.states[n];
      InvAt(c, r, n - 1);
      InvAt(c, r, n);
      StepFrame(c, s, e);
      if id in s.jobs && id in t.jobs {
        BudgetStep(c, s, e, id);
      } else if id in s.jobs {
        assert JobOk(c, s.minted, id, s.jobs[id]);
      } else if id in t.jobs {
        max := t.jobs[id].maxAttempts;
      }
    }
  }

  /** A job changes status at most 2 * max_attempts times in any run. */
  lemma BoundedWork(c: Config, r: Run, n: nat, id: JobId)
    requires c.Valid() && IsRun(c, r) && n < |r.states| && id in r.states[n].jobs
    ensures StatusChanges(r, n, id) + Budget(r.states[n].jobs[id]) <= 2 * r.states[n].jobs[id].maxAttempts
    ensures StatusChanges(r, n, id) <= 2 * r.states[n].jobs[id].maxAttempts
  {
    var max := BudgetAt(c, r, n, id);
    InvAt(c, r, n);
    assert JobOk(c, r.states[n].minted, id, r.states[n].jobs[id]);
  }

  /** How often a job has been handed to a worker. */
  function Claims(r: Run, n: nat, id: JobId): nat
    requires n <= |r.events|
  {
    if n == 0 then 0 else Claims(r, n - 1, id) + if r.events[n - 1].Claim? && r.events[n - 1].id == id then 1 else 0
  }

  /** A claim adds one to the attempt count of its row; nothing else changes an attempt count. */
  lemma AttemptStep(c: Config, s: State, e: Event, id: JobId, count: nat)
    requires Enabled(c, s, e) && (id in s.jobs ==> id in s.used && s.jobs[id].attempts == count)
    requires id !in s.used ==> count == 0
    ensures var t, count' := Next(c, s, e), count + if e.Claim? && e.id == id then 1 else 0;
            && (id in t.jobs ==> t.jobs[id].attempts == count')
            && (id !in t.used ==> count' == 0)
  {
  }

  lemma {:induction false} ClaimsAt(c: Config, r: Run, n: nat, id: JobId)
    requires c.Valid() && IsRun(c, r) && n < |r.states|
    ensures id in r.states[n].jobs ==> r.states[n].jobs[id].attempts == Claims(r, n, id)
    ensures id !in r.states[n].used ==> Claims(r, n, id) == 0
    decreases n
  {
    if n > 0 {
      ClaimsAt(c, r, n - 1, id);
      InvAt(c, r, n - 1);
      AttemptStep(c, r.states[n - 1], r.events[n - 1], id, Claims(r, n - 1, id));
    }
  }

  /** The attempt column counts the claims of the whole run, so no job is ever handed out more often than its budget. */
  lemma AttemptsCountClaims(c: Config, r: Run, n: nat, id: JobId)
    requires c.Valid() && IsRun(c, r) && n < |r.states| && id in r.states[n].jobs
    ensures r.states[n].jobs[id].attempts == Claims(r, n, id) <= r.states[n].jobs[id].maxAttempts
  {
    ClaimsAt(c, r, n, id);
    InvAt(c, r, n);
    assert JobOk(c, r.states[n].minted, id, r.states[n].jobs[id]);
  }

  lemma {:induction false} FreshToken(tokens: set<Token>) returns (t: Token)
    ensures forall x :: x in tokens ==> x < t
  {
    if tokens == {} {
      t := 0;
    } else {
      var y :| y in tokens;
      t := FreshToken(tokens - {y});
      if t <= y { t := y + 1; }
      assert forall x :: x in tokens ==> x == y || x in tokens - {y};
    }
  }

  /** A job that has not ended can always be claimed or reclaimed at some later time. */
  lemma NeverStuck(c: Config, r: Run, n: nat, id: JobId, after: Time) returns (e: Event)
    requires c.Valid() && IsRun(c, r) && n < |r.states|
    requires id in r.states[n].jobs && !r.states[n].jobs[id].status.IsTerminal()
    ensures Enabled(c, r.states[n], e) && after <= e.now
    ensures (e.Claim? && e.id == id) || (e.Reclaim? && e.id == id)
  {
    InvAt(c, r, n);
    var s, j := r.states[n], r.states[n].jobs[id];
    assert JobOk(c, s.minted, id, j);
    var token := FreshToken(s.minted.Keys);
    if j.status.Running? {
      e := Reclaim(id, token, after, if j.lockedUntil.value < after then after else j.lockedUntil.value + 1);
    } else {
      e := Claim(id, token, 0, if j.availableAt < after then after else j.availableAt);
    }
  }

  // ----- the lease as exclusion in time -----

  predicate IsBeat(e: Event, id: JobId, token: Token) {
    e.Heartbeat? && e.snap.id == id && e.snap.token == token
  }

  /** The holder finishing the job, or an admin cancelling it. */
  predicate EndsTenure(e: Event, id: JobId, token: Token) {
    || ((e.Complete? || e.Fail?) && e.snap.id == id && e.snap.token == token)
    || (e.Cancel? && e.id == id)
  }

  /** Somebody takes the job: a worker claims it or the reaper reclaims it. */
  predicate Takes(e: Event, id: JobId) { (e.Claim? || e.Reclaim?) && e.id == id }

  /** Time of the latest heartbeat among events m..n, or `start` when there is none. */
  function LastBeat(r: Run, m: nat, n: nat, id: JobId, token: Token, start: Time): Time
    requires m <= n <= |r.events|
    decreases n
  {
    if n == m then start
    else if IsBeat(r.events[n - 1], id, token) then r.events[n - 1].now
    else LastBeat(r, m, n - 1, id, token, start)
  }

  predicate ClockNonDecreasing(r: Run) {
    forall i, j :: 0 <= i <= j < |r.events| ==> r.events[i].now <= r.events[j].now
  }

  /** From event k on, the holder's next beat, or the end of its tenure, comes within the lease of the last beat. */
  predicate BeatFollows(c: Config, r: Run, m: nat, n: nat, k: nat, id: JobId, token: Token, start: Time)
    requires m <= k < n <= |r.events|
  {
    exists b :: k <= b < n && (IsBeat(r.events[b], id, token) || EndsTenure(r.events[b], id, token))
      && r.events[b].now <= LastBeat(r, m, k, id, token, start) + c.lease
  }

  /** Still held, on the lease its last heartbeat bought. */
  predicate HeldAt(c: Config, r: Run, m: nat, k: nat, id: JobId, token: Token, start: Time)
    requires m <= k <= |r.events| && k < |r.states|
  {
    Holds(r.states[k].jobs, id, token)
    && r.states[k].jobs[id].lockedUntil == Some(LastBeat(r, m, k, id, token, start) + c.lease)
  }

  /** One step on time leaves the lease where it was, unless its holder or an admin ends it. */
  lemma HeldStep(c: Config, r: Run, m: nat, k: nat, id: JobId, token: Token, start: Time)
    requires c.Valid() && IsRun(c, r) && m <= k < |r.events| && HeldAt(c, r, m, k, id, token, start)
    requires InTenure(c, r, m, k, id, token, start)
    ensures HeldAt(c, r, m, k + 1, id, token, start) && !Takes(r.events[k], id)
  {
    var s, e := r.states[k], r.events[k];
    assert r.states[k + 1] == Next(c, s, e);
    InvAt(c, r, k);
    StepFrame(c, s, e);
    assert JobOk(c, s.minted, id, s.jobs[id]);
  }

  /** Event i comes while the lease bought by the holder's last beat runs, and does not end the tenure. */
  predicate InTenure(c: Config, r: Run, m: nat, i: nat, id: JobId, token: Token, start: Time)
    requires m <= i < |r.events|
  {
    r.events[i].now <= LastBeat(r, m, i, id, token, start) + c.lease && !EndsTenure(r.events[i], id, token)
  }

  lemma {:induction false} StaysHeld(c: Config, r: Run, m: nat, k: nat, id: JobId, token: Token, start: Time)
    requires c.Valid() && IsRun(c, r) && m <= k <= |r.events| && HeldAt(c, r, m, m, id, token, start)
    requires forall i :: m <= i < k ==> InTenure(c, r, m, i, id, token, start)
    ensures HeldAt(c, r, m, k, id, token, start)
    decreases k
  {
    if m < k {
      StaysHeld(c, r, m, k - 1, id, token, start);
      assert InTenure(c, r, m, k - 1, id, token, start);
      HeldStep(c, r, m, k - 1, id, token, start);
    }
  }

  /** As long as the holder is in time and has not ended its tenure, it holds the job and nobody else gets it. */
  lemma LeaseHolds(c: Config, r: Run, m: nat, k: nat, id: JobId, token: Token, start: Time)
    requires c.Valid() && IsRun(c, r) && m <= k <= |r.events| && HeldAt(c, r, m, m, id, token, start)
    requires forall i :: m <= i < k ==> InTenure(c, r, m, i, id, token, start)
    ensures HeldAt(c, r, m, k, id, token, start)
    ensures forall i :: m <= i < k ==> !Takes(r.events[i], id)
  {
    StaysHeld(c, r, m, k, id, token, start);
    forall i | m <= i < k ensures !Takes(r.events[i], id) {
      StaysHeld(c, r, m, i, id, token, start);
      HeldStep(c, r, m, i, id, token, start);
    }
  }

  /** Any event up to a timely beat or finish is itself within the lease. */
  lemma OnTime(c: Config, r: Run, m: nat, n: nat, k: nat, id: JobId, token: Token, start: Time)
    requires ClockNonDecreasing(r) && m <= k < n <= |r.events| && BeatFollows(c, r, m, n, k, id, token, start)
    ensures r.events[k].now <= LastBeat(r, m, k, id, token, start) + c.lease
  {
  }

  /**
   With a non-decreasing clock, and each beat and the finish within the lease of the beat before (or of the claim),
   nobody else claims or reclaims the job until its holder finishes it or an admin cancels it.
   */
  lemma LeaseIsExclusive(c: Config, r: Run, m: nat, n: nat, k: nat, id: JobId, token: Token, start: Time)
    requires c.Valid() && IsRun(c, r) && ClockNonDecreasing(r) && m <= k <= n <= |r.events|
    requires HeldAt(c, r, m, m, id, token, start)
    requires forall i :: m <= i < k ==> BeatFollows(c, r, m, n, i, id, token, start)
    requires forall i :: m <= i < k ==> !EndsTenure(r.events[i], id, token)
    ensures HeldAt(c, r, m, k, id, token, start)
    ensures forall i :: m <= i < k ==> !Takes(r.events[i], id)
  {
    forall i | m <= i < k ensures InTenure(c, r, m, i, id, token, start) {
      OnTime(c, r, m, n, i, id, token, start);
    }
    LeaseHolds(c, r, m, k, id, token, start);
  }

  /** So the holder's own finish always counts: event k completes the job, from the claim on in time. */
  lemma TimelyCompletionCounts(c: Config, r: Run, m: nat, n: nat, k: nat, id: JobId, token: Token, start: Time)
    requires c.Valid() && IsRun(c, r) && ClockNonDecreasing(r) && m <= k < n <= |r.events|
    requires HeldAt(c, r, m, m, id, token, start)
    requires r.events[k].Complete? && r.events[k].snap.id == id && r.events[k].snap.token == token
    requires forall i :: m <= i < k ==> BeatFollows(c, r, m, n, i, id, token, start)
    requires forall i :: m <= i < k ==> !EndsTenure(r.events[i], id, token)
    ensures id in r.states[k + 1].jobs && r.states[k + 1].jobs[id].status.Completed?
    ensures r.states[k + 1].jobs[id].completedAt == Some(r.events[k].now)
  {
    LeaseIsExclusive(c, r, m, n, k, id, token, start);
  }

  /** A tenure is cut short only by lateness: a reclaim finds more than the lease gone since the last beat. */
  lemma ReclaimMeansLate(c: Config, r: Run, m: nat, k: nat, id: JobId, token: Token, start: Time)
    requires c.Valid() && IsRun(c, r) && m <= k < |r.events| && HeldAt(c, r, m, k, id, token, start)
    ensures r.events[k].Reclaim? && r.events[k].id == id
            ==> r.events[k].now > LastBeat(r, m, k, id, token, start) + c.lease
    ensures !(r.events[k].Claim? && r.events[k].id == id)
  {
  }

  /** A claim opens such a tenure. */
  lemma ClaimOpensLease(c: Config, r: Run, n: nat)
    requires IsRun(c, r) && n < |r.events| && r.events[n].Claim?
    ensures var e := r.events[n]; HeldAt(c, r, n + 1, n + 1, e.id, e.token, e.now)
  {
  }
}
