/**
 Device pairing over whole runs: what holds in every reachable state of the tables, which session states are
 final, and the one race that lets a finished session be overwritten.
 */
module PairingRuns {
  import opened Prelude
  import opened Pairing

  datatype Run = Run(states: seq<Tables>, events: seq<Event>)

  const EMPTY: Tables := Tables(map[], map[], {}, [], {})

  predicate IsRun(r: Run) {
    && |r.states| == |r.events| + 1 && r.states[0] == EMPTY
    && forall i :: 0 <= i < |r.events|
        ==> Enabled(r.states[i], r.events[i]) && r.states[i + 1] == Next(r.states[i], r.events[i])
  }

  lemma {:induction false} InvAt(r: Run, n: nat)
    requires IsRun(r) && n < |r.states|
    ensures Inv(r.states[n])
  {
    if n > 0 {
      InvAt(r, n - 1);
      StepKeeps(r.states[n - 1], r.events[n - 1]);
    }
  }

  /**
   Every stored session always passes the strict rehydration check: identifiers present, a code, a time to live within
   five minutes, and a device exactly when it is consumed. No two share a code.
   */
  lemma StoredSessionsRehydrate(r: Run, n: nat, id: Id)
    requires IsRun(r) && n < |r.states| && id in r.states[n].sessions
    ensures var s := r.states[n].sessions[id];
            && Rehydrates(s) && s.id == id && id.Id? && s.initiatedBy.Id? && s.code.Code?
            && 0 < s.expiresAt - s.createdAt <= 5 * MINUTE && !s.state.Verified?
            && (s.deviceId.Some? <==> s.state.Consumed?) && (s.deviceId.Some? ==> s.deviceId.value.Id?)
    ensures var rows := r.states[n].sessions; forall x :: x in rows && rows[x].code == rows[id].code ==> x == id
  {
    InvAt(r, n);
    assert RowOk(r.states[n].sessions[id], id);
  }

  /** No session is consumed twice and no device enrolled twice over the whole run, deleted rows included. */
  lemma ConsumedAtMostOnce(r: Run, n: nat, i: nat, j: nat)
    requires IsRun(r) && n < |r.states| && i < |r.states[n].enrolments| && j < |r.states[n].enrolments|
    requires r.states[n].enrolments[i].session == r.states[n].enrolments[j].session
             || r.states[n].enrolments[i].device == r.states[n].enrolments[j].device
    ensures i == j
  {
    InvAt(r, n);
  }

  /** Two devices of one session are the same device. */
  lemma OneDevicePerSession(r: Run, n: nat, d: Id, e: Id)
    requires IsRun(r) && n < |r.states| && d in r.states[n].devices && e in r.states[n].devices
    requires r.states[n].devices[d].session.Some? && r.states[n].devices[d].session == r.states[n].devices[e].session
    ensures d == e
  {
    InvAt(r, n);
    var t := r.states[n];
    var i :| 0 <= i < |t.enrolments| && t.enrolments[i] == Enrolment(t.devices[d].session.value, d);
    var j :| 0 <= j < |t.enrolments| && t.enrolments[j] == Enrolment(t.devices[e].session.value, e);
    ConsumedAtMostOnce(r, n, i, j);
  }

  // ----- which states are final -----

  /** Writing back a revoked copy takes effect: it updates the row, or inserts it again after a deletion. */
  predicate Overwrites(t: Tables, e: Event, id: Id) {
    e.SaveRevoked? && e.copy.id == id && (id in t.sessions || !CodeTaken(t, e.copy.code))
  }

  /** One step on an issued id, leaving write-backs aside: a terminal row stays or goes, a missing row stays missing. */
  lemma TerminalStep(t: Tables, e: Event, id: Id)
    requires Inv(t) && Enabled(t, e) && id in t.usedSessions && !Overwrites(t, e, id)
    requires id in t.sessions ==> t.sessions[id].Terminal()
    ensures id in Next(t, e).sessions ==> id in t.sessions && Next(t, e).sessions[id] == t.sessions[id]
  {
  }

  /** No copy of a session is read for revocation while the session is terminal or gone. */
  lemma NoNewReads(t: Tables, e: Event, id: Id)
    requires Inv(t) && Enabled(t, e) && (id in t.sessions ==> t.sessions[id].Terminal())
    ensures forall s :: s in Next(t, e).pendingReads && s.id == id ==> s in t.pendingReads
  {
  }

  /** The row of a session that was terminal earlier, now: the same row, an expired copy of it, or none. */
  ghost predicate StillTerminal(t: Tables, id: Id, row: Session) {
    id in t.usedSessions
    && (id in t.sessions ==> t.sessions[id] == row || t.sessions[id] == row.(state := Expired, deviceId := None))
  }

  lemma {:induction false} TerminalFate(r: Run, m: nat, n: nat, id: Id)
    requires IsRun(r) && m <= n < |r.states| && id in r.states[m].sessions && r.states[m].sessions[id].Terminal()
    ensures StillTerminal(r.states[n], id, r.states[m].sessions[id])
    ensures forall s :: s in r.states[n].pendingReads && s.id == id ==> SameSession(s, r.states[m].sessions[id])
    decreases n
  {
    InvAt(r, m);
    if m < n {
      TerminalFate(r, m, n - 1, id);
      InvAt(r, n - 1);
      var t, e := r.states[n - 1], r.events[n - 1];
      NoNewReads(t, e, id);
      StepFate(t, e);
      if Overwrites(t, e, id) { assert SameSession(e.copy, r.states[m].sessions[id]); } else { TerminalStep(t, e, id); }
    }
  }

  /** Once terminal, always terminal: no run brings a finished session back to pending or verified. */
  lemma NeverReopened(r: Run, m: nat, n: nat, id: Id)
    requires IsRun(r) && m <= n < |r.states| && id in r.states[m].sessions && r.states[m].sessions[id].Terminal()
    ensures id in r.states[n].sessions ==> r.states[n].sessions[id].Terminal()
  {
    TerminalFate(r, m, n, id);
  }

  /** An expired session never changes again. */
  lemma ExpiredIsFinal(r: Run, m: nat, n: nat, id: Id)
    requires IsRun(r) && m <= n < |r.states| && id in r.states[m].sessions && r.states[m].sessions[id].state.Expired?
    ensures id in r.states[n].sessions ==> r.states[n].sessions[id] == r.states[m].sessions[id]
  {
    TerminalFate(r, m, n, id);
    InvAt(r, m);
    assert RowOk(r.states[m].sessions[id], id);
  }

  ghost predicate Unchanged(r: Run, m: nat, n: nat, id: Id)
    requires m <= n < |r.states| && id in r.states[m].sessions
  {
    forall k :: m <= k <= n && id in r.states[k].sessions ==> r.states[k].sessions[id] == r.states[m].sessions[id]
  }

  /** A consumed session stays as it is exactly as long as no revocation read earlier is written back over it. */
  lemma ConsumedUntilOverwritten(r: Run, m: nat, n: nat, id: Id)
    requires IsRun(r) && m <= n < |r.states| && id in r.states[m].sessions && r.states[m].sessions[id].state.Consumed?
    ensures Unchanged(r, m, n, id) <==> forall k :: m <= k < n ==> !Overwrites(r.states[k], r.events[k], id)
  {
    if k :| m <= k < n && Overwrites(r.states[k], r.events[k], id) {
      assert r.states[k + 1] == Next(r.states[k], r.events[k]);
      assert r.states[k + 1].sessions[id].state.Expired?;
    } else {
      forall k | m <= k <= n && id in r.states[k].sessions
        ensures r.states[k].sessions[id] == r.states[m].sessions[id] {
        ConsumedStays(r, m, k, id);
      }
    }
  }

  lemma {:induction false} ConsumedStays(r: Run, m: nat, n: nat, id: Id)
    requires IsRun(r) && m <= n < |r.states| && id in r.states[m].sessions && r.states[m].sessions[id].Terminal()
    requires forall k :: m <= k < n ==> !Overwrites(r.states[k], r.events[k], id)
    ensures id in r.states[n].usedSessions
    ensures id in r.states[n].sessions ==> r.states[n].sessions[id] == r.states[m].sessions[id]
    decreases n
  {
    if m < n {
      ConsumedStays(r, m, n - 1, id);
      TerminalStepAt(r, n - 1, id);
    } else {
      IssuedAt(r, m, id);
    }
  }

  lemma IssuedAt(r: Run, n: nat, id: Id)
    requires IsRun(r) && n < |r.states| && id in r.states[n].sessions
    ensures id in r.states[n].usedSessions
  {
    InvAt(r, n);
  }

  lemma TerminalStepAt(r: Run, n: nat, id: Id)
    requires IsRun(r) && n < |r.events| && id in r.states[n].usedSessions && !Overwrites(r.states[n], r.events[n], id)
    requires id in r.states[n].sessions ==> r.states[n].sessions[id].Terminal()
    ensures id in r.states[n + 1].usedSessions
    ensures id in r.states[n + 1].sessions
            ==> id in r.states[n].sessions && r.states[n + 1].sessions[id] == r.states[n].sessions[id]
  {
    InvAt(r, n);
    TerminalStep(r.states[n], r.events[n], id);
    StepFate(r.states[n], r.events[n]);
  }

  function Then(r: Run, e: Event): Run
    requires IsRun(r) && Enabled(r.states[|r.events|], e)
  {
    Run(r.states + [Next(r.states[|r.events|], e)], r.events + [e])
  }

  lemma ThenIsRun(r: Run, e: Event)
    requires IsRun(r) && Enabled(r.states[|r.events|], e)
    ensures IsRun(Then(r, e))
  {
  }

  /** `later` goes on from where r ends. */
  predicate Continues(r: Run, later: Run) {
    IsRun(r) && IsRun(later) && r.states <= later.states && r.events <= later.events
  }

  /** Whatever happens after r, the row of this session stays as r leaves it, as long as it is there. */
  ghost predicate FinalFor(r: Run, id: Id)
    requires IsRun(r) && id in r.states[|r.events|].sessions
  {
    forall later :: Continues(r, later) ==> Unchanged(later, |r.events|, |later.events|, id)
  }

  /** No administrator's request holds a copy of this session. */
  ghost predicate NobodyRevokes(t: Tables, id: Id) { forall s :: s in t.pendingReads ==> s.id != id }

  /**
   A consumed session is final, in every continuation, exactly when at that moment no revocation request holds a
   copy of the session that it may still write back.
   */
  lemma ConsumedIsFinalExactly(r: Run, id: Id)
    requires IsRun(r) && id in r.states[|r.events|].sessions && r.states[|r.events|].sessions[id].state.Consumed?
    ensures FinalFor(r, id) <==> NobodyRevokes(r.states[|r.events|], id)
  {
    var n := |r.events|;
    if NobodyRevokes(r.states[n], id) {
      forall later | Continues(r, later) ensures Unchanged(later, n, |later.events|, id) {
        UnreadIsFinal(later, n, id);
      }
    } else {
      var s :| s in r.states[n].pendingReads && s.id == id;
      ThenIsRun(r, SaveRevoked(s));
      var later := Then(r, SaveRevoked(s));
      assert Continues(r, later);
      assert later.states[n + 1].sessions[id].state.Expired?;
    }
  }

  lemma UnreadIsFinal(r: Run, m: nat, id: Id)
    requires IsRun(r) && m < |r.states| && id in r.states[m].sessions && r.states[m].sessions[id].state.Consumed?
    requires NobodyRevokes(r.states[m], id)
    ensures Unchanged(r, m, |r.events|, id)
  {
    forall k | m <= k < |r.events| ensures !Overwrites(r.states[k], r.events[k], id) {
      StaysUnread(r, m, k, id);
    }
    ConsumedUntilOverwritten(r, m, |r.events|, id);
  }

  lemma {:induction false} StaysUnread(r: Run, m: nat, n: nat, id: Id)
    requires IsRun(r) && m <= n < |r.states| && id in r.states[m].sessions && r.states[m].sessions[id].Terminal()
    requires NobodyRevokes(r.states[m], id)
    ensures NobodyRevokes(r.states[n], id)
    decreases n
  {
    if m < n {
      StaysUnread(r, m, n - 1, id);
      UnreadAt(r, m, n - 1, id);
    }
  }

  lemma UnreadAt(r: Run, m: nat, n: nat, id: Id)
    requires IsRun(r) && m <= n < |r.events| && id in r.states[m].sessions && r.states[m].sessions[id].Terminal()
    requires NobodyRevokes(r.states[n], id)
    ensures NobodyRevokes(r.states[n + 1], id)
  {
    NeverReopened(r, m, n, id);
    InvAt(r, n);
    NoNewReads(r.states[n], r.events[n], id);
  }

  /** A device's code arrives between an administrator's read of the pending session and the write-back. */
  lemma RaceUpToConsumption() returns (r: Run, row: Session, device: Id)
    ensures IsRun(r) && |r.events| == 3 && row.state.Pending? && row.deviceId.None? && row in r.states[3].pendingReads
    ensures r.states[3].sessions == map[row.id := row.(state := Consumed, deviceId := Some(device))]
    ensures r.states[3].devices == map[device := Device(None, None, Some(row.id), 1, 0)]
  {
    var session, user, code := Id(1), Id(7), Code(9);
    device := Id(2);
    row := Session(session, user, code, Pending, 0, MINUTE, None);
    var e0, e1, e2 := InitiateEvent(session, user, code, MINUTE, 0), ReadToRevoke(session),
      EnrolEvent(session, code, device, 1);
    r := Run([EMPTY], []);
    ThenIsRun(r, e0);
    r := Then(r, e0);
    assert r.states[1].sessions == map[session := row];
    ThenIsRun(r, e1);
    r := Then(r, e1);
    ThenIsRun(r, e2);
    r := Then(r, e2);
  }

  /**
   The race itself: the write-back turns the consumed row into an expired one without a device, while the device
   stays unrevoked and can still be given an owner.
   */
  lemma RevocationRacesConsumption() returns (r: Run, session: Id, device: Id)
    ensures IsRun(r) && |r.states| == 6 && session in r.states[3].sessions && session in r.states[4].sessions
    ensures r.states[3].sessions[session].state.Consumed? && r.states[3].sessions[session].deviceId == Some(device)
    ensures r.events[3].SaveRevoked? && r.states[4].sessions[session].state.Expired?
    ensures r.states[4].sessions[session].deviceId.None?
    ensures device in r.states[5].devices && r.states[5].devices[device].revokedAt.None?
    ensures r.states[5].devices[device].owner.Some?
  {
    var row;
    r, row, device := RaceUpToConsumption();
    session := row.id;
    ThenIsRun(r, SaveRevoked(row));
    r := Then(r, SaveRevoked(row));
    ThenIsRun(r, AssignEvent(session, Id(7)));
    r := Then(r, AssignEvent(session, Id(7)));
  }

  // ----- the sweep -----

  /**
   What an uninterrupted sweep does, said without its three statements: a session goes exactly when its expiry lies
   a day or more back, whatever its state; one that stays is expired exactly when it already was or its time is over; a
   device goes exactly when it is unclaimed and an hour old, and loses its link exactly when its session goes.
   */
  lemma SweepExactly(t: Tables, now: Time)
    ensures var u := Swept(t, now);
      && u.sessions.Keys <= t.sessions.Keys && u.devices.Keys <= t.devices.Keys
      && (forall id :: id in t.sessions ==> (id in u.sessions <==> t.sessions[id].expiresAt > now - 24 * HOUR))
      && (forall id :: id in u.sessions ==> u.sessions[id] == t.sessions[id].(state := u.sessions[id].state))
      && (forall id :: id in u.sessions && u.sessions[id] != t.sessions[id] ==> u.sessions[id].state.Expired?)
      && (forall id :: id in u.sessions ==> (u.sessions[id].state in {Pending, Verified}
            <==> t.sessions[id].state in {Pending, Verified} && t.sessions[id].expiresAt > now))
      && (forall d :: d in t.devices
           ==> (d in u.devices <==> t.devices[d].owner.Some? || t.devices[d].createdAt > now - HOUR))
      && (forall d :: d in u.devices ==> u.devices[d] == t.devices[d].(session := u.devices[d].session))
      && (forall d :: d in u.devices
           ==> u.devices[d].session == if LosesSession(t, u, t.devices[d]) then None else t.devices[d].session)
  {
  }

  /** A device still linked to its session, whose expiry lies after the device's creation. */
  ghost predicate Linked(t: Tables, d: Id, session: Id, created: Time) {
    && d in t.devices && t.devices[d].session == Some(session) && t.devices[d].createdAt == created
    && session in t.sessions && t.sessions[session].expiresAt > created
  }

  predicate IsSweep(e: Event) { e.ExpireSweep? || e.SessionSweep? || e.DeviceSweep? }

  lemma LinkedSweep(t: Tables, e: Event, d: Id, session: Id, created: Time)
    requires Linked(t, d, session, created) && IsSweep(e) && e.now < created + HOUR
    ensures Linked(Next(t, e), d, session, created)
  {
  }

  lemma LinkedStep(t: Tables, e: Event, d: Id, session: Id, created: Time)
    requires SessionsOk(t) && ReadsOk(t) && Enabled(t, e) && Linked(t, d, session, created)
    requires IsSweep(e) ==> e.now < created + HOUR
    ensures Linked(Next(t, e), d, session, created)
  {
    if IsSweep(e) {
      LinkedSweep(t, e, d, session, created);
    } else if e.SaveRevoked? { assert e.copy.id == session ==> SameSession(e.copy, t.sessions[session]); }
  }

  /**
   An enrolled device waits for its owner: as long as no sweep statement runs an hour or more after the enrolment,
   which is beyond the life of its grant, it is there, linked, and ready to be claimed unless it was revoked or claimed.
   */
  lemma {:induction false} DeviceWaitsForOwner(r: Run, m: nat, n: nat)
    requires IsRun(r) && m < n < |r.states| && r.events[m].EnrolEvent?
    requires forall k :: m < k < n && IsSweep(r.events[k]) ==> r.events[k].now < r.events[m].now + HOUR
    ensures var e := r.events[m]; Linked(r.states[n], e.deviceId, e.id, e.now)
    ensures var e := r.events[m]; var d := r.states[n].devices[e.deviceId];
      Assignable(d, e.id) <==> d.owner.None? && d.revokedAt.None?
    decreases n
  {
    var e := r.events[m];
    if n == m + 1 {
      assert r.states[n] == Next(r.states[m], e);
    } else {
      DeviceWaitsForOwner(r, m, n - 1);
      InvAt(r, n - 1);
      LinkedStep(r.states[n - 1], r.events[n - 1], e.deviceId, e.id, e.now);
    }
  }

  // ----- devices -----

  /**
   A device's whole life: an owner once set is kept and protects the row from deletion, a revocation is kept and
   freezes the owner, the sync cursor never falls, and a deleted device never returns.
   */
  lemma {:induction false} DeviceLife(r: Run, m: nat, n: nat, d: Id)
    requires IsRun(r) && m <= n < |r.states| && d in r.states[m].devices
    ensures Enrolled(r.states[n], d)
    ensures r.states[m].devices[d].owner.Some? ==> d in r.states[n].devices
    ensures d in r.states[n].devices ==> DeviceKept(r.states[m].devices[d], r.states[n].devices[d])
    decreases n
  {
    if m == n {
      EnrolledAt(r, m, d);
    } else {
      DeviceLife(r, m, n - 1, d);
      FateAt(r, n - 1, d);
    }
  }

  lemma EnrolledAt(r: Run, n: nat, d: Id)
    requires IsRun(r) && n < |r.states| && d in r.states[n].devices
    ensures Enrolled(r.states[n], d)
  {
    InvAt(r, n);
  }

  lemma FateAt(r: Run, n: nat, d: Id)
    requires IsRun(r) && n < |r.events| && Enrolled(r.states[n], d)
    ensures Enrolled(r.states[n + 1], d)
    ensures d in r.states[n].devices && r.states[n].devices[d].owner.Some? ==> d in r.states[n + 1].devices
    ensures d in r.states[n + 1].devices
            ==> d in r.states[n].devices && DeviceKept(r.states[n].devices[d], r.states[n + 1].devices[d])
  {
    StepFate(r.states[n], r.events[n]);
    StillEnrolled(r.states[n], r.states[n + 1], d);
  }

  lemma StillEnrolled(t: Tables, u: Tables, d: Id)
    requires Enrolled(t, d) && t.enrolments <= u.enrolments
    ensures Enrolled(u, d)
  {
  }

  /** Event m revokes device d: by its id, or by the session it is linked to. */
  predicate Revokes(r: Run, m: nat, d: Id)
    requires m < |r.events| && m < |r.states|
  {
    var t, e := r.states[m], r.events[m];
    && d in t.devices && t.devices[d].revokedAt.None?
    && ((e.RevokeEvent? && e.id == d) || (e.RevokeSessionEvent? && t.devices[d].session == Some(e.session)))
  }

  /**
   A revocation holds: from it on the device, as long as it is there, is revoked as of that moment, has the owner it
   had or none, can be claimed by nobody, and its sync cursor stands still.
   */
  lemma RevocationHolds(r: Run, m: nat, n: nat, d: Id)
    requires IsRun(r) && m < |r.events| && m < n < |r.states| && Revokes(r, m, d)
    ensures d in r.states[m + 1].devices && r.states[m + 1].devices[d].revokedAt == Some(r.events[m].now)
    ensures d in r.states[n].devices ==> var was, now_ := r.states[m].devices[d], r.states[n].devices[d];
              now_.revokedAt == Some(r.events[m].now) && now_.owner == was.owner && now_.cursor == was.cursor
    ensures d in r.states[n].devices ==> forall session :: !Assignable(r.states[n].devices[d], session)
    ensures forall cursor: nat :: !Enabled(r.states[n], CursorEvent(d, cursor))
  {
    assert r.states[m + 1] == Next(r.states[m], r.events[m]);
    DeviceLife(r, m + 1, n, d);
  }

  /** A claim holds: the unclaimed device of the session gets this owner, and keeps it and its place for good. */
  lemma ClaimHolds(r: Run, m: nat, n: nat, d: Id)
    requires IsRun(r) && m < |r.events| && m < n < |r.states| && r.events[m].AssignEvent? && d in r.states[m].devices
    requires var was := r.states[m].devices[d];
             was.session == Some(r.events[m].session) && was.owner.None? && was.revokedAt.None?
    ensures d in r.states[n].devices && r.states[n].devices[d].owner == Some(r.events[m].user)
  {
    assert r.states[m + 1] == Next(r.states[m], r.events[m]);
    DeviceLife(r, m + 1, n, d);
  }

  /** A sync cursor that was advanced is never below that value again. */
  lemma CursorHolds(r: Run, m: nat, n: nat)
    requires IsRun(r) && m < |r.events| && m < n < |r.states| && r.events[m].CursorEvent?
    ensures var e := r.events[m]; e.id in r.states[m + 1].devices && r.states[m + 1].devices[e.id].cursor == e.cursor
    ensures var e := r.events[m]; e.id in r.states[n].devices ==> e.cursor <= r.states[n].devices[e.id].cursor
  {
    assert r.states[m + 1] == Next(r.states[m], r.events[m]);
    DeviceLife(r, m + 1, n, r.events[m].id);
  }

  /** A device revoked before anyone claimed it never gets an owner. */
  lemma RevokedNeverOwned(r: Run, m: nat, n: nat, d: Id)
    requires IsRun(r) && m <= n < |r.states| && d in r.states[m].devices && d in r.states[n].devices
    requires r.states[m].devices[d].revokedAt.Some? && r.states[m].devices[d].owner.None?
    ensures r.states[n].devices[d].owner.None?
  {
    DeviceLife(r, m, n, d);
  }
}
