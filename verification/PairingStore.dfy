/**
 The statements and transactions that change the pairing tables, in the order their code runs them. Each one is
 proved to be a step of the pairing state machine, or to leave the tables as they were.
 */
module PairingStore {
  import opened Prelude
  import opened Pairing

  datatype DeviceClass = Phone | Tablet | Desktop | Tv | Unknown

  function ClassName(c: DeviceClass): string {
    match c
    case Phone => "phone"
    case Tablet => "tablet"
    case Desktop => "desktop"
    case Tv => "tv"
    case Unknown => "unknown"
  }

  function TrimLeft(s: string): string { if s != [] && Space(s[0]) then TrimLeft(s[1..]) else s }

  function Trim(s: string): string { TrimRight(TrimLeft(s)) }

  function TrimRight(s: string): string { if s != [] && Space(s[|s| - 1]) then TrimRight(s[..|s| - 1]) else s }

  /** A blank label falls back on the class of the device. */
  function EffectiveLabel(text: string, c: DeviceClass): string {
    if Trim(text) == "" then ClassName(c) else Trim(text)
  }

  /** Trimming takes away white space at both ends, all of it, and nothing else. */
  lemma TrimExactly(s: string) returns (left: string, right: string)
    ensures s == left + Trim(s) + right
    ensures forall i :: 0 <= i < |left| ==> Space(left[i])
    ensures forall i :: 0 <= i < |right| ==> Space(right[i])
    ensures Trim(s) != "" ==> !Space(Trim(s)[0]) && !Space(Trim(s)[|Trim(s)| - 1])
  {
    left := LeftExactly(s);
    right := RightExactly(TrimLeft(s));
    if Trim(s) != "" { assert TrimLeft(s)[0] == Trim(s)[0]; }
  }

  lemma {:induction false} LeftExactly(s: string) returns (left: string)
    ensures s == left + TrimLeft(s) && forall i :: 0 <= i < |left| ==> Space(left[i])
    ensures TrimLeft(s) != "" ==> !Space(TrimLeft(s)[0])
  {
    left := "";
    if s != [] && Space(s[0]) {
      left := LeftExactly(s[1..]);
      left := [s[0]] + left;
    }
  }

  lemma {:induction false} RightExactly(s: string) returns (right: string)
    ensures s == TrimRight(s) + right && forall i :: 0 <= i < |right| ==> Space(right[i])
    ensures TrimRight(s) != "" ==> !Space(TrimRight(s)[|TrimRight(s)| - 1])
  {
    right := "";
    if s != [] && Space(s[|s| - 1]) {
      right := RightExactly(s[..|s| - 1]);
      right := right + [s[|s| - 1]];
    }
  }

  datatype SweepResults = SweepResults(expiredSessions: nat, deletedSessions: nat, deletedDevices: nat)

  class PairingDb {
    var t: Tables

    constructor ()
      ensures t == Tables(map[], map[], {}, [], {}) && Inv(t)
    {
      t := Tables(map[], map[], {}, [], {});
    }

    /** Creates and saves a pending session under a newly generated id; the unique index refuses a code in use. */
    method Initiate(id: Id, user: Id, code: Code, ttl: Time, now: Time) returns (r: Result<Session>)
      requires Inv(t) && code.Code? && id !in t.usedSessions
      modifies this
      ensures Inv(t)
      ensures r.Ok? <==> && id.Id? && user.Id? && 0 < ttl <= 5 * MINUTE
                         && forall x :: x in old(t).sessions ==> old(t).sessions[x].code != code
      ensures r.Ok? ==> Enabled(old(t), InitiateEvent(id, user, code, ttl, now))
      ensures r.Ok? ==> t == Next(old(t), InitiateEvent(id, user, code, ttl, now))
      ensures r.Ok? ==> r.value == Session(id, user, code, Pending, now, now + ttl, None)
      ensures r.Ok? ==> t.sessions == old(t).sessions[id := r.value] && t.devices == old(t).devices
      ensures r.Err? ==> t == old(t)
    {
      var s := NewSession(id, user, code, ttl, now);
      if s.None? { return Err(InvalidInput); }
      if CodeTaken(t, code) { return Err(Conflict); }
      InitiateIsStep(t, id, user, code, ttl, now);
      StepKeeps(t, InitiateEvent(id, user, code, ttl, now));
      t := AddSession(t, s.value);
      r := Ok(s.value);
    }

    /** Finds, verifies, consumes, saves and inserts in one transaction; any failure rolls all of it back. */
    method VerifyAndConsume(code: Code, deviceId: Id, text: string, class_: DeviceClass, now: Time)
      returns (r: Result<Session>)
      requires Inv(t) && (deviceId !in t.devices ==> FreshDevice(t, deviceId))
      modifies this
      ensures Inv(t)
      ensures r.Ok? ==> Enabled(old(t), EnrolEvent(r.value.id, code, deviceId, now))
      ensures r.Ok? ==> t == Next(old(t), EnrolEvent(r.value.id, code, deviceId, now))
      ensures r.Ok? ==> r.value == old(t).sessions[r.value.id].(state := Consumed, deviceId := Some(deviceId))
      ensures r.Ok? ==> t.sessions == old(t).sessions[r.value.id := r.value]
      ensures r.Ok? ==> t.devices == old(t).devices[deviceId := Device(None, None, Some(r.value.id), now, 0)]
      ensures r.Ok? ==> old(t).sessions[r.value.id].code == code
      ensures r.Err? ==> t == old(t)
      ensures r.Ok? <==> && |Trim(text)| <= 100 && deviceId.Id? && deviceId !in old(t).devices
                         && exists id :: id in old(t).sessions && IsOpenFor(old(t).sessions[id], code, now)
    {
      if |EffectiveLabel(text, class_)| > MAX_LABEL { return Err(InvalidInput); }
      var found := FindPending(code, now);
      if found.None? { return Err(NotFound); }
      assert RowOk(t.sessions[found.value], found.value);
      var session := new PairingSession(t.sessions[found.value]);
      var err := session.Verify(now, code, deviceId);
      if err.Some? { return Err(if err.value.BadArgument? then Internal else Conflict); }
      err := session.Consume(now);
      assert err.None?;
      if deviceId in t.devices { return Err(Conflict); }
      StepKeeps(t, EnrolEvent(found.value, code, deviceId, now));
      t := t.(sessions := t.sessions[found.value := session.value],
              devices := t.devices[deviceId := Device(None, None, Some(found.value), now, 0)],
              enrolments := t.enrolments + [Enrolment(found.value, deviceId)]);
      r := Ok(session.value);
    }

    /** The locking select: at most one row can match, since codes are unique. */
    method FindPending(code: Code, now: Time) returns (found: Option<Id>)
      requires Inv(t)
      ensures found.Some? ==> Matches(t, found.value, code, now)
      ensures forall id :: id in t.sessions && IsOpenFor(t.sessions[id], code, now) ==> found == Some(id)
    {
      found := None;
      var rest := t.sessions.Keys;
      while rest != {}
        invariant rest <= t.sessions.Keys
        invariant forall id :: Matches(t, id, code, now) ==> id in rest
        decreases rest
      {
        var id :| id in rest;
        if Matches(t, id, code, now) {
          OnlyMatch(t, id, code, now);
          return Some(id);
        }
        rest := rest - {id};
      }
      assert forall id :: id in t.sessions && IsOpenFor(t.sessions[id], code, now) ==> Matches(t, id, code, now);
    }

    /** The revocation request reads the session first; for an open one the copy stays in its hands. */
    method FindForRevocation(id: Id, user: Id) returns (r: Result<Session>)
      requires Inv(t)
      modifies this
      ensures Inv(t)
      ensures r.Ok? <==> id in old(t).sessions && old(t).sessions[id].initiatedBy == user
      ensures r.Ok? ==> r.value == old(t).sessions[id]
      ensures r.Ok? && r.value.state in {Pending, Verified}
              ==> t == Next(old(t), ReadToRevoke(id)) == old(t).(pendingReads := old(t).pendingReads + {r.value})
      ensures r.Err? || r.value.state in {Consumed, Expired} ==> t == old(t)
    {
      if id !in t.sessions || t.sessions[id].initiatedBy != user { return Err(NotFound); }
      r := Ok(t.sessions[id]);
      if !r.value.Terminal() {
        StepKeeps(t, ReadToRevoke(id));
        t := t.(pendingReads := t.pendingReads + {r.value});
      }
    }

    /** The rest of the request: revoke the device of a consumed copy, or expire an open copy and write it back. */
    method RevokeCopy(copy: Session, now: Time)
      requires Inv(t) && (!copy.Terminal() ==> copy in t.pendingReads)
      modifies this
      ensures Inv(t)
      ensures copy.state.Consumed? ==> t == Next(old(t), RevokeSessionEvent(copy.id, now))
      ensures copy.state.Pending? ==> t == Next(old(t), SaveRevoked(copy))
      ensures copy.state.Expired? ==> t == old(t)
      ensures copy.state.Consumed? ==> RevokedLinked(old(t), t, copy.id, now)
      ensures copy.state.Pending? ==> CopySaved(old(t), t, copy)
    {
      if copy.state.Consumed? {
        var _ := RevokeByPairingSession(copy.id, now);
      } else if copy.state.Pending? || copy.state.Verified? {
        var session := new PairingSession(copy);
        session.ExpireAt(copy.expiresAt);
        StepKeeps(t, SaveRevoked(copy));
        var s := session.value;
        if s.id in t.sessions {
          var row := t.sessions[s.id].(state := s.state, expiresAt := s.expiresAt, deviceId := s.deviceId);
          t := t.(sessions := t.sessions[s.id := row]);
        } else if !CodeTaken(t, s.code) {
          t := t.(sessions := t.sessions[s.id := s]);
        }
      }
    }

    /** Three statements in order, each a step of its own, each reporting the rows it affected. */
    method SweepOnce(now: Time) returns (res: SweepResults)
      requires Inv(t)
      modifies this
      ensures Inv(t)
      ensures t == SweepSteps(old(t), now)
      ensures res.expiredSessions == |PastTime(old(t), now)|
      ensures |t.sessions| == |old(t).sessions| - res.deletedSessions
      ensures |t.devices| == |old(t).devices| - res.deletedDevices
    {
      var expired := ExpireStaleSessions(now);
      var sessions := DeleteTerminalSessions(now);
      var devices := DeleteAbandonedDevices(now);
      res := SweepResults(expired, sessions, devices);
    }

    method ExpireStaleSessions(now: Time) returns (affected: nat)
      requires Inv(t)
      modifies this
      ensures Inv(t) && t == Next(old(t), ExpireSweep(now)) && affected == |PastTime(old(t), now)|
      ensures t == old(t).(sessions := t.sessions) && t.sessions.Keys == old(t).sessions.Keys
      ensures forall id :: id in PastTime(old(t), now) ==> t.sessions[id] == old(t).sessions[id].(state := Expired)
      ensures forall id :: id in t.sessions && id !in PastTime(old(t), now) ==> t.sessions[id] == old(t).sessions[id]
    {
      StepKeeps(t, ExpireSweep(now));
      ExpireMeans(t, now);
      affected := |StaleIds(t, now)|;
      t := t.(sessions := ExpireStale(t.sessions, now));
    }

    method DeleteTerminalSessions(now: Time) returns (affected: nat)
      requires Inv(t)
      modifies this
      ensures Inv(t) && t == Next(old(t), SessionSweep(now)) && |t.sessions| == |old(t).sessions| - affected
      ensures OldDropped(old(t), t, now) && DevicesUnlinked(old(t), t)
    {
      StepKeeps(t, SessionSweep(now));
      DropMeans(t, now);
      var gone := OldIds(t, now);
      affected := |gone|;
      t := DropSessions(t, gone);
    }

    method DeleteAbandonedDevices(now: Time) returns (affected: nat)
      requires Inv(t)
      modifies this
      ensures Inv(t) && t == Next(old(t), DeviceSweep(now)) && |t.devices| == |old(t).devices| - affected
      ensures t == old(t).(devices := t.devices)
      ensures forall d :: d in t.devices ==> d in old(t).devices && t.devices[d] == old(t).devices[d]
      ensures forall d :: d in old(t).devices
                ==> (d !in t.devices <==> old(t).devices[d].owner.None? && old(t).devices[d].createdAt <= now - HOUR)
    {
      StepKeeps(t, DeviceSweep(now));
      var gone := AbandonedIds(t, now);
      SizeAfterRemoval(t.devices, gone);
      affected := |gone|;
      t := t.(devices := t.devices - gone);
    }

    method AssignOwnerByPairingSession(session: Id, user: Id) returns (r: Result<()>)
      requires Inv(t)
      modifies this
      ensures Inv(t) && t == Next(old(t), AssignEvent(session, user))
      ensures AssignedLinked(old(t), t, session, user)
      ensures r.Ok? <==> exists d :: d in old(t).devices && t.devices[d].owner != old(t).devices[d].owner
    {
      StepKeeps(t, AssignEvent(session, user));
      AssignMeans(t, session, user);
      var hit := exists d :: d in t.devices && Assignable(t.devices[d], session);
      t := AssignOwner(t, session, user);
      r := if hit then Ok(()) else Err(NotFound);
    }

    method RevokeByPairingSession(session: Id, now: Time) returns (r: Result<()>)
      requires Inv(t)
      modifies this
      ensures Inv(t) && t == Next(old(t), RevokeSessionEvent(session, now))
      ensures RevokedLinked(old(t), t, session, now)
      ensures r.Ok? <==> exists d :: d in old(t).devices && t.devices[d].revokedAt != old(t).devices[d].revokedAt
    {
      StepKeeps(t, RevokeSessionEvent(session, now));
      RevokeMeans(t, session, now);
      var hit := exists d :: d in t.devices && RevocableBySession(t.devices[d], session);
      t := RevokeBySession(t, session, now);
      r := if hit then Ok(()) else Err(NotFound);
    }

    method RevokeDevice(id: Id, now: Time) returns (r: Result<()>)
      requires Inv(t)
      modifies this
      ensures Inv(t)
      ensures r.Ok? <==> id in old(t).devices && old(t).devices[id].revokedAt.None?
      ensures t == if r.Ok? then Next(old(t), RevokeEvent(id, now)) else old(t)
      ensures r.Ok? ==> id in t.devices && t.devices[id].revokedAt == Some(now)
      ensures r.Ok? ==> t.devices[id] == old(t).devices[id].(revokedAt := Some(now))
      ensures r.Ok? ==> t == old(t).(devices := t.devices) && t.devices == old(t).devices[id := t.devices[id]]
    {
      if !Revocable(t, id) { return Err(NotFound); }
      StepKeeps(t, RevokeEvent(id, now));
      t := Revoke(t, id, now);
      r := Ok(());
    }

    /** An equal or higher stored cursor is kept without an error; an unclaimed, revoked or missing device is one. */
    method AdvanceDeviceCursor(id: Id, cursor: nat) returns (r: Result<()>)
      requires Inv(t)
      modifies this
      ensures Inv(t)
      ensures t == if CursorBehind(old(t), id, cursor) then Next(old(t), CursorEvent(id, cursor)) else old(t)
      ensures r.Ok? <==> && id in old(t).devices && old(t).devices[id].revokedAt.None?
                         && (old(t).devices[id].cursor < cursor || old(t).devices[id].owner.Some?)
      ensures r.Ok? ==> id in t.devices && t == old(t).(devices := old(t).devices[id := t.devices[id]])
      ensures r.Ok? ==> var was := old(t).devices[id];
                t.devices[id] == was.(cursor := if was.cursor < cursor then cursor else was.cursor)
      ensures r.Err? ==> t == old(t)
    {
      if CursorBehind(t, id, cursor) {
        StepKeeps(t, CursorEvent(id, cursor));
        t := AdvanceCursor(t, id, cursor);
        return Ok(());
      }
      if !Revocable(t, id) || t.devices[id].owner.None? { return Err(NotFound); }
      r := Ok(());
    }
  }

  /** Still pending, not past its time, and asked for with the right code. */
  predicate IsOpenFor(s: Session, code: Code, now: Time) { s.state.Pending? && now < s.expiresAt && s.code == code }

  /** The open sessions whose time is over. */
  function PastTime(t: Tables, now: Time): set<Id> {
    set id | id in t.sessions && t.sessions[id].state in {Pending, Verified} && t.sessions[id].expiresAt <= now
  }

  lemma ExpireMeans(t: Tables, now: Time)
    ensures StaleIds(t, now) == PastTime(t, now)
  {
  }

  /**
   The copy written back: a stored row loses its device and expires whatever it was; a missing one comes back expired,
   unless its code is in use by now. No other row is touched.
   */
  ghost predicate CopySaved(t: Tables, u: Tables, copy: Session) {
    && u == t.(sessions := u.sessions) && t.sessions.Keys <= u.sessions.Keys <= t.sessions.Keys + {copy.id}
    && (forall x :: x in t.sessions && x != copy.id ==> u.sessions[x] == t.sessions[x])
    && (copy.id in t.sessions ==> u.sessions[copy.id] == t.sessions[copy.id].(state := Expired, deviceId := None))
    && (copy.id !in t.sessions && copy.id in u.sessions ==> u.sessions[copy.id] == copy.(state := Expired))
    && (copy.id in u.sessions
        <==> copy.id in t.sessions || forall x :: x in t.sessions ==> t.sessions[x].code != copy.code)
  }

  /** Exactly the finished sessions a day past their time are deleted, and nothing else of the sessions changes. */
  ghost predicate OldDropped(t: Tables, u: Tables, now: Time) {
    && (forall id :: id in u.sessions ==> id in t.sessions && u.sessions[id] == t.sessions[id])
    && forall id :: id in t.sessions ==> (id in u.sessions
         <==> t.sessions[id].state in {Pending, Verified} || t.sessions[id].expiresAt > now - 24 * HOUR)
  }

  /** A device whose session is deleted loses its reference to it; nothing else of the devices changes. */
  ghost predicate DevicesUnlinked(t: Tables, u: Tables) {
    && u == t.(sessions := u.sessions, devices := u.devices) && u.devices.Keys == t.devices.Keys
    && (forall d :: d in t.devices && LosesSession(t, u, t.devices[d])
          ==> u.devices[d] == t.devices[d].(session := None))
    && (forall d :: d in t.devices && !LosesSession(t, u, t.devices[d]) ==> u.devices[d] == t.devices[d])
  }

  lemma DropMeans(t: Tables, now: Time)
    ensures var u := DeleteOldSessions(t, now); OldDropped(t, u, now) && DevicesUnlinked(t, u)
    ensures |DeleteOldSessions(t, now).sessions| == |t.sessions| - |OldIds(t, now)|
  {
    SizeAfterRemoval(t.sessions, OldIds(t, now));
  }

  /** Exactly the unowned, unrevoked devices linked to this session get this owner; nothing else changes. */
  ghost predicate AssignedLinked(t: Tables, u: Tables, session: Id, user: Id) {
    && u == t.(devices := u.devices) && u.devices.Keys == t.devices.Keys
    && (forall d :: d in t.devices && Unclaimed(t.devices[d], session)
          ==> u.devices[d] == t.devices[d].(owner := Some(user)))
    && (forall d :: d in t.devices && !Unclaimed(t.devices[d], session) ==> u.devices[d] == t.devices[d])
  }

  predicate Unclaimed(d: Device, session: Id) { d.session == Some(session) && d.owner.None? && d.revokedAt.None? }

  lemma AssignMeans(t: Tables, session: Id, user: Id)
    ensures AssignedLinked(t, AssignOwner(t, session, user), session, user)
    ensures var was, u := t.devices, AssignOwner(t, session, user).devices;
            forall d :: d in was ==> (u[d].owner != was[d].owner <==> Assignable(was[d], session))
  {
  }

  /** Exactly the unrevoked devices linked to this session are revoked, now; nothing else changes. */
  ghost predicate RevokedLinked(t: Tables, u: Tables, session: Id, now: Time) {
    && u == t.(devices := u.devices) && u.devices.Keys == t.devices.Keys
    && (forall d :: d in t.devices && t.devices[d].session == Some(session) && t.devices[d].revokedAt.None?
          ==> u.devices[d] == t.devices[d].(revokedAt := Some(now)))
    && (forall d :: d in t.devices && !(t.devices[d].session == Some(session) && t.devices[d].revokedAt.None?)
          ==> u.devices[d] == t.devices[d])
  }

  lemma RevokeMeans(t: Tables, session: Id, now: Time)
    ensures var u := RevokeBySession(t, session, now);
            && RevokedLinked(t, u, session, now)
            && forall d :: d in t.devices
                 ==> (u.devices[d].revokedAt != t.devices[d].revokedAt <==> RevocableBySession(t.devices[d], session))
  {
  }

  lemma OnlyMatch(t: Tables, id: Id, code: Code, now: Time)
    requires CodesOk(t) && Matches(t, id, code, now)
    ensures forall x :: x in t.sessions && IsOpenFor(t.sessions[x], code, now) ==> x == id
  {
  }

  /** The three events of a sweep, one after the other. */
  function SweepSteps(t: Tables, now: Time): Tables {
    Next(Next(Next(t, ExpireSweep(now)), SessionSweep(now)), DeviceSweep(now))
  }

  /** What `PairingRuns.SweepExactly` describes is these steps with nothing in between. */
  lemma SweepStepsAreSwept(t: Tables, now: Time)
    ensures SweepSteps(t, now) == Swept(t, now)
  {
  }

  lemma InitiateIsStep(t: Tables, id: Id, user: Id, code: Code, ttl: Time, now: Time)
    requires Enabled(t, InitiateEvent(id, user, code, ttl, now))
    ensures var s := NewSession(id, user, code, ttl, now);
            s.Some? && AddSession(t, s.value) == Next(t, InitiateEvent(id, user, code, ttl, now))
  {
  }
}
