/**
 Device pairing: the session state machine, the atomic verify-and-consume transaction, the
 lifecycle sweep, and the guarded updates of paired devices.
 */
module Pairing {
  import opened Prelude

  const MAX_PAIRING_TTL: Time := 5 * MINUTE
  const MAX_LABEL: nat := 100

  /** An identifier: all that matters of the text is whether it is blank and which other ones it equals. */
  datatype Id = Blank | Id(key: nat)

  /** A pairing code: the zero value, or eight normalised characters of the Crockford alphabet. */
  datatype Code = ZeroCode | Code(value: nat)

  datatype PairingState = Pending | Verified | Consumed | Expired

  datatype Session = Session(
    id: Id, initiatedBy: Id, code: Code, state: PairingState,
    createdAt: Time, expiresAt: Time, deviceId: Option<Id>)
  {
    predicate Terminal() { state.Consumed? || state.Expired? }

    predicate IsExpired(now: Time) { now >= expiresAt }
  }

  datatype PairingError = WrongState | SessionExpired | CodeMismatch | BadArgument

  function NewSession(id: Id, user: Id, code: Code, ttl: Time, now: Time): Option<Session> {
    if id.Blank? || user.Blank? || ttl <= 0 || ttl > MAX_PAIRING_TTL then None
    else Some(Session(id, user, code, Pending, now, now + ttl, None))
  }

  /** The strict check a persisted row must pass to be loaded at all. */
  predicate Rehydrates(s: Session) {
    && s.id.Id? && s.initiatedBy.Id? && s.code.Code?
    && 0 < s.expiresAt - s.createdAt <= MAX_PAIRING_TTL
    && (s.deviceId.Some? ==> s.deviceId.value.Id?)
    && (s.state.Pending? ==> s.deviceId.None?)
    && (s.state.Verified? || s.state.Consumed? ==> s.deviceId.Some?)
  }

  /** A zero-value code never equals anything, itself included. */
  predicate CodesEqual(a: Code, b: Code) { a.Code? && b.Code? && a == b }

  // ----- the session aggregate -----

  class PairingSession {
    var value: Session

    constructor (s: Session)
      ensures value == s
    {
      value := s;
    }

    /** Expires a stale pending or verified session; leaves every other one alone. */
    method ExpireAt(now: Time)
      modifies this
      ensures value == if (old(value).state.Pending? || old(value).state.Verified?) && now >= old(value).expiresAt
                       then old(value).(state := Expired) else old(value)
    {
      if !value.state.Pending? && !value.state.Verified? { return; }
      if value.IsExpired(now) { value := value.(state := Expired); }
    }

    /** The shared preamble; expiring a stale session is the one change a refused call can make. */
    method CheckAdvanceable(now: Time, expected: PairingState) returns (err: Option<PairingError>)
      requires expected.Pending? || expected.Verified?
      modifies this
      ensures err.None? <==> old(value).state == expected && now < old(value).expiresAt
      ensures err == Some(SessionExpired) <==> old(value).state in {Pending, Verified} && now >= old(value).expiresAt
      ensures err.Some? && err.value != SessionExpired ==> err.value == WrongState
      ensures value == if err == Some(SessionExpired) then old(value).(state := Expired) else old(value)
    {
      if value.Terminal() { return Some(WrongState); }
      if value.IsExpired(now) {
        value := value.(state := Expired);
        return Some(SessionExpired);
      }
      if value.state != expected { return Some(WrongState); }
      err := None;
    }

    /** Sets the device and advances to verified only on a matching code; a wrong code changes nothing. */
    method Verify(now: Time, submitted: Code, deviceId: Id) returns (err: Option<PairingError>)
      modifies this
      ensures err.None? <==> && old(value).state.Pending? && now < old(value).expiresAt
                             && deviceId.Id? && submitted.Code? && old(value).code == submitted
      ensures err.None? ==> value == old(value).(state := Verified, deviceId := Some(deviceId))
      ensures err.Some? && err.value != SessionExpired ==> value == old(value)
      ensures err == Some(SessionExpired)
              ==> old(value).state in {Pending, Verified} && value == old(value).(state := Expired)
      ensures Rehydrates(old(value)) ==> Rehydrates(value)
    {
      err := CheckAdvanceable(now, Pending);
      if err.Some? { return; }
      if deviceId.Blank? { return Some(BadArgument); }
      if !CodesEqual(value.code, submitted) { return Some(CodeMismatch); }
      value := value.(deviceId := Some(deviceId), state := Verified);
    }

    method Consume(now: Time) returns (err: Option<PairingError>)
      modifies this
      ensures err.None? <==> old(value).state.Verified? && now < old(value).expiresAt
      ensures err.None? ==> value == old(value).(state := Consumed)
      ensures err.Some? && err.value != SessionExpired ==> value == old(value)
      ensures err == Some(SessionExpired)
              ==> old(value).state in {Pending, Verified} && value == old(value).(state := Expired)
      ensures Rehydrates(old(value)) ==> Rehydrates(value)
    {
      err := CheckAdvanceable(now, Verified);
      if err.Some? { return; }
      value := value.(state := Consumed);
    }
  }

  // ----- the tables -----

  datatype Device = Device(
    owner: Option<Id>, revokedAt: Option<Time>, session: Option<Id>, createdAt: Time, cursor: nat)

  datatype Enrolment = Enrolment(session: Id, device: Id)

  /**
   `sessions` and `devices` are the stored rows. The rest is history that no deletion erases: every session id
   issued, every consumption, and every open session an administrator's request has read in order to revoke it.
   */
  datatype Tables = Tables(
    sessions: map<Id, Session>,
    devices: map<Id, Device>,
    usedSessions: set<Id>,
    enrolments: seq<Enrolment>,
    pendingReads: set<Session>)

  predicate CodeTaken(t: Tables, code: Code) { exists id :: id in t.sessions && t.sessions[id].code == code }

  /** Initiating a pairing: a valid session under a new id, unless its code is already in the table. */
  predicate CanInitiate(t: Tables, id: Id, user: Id, code: Code, ttl: Time) {
    id.Id? && user.Id? && 0 < ttl <= MAX_PAIRING_TTL && code.Code? && id !in t.usedSessions && !CodeTaken(t, code)
  }

  function AddSession(t: Tables, s: Session): Tables {
    t.(sessions := t.sessions[s.id := s], usedSessions := t.usedSessions + {s.id})
  }

  /** The row the locking select finds: pending, unexpired, with this code. */
  predicate Matches(t: Tables, id: Id, code: Code, now: Time) {
    id in t.sessions && t.sessions[id].code == code && t.sessions[id].state.Pending? && t.sessions[id].expiresAt > now
  }

  /** The committed effect of a successful verify-and-consume. */
  function Enrol(t: Tables, id: Id, deviceId: Id, now: Time): Tables
    requires id in t.sessions
  {
    t.(sessions := t.sessions[id := t.sessions[id].(state := Consumed, deviceId := Some(deviceId))],
       devices := t.devices[deviceId := Device(None, None, Some(id), now, 0)],
       enrolments := t.enrolments + [Enrolment(id, deviceId)])
  }

  /** Device ids are generated by the server and never reused. */
  predicate FreshDevice(t: Tables, deviceId: Id) {
    deviceId !in t.devices && !Enrolled(t, deviceId)
  }

  /**
   Revoking an open session, second half: write back the copy read earlier, now expired. The upsert changes only
   state, expiry and device of a stored row, whatever it holds by now, and inserts the row when it is gone.
   */
  function SaveExpired(t: Tables, s: Session): Tables {
    if s.id in t.sessions then
      var row := t.sessions[s.id].(state := Expired, expiresAt := s.expiresAt, deviceId := s.deviceId);
      t.(sessions := t.sessions[s.id := row])
    else if CodeTaken(t, s.code) then t
    else t.(sessions := t.sessions[s.id := s.(state := Expired)])
  }

  // ----- sweep and device updates -----

  function ExpireStale(sessions: map<Id, Session>, now: Time): map<Id, Session> {
    map id | id in sessions :: if Stale(sessions[id], now) then sessions[id].(state := Expired) else sessions[id]
  }

  predicate Stale(s: Session, now: Time) { !s.Terminal() && s.expiresAt <= now }

  /** Deleting sessions clears the reference of the devices that came from them. */
  function DropSessions(t: Tables, gone: set<Id>): Tables {
    t.(sessions := t.sessions - gone, devices := Unlink(t.devices, gone))
  }

  function Unlink(devices: map<Id, Device>, gone: set<Id>): map<Id, Device> {
    map d | d in devices ::
      if devices[d].session.Some? && devices[d].session.value in gone then devices[d].(session := None) else devices[d]
  }

  /** Deleting its session clears a device's reference to it. */
  predicate LosesSession(t: Tables, u: Tables, d: Device) {
    d.session.Some? && d.session.value in t.sessions && d.session.value !in u.sessions
  }

  predicate Abandoned(d: Device, now: Time) { d.owner.None? && d.createdAt <= now - HOUR }

  function StaleIds(t: Tables, now: Time): set<Id> { set id | id in t.sessions && Stale(t.sessions[id], now) }

  function OldIds(t: Tables, now: Time): set<Id> {
    set id | id in t.sessions && t.sessions[id].Terminal() && t.sessions[id].expiresAt <= now - 24 * HOUR
  }

  function AbandonedIds(t: Tables, now: Time): set<Id> { set d | d in t.devices && Abandoned(t.devices[d], now) }

  /** The three statements of a sweep; each commits by itself. */
  function ExpireSessions(t: Tables, now: Time): Tables { t.(sessions := ExpireStale(t.sessions, now)) }

  function DeleteOldSessions(t: Tables, now: Time): Tables { DropSessions(t, OldIds(t, now)) }

  function DeleteAbandoned(t: Tables, now: Time): Tables { t.(devices := t.devices - AbandonedIds(t, now)) }

  /** A sweep nothing else comes between: expire, delete sessions a day old, delete unclaimed devices an hour old. */
  function Swept(t: Tables, now: Time): Tables { DeleteAbandoned(DeleteOldSessions(ExpireSessions(t, now), now), now) }

  /** WHERE pairing_session_id = s AND owner_id IS NULL AND revoked_at IS NULL. */
  predicate Assignable(d: Device, session: Id) { d.session == Some(session) && d.owner.None? && d.revokedAt.None? }

  function AssignOwner(t: Tables, session: Id, user: Id): Tables {
    t.(devices := map d | d in t.devices ::
      if Assignable(t.devices[d], session) then t.devices[d].(owner := Some(user)) else t.devices[d])
  }

  predicate RevocableBySession(d: Device, session: Id) { d.session == Some(session) && d.revokedAt.None? }

  function RevokeBySession(t: Tables, session: Id, now: Time): Tables {
    t.(devices := map d | d in t.devices ::
      if RevocableBySession(t.devices[d], session) then t.devices[d].(revokedAt := Some(now)) else t.devices[d])
  }

  predicate Revocable(t: Tables, id: Id) { id in t.devices && t.devices[id].revokedAt.None? }

  function Revoke(t: Tables, id: Id, now: Time): Tables
    requires Revocable(t, id)
  {
    t.(devices := t.devices[id := t.devices[id].(revokedAt := Some(now))])
  }

  predicate CursorBehind(t: Tables, id: Id, cursor: nat) { Revocable(t, id) && t.devices[id].cursor < cursor }

  function AdvanceCursor(t: Tables, id: Id, cursor: nat): Tables
    requires CursorBehind(t, id, cursor)
  {
    t.(devices := t.devices[id := t.devices[id].(cursor := cursor)])
  }

  // ----- steps -----

  datatype Event =
    | InitiateEvent(id: Id, user: Id, code: Code, ttl: Time, now: Time)
    | EnrolEvent(id: Id, code: Code, deviceId: Id, now: Time)
    | ReadToRevoke(id: Id)
    | SaveRevoked(copy: Session)
    | ExpireSweep(now: Time)
    | SessionSweep(now: Time)
    | DeviceSweep(now: Time)
    | AssignEvent(session: Id, user: Id)
    | RevokeEvent(id: Id, now: Time)
    | RevokeSessionEvent(session: Id, now: Time)
    | CursorEvent(id: Id, cursor: nat)

  predicate Enabled(t: Tables, e: Event) {
    match e
    case InitiateEvent(id, user, code, ttl, now) => CanInitiate(t, id, user, code, ttl)
    case EnrolEvent(id, code, deviceId, now) =>
      Matches(t, id, code, now) && code.Code? && deviceId.Id? && FreshDevice(t, deviceId)
    case ReadToRevoke(id) => id in t.sessions && !t.sessions[id].Terminal()
    case SaveRevoked(copy) => copy in t.pendingReads
    case RevokeEvent(id, now) => Revocable(t, id)
    case CursorEvent(id, cursor) => CursorBehind(t, id, cursor)
    case _ => true
  }

  function Next(t: Tables, e: Event): Tables
    requires Enabled(t, e)
  {
    match e
    case InitiateEvent(id, user, code, ttl, now) =>
      AddSession(t, Session(id, user, code, Pending, now, now + ttl, None))
    case EnrolEvent(id, code, deviceId, now) => Enrol(t, id, deviceId, now)
    case ReadToRevoke(id) => t.(pendingReads := t.pendingReads + {t.sessions[id]})
    case SaveRevoked(copy) => SaveExpired(t, copy)
    case ExpireSweep(now) => ExpireSessions(t, now)
    case SessionSweep(now) => DeleteOldSessions(t, now)
    case DeviceSweep(now) => DeleteAbandoned(t, now)
    case AssignEvent(session, user) => AssignOwner(t, session, user)
    case RevokeEvent(id, now) => Revoke(t, id, now)
    case RevokeSessionEvent(session, now) => RevokeBySession(t, session, now)
    case CursorEvent(id, cursor) => AdvanceCursor(t, id, cursor)
  }

  // ----- what every step keeps -----

  /** Each row loads, under its own id; only consumed rows carry a device. */
  ghost predicate SessionsOk(t: Tables) {
    forall id :: id in t.sessions ==> RowOk(t.sessions[id], id) && id in t.usedSessions
  }

  /** No two rows share a code, so the locking select finds at most one. */
  ghost predicate CodesOk(t: Tables) {
    forall i, j :: i in t.sessions && j in t.sessions && t.sessions[i].code == t.sessions[j].code ==> i == j
  }

  predicate RowOk(s: Session, id: Id) {
    s.id == id && Rehydrates(s) && !s.state.Verified? && (s.deviceId.Some? <==> s.state.Consumed?)
  }

  ghost predicate EnrolmentsOk(t: Tables) {
    && (forall i, j :: 0 <= i < j < |t.enrolments| ==> t.enrolments[i].session != t.enrolments[j].session
                                                       && t.enrolments[i].device != t.enrolments[j].device)
    && (forall i :: 0 <= i < |t.enrolments| ==> t.enrolments[i].session in t.usedSessions)
    && (forall i :: 0 <= i < |t.enrolments| && t.enrolments[i].session in t.sessions
         ==> t.sessions[t.enrolments[i].session].Terminal())
    && (forall id :: id in t.sessions && t.sessions[id].deviceId.Some?
         ==> Enrolment(id, t.sessions[id].deviceId.value) in t.enrolments)
  }

  /** Every device came from an enrolment: that of its session, while it still names one. */
  ghost predicate DevicesOk(t: Tables) {
    && (forall d :: d in t.devices ==> Enrolled(t, d))
    && (forall d :: d in t.devices && t.devices[d].session.Some?
         ==> Enrolment(t.devices[d].session.value, d) in t.enrolments)
  }

  predicate Enrolled(t: Tables, d: Id) { exists i :: 0 <= i < |t.enrolments| && t.enrolments[i].device == d }

  /** A copy read for revocation is the pending row as it was; only state and device can have changed since. */
  ghost predicate ReadsOk(t: Tables) {
    && (forall s :: s in t.pendingReads ==> s.state.Pending? && RowOk(s, s.id) && s.id in t.usedSessions)
    && (forall s :: s in t.pendingReads && s.id in t.sessions ==> SameSession(s, t.sessions[s.id]))
    && (forall s, s' :: s in t.pendingReads && s' in t.pendingReads && s.id == s'.id ==> s == s')
  }

  /** Everything but state and device is fixed at creation. */
  predicate SameSession(a: Session, b: Session) {
    a.id == b.id && a.initiatedBy == b.initiatedBy && a.code == b.code && a.createdAt == b.createdAt
    && a.expiresAt == b.expiresAt
  }

  ghost predicate Inv(t: Tables) { SessionsOk(t) && CodesOk(t) && EnrolmentsOk(t) && DevicesOk(t) && ReadsOk(t) }

  /** History only grows, and an id once issued never comes to stand for another session. */
  ghost predicate HistoryGrows(t: Tables, u: Tables) {
    t.usedSessions <= u.usedSessions && t.enrolments <= u.enrolments && t.pendingReads <= u.pendingReads
  }

  /** A device, earlier and later: an owner stays, a revocation stays and freezes the rest, the cursor never falls. */
  predicate DeviceKept(d: Device, d': Device) {
    && (d.owner.Some? ==> d'.owner == d.owner)
    && (d.revokedAt.Some? ==> d'.revokedAt == d.revokedAt && d'.owner == d.owner && d'.cursor == d.cursor)
    && d.cursor <= d'.cursor
  }

  /** Surviving devices are kept in that sense, owned ones survive, and new ones were never enrolled before. */
  ghost predicate DeviceFate(t: Tables, u: Tables) {
    && (forall d :: d in t.devices && d in u.devices ==> DeviceKept(t.devices[d], u.devices[d]))
    && (forall d :: d in t.devices && t.devices[d].owner.Some? ==> d in u.devices)
    && (forall d :: d in u.devices && d !in t.devices ==> !Enrolled(t, d))
  }

  /** A step that only deletes rows or changes the state and device of rows. */
  ghost predicate OnlyUpdates(t: Tables, u: Tables) {
    && u.pendingReads == t.pendingReads && u.usedSessions == t.usedSessions
    && forall id :: id in u.sessions ==> id in t.sessions && SameSession(t.sessions[id], u.sessions[id])
  }

  lemma UpdatesKeepCodes(t: Tables, u: Tables)
    requires CodesOk(t) && OnlyUpdates(t, u)
    ensures CodesOk(u)
  {
  }

  lemma UpdatesKeepReads(t: Tables, u: Tables)
    requires ReadsOk(t) && OnlyUpdates(t, u)
    ensures ReadsOk(u)
  {
  }

  lemma InitiateKeeps(t: Tables, e: Event)
    requires Inv(t) && e.InitiateEvent? && Enabled(t, e)
    ensures Inv(Next(t, e))
  {
  }

  lemma EnrolKeepsSessions(t: Tables, id: Id, code: Code, deviceId: Id, now: Time)
    requires SessionsOk(t) && CodesOk(t) && ReadsOk(t) && Enabled(t, EnrolEvent(id, code, deviceId, now))
    ensures var u := Enrol(t, id, deviceId, now); SessionsOk(u) && CodesOk(u) && ReadsOk(u)
  {
  }

  lemma EnrolKeepsHistory(t: Tables, id: Id, code: Code, deviceId: Id, now: Time)
    requires SessionsOk(t) && EnrolmentsOk(t) && DevicesOk(t) && Enabled(t, EnrolEvent(id, code, deviceId, now))
    ensures EnrolmentsOk(Enrol(t, id, deviceId, now)) && DevicesOk(Enrol(t, id, deviceId, now))
  {
    var u := Enrol(t, id, deviceId, now);
    var n := |t.enrolments|;
    assert u.enrolments[n] == Enrolment(id, deviceId);
    forall i | 0 <= i < n ensures t.enrolments[i].session != id && t.enrolments[i].device != deviceId {}
    forall x | x in t.enrolments ensures x in u.enrolments {}
    forall d | d in u.devices ensures Enrolled(u, d) {
      if d != deviceId {
        var i :| 0 <= i < n && t.enrolments[i].device == d;
        assert u.enrolments[i].device == d;
      }
    }
  }

  lemma EnrolKeeps(t: Tables, id: Id, code: Code, deviceId: Id, now: Time)
    requires Inv(t) && Enabled(t, EnrolEvent(id, code, deviceId, now))
    ensures Inv(Next(t, EnrolEvent(id, code, deviceId, now)))
  {
    EnrolKeepsSessions(t, id, code, deviceId, now);
    EnrolKeepsHistory(t, id, code, deviceId, now);
  }

  lemma SaveKeeps(t: Tables, s: Session)
    requires Inv(t) && Enabled(t, SaveRevoked(s))
    ensures Inv(Next(t, SaveRevoked(s)))
  {
    SaveKeepsSessions(t, s);
    SaveKeepsEnrolments(t, s);
    SaveKeepsCodes(t, s);
  }

  lemma SaveKeepsSessions(t: Tables, s: Session)
    requires SessionsOk(t) && ReadsOk(t) && s in t.pendingReads
    ensures SessionsOk(SaveExpired(t, s))
  {
  }

  lemma SaveKeepsEnrolments(t: Tables, s: Session)
    requires EnrolmentsOk(t) && DevicesOk(t) && s.deviceId.None?
    ensures EnrolmentsOk(SaveExpired(t, s)) && DevicesOk(SaveExpired(t, s))
  {
  }

  lemma SaveKeepsCodes(t: Tables, s: Session)
    requires SessionsOk(t) && CodesOk(t) && ReadsOk(t) && s in t.pendingReads
    ensures CodesOk(SaveExpired(t, s)) && ReadsOk(SaveExpired(t, s))
  {
  }

  lemma ExpireKeeps(t: Tables, now: Time)
    requires Inv(t)
    ensures Inv(Next(t, ExpireSweep(now)))
  {
    var u := ExpireSessions(t, now);
    UpdatesKeepCodes(t, u);
    UpdatesKeepReads(t, u);
    forall id | id in u.sessions ensures RowOk(u.sessions[id], id) && id in u.usedSessions {
      assert RowOk(t.sessions[id], id);
    }
  }

  lemma DropKeeps(t: Tables, now: Time)
    requires Inv(t)
    ensures Inv(Next(t, SessionSweep(now)))
  {
  }

  /** What the device updates share: sessions and history are untouched, and no device is linked anew. */
  ghost predicate OnlyDevices(t: Tables, u: Tables) {
    && u == t.(devices := u.devices)
    && forall d :: d in u.devices
        ==> d in t.devices && (u.devices[d].session.Some? ==> u.devices[d].session == t.devices[d].session)
  }

  predicate IsDeviceEvent(e: Event) {
    e.DeviceSweep? || e.AssignEvent? || e.RevokeEvent? || e.RevokeSessionEvent? || e.CursorEvent?
  }

  lemma DeviceEvents(t: Tables, e: Event)
    requires Enabled(t, e) && IsDeviceEvent(e)
    ensures OnlyDevices(t, Next(t, e))
  {
  }

  lemma DeviceStepKeeps(t: Tables, u: Tables)
    requires Inv(t) && OnlyDevices(t, u)
    ensures Inv(u)
  {
  }

  lemma DeviceEventKeeps(t: Tables, e: Event)
    requires Inv(t) && Enabled(t, e) && IsDeviceEvent(e)
    ensures Inv(Next(t, e))
  {
    DeviceEvents(t, e);
    DeviceStepKeeps(t, Next(t, e));
  }

  lemma ReadKeeps(t: Tables, id: Id)
    requires Inv(t) && Enabled(t, ReadToRevoke(id))
    ensures Inv(Next(t, ReadToRevoke(id)))
  {
  }

  lemma StepKeeps(t: Tables, e: Event)
    requires Inv(t) && Enabled(t, e)
    ensures Inv(Next(t, e))
  {
    match e
    case InitiateEvent(id, user, code, ttl, now) => InitiateKeeps(t, e);
    case EnrolEvent(id, code, deviceId, now) => EnrolKeeps(t, id, code, deviceId, now);
    case ReadToRevoke(id) => ReadKeeps(t, id);
    case SaveRevoked(copy) => SaveKeeps(t, copy);
    case ExpireSweep(now) => ExpireKeeps(t, now);
    case SessionSweep(now) => DropKeeps(t, now);
    case _ => DeviceEventKeeps(t, e);
  }

  lemma StepFate(t: Tables, e: Event)
    requires Enabled(t, e)
    ensures HistoryGrows(t, Next(t, e)) && DeviceFate(t, Next(t, e))
  {
  }
}
