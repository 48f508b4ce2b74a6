/**
 Single-use enrolment grants. A login first verifies its grant and, in a later statement, claims the grant's id; the
 record of a spent id is swept after a while, and replay protection must survive both the delay and the sweep.
 */
module Grants {
  import opened Prelude

  const GRANT_TTL: Time := 10 * MINUTE

  /** How long the configured sweep keeps a spent id: the longest grant lifetime plus an hour. */
  const CONFIGURED_RETENTION: Time := 10 * MINUTE + 1 * HOUR

  const TYPE_ENROLMENT := "enrol"

  /** Whole seconds since the epoch. */
  function Unix(t: Time): int { t / SECOND }

  datatype Claims = Claims(typ: string, sessionId: string, jti: nat, issuedAt: int, expiresAt: int, issuer: string)

  function Sign(issuer: string, sessionId: string, jti: nat, now: Time): Option<Claims> {
    if sessionId == "" then None
    else Some(Claims(TYPE_ENROLMENT, sessionId, jti, Unix(now), Unix(now + GRANT_TTL), issuer))
  }

  /** The checks that remain once the signature is known to be ours. */
  predicate Verifies(issuer: string, c: Claims, now: Time) {
    && c.typ == TYPE_ENROLMENT && Unix(now) < c.expiresAt
    && (issuer == "" || c.issuer == issuer) && c.sessionId != ""
  }

  /**
   A grant of ours verifies, in whole seconds, exactly until ten minutes after it was issued, names its session and its
   id, and is refused by a server with another name.
   */
  lemma SignedGrantVerifies(issuer: string, sessionId: string, jti: nat, issued: Time, verifier: string, now: Time)
    ensures Sign(issuer, sessionId, jti, issued).None? <==> sessionId == ""
    ensures sessionId != "" ==> var c := Sign(issuer, sessionId, jti, issued).value;
              && c.jti == jti && c.sessionId == sessionId && c.issuedAt == issued / 1_000_000_000
              && (Verifies(verifier, c, now) <==> && (verifier == "" || verifier == issuer)
                                                  && now / 1_000_000_000 < issued / 1_000_000_000 + 600)
  {
  }

  /** What is not a grant of ours for a session, by type, issuer or session, never verifies. */
  lemma OthersNeverVerify(issuer: string, c: Claims, now: Time)
    requires c.typ != "enrol" || c.sessionId == "" || (issuer != "" && c.issuer != issuer)
    ensures !Verifies(issuer, c, now)
  {
  }

  /** Who signs, how long spent ids are kept, and the longest a login takes from its check to its claim. */
  datatype Config = Config(issuer: string, retention: Time, delay: Time)

  /** A login that has verified its grant, with the time it read then and will record as the time of spending. */
  datatype Login = Login(grant: Claims, at: Time)

  datatype State = State(
    clock: Time,
    issued: set<Claims>,
    verified: set<Login>,    // every login whose grant has verified
    spent: map<nat, Time>,   // the spent-id table
    accepted: seq<nat>)      // ids of the grants that were honoured, in order

  datatype Event =
    | Issue(sessionId: string, jti: nat, now: Time)
    | Check(grant: Claims, now: Time)
    | Claim(login: Login, now: Time)
    | Sweep(now: Time)

  predicate Enabled(cfg: Config, s: State, e: Event) {
    && s.clock <= e.now
    && match e
       case Issue(sid, jti, now) => forall c :: c in s.issued ==> c.jti != jti
       case Check(c, now) => c in s.issued
       case Claim(login, now) => login in s.verified && now <= login.at + cfg.delay
       case Sweep(now) => true
  }

  function Next(cfg: Config, s: State, e: Event): State
    requires Enabled(cfg, s, e)
  {
    match e
    case Issue(sid, jti, now) =>
      var c := Sign(cfg.issuer, sid, jti, now);
      if c.None? then s.(clock := now) else s.(clock := now, issued := s.issued + {c.value})
    case Check(c, now) =>
      if Verifies(cfg.issuer, c, now) then s.(clock := now, verified := s.verified + {Login(c, now)})
      else s.(clock := now)
    case Claim(login, now) =>
      var jti := login.grant.jti;
      if jti in s.spent then s.(clock := now)
      else s.(clock := now, spent := s.spent[jti := login.at], accepted := s.accepted + [jti])
    case Sweep(now) => s.(clock := now, spent := Recent(s.spent, now - cfg.retention))
  }

  function Recent(spent: map<nat, Time>, cutoff: Time): map<nat, Time> {
    map j | j in spent && spent[j] > cutoff :: spent[j]
  }

  function Run(cfg: Config, s: State, events: seq<Event>): Option<State>
    decreases |events|
  {
    if events == [] then Some(s)
    else if !Enabled(cfg, s, events[0]) then None
    else Run(cfg, Next(cfg, s, events[0]), events[1..])
  }

  function Empty(start: Time): State { State(start, {}, {}, map[], []) }

  // ----- the invariant -----

  /** Grants in circulation have ids of their own and expire within the lifetime of a grant issued now. */
  ghost predicate IssuedOk(s: State) {
    && (forall c, d :: c in s.issued && d in s.issued && c.jti == d.jti ==> c == d)
    && (forall c :: c in s.issued ==> c.expiresAt <= Unix(s.clock + GRANT_TTL))
  }

  /** A login verified a circulating grant in its lifetime. */
  ghost predicate LoginsOk(s: State) {
    forall l :: l in s.verified ==> l.grant in s.issued && LoginOk(l, s.clock)
  }

  predicate LoginOk(l: Login, clock: Time) {
    l.at <= clock && Unix(l.at) < l.grant.expiresAt <= Unix(l.at + GRANT_TTL)
  }

  /** The grant has expired for so long that no login that verified it can still claim it. */
  predicate Dead(cfg: Config, c: Claims, clock: Time) { c.expiresAt * SECOND + cfg.delay <= clock }

  ghost predicate Issued(s: State, jti: nat) { exists c :: c in s.issued && c.jti == jti }

  /** An accepted id is on record since its grant's lifetime, or its grant is dead. */
  ghost predicate SpentOk(cfg: Config, s: State) {
    && Distinct(s.accepted)
    && (forall j :: j in s.accepted ==> Issued(s, j))
    && (forall j :: j in s.spent ==> j in s.accepted)
    && (forall c :: c in s.issued && c.jti in s.spent ==> c.expiresAt <= Unix(s.spent[c.jti] + GRANT_TTL))
    && (forall c :: c in s.issued && c.jti in s.accepted && c.jti !in s.spent ==> Dead(cfg, c, s.clock))
  }

  ghost predicate Inv(cfg: Config, s: State) { IssuedOk(s) && LoginsOk(s) && SpentOk(cfg, s) }

  /** A dead grant has no claim left: whoever verified it is past the delay. */
  lemma DeadIsOver(cfg: Config, l: Login, clock: Time)
    requires LoginOk(l, clock) && Dead(cfg, l.grant, clock)
    ensures l.at + cfg.delay < clock
  {
  }

  /** What the sweep forgets is dead, if it keeps ids for a lifetime and the delay on top. */
  lemma ForgottenIsDead(cfg: Config, c: Claims, spentAt: Time, now: Time)
    requires cfg.retention >= GRANT_TTL + cfg.delay
    requires c.expiresAt <= Unix(spentAt + GRANT_TTL) && spentAt <= now - cfg.retention
    ensures Dead(cfg, c, now)
  {
  }

  lemma IssuedStep(cfg: Config, s: State, e: Event)
    requires IssuedOk(s) && LoginsOk(s) && Enabled(cfg, s, e)
    ensures IssuedOk(Next(cfg, s, e)) && LoginsOk(Next(cfg, s, e))
  {
  }

  lemma StillIssued(s: State, t: State, j: nat)
    requires Issued(s, j) && s.issued <= t.issued
    ensures Issued(t, j)
  {
    var c :| c in s.issued && c.jti == j;
    assert c in t.issued;
  }

  lemma ClaimStep(cfg: Config, s: State, login: Login, now: Time)
    requires Inv(cfg, s) && Enabled(cfg, s, Claim(login, now))
    ensures SpentOk(cfg, Next(cfg, s, Claim(login, now)))
  {
    var t, jti := Next(cfg, s, Claim(login, now)), login.grant.jti;
    assert LoginOk(login, s.clock) && login.grant in s.issued;
    if jti in s.accepted && jti !in s.spent {
      DeadIsOver(cfg, login, s.clock);
      assert false;
    }
    assert forall j :: j in t.accepted ==> j in s.accepted || j == jti;
    forall j | j in t.accepted ensures Issued(t, j) {
      if j in s.accepted { StillIssued(s, t, j); }
    }
  }

  lemma SweepStep(cfg: Config, s: State, now: Time)
    requires cfg.retention >= GRANT_TTL + cfg.delay && SpentOk(cfg, s) && Enabled(cfg, s, Sweep(now))
    ensures SpentOk(cfg, Next(cfg, s, Sweep(now)))
  {
    var t := Next(cfg, s, Sweep(now));
    forall j | j in t.accepted ensures Issued(t, j) { StillIssued(s, t, j); }
    forall c | c in t.issued && c.jti in t.accepted && c.jti !in t.spent ensures Dead(cfg, c, now) {
      if c.jti in s.spent { ForgottenIsDead(cfg, c, s.spent[c.jti], now); }
    }
  }

  lemma OtherStep(cfg: Config, s: State, e: Event)
    requires SpentOk(cfg, s) && Enabled(cfg, s, e) && (e.Issue? || e.Check?)
    ensures SpentOk(cfg, Next(cfg, s, e))
  {
    var t := Next(cfg, s, e);
    forall j | j in t.accepted ensures Issued(t, j) { StillIssued(s, t, j); }
    if e.Issue? { assert e.jti in s.accepted ==> Issued(s, e.jti); }
  }

  lemma InvStep(cfg: Config, s: State, e: Event)
    requires cfg.retention >= GRANT_TTL + cfg.delay && Inv(cfg, s) && Enabled(cfg, s, e)
    ensures Inv(cfg, Next(cfg, s, e))
  {
    IssuedStep(cfg, s, e);
    match e
    case Claim(login, now) => ClaimStep(cfg, s, login, now);
    case Sweep(now) => SweepStep(cfg, s, now);
    case _ => OtherStep(cfg, s, e);
  }

  lemma {:induction false} RunKeepsInv(cfg: Config, s: State, events: seq<Event>)
    requires cfg.retention >= GRANT_TTL + cfg.delay && Inv(cfg, s) && Run(cfg, s, events).Some?
    ensures Inv(cfg, Run(cfg, s, events).value)
    decreases |events|
  {
    if events != [] {
      InvStep(cfg, s, events[0]);
      RunKeepsInv(cfg, Next(cfg, s, events[0]), events[1..]);
    }
  }

  // ----- single use -----

  /** No run honours an id twice. */
  ghost predicate SingleUse(cfg: Config) {
    forall start, events :: Run(cfg, Empty(start), events).Some?
      ==> Distinct(Run(cfg, Empty(start), events).value.accepted)
  }

  /** A grant issued and spent at time zero, with a second login that verifies it just before it expires. */
  lemma SpentAndVerifiedAgain(cfg: Config) returns (events: seq<Event>, s: State, c: Claims)
    requires 0 <= cfg.delay
    ensures |events| == 4 && Run(cfg, Empty(0), events) == Some(s)
    ensures s == State(GRANT_TTL - 1, {c}, {Login(c, 0), Login(c, GRANT_TTL - 1)}, map[0 := 0], [0]) && c.jti == 0
  {
    c := Sign(cfg.issuer, "s", 0, 0).value;
    assert Unix(GRANT_TTL) == 600 && Unix(GRANT_TTL - 1) == 599;
    var first := Login(c, 0);
    var e0, e1, e2, e3 := Issue("s", 0, 0), Check(c, 0), Claim(first, 0), Check(c, GRANT_TTL - 1);
    var s1 := State(0, {c}, {}, map[], []);
    var s2 := s1.(verified := {first});
    var s3 := s2.(spent := map[0 := 0], accepted := [0]);
    s := s3.(clock := GRANT_TTL - 1, verified := {first, Login(c, GRANT_TTL - 1)});
    assert Next(cfg, Empty(0), e0) == s1;
    assert Next(cfg, s1, e1) == s2;
    assert Next(cfg, s2, e2) == s3;
    assert Next(cfg, s3, e3) == s;
    events := [e0, e1, e2, e3];
    assert events[1..] == [e1, e2, e3] && [e1, e2, e3][1..] == [e2, e3] && [e2, e3][1..] == [e3] && [e3][1..] == [];
    assert Run(cfg, s3, [e3]) == Run(cfg, s, []);
    assert Run(cfg, s2, [e2, e3]) == Run(cfg, s3, [e3]);
    assert Run(cfg, s1, [e1, e2, e3]) == Run(cfg, s2, [e2, e3]);
  }

  lemma {:induction false} RunSplit(cfg: Config, s: State, a: seq<Event>, b: seq<Event>)
    requires Run(cfg, s, a).Some?
    ensures Run(cfg, s, a + b) == Run(cfg, Run(cfg, s, a).value, b)
    decreases |a|
  {
    if a == [] {
      assert a + b == b;
    } else {
      assert (a + b)[1..] == a[1..] + b;
      RunSplit(cfg, Next(cfg, s, a[0]), a[1..], b);
    }
  }

  /** If a spent id can be swept while a verified login still has time to claim it, the grant is honoured twice. */
  lemma EarlySweepAllowsReplay(cfg: Config) returns (events: seq<Event>)
    requires 0 <= cfg.delay && 0 <= cfg.retention < GRANT_TTL + cfg.delay
    ensures Run(cfg, Empty(0), events).Some?
    ensures !Distinct(Run(cfg, Empty(0), events).value.accepted)
  {
    var first, s, c := SpentAndVerifiedAgain(cfg);
    var late := if cfg.retention < GRANT_TTL - 1 then GRANT_TTL - 1 else cfg.retention;
    var e4, e5 := Sweep(late), Claim(Login(c, GRANT_TTL - 1), late);
    var swept := s.(clock := late, spent := map[]);
    var replayed := swept.(spent := map[0 := GRANT_TTL - 1], accepted := [0, 0]);
    assert Next(cfg, s, e4) == swept;
    assert Next(cfg, swept, e5) == replayed;
    assert [e4, e5][1..] == [e5] && [e5][1..] == [];
    assert Run(cfg, swept, [e5]) == Run(cfg, replayed, []);
    events := first + [e4, e5];
    RunSplit(cfg, Empty(0), first, [e4, e5]);
    assert replayed.accepted[0] == replayed.accepted[1];
  }

  /** Exactly when spent ids are kept at least for a grant's life and the longest delay between check and claim. */
  lemma SingleUseExactly(cfg: Config)
    requires 0 <= cfg.retention && 0 <= cfg.delay
    ensures SingleUse(cfg) <==> cfg.retention >= GRANT_TTL + cfg.delay
  {
    if cfg.retention >= GRANT_TTL + cfg.delay {
      forall start, events | Run(cfg, Empty(start), events).Some?
        ensures Distinct(Run(cfg, Empty(start), events).value.accepted)
      {
        RunKeepsInv(cfg, Empty(start), events);
      }
    } else {
      var events := EarlySweepAllowsReplay(cfg);
    }
  }

  /** So the configured retention is safe exactly for logins that claim within an hour of their check. */
  lemma ConfiguredSweepIsSafe(cfg: Config)
    requires cfg.retention == CONFIGURED_RETENTION && 0 <= cfg.delay
    ensures SingleUse(cfg) <==> cfg.delay <= HOUR
  {
    SingleUseExactly(cfg);
  }

  // ----- the table -----

  /** The spent-id table, as logins and the sweep use it. The ghost state follows grants and logins. */
  class SpentIds {
    const config: Config
    var spent: map<nat, Time>
    ghost var model: State

    constructor (config: Config, ghost start: Time)
      requires 0 <= config.delay && config.retention >= GRANT_TTL + config.delay
      ensures Valid() && this.config == config && model == Empty(start)
    {
      this.config := config;
      spent := map[];
      model := Empty(start);
    }

    ghost predicate Valid()
      reads this
    {
      config.retention >= GRANT_TTL + config.delay && model.spent == spent && Inv(config, model)
    }

    /** A login's first statement: verify the grant, whose signature is ours. */
    method Verify(c: Claims, now: Time) returns (ok: bool)
      requires Valid() && c in model.issued && model.clock <= now
      modifies this`model
      ensures Valid() && spent == old(spent)
      ensures ok <==> && c.typ == "enrol" && now / 1_000_000_000 < c.expiresAt && c.sessionId != ""
                      && (config.issuer == "" || c.issuer == config.issuer)
      ensures model == Next(config, old(model), Event.Check(c, now))
      ensures ok ==> Login(c, now) in model.verified
    {
      InvStep(config, model, Event.Check(c, now));
      model := Next(config, model, Event.Check(c, now));
      ok := Verifies(config.issuer, c, now);
    }

    /** Its second: insert the id if it is absent. True for one caller at most, ever. */
    method Claim(login: Login, ghost now: Time) returns (claimed: bool)
      requires Valid() && Enabled(config, model, Event.Claim(login, now))
      modifies this
      ensures Valid() && model == Next(config, old(model), Event.Claim(login, now))
      ensures claimed ==> login.grant.jti !in old(model).accepted && login.grant.jti in model.accepted
      ensures !claimed ==> login.grant.jti in old(spent) && model.accepted == old(model).accepted
      ensures spent == if claimed then old(spent)[login.grant.jti := login.at] else old(spent)
    {
      InvStep(config, model, Event.Claim(login, now));
      if login.grant.jti !in spent { ClaimIsFirst(config, model, login, now); }
      model := Next(config, model, Event.Claim(login, now));
      claimed := login.grant.jti !in spent;
      if claimed { spent := spent[login.grant.jti := login.at]; }
    }

    /** A login nothing comes between: honoured exactly when the grant verifies and was never honoured before. */
    method Spend(c: Claims, now: Time) returns (honoured: bool)
      requires Valid() && c in model.issued && model.clock <= now && 0 <= config.delay
      modifies this
      ensures Valid() && honoured == (Verifies(config.issuer, c, now) && c.jti !in old(model).accepted)
      ensures model.accepted == if honoured then old(model).accepted + [c.jti] else old(model).accepted
    {
      var ok := Verify(c, now);
      if !ok { return false; }
      honoured := Claim(Login(c, now), now);
    }

    method DeleteSpent(now: Time)
      requires Valid() && model.clock <= now
      modifies this
      ensures Valid() && model == Next(config, old(model), Event.Sweep(now))
      ensures forall j :: j in spent <==> j in old(spent) && old(spent)[j] > now - config.retention
      ensures forall j :: j in spent ==> spent[j] == old(spent)[j]
    {
      InvStep(config, model, Event.Sweep(now));
      model := Next(config, model, Event.Sweep(now));
      var cutoff := now - config.retention;
      spent := map j | j in spent && !(spent[j] <= cutoff) :: spent[j];
    }
  }

  /** A login that can still claim an id not on record is the first one to spend it. */
  lemma ClaimIsFirst(cfg: Config, s: State, login: Login, now: Time)
    requires Inv(cfg, s) && Enabled(cfg, s, Claim(login, now)) && login.grant.jti !in s.spent
    ensures login.grant.jti !in s.accepted
  {
    if login.grant.jti in s.accepted { DeadIsOver(cfg, login, s.clock); }
  }
}
