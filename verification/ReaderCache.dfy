/**
 The cache of open archives: reference-counted, idle-evicted, LRU-evicted at capacity with
 deferred eviction of pinned entries, and single-flight loading.  Each region the source runs
 under its mutex is one step; `log` records every cleanup call in order.
 */
module ReaderCache {
  import opened Prelude

  type Edition = nat
  type Archive = nat
  type HandleId = nat

  datatype Entry = Entry(archive: Archive, lastUsed: Time, refs: nat, evict: bool)
  {
    predicate Free() { refs == 0 && !evict }
  }

  type Entries = map<Edition, Entry>

  datatype Handle = Handle(edition: Edition, archive: Archive)

  datatype Config = Config(maxOpen: nat, idleTTL: Time)

  datatype State = State(
    entries: Entries,
    inflight: set<Edition>,
    handles: map<HandleId, Handle>,   // acquired and not yet released
    loaded: set<Archive>,             // every archive a load ever opened
    log: seq<Archive>)                // cleanups, in order

  // ----- the two kinds of eviction -----

  predicate Idle(c: Config, e: Entry, now: Time) { e.refs == 0 && now - e.lastUsed >= c.idleTTL }

  function Sweep(c: Config, m: Entries, now: Time): Entries {
    map ed | ed in m && !Idle(c, m[ed], now) :: m[ed]
  }

  predicate HasFree(m: Entries) { exists ed :: ed in m && m[ed].Free() }

  predicate IsLruFree(m: Entries, ed: Edition) {
    ed in m && m[ed].Free() && forall x :: x in m && m[x].Free() ==> m[ed].lastUsed <= m[x].lastUsed
  }

  predicate IsLruUnflagged(m: Entries, ed: Edition) {
    ed in m && !m[ed].evict && forall x :: x in m && !m[x].evict ==> m[ed].lastUsed <= m[x].lastUsed
  }

  function Flag(m: Entries, ed: Edition): Entries
    requires ed in m
  {
    m[ed := m[ed].(evict := true)]
  }

  /** Over capacity with everything left pinned: the least recently used unflagged entry gets flagged. */
  ghost predicate Flags(m: Entries, m': Entries) {
    if forall ed :: ed in m ==> m[ed].evict then m' == m
    else exists ed :: IsLruUnflagged(m, ed) && m' == Flag(m, ed)
  }

  /** Closing `victims` one by one takes m to `left`, each the least recently used free entry of its moment. */
  predicate Drains(m: Entries, max: nat, victims: seq<Edition>, left: Entries)
    decreases |victims|
  {
    if victims == [] then left == m
    else
      var v := victims[|victims| - 1];
      v in m && v !in left &&
      var prev := left[v := m[v]];
      |prev.Keys| > max && IsLruFree(prev, v) && Drains(m, max, victims[..|victims| - 1], prev)
  }

  /** LRU eviction: free entries are closed until capacity is met; if that is not enough, a pinned one is flagged. */
  ghost predicate Evicts(m: Entries, max: nat, victims: seq<Edition>, m': Entries) {
    exists left :: Drains(m, max, victims, left) && Settles(left, max, m')
  }

  ghost predicate Settles(left: Entries, max: nat, m': Entries) {
    if |left.Keys| > max then !HasFree(left) && Flags(left, m') else m' == left
  }

  /** `order` lists the entries of m that m' no longer has, once each. */
  ghost predicate ListsRemoved(m: Entries, m': Entries, order: seq<Edition>) {
    Distinct(order) && forall ed :: ed in order <==> ed in m && ed !in m'
  }

  function ArchivesOf(m: Entries, order: seq<Edition>): seq<Archive>
    requires forall i :: 0 <= i < |order| ==> order[i] in m
  {
    seq(|order|, i requires 0 <= i < |order| => m[order[i]].archive)
  }

  // ----- steps -----

  datatype Event =
    | AcquireHit(edition: Edition, handle: HandleId, now: Time)
    | AcquireWait(edition: Edition, now: Time)
    | AcquireLoad(edition: Edition, now: Time)
    | LoadFailed(edition: Edition)
    | LoadDone(edition: Edition, archive: Archive, handle: HandleId, now: Time)
    | Release(handle: HandleId, now: Time)
    | SweepNow(now: Time)

  /** `t` is `s` after an idle sweep, with the closed archives logged in some order. */
  ghost predicate SweepStep(c: Config, s: State, now: Time, t: State) {
    && t.entries == Sweep(c, s.entries, now)
    && t == s.(entries := t.entries, log := t.log)
    && exists order :: Closes(s.entries, t.entries, order, s.log, t.log)
  }

  ghost predicate Closes(m: Entries, m': Entries, order: seq<Edition>, log: seq<Archive>, log': seq<Archive>) {
    && ListsRemoved(m, m', order) && (forall i :: 0 <= i < |order| ==> order[i] in m)
    && log' == log + ArchivesOf(m, order)
  }

  function Touch(e: Entry, now: Time): Entry { e.(refs := e.refs + 1, lastUsed := now) }

  function AfterRelease(m: Entries, ed: Edition, now: Time): Entries
    requires ed in m && m[ed].refs > 0
  {
    var e := m[ed].(refs := m[ed].refs - 1, lastUsed := now);
    if e.refs == 0 && e.evict then m - {ed} else m[ed := e]
  }

  ghost predicate Step(c: Config, s: State, e: Event, t: State) {
    match e
    case AcquireHit(ed, h, now) =>
      exists u :: SweepStep(c, s, now, u) && ed in u.entries && h !in s.handles
        && t == u.(entries := u.entries[ed := Touch(u.entries[ed], now)],
                   handles := u.handles[h := Handle(ed, u.entries[ed].archive)])
    case AcquireWait(ed, now) => SweepStep(c, s, now, t) && ed !in t.entries && ed in s.inflight
    case AcquireLoad(ed, now) =>
      exists u :: SweepStep(c, s, now, u) && ed !in u.entries && ed !in s.inflight
                  && t == u.(inflight := u.inflight + {ed})
    case LoadFailed(ed) => ed in s.inflight && t == s.(inflight := s.inflight - {ed})
    case LoadDone(ed, archive, h, now) =>
      && ed in s.inflight && archive !in s.loaded && h !in s.handles
      && var m := s.entries[ed := Entry(archive, now, 1, false)];
      && t == s.(entries := t.entries, inflight := s.inflight - {ed}, handles := s.handles[h := Handle(ed, archive)],
                 loaded := s.loaded + {archive}, log := t.log)
      && exists victims :: Evicts(m, c.maxOpen, victims, t.entries) && Closes(m, t.entries, victims, s.log, t.log)
    case Release(h, now) =>
      && h in s.handles && Pinned(s, h)
      && var ed := s.handles[h].edition;
      && t == s.(entries := AfterRelease(s.entries, ed, now), handles := s.handles - {h}, log := t.log)
      && t.log == if ed in t.entries then s.log else s.log + [s.entries[ed].archive]
    case SweepNow(now) => SweepStep(c, s, now, t)
  }

  /** The entry a handle refers to is still in the map, still the same archive, and counted. */
  predicate Pinned(s: State, h: HandleId)
    requires h in s.handles
  {
    var ed := s.handles[h].edition;
    ed in s.entries && s.entries[ed].archive == s.handles[h].archive && s.entries[ed].refs > 0
  }

  // ----- the invariant -----

  function HandlesOn(handles: map<HandleId, Handle>, ed: Edition): set<HandleId> {
    set h | h in handles && handles[h].edition == ed
  }

  function Unflagged(m: Entries): set<Edition> { set ed | ed in m && !m[ed].evict }

  /** Reference counts are the outstanding handles; nothing is both loaded and in flight. */
  ghost predicate Counted(s: State) {
    && (forall ed :: ed in s.entries ==> s.entries[ed].refs == |HandlesOn(s.handles, ed)|)
    && (forall h :: h in s.handles ==> s.handles[h].edition in s.entries
                                       && s.entries[s.handles[h].edition].archive == s.handles[h].archive)
    && s.inflight !! s.entries.Keys
  }

  /** Archives held by the map. */
  function Held(m: Entries): set<Archive> { set ed | ed in m :: m[ed].archive }

  function Cleaned(log: seq<Archive>): set<Archive> { set a | a in log }

  predicate Injective(m: Entries) {
    forall x, y :: x in m && y in m && x != y ==> m[x].archive != m[y].archive
  }

  /** Entries hold distinct archives, and every archive ever opened is either held by an entry or in the log, once. */
  ghost predicate Accounted(s: State) {
    && Injective(s.entries) && Distinct(s.log)
    && Cleaned(s.log) <= s.loaded && Held(s.entries) == s.loaded - Cleaned(s.log)
  }

  /** Only pinned entries are flagged, and at most maxOpen are not. */
  ghost predicate Repaid(c: Config, m: Entries) {
    (forall ed :: ed in m && m[ed].evict ==> m[ed].refs > 0) && |Unflagged(m)| <= c.maxOpen
  }

  ghost predicate Inv(c: Config, s: State) {
    Counted(s) && Accounted(s) && Repaid(c, s.entries)
  }

  // ----- what eviction does -----

  /** m' keeps every pinned entry of m as it was, up to its flag, and holds nothing new. */
  ghost predicate KeepsPinned(m: Entries, m': Entries) {
    && m'.Keys <= m.Keys
    && (forall ed :: ed in m' ==> m'[ed] == m[ed] || m'[ed] == m[ed].(evict := true))
    && (forall ed :: ed in m && m[ed].refs > 0 ==> ed in m')
  }

  /** Every victim was free, so a pinned entry is never among them. */
  lemma {:induction false} DrainsOnlyFree(m: Entries, max: nat, victims: seq<Edition>, left: Entries)
    requires Drains(m, max, victims, left)
    ensures left.Keys <= m.Keys
    ensures forall ed :: ed in left ==> left[ed] == m[ed]
    ensures forall ed :: ed in m && ed !in left ==> m[ed].Free()
    decreases |victims|
  {
    if victims != [] {
      var v := victims[|victims| - 1];
      DrainsOnlyFree(m, max, victims[..|victims| - 1], left[v := m[v]]);
    }
  }

  lemma EvictsKeepsPinned(m: Entries, max: nat, victims: seq<Edition>, m': Entries)
    requires Evicts(m, max, victims, m')
    ensures KeepsPinned(m, m')
  {
    var left :| Drains(m, max, victims, left) && Settles(left, max, m');
    DrainsOnlyFree(m, max, victims, left);
  }

  lemma SettlesRepays(c: Config, left: Entries, m': Entries)
    requires Settles(left, c.maxOpen, m') && |Unflagged(left)| <= c.maxOpen + 1
    requires forall ed :: ed in left && left[ed].evict ==> left[ed].refs > 0
    ensures Repaid(c, m')
  {
    if |left.Keys| <= c.maxOpen {
      CardinalityMonotone(Unflagged(left), left.Keys);
    } else if ed :| ed in left && !left[ed].evict {
      var x :| IsLruUnflagged(left, x) && m' == Flag(left, x);
      assert Unflagged(m') == Unflagged(left) - {x};
    } else {
      assert Unflagged(left) == {};
    }
  }

  lemma EvictsRepays(c: Config, m: Entries, victims: seq<Edition>, m': Entries)
    requires Evicts(m, c.maxOpen, victims, m')
    requires forall ed :: ed in m && m[ed].evict ==> m[ed].refs > 0
    requires |Unflagged(m)| <= c.maxOpen + 1
    ensures Repaid(c, m')
  {
    var left :| Drains(m, c.maxOpen, victims, left) && Settles(left, c.maxOpen, m');
    DrainsOnlyFree(m, c.maxOpen, victims, left);
    CardinalityMonotone(Unflagged(left), Unflagged(m));
    SettlesRepays(c, left, m');
  }

  // ----- every step keeps the invariant -----

  lemma SweepKeeps(c: Config, s: State, now: Time, t: State)
    requires Inv(c, s) && SweepStep(c, s, now, t)
    ensures Inv(c, t)
  {
    var order :| Closes(s.entries, t.entries, order, s.log, t.log);
    ClosingKeepsAccounts(s, s.entries, t, order);
    CardinalityMonotone(Unflagged(t.entries), Unflagged(s.entries));
    forall h | h in s.handles ensures s.handles[h].edition in t.entries {
      PinnedByHandle(s, h);
    }
  }

  /** An outstanding handle pins its entry. */
  lemma PinnedByHandle(s: State, h: HandleId)
    requires Counted(s) && h in s.handles
    ensures Pinned(s, h)
  {
    assert h in HandlesOn(s.handles, s.handles[h].edition);
  }

  /** Removing entries and logging exactly their archives keeps every archive accounted for. */
  lemma ClosingKeepsAccounts(s: State, m: Entries, t: State, order: seq<Edition>)
    requires Accounted(s.(entries := m, loaded := t.loaded))
    requires Closes(m, t.entries, order, s.log, t.log)
    requires t.entries.Keys <= m.Keys && forall ed :: ed in t.entries ==> t.entries[ed].archive == m[ed].archive
    ensures Accounted(t)
  {
    var added := ArchivesOf(m, order);
    assert Cleaned(t.log) == Cleaned(s.log) + Cleaned(added);
    forall i | 0 <= i < |added| ensures added[i] in Held(m) && added[i] !in Held(t.entries) {
      assert order[i] in order;
    }
    forall ed | ed in m && ed !in t.entries ensures m[ed].archive in Cleaned(added) {
      assert ed in order;
      var i :| 0 <= i < |order| && order[i] == ed;
      assert added[i] == m[ed].archive;
    }
    assert Held(t.entries) == Held(m) - Cleaned(added);
    assert Distinct(added);
    forall i, j | 0 <= i < j < |t.log| ensures t.log[i] != t.log[j] {
      if i < |s.log| <= j {
        assert s.log[i] in Cleaned(s.log) && added[j - |s.log|] in Held(m);
      }
    }
  }

  lemma HandleAdded(handles: map<HandleId, Handle>, h: HandleId, x: Handle, ed: Edition)
    requires h !in handles
    ensures |HandlesOn(handles[h := x], ed)| == |HandlesOn(handles, ed)| + if ed == x.edition then 1 else 0
  {
    var after := handles[h := x];
    if ed == x.edition {
      assert HandlesOn(after, ed) == HandlesOn(handles, ed) + {h};
    } else {
      assert HandlesOn(after, ed) == HandlesOn(handles, ed);
    }
  }

  lemma HandleRemoved(handles: map<HandleId, Handle>, h: HandleId, ed: Edition)
    requires h in handles
    ensures |HandlesOn(handles - {h}, ed)| == |HandlesOn(handles, ed)| - if ed == handles[h].edition then 1 else 0
  {
    if ed == handles[h].edition {
      assert HandlesOn(handles - {h}, ed) == HandlesOn(handles, ed) - {h};
      assert h in HandlesOn(handles, ed);
    } else {
      assert HandlesOn(handles - {h}, ed) == HandlesOn(handles, ed);
    }
  }

  lemma SameArchives(s: State, t: State)
    requires Accounted(s) && t.loaded == s.loaded && t.log == s.log && t.entries.Keys == s.entries.Keys
    requires forall ed :: ed in t.entries ==> t.entries[ed].archive == s.entries[ed].archive
    ensures Accounted(t)
  {
  }

  lemma HitCounts(s: State, ed: Edition, h: HandleId, now: Time, t: State)
    requires Counted(s) && ed in s.entries && h !in s.handles && t.inflight == s.inflight
    requires t.entries == s.entries[ed := Touch(s.entries[ed], now)]
    requires t.handles == s.handles[h := Handle(ed, s.entries[ed].archive)]
    ensures Counted(t)
  {
    forall x | x in t.entries ensures t.entries[x].refs == |HandlesOn(t.handles, x)| {
      HandleAdded(s.handles, h, Handle(ed, s.entries[ed].archive), x);
    }
  }

  lemma SameFlags(c: Config, m: Entries, m': Entries)
    requires Repaid(c, m) && Unflagged(m') == Unflagged(m)
    requires forall ed :: ed in m' && m'[ed].evict ==> m'[ed].refs > 0
    ensures Repaid(c, m')
  {
  }

  lemma HitRepays(c: Config, m: Entries, ed: Edition, now: Time)
    requires Repaid(c, m) && ed in m
    ensures Repaid(c, m[ed := Touch(m[ed], now)])
  {
    SameFlags(c, m, m[ed := Touch(m[ed], now)]);
  }

  lemma HitKeeps(c: Config, s: State, ed: Edition, h: HandleId, now: Time, t: State)
    requires Inv(c, s) && ed in s.entries && h !in s.handles
    requires t == s.(entries := s.entries[ed := Touch(s.entries[ed], now)],
                     handles := s.handles[h := Handle(ed, s.entries[ed].archive)])
    ensures Inv(c, t)
  {
    HitCounts(s, ed, h, now, t);
    SameArchives(s, t);
    HitRepays(c, s.entries, ed, now);
  }

  lemma LoadKeeps(c: Config, s: State, ed: Edition, archive: Archive, h: HandleId, now: Time, t: State)
    requires Inv(c, s) && Step(c, s, LoadDone(ed, archive, h, now), t)
    ensures Inv(c, t)
  {
    var m := s.entries[ed := Entry(archive, now, 1, false)];
    var victims :| Evicts(m, c.maxOpen, victims, t.entries) && Closes(m, t.entries, victims, s.log, t.log);
    LoadedAccounts(s, ed, archive, now, t.loaded);
    EvictsKeepsPinned(m, c.maxOpen, victims, t.entries);
    LoadRepays(c, s, ed, archive, now, victims, t.entries);
    ClosingKeepsAccounts(s, m, t, victims);
    LoadCounts(s, ed, archive, h, now, t);
  }

  lemma LoadRepays(c: Config, s: State, ed: Edition, archive: Archive, now: Time, victims: seq<Edition>, after: Entries)
    requires Repaid(c, s.entries) && ed !in s.entries
    requires Evicts(s.entries[ed := Entry(archive, now, 1, false)], c.maxOpen, victims, after)
    ensures Repaid(c, after)
  {
    var m := s.entries[ed := Entry(archive, now, 1, false)];
    assert Unflagged(m) == Unflagged(s.entries) + {ed};
    EvictsRepays(c, m, victims, after);
  }

  lemma LoadCounts(s: State, ed: Edition, archive: Archive, h: HandleId, now: Time, t: State)
    requires Counted(s) && ed in s.inflight && h !in s.handles
    requires KeepsPinned(s.entries[ed := Entry(archive, now, 1, false)], t.entries)
    requires t.inflight == s.inflight - {ed} && t.handles == s.handles[h := Handle(ed, archive)]
    ensures Counted(t)
  {
    var m := s.entries[ed := Entry(archive, now, 1, false)];
    NoHandlesOn(s, ed);
    forall x | x in t.entries ensures t.entries[x].refs == |HandlesOn(t.handles, x)| {
      HandleAdded(s.handles, h, Handle(ed, archive), x);
      assert t.entries[x].refs == m[x].refs;
    }
    forall k | k in t.handles
      ensures t.handles[k].edition in t.entries && t.entries[t.handles[k].edition].archive == t.handles[k].archive {
      if k != h { PinnedByHandle(s, k); }
      assert m[t.handles[k].edition].refs > 0;
    }
  }

  lemma NoHandlesOn(s: State, ed: Edition)
    requires Counted(s) && ed !in s.entries
    ensures HandlesOn(s.handles, ed) == {}
  {
  }

  /** A finished load never overwrites a live entry, and its archive is new. */
  lemma LoadedAccounts(s: State, ed: Edition, archive: Archive, now: Time, loaded: set<Archive>)
    requires Counted(s) && Accounted(s) && ed in s.inflight && archive !in s.loaded && loaded == s.loaded + {archive}
    ensures ed !in s.entries
    ensures Accounted(s.(entries := s.entries[ed := Entry(archive, now, 1, false)], loaded := loaded))
  {
    var m := s.entries[ed := Entry(archive, now, 1, false)];
    forall x | x in s.entries ensures s.entries[x].archive != archive {
      assert s.entries[x].archive in Held(s.entries);
    }
    assert Held(m) == Held(s.entries) + {archive} by {
      assert forall x :: x in s.entries ==> x in m && m[x] == s.entries[x];
      assert m[ed].archive == archive;
    }
  }

  lemma ReleaseCounts(s: State, h: HandleId, now: Time, t: State)
    requires Counted(s) && h in s.handles && Pinned(s, h)
    requires t.entries == AfterRelease(s.entries, s.handles[h].edition, now)
    requires t.handles == s.handles - {h} && t.inflight == s.inflight
    ensures Counted(t)
  {
    var ed := s.handles[h].edition;
    forall x | x in t.entries ensures t.entries[x].refs == |HandlesOn(t.handles, x)| {
      HandleRemoved(s.handles, h, x);
    }
    HandleRemoved(s.handles, h, ed);
    forall k | k in t.handles
      ensures t.handles[k].edition in t.entries && t.entries[t.handles[k].edition].archive == t.handles[k].archive {
      if s.handles[k].edition == ed { assert k in HandlesOn(t.handles, ed); }
    }
  }

  lemma ReleaseAccounts(s: State, h: HandleId, now: Time, t: State)
    requires Accounted(s) && h in s.handles && Pinned(s, h)
    requires t.entries == AfterRelease(s.entries, s.handles[h].edition, now) && t.loaded == s.loaded
    requires var ed := s.handles[h].edition;
             t.log == if ed in t.entries then s.log else s.log + [s.entries[ed].archive]
    ensures Accounted(t)
  {
    var ed := s.handles[h].edition;
    if ed in t.entries {
      SameArchives(s, t);
    } else {
      assert ArchivesOf(s.entries, [ed]) == [s.entries[ed].archive];
      assert Closes(s.entries, t.entries, [ed], s.log, t.log);
      ClosingKeepsAccounts(s, s.entries, t, [ed]);
    }
  }

  lemma ReleaseRepays(c: Config, m: Entries, ed: Edition, now: Time)
    requires Repaid(c, m) && ed in m && m[ed].refs > 0
    ensures Repaid(c, AfterRelease(m, ed, now))
  {
    SameFlags(c, m, AfterRelease(m, ed, now));
  }

  lemma ReleaseKeeps(c: Config, s: State, h: HandleId, now: Time, t: State)
    requires Inv(c, s) && Step(c, s, Release(h, now), t)
    ensures Inv(c, t)
  {
    ReleaseCounts(s, h, now, t);
    ReleaseAccounts(s, h, now, t);
    ReleaseRepays(c, s.entries, s.handles[h].edition, now);
  }

  lemma AcquireHitKeeps(c: Config, s: State, ed: Edition, h: HandleId, now: Time, t: State)
    requires Inv(c, s) && Step(c, s, AcquireHit(ed, h, now), t)
    ensures Inv(c, t)
  {
    var u :| SweepStep(c, s, now, u) && ed in u.entries && h !in s.handles
      && t == u.(entries := u.entries[ed := Touch(u.entries[ed], now)],
                 handles := u.handles[h := Handle(ed, u.entries[ed].archive)]);
    SweepKeeps(c, s, now, u);
    HitKeeps(c, u, ed, h, now, t);
  }

  lemma FlightChange(c: Config, s: State, t: State)
    requires Inv(c, s) && t == s.(inflight := t.inflight) && t.inflight !! s.entries.Keys
    ensures Inv(c, t)
  {
  }

  lemma AcquireLoadKeeps(c: Config, s: State, ed: Edition, now: Time, t: State)
    requires Inv(c, s) && Step(c, s, AcquireLoad(ed, now), t)
    ensures Inv(c, t)
  {
    var u :| SweepStep(c, s, now, u) && ed !in u.entries && ed !in s.inflight && t == u.(inflight := u.inflight + {ed});
    SweepKeeps(c, s, now, u);
    FlightChange(c, u, t);
  }

  lemma StepKeeps(c: Config, s: State, e: Event, t: State)
    requires Inv(c, s) && Step(c, s, e, t)
    ensures Inv(c, t)
  {
    match e
    case AcquireHit(ed, h, now) => AcquireHitKeeps(c, s, ed, h, now, t);
    case AcquireWait(ed, now) => SweepKeeps(c, s, now, t);
    case AcquireLoad(ed, now) => AcquireLoadKeeps(c, s, ed, now, t);
    case LoadFailed(ed) => FlightChange(c, s, t);
    case LoadDone(ed, archive, h, now) => LoadKeeps(c, s, ed, archive, h, now, t);
    case Release(h, now) => ReleaseKeeps(c, s, h, now, t);
    case SweepNow(now) => SweepKeeps(c, s, now, t);
  }

  // ----- whole runs -----

  datatype Run = Run(states: seq<State>, events: seq<Event>)

  ghost predicate IsRun(c: Config, r: Run) {
    && |r.states| == |r.events| + 1
    && r.states[0] == State(map[], {}, map[], {}, [])
    && forall i :: 0 <= i < |r.events| ==> Step(c, r.states[i], r.events[i], r.states[i + 1])
  }

  lemma {:induction false} InvAt(c: Config, r: Run, n: nat)
    requires IsRun(c, r) && n < |r.states|
    ensures Inv(c, r.states[n])
  {
    if n == 0 {
      assert Unflagged(map[]) == {};
    } else {
      InvAt(c, r, n - 1);
      StepKeeps(c, r.states[n - 1], r.events[n - 1], r.states[n]);
    }
  }

  /** While a handle is out, its archive is open: it is in the map and no cleanup of it has run. */
  lemma PinnedNeverCleaned(c: Config, r: Run, n: nat, h: HandleId)
    requires IsRun(c, r) && n < |r.states| && h in r.states[n].handles
    ensures Pinned(r.states[n], h) && r.states[n].handles[h].archive !in r.states[n].log
  {
    InvAt(c, r, n);
    PinnedByHandle(r.states[n], h);
    assert r.states[n].handles[h].archive in Held(r.states[n].entries);
  }

  /** Open archives are exactly those in the map; each closed one was cleaned exactly once, and none leaked. */
  lemma OpenIsHeld(c: Config, r: Run, n: nat)
    requires IsRun(c, r) && n < |r.states|
    ensures var s := r.states[n];
            && Held(s.entries) == s.loaded - Cleaned(s.log)
            && forall a :: multiset(s.log)[a] == if a in s.loaded && a !in Held(s.entries) then 1 else 0
  {
    InvAt(c, r, n);
    var s := r.states[n];
    forall a ensures multiset(s.log)[a] == if a in s.log then 1 else 0 {
      LoggedOnce(s.log, a);
    }
  }

  lemma {:induction false} LoggedOnce(log: seq<Archive>, a: Archive)
    requires Distinct(log)
    ensures multiset(log)[a] == if a in log then 1 else 0
  {
    if log != [] {
      var front := log[..|log| - 1];
      assert log == front + [log[|log| - 1]];
      LoggedOnce(front, a);
    }
  }

  function Referenced(handles: map<HandleId, Handle>): set<Edition> {
    set h | h in handles :: handles[h].edition
  }

  lemma {:induction false} ReferencedSize(handles: map<HandleId, Handle>)
    ensures |Referenced(handles)| <= |handles.Keys|
    decreases |handles.Keys|
  {
    if h :| h in handles {
      var rest := handles - {h};
      assert rest.Keys == handles.Keys - {h};
      ReferencedSize(rest);
      assert Referenced(handles) <= Referenced(rest) + {handles[h].edition} by {
        forall ed | ed in Referenced(handles) ensures ed in Referenced(rest) + {handles[h].edition} {
          var k :| k in handles && handles[k].edition == ed;
          if k != h { assert k in rest && rest[k].edition == ed; }
        }
      }
      CardinalityMonotone(Referenced(handles), Referenced(rest) + {handles[h].edition});
    } else {
      assert Referenced(handles) == {};
    }
  }

  lemma FlaggedAreReferenced(c: Config, s: State)
    requires Counted(s) && Repaid(c, s.entries)
    ensures s.entries.Keys - Unflagged(s.entries) <= Referenced(s.handles)
  {
  }

  lemma OverCapacityIsReferenced(c: Config, s: State)
    requires Counted(s) && Repaid(c, s.entries)
    ensures |s.entries.Keys| <= c.maxOpen + |Referenced(s.handles)|
  {
    var flagged := s.entries.Keys - Unflagged(s.entries);
    FlaggedAreReferenced(c, s);
    CardinalityMonotone(flagged, Referenced(s.handles));
    assert s.entries.Keys == Unflagged(s.entries) + flagged;
  }

  /** Over-capacity is always covered by outstanding handles, and gone once they are released. */
  lemma CapacityRepaid(c: Config, r: Run, n: nat)
    requires IsRun(c, r) && n < |r.states|
    ensures |r.states[n].entries.Keys| <= c.maxOpen + |r.states[n].handles.Keys|
    ensures r.states[n].handles == map[] ==> |r.states[n].entries.Keys| <= c.maxOpen
  {
    InvAt(c, r, n);
    OverCapacityIsReferenced(c, r.states[n]);
    ReferencedSize(r.states[n].handles);
  }

  // ----- who is evicted -----

  /**
   Eviction at capacity, without its loop, as far as it closes: nothing within capacity; otherwise only what was
   unreferenced, unflagged and not used later than any such entry that stays; and capacity is not undercut.
   */
  ghost predicate ClosesFairly(m: Entries, max: nat, m': Entries) {
    && (|m.Keys| <= max ==> m' == m) && m'.Keys <= m.Keys && (m'.Keys != m.Keys ==> |m'.Keys| >= max)
    && (forall v :: v in m && v !in m' ==> m[v].refs == 0 && !m[v].evict)
    && (forall v, x :: v in m && v !in m' && x in m' && m[x].refs == 0 && !m[x].evict
          ==> m[v].lastUsed <= m[x].lastUsed)
  }

  /**
   And as far as it flags: nothing once capacity is met; otherwise everything left is pinned or flagged already, and
   the least recently used unflagged entry, if there is one, is flagged, and no other.
   */
  ghost predicate FlagsFairly(m: Entries, max: nat, m': Entries) {
    && m'.Keys <= m.Keys
    && (|m'.Keys| <= max ==> forall x :: x in m' ==> m'[x] == m[x])
    && (|m'.Keys| > max ==> forall x :: x in m' ==> m[x].refs > 0 || m[x].evict)
    && (|m'.Keys| > max && (exists x :: x in m' && !m[x].evict) ==> exists f :: FlaggedFirst(m, m', f))
    && (|m'.Keys| > max && (forall x :: x in m' ==> m[x].evict) ==> forall x :: x in m' ==> m'[x] == m[x])
  }

  /** f was the least recently used unflagged entry and is flagged now; the others are as they were. */
  ghost predicate FlaggedFirst(m: Entries, m': Entries, f: Edition) {
    && m'.Keys <= m.Keys && f in m' && !m[f].evict && m'[f] == m[f].(evict := true)
    && (forall x :: x in m' && !m[x].evict ==> m[f].lastUsed <= m[x].lastUsed)
    && (forall x :: x in m' && x != f ==> m'[x] == m[x])
  }

  lemma {:induction false} DrainsOldest(m: Entries, max: nat, victims: seq<Edition>, left: Entries)
    requires Drains(m, max, victims, left)
    ensures left.Keys <= m.Keys
    ensures forall v, x :: v in m && v !in left && x in left && m[x].Free() ==> m[v].lastUsed <= m[x].lastUsed
    ensures victims != [] ==> |left.Keys| >= max
    ensures |m.Keys| <= max ==> victims == [] && left == m
    decreases |victims|
  {
    if victims != [] {
      var v := victims[|victims| - 1];
      var prev := left[v := m[v]];
      DrainsOldest(m, max, victims[..|victims| - 1], prev);
      DrainsOnlyFree(m, max, victims[..|victims| - 1], prev);
      assert prev.Keys == left.Keys + {v};
    }
  }

  lemma SettlesFairly(m: Entries, max: nat, left: Entries, m': Entries)
    requires Settles(left, max, m') && left.Keys <= m.Keys && forall ed :: ed in left ==> left[ed] == m[ed]
    ensures m'.Keys == left.Keys && FlagsFairly(m, max, m')
  {
    if |left.Keys| > max && !(forall ed :: ed in left ==> left[ed].evict) {
      var f :| IsLruUnflagged(left, f) && m' == Flag(left, f);
      assert m'.Keys == left.Keys;
      assert FlaggedFirst(m, m', f);
    }
  }

  lemma EvictsFairly(m: Entries, max: nat, victims: seq<Edition>, m': Entries)
    requires Evicts(m, max, victims, m')
    ensures ClosesFairly(m, max, m') && FlagsFairly(m, max, m')
  {
    var left :| Drains(m, max, victims, left) && Settles(left, max, m');
    DrainsOldest(m, max, victims, left);
    DrainsOnlyFree(m, max, victims, left);
    SettlesFairly(m, max, left, m');
  }

  // ----- a warm archive is not reopened -----

  /** An event at or after t and before the idle time from t on has passed. */
  predicate Within(c: Config, e: Event, t: Time) { !e.LoadFailed? ==> t <= e.now && e.now - t < c.idleTTL }

  /** The edition is open with this archive and was last used at t or later. */
  predicate Warm(s: State, ed: Edition, archive: Archive, t: Time) {
    ed in s.entries && s.entries[ed].archive == archive && s.entries[ed].lastUsed >= t
  }

  lemma SweepStaysWarm(c: Config, s: State, now: Time, u: State, ed: Edition, archive: Archive, t: Time)
    requires SweepStep(c, s, now, u) && Warm(s, ed, archive, t) && now - t < c.idleTTL
    ensures Warm(u, ed, archive, t) && u.entries[ed] == s.entries[ed]
  {
  }

  lemma LoadStaysWarm(c: Config, s: State, e: Event, u: State, ed: Edition, archive: Archive, t: Time)
    requires Counted(s) && Step(c, s, e, u) && e.LoadDone? && Warm(s, ed, archive, t) && ed in u.entries
    ensures Warm(u, ed, archive, t)
  {
    var m := s.entries[e.edition := Entry(e.archive, e.now, 1, false)];
    var victims :| Evicts(m, c.maxOpen, victims, u.entries) && Closes(m, u.entries, victims, s.log, u.log);
    EvictsKeepsPinned(m, c.maxOpen, victims, u.entries);
  }

  lemma WarmStep(c: Config, s: State, e: Event, u: State, ed: Edition, archive: Archive, t: Time)
    requires Counted(s) && Step(c, s, e, u) && Within(c, e, t) && Warm(s, ed, archive, t)
    requires e.LoadDone? || e.Release? ==> ed in u.entries
    ensures Warm(u, ed, archive, t)
  {
    match e
    case AcquireHit(x, h, now) =>
      var v :| SweepStep(c, s, now, v) && x in v.entries
               && u == v.(entries := v.entries[x := Touch(v.entries[x], now)],
                          handles := v.handles[h := Handle(x, v.entries[x].archive)]);
      SweepStaysWarm(c, s, now, v, ed, archive, t);
    case AcquireWait(x, now) => SweepStaysWarm(c, s, now, u, ed, archive, t);
    case AcquireLoad(x, now) =>
      var v :| SweepStep(c, s, now, v) && u == v.(inflight := v.inflight + {x});
      SweepStaysWarm(c, s, now, v, ed, archive, t);
    case LoadFailed(x) =>
    case LoadDone(x, a, h, now) => LoadStaysWarm(c, s, e, u, ed, archive, t);
    case Release(h, now) =>
    case SweepNow(now) => SweepStaysWarm(c, s, now, u, ed, archive, t);
  }

  /** Step k does not close the edition for capacity: neither at once when a load comes in, nor late at a release. */
  predicate NotEvictedAt(r: Run, k: nat, ed: Edition)
    requires k < |r.events| && k + 1 < |r.states|
  {
    (r.events[k].LoadDone? || r.events[k].Release?) && ed in r.states[k].entries ==> ed in r.states[k + 1].entries
  }

  lemma {:induction false} StaysWarm(c: Config, r: Run, m: nat, n: nat, ed: Edition, archive: Archive, t: Time)
    requires IsRun(c, r) && m <= n < |r.states| && Warm(r.states[m], ed, archive, t)
    requires forall k :: m <= k < n ==> Within(c, r.events[k], t) && NotEvictedAt(r, k, ed)
    ensures Warm(r.states[n], ed, archive, t)
    decreases n
  {
    if m < n {
      StaysWarm(c, r, m, n - 1, ed, archive, t);
      WarmAt(c, r, n - 1, ed, archive, t);
    }
  }

  lemma WarmAt(c: Config, r: Run, n: nat, ed: Edition, archive: Archive, t: Time)
    requires IsRun(c, r) && n < |r.events| && Warm(r.states[n], ed, archive, t)
    requires Within(c, r.events[n], t) && NotEvictedAt(r, n, ed)
    ensures Warm(r.states[n + 1], ed, archive, t)
  {
    InvAt(c, r, n);
    WarmStep(c, r.states[n], r.events[n], r.states[n + 1], ed, archive, t);
  }

  /**
   An edition used at time t, by a hit, a finished load or a release that leaves it open, and not evicted for capacity
   since, is answered from its open archive by any acquire before t plus the idle time: it never waits nor loads.
   */
  lemma WarmIsHit(c: Config, r: Run, m: nat, n: nat, ed: Edition)
    requires IsRun(c, r) && m < n < |r.events| && Uses(r, m, ed) && ed in r.states[m + 1].entries
    requires forall k :: m < k <= n ==> Within(c, r.events[k], r.events[m].now) && NotEvictedAt(r, k, ed)
    ensures !(r.events[n].AcquireWait? && r.events[n].edition == ed)
    ensures !(r.events[n].AcquireLoad? && r.events[n].edition == ed)
    ensures r.events[n].AcquireHit? && r.events[n].edition == ed ==>
              var h := r.events[n].handle;
              h in r.states[n + 1].handles && r.states[n + 1].handles[h].archive == r.states[m + 1].entries[ed].archive
  {
    var t, archive := r.events[m].now, r.states[m + 1].entries[ed].archive;
    UsedIsWarm(c, r, m, ed);
    StaysWarm(c, r, m + 1, n, ed, archive, t);
    WarmAcquire(c, r.states[n], r.events[n], r.states[n + 1], ed, archive, t);
  }

  /** Event m uses the edition: it hands out or takes back a handle on it. */
  predicate Uses(r: Run, m: nat, ed: Edition)
    requires m < |r.events| && m < |r.states|
  {
    var e := r.events[m];
    || ((e.AcquireHit? || e.LoadDone?) && e.edition == ed)
    || (e.Release? && e.handle in r.states[m].handles && r.states[m].handles[e.handle].edition == ed)
  }

  lemma UsedIsWarm(c: Config, r: Run, m: nat, ed: Edition)
    requires IsRun(c, r) && m < |r.events| && Uses(r, m, ed) && ed in r.states[m + 1].entries
    ensures Warm(r.states[m + 1], ed, r.states[m + 1].entries[ed].archive, r.events[m].now)
  {
    var s, e, u := r.states[m], r.events[m], r.states[m + 1];
    assert Step(c, s, e, u);
    if e.LoadDone? {
      var x := s.entries[ed := Entry(e.archive, e.now, 1, false)];
      var victims :| Evicts(x, c.maxOpen, victims, u.entries) && Closes(x, u.entries, victims, s.log, u.log);
      EvictsKeepsPinned(x, c.maxOpen, victims, u.entries);
    }
  }

  lemma WarmAcquire(c: Config, s: State, e: Event, u: State, ed: Edition, archive: Archive, t: Time)
    requires Step(c, s, e, u) && Within(c, e, t) && Warm(s, ed, archive, t)
    ensures !((e.AcquireWait? || e.AcquireLoad?) && e.edition == ed)
    ensures e.AcquireHit? && e.edition == ed ==> e.handle in u.handles && u.handles[e.handle].archive == archive
  {
    match e
    case AcquireHit(x, h, now) =>
      var v :| SweepStep(c, s, now, v) && x in v.entries
               && u == v.(entries := v.entries[x := Touch(v.entries[x], now)],
                          handles := v.handles[h := Handle(x, v.entries[x].archive)]);
      SweepStaysWarm(c, s, now, v, ed, archive, t);
    case AcquireWait(x, now) => SweepStaysWarm(c, s, now, u, ed, archive, t);
    case AcquireLoad(x, now) =>
      var v :| SweepStep(c, s, now, v) && x !in v.entries;
      SweepStaysWarm(c, s, now, v, ed, archive, t);
    case _ =>
  }
}
