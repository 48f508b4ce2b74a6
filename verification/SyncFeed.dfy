/**
 The reading sync feed over whole runs: write transactions, snapshots and device polls in any
 interleaving.  A sequence number may be drawn before the transaction that uses it has an xid,
 and stays drawn when that transaction aborts.
 */
module SyncFeed {
  import opened SyncDelta

  datatype Device = Device(scope: nat, cursor: nat)

  datatype State = State(
    nextXid: nat,
    nextSequence: nat,
    drawn: set<nat>,                          // sequence numbers drawn and not yet used by a write
    active: map<nat, map<RowKey, Version>>,   // xid of each in-flight transaction, with its writes
    rows: Rows,                               // current committed versions
    history: set<Version>,                    // every version ever committed
    devices: map<nat, Device>)

  datatype Event =
    | Begin
    | Draw
    | Write(xid: nat, key: RowKey, scope: nat, sequence: nat)
    | Commit(xid: nat)
    | Abort(xid: nat)
    | Poll(device: nat, gate: nat, delta: Delta)

  /** pg_snapshot_xmin: the lowest in-flight xid, or the next one when nothing is in flight. */
  predicate IsSnapshotXmin(s: State, gate: nat) {
    && gate <= s.nextXid && (forall x :: x in s.active ==> gate <= x)
    && (gate == s.nextXid || gate in s.active)
  }

  ghost predicate Init(s: State) {
    && s.drawn == {} && s.active == map[] && s.rows == {} && s.history == {}
    && s.nextSequence >= 1 && (forall d :: d in s.devices ==> s.devices[d].cursor == 0)
  }

  /** The current versions once the writes of a transaction replace the versions of the same rows. */
  function Overwrite(rows: Rows, writes: map<RowKey, Version>): Rows {
    (set v | v in rows && v.key !in writes) + writes.Values
  }

  ghost predicate Step(s: State, e: Event, t: State) {
    match e
    case Begin => t == s.(nextXid := s.nextXid + 1, active := s.active[s.nextXid := map[]])
    case Draw => t == s.(nextSequence := s.nextSequence + 1, drawn := s.drawn + {s.nextSequence})
    case Write(x, key, scope, n) =>
      && x in s.active && n in s.drawn
      && t == s.(drawn := s.drawn - {n}, active := s.active[x := s.active[x][key := Version(key, scope, n, x)]])
    case Commit(x) =>
      && x in s.active
      && t == s.(active := s.active - {x}, rows := Overwrite(s.rows, s.active[x]),
                 history := s.history + s.active[x].Values)
    case Abort(x) => x in s.active && t == s.(active := s.active - {x})
    case Poll(d, gate, delta) =>
      && d in s.devices && IsSnapshotXmin(s, gate)
      && ValidDelta(s.rows, s.devices[d].scope, s.devices[d].cursor, gate, delta)
      && t == s.(devices := s.devices[d := s.devices[d].(cursor := delta.cursor)])
  }

  datatype Run = Run(states: seq<State>, events: seq<Event>)

  ghost predicate IsRun(r: Run) {
    && |r.states| == |r.events| + 1 && Init(r.states[0])
    && forall i :: 0 <= i < |r.events| ==> Step(r.states[i], r.events[i], r.states[i + 1])
  }

  // ----- invariants of the database -----

  /** `v` is an uncommitted write of an in-flight transaction. */
  predicate Pending(s: State, v: Version) {
    v.xid in s.active && v.key in s.active[v.xid] && s.active[v.xid][v.key] == v
  }

  ghost predicate Known(s: State, v: Version) { v in s.history || Pending(s, v) }

  ghost predicate Inv(s: State) {
    && 1 <= s.nextSequence
    && (forall x :: x in s.active ==> x < s.nextXid)
    && (forall x, k :: x in s.active && k in s.active[x] ==> s.active[x][k].key == k && s.active[x][k].xid == x)
    && (forall v :: v in s.history ==> v.xid < s.nextXid && v.xid !in s.active)
    && (forall n :: n in s.drawn ==> 1 <= n < s.nextSequence)
    && (forall v :: Known(s, v) ==> 1 <= v.sequence < s.nextSequence && v.sequence !in s.drawn)
    && (forall v, w :: Known(s, v) && Known(s, w) && v.sequence == w.sequence ==> v == w)
    && s.rows <= s.history
  }

  lemma InvStep(s: State, e: Event, t: State)
    requires Inv(s) && Step(s, e, t)
    ensures Inv(t)
    ensures s.history <= t.history
    ensures forall d :: d in s.devices ==> d in t.devices && t.devices[d].scope == s.devices[d].scope
  {
    match e
    case Write(x, key, scope, n) =>
      var v := Version(key, scope, n, x);
      forall w | Known(t, w) ensures Known(s, w) || w == v {}
    case Commit(x) =>
      forall w | Known(t, w) ensures Known(s, w) {
        if w in s.active[x].Values && w !in s.history {
          var k :| k in s.active[x] && s.active[x][k] == w;
          assert Pending(s, w);
        }
      }
    case _ =>
      forall w | Known(t, w) ensures Known(s, w) {}
  }

  lemma {:induction false} InvAt(r: Run, n: nat)
    requires IsRun(r) && n < |r.states|
    ensures Inv(r.states[n])
  {
    if n > 0 {
      InvAt(r, n - 1);
      InvStep(r.states[n - 1], r.events[n - 1], r.states[n]);
    }
  }

  lemma {:induction false} Monotone(r: Run, m: nat, n: nat)
    requires IsRun(r) && m <= n < |r.states|
    ensures r.states[m].history <= r.states[n].history
    ensures r.states[n].devices.Keys == r.states[m].devices.Keys
    ensures forall d :: d in r.states[m].devices ==> r.states[m].devices[d].cursor <= r.states[n].devices[d].cursor
    ensures forall d :: d in r.states[m].devices ==> r.states[m].devices[d].scope == r.states[n].devices[d].scope
    decreases n
  {
    if m < n {
      Monotone(r, m, n - 1);
      InvAt(r, n - 1);
      InvStep(r.states[n - 1], r.events[n - 1], r.states[n]);
    }
  }

  /** What commits later was, earlier, at or above every low-water mark that could be taken then. */
  lemma {:induction false} LateCommit(r: Run, m: nat, n: nat, v: Version)
    requires IsRun(r) && m <= n < |r.states|
    requires v in r.states[n].history && v !in r.states[m].history
    ensures v.xid in r.states[m].active || r.states[m].nextXid <= v.xid
    decreases n
  {
    var s, t, e := r.states[n - 1], r.states[n], r.events[n - 1];
    InvAt(r, n - 1);
    if v in s.history {
      LateCommit(r, m, n - 1, v);
    } else {
      assert v.xid in s.active;
      StillActive(r, m, n - 1, v.xid);
    }
  }

  lemma {:induction false} StillActive(r: Run, m: nat, n: nat, x: nat)
    requires IsRun(r) && m <= n < |r.states| && x in r.states[n].active
    ensures x in r.states[m].active || r.states[m].nextXid <= x
    decreases n
  {
    if m < n {
      if x in r.states[n - 1].active {
        StillActive(r, m, n - 1, x);
      } else {
        NextXidGrows(r, m, n - 1);
      }
    }
  }

  lemma {:induction false} NextXidGrows(r: Run, m: nat, n: nat)
    requires IsRun(r) && m <= n < |r.states|
    ensures r.states[m].nextXid <= r.states[n].nextXid
    decreases n
  {
    if m < n { NextXidGrows(r, m, n - 1); }
  }

  // ----- no committed write is skipped -----

  /** Poll `i` is the one that carries device `d`'s cursor past the sequence of `v`. */
  ghost predicate PassedBy(r: Run, d: nat, v: Version, i: nat)
    requires |r.states| == |r.events| + 1
  {
    && i < |r.events| && r.events[i].Poll? && r.events[i].device == d
    && d in r.states[i].devices && d in r.states[i + 1].devices
    && r.states[i].devices[d].cursor < v.sequence <= r.states[i + 1].devices[d].cursor
  }

  /** `v` had been committed and replaced by a newer committed version of its row. */
  predicate Superseded(s: State, v: Version) { v in s.history && v !in s.rows }

  /** `delta` delivers a row with a later sequence number written by an earlier transaction. */
  ghost predicate Overtaken(delta: Delta, v: Version) {
    exists w :: delta.Delivers(w) && v.sequence < w.sequence && w.xid < v.xid
  }

  /** Sequence order agrees with xid order. */
  ghost predicate OrderAgrees(versions: set<Version>) {
    forall v, w :: v in versions && w in versions && v.sequence < w.sequence ==> v.xid <= w.xid
  }

  lemma {:induction false} FindPass(r: Run, d: nat, v: Version, n: nat) returns (i: nat)
    requires IsRun(r) && n < |r.states| && d in r.states[n].devices
    requires 0 < v.sequence <= r.states[n].devices[d].cursor
    ensures i < n && PassedBy(r, d, v, i)
    decreases n
  {
    if n == 0 {
      assert false;
    } else {
      Monotone(r, n - 1, n);
      if v.sequence <= r.states[n - 1].devices[d].cursor {
        i := FindPass(r, d, v, n - 1);
      } else {
        i := n - 1;
      }
    }
  }

  /**
   The poll at which the cursor passes a committed version either delivered it, or came after it
   was superseded, or was taken while the version's transaction was still at or above the gate;
   and the last case needs a row that overtook it.
   */
  lemma PassingPoll(r: Run, d: nat, v: Version, n: nat, i: nat)
    requires IsRun(r) && n < |r.states| && d in r.states[n].devices
    requires v in r.states[n].history && v.scope == r.states[n].devices[d].scope
    requires i < n && PassedBy(r, d, v, i)
    ensures r.events[i].delta.Delivers(v) <==> !Superseded(r.states[i], v) && v.xid < r.events[i].gate
    ensures r.events[i].gate <= v.xid ==> Overtaken(r.events[i].delta, v)
    ensures forall w :: r.events[i].delta.Delivers(w) ==> w in r.states[n].history
  {
    var s, delta, gate := r.states[i], r.events[i].delta, r.events[i].gate;
    var scope, since := s.devices[d].scope, s.devices[d].cursor;
    InvAt(r, i);
    InvAt(r, n);
    Monotone(r, i, n);
    assert Step(s, r.events[i], r.states[i + 1]);
    assert UniqueSequences(s.rows) by {
      forall a, b | a in s.rows && b in s.rows && a.sequence == b.sequence ensures a == b {
        assert Known(s, a) && Known(s, b);
      }
    }
    forall w | delta.Delivers(w) ensures w in s.rows && w.xid < gate {
      DeltaSound(s.rows, scope, since, gate, delta, w);
    }
    if v !in s.history {
      LateCommit(r, i, n, v);
      assert gate <= v.xid;
    } else if v in s.rows && v.xid < gate {
      DeltaComplete(s.rows, scope, since, gate, delta, v);
    }
    if gate <= v.xid {
      CursorFacts(s.rows, scope, since, gate, delta);
      var w :| delta.Delivers(w) && w.sequence == delta.cursor;
      assert Known(r.states[n], v) && Known(r.states[n], w);
      assert v.sequence < w.sequence;
    }
  }

  /**
   No committed write is ever skipped, provided sequence order agrees with xid order among the
   committed versions: whatever lies at or below a device's cursor was delivered by the very poll
   that passed it, or had been superseded by then.
   */
  lemma NoCommittedWriteSkipped(r: Run, d: nat, v: Version, n: nat) returns (i: nat)
    requires IsRun(r) && n < |r.states| && d in r.states[n].devices
    requires v in r.states[n].history && v.scope == r.states[n].devices[d].scope
    requires v.sequence <= r.states[n].devices[d].cursor
    requires OrderAgrees(r.states[n].history)
    ensures i < n && PassedBy(r, d, v, i)
    ensures r.events[i].delta.Delivers(v) || Superseded(r.states[i], v)
  {
    InvAt(r, n);
    assert Known(r.states[n], v);
    i := FindPass(r, d, v, n);
    PassingPoll(r, d, v, n, i);
  }

  lemma {:induction false} SupersededForever(r: Run, m: nat, n: nat, v: Version)
    requires IsRun(r) && m <= n < |r.states| && Superseded(r.states[m], v)
    ensures Superseded(r.states[n], v)
    decreases n
  {
    if m < n {
      SupersededForever(r, m, n - 1, v);
      var s, t, e := r.states[n - 1], r.states[n], r.events[n - 1];
      InvAt(r, n - 1);
      if e.Commit? && v in s.active[e.xid].Values {
        assert false;
      }
    }
  }

  /** What a device relies on: every current row at or below its cursor has been sent to it. */
  lemma CurrentRowsDelivered(r: Run, d: nat, v: Version, n: nat) returns (i: nat)
    requires IsRun(r) && n < |r.states| && d in r.states[n].devices
    requires v in r.states[n].rows && v.scope == r.states[n].devices[d].scope
    requires v.sequence <= r.states[n].devices[d].cursor
    requires OrderAgrees(r.states[n].history)
    ensures i < n && PassedBy(r, d, v, i) && r.events[i].delta.Delivers(v)
  {
    InvAt(r, n);
    i := NoCommittedWriteSkipped(r, d, v, n);
    if Superseded(r.states[i], v) {
      SupersededForever(r, i, n, v);
      assert false;
    }
  }

  /** A write still in flight when a cursor passes it is lost to that device for good, whenever it commits. */
  lemma PassedInFlightIsLost(r: Run, d: nat, v: Version, m: nat, n: nat)
    requires IsRun(r) && m <= n < |r.events| && d in r.states[m].devices
    requires Pending(r.states[m], v) && v.sequence <= r.states[m].devices[d].cursor
    ensures r.events[n].Poll? && r.events[n].device == d ==> !r.events[n].delta.Delivers(v)
  {
    Monotone(r, m, n);
    var s, e := r.states[n], r.events[n];
    assert Step(s, e, r.states[n + 1]);
    if e.Poll? && e.device == d && e.delta.Delivers(v) {
      DeltaSound(s.rows, s.devices[d].scope, s.devices[d].cursor, e.gate, e.delta, v);
    }
  }

  lemma ValuesOfOne(k: RowKey, v: Version)
    ensures (map[k := v]).Values == {v}
  {
    assert (map[k := v])[k] == v;
  }

  /** `r` is a run that ends in `end` and no poll of which delivers `v`. */
  ghost predicate RunTo(r: Run, end: State, v: Version) {
    && IsRun(r) && r.states[|r.states| - 1] == end
    && forall i :: 0 <= i < |r.events| && r.events[i].Poll? ==> !r.events[i].delta.Delivers(v)
  }

  lemma Extend(r: Run, s: State, e: Event, t: State, v: Version) returns (r': Run)
    requires RunTo(r, s, v) && Step(s, e, t) && (e.Poll? ==> !e.delta.Delivers(v))
    ensures RunTo(r', t, v)
  {
    r' := Run(r.states + [t], r.events + [e]);
  }

  /** Transaction 0 begins first but draws its sequence number second. */
  lemma CrossedWriters(v: Version, w: Version) returns (r: Run, s: State)
    requires v == Version(RowKey(ReadingProgress, 0), 0, 1, 1) && w == Version(RowKey(Bookmarks, 1), 0, 2, 0)
    ensures RunTo(r, s, v)
    ensures s == State(2, 3, {}, map[0 := map[w.key := w], 1 := map[v.key := v]], {}, {}, map[0 := Device(0, 0)])
  {
    s := State(0, 1, {}, map[], {}, {}, map[0 := Device(0, 0)]);
    r := Run([s], []);
    var t := s.(nextXid := 1, active := map[0 := map[]]);
    r := Extend(r, s, Begin, t, v);
    s := t;
    t := s.(nextXid := 2, active := map[0 := map[], 1 := map[]]);
    r := Extend(r, s, Begin, t, v);
    s := t;
    t := s.(nextSequence := 2, drawn := {1});
    r := Extend(r, s, Draw, t, v);
    s := t;
    t := s.(drawn := {}, active := map[0 := map[], 1 := map[v.key := v]]);
    r := Extend(r, s, Write(1, v.key, 0, 1), t, v);
    s := t;
    t := s.(nextSequence := 3, drawn := {2});
    r := Extend(r, s, Draw, t, v);
    s := t;
    t := s.(drawn := {}, active := map[0 := map[w.key := w], 1 := map[v.key := v]]);
    r := Extend(r, s, Write(0, w.key, 0, 2), t, v);
    s := t;
  }

  /** Transaction 0 commits sequence 2 and the device polls past it. */
  lemma PolledPastOpenWriter(v: Version, w: Version) returns (r: Run, s: State)
    requires v == Version(RowKey(ReadingProgress, 0), 0, 1, 1) && w == Version(RowKey(Bookmarks, 1), 0, 2, 0)
    ensures RunTo(r, s, v)
    ensures s == State(2, 3, {}, map[1 := map[v.key := v]], {w}, {w}, map[0 := Device(0, 2)])
  {
    r, s := CrossedWriters(v, w);
    ValuesOfOne(w.key, w);
    var t := s.(active := map[1 := map[v.key := v]], rows := {w}, history := {w});
    assert s.active - {0} == t.active;
    r := Extend(r, s, Commit(0), t, v);
    var delta := Delta(2, [], [w], []);
    assert delta.Delivers(w);
    assert Eligible({w}, Bookmarks, 0, 0, 1) == {w};
    s := t.(devices := map[0 := Device(0, 2)]);
    r := Extend(r, t, Poll(0, 1, delta), s, v);
  }

  /** The hypothesis is needed: now transaction 1 commits sequence 1, which that device is never sent. */
  lemma OrderIsNeeded() returns (r: Run, end: State, v: Version)
    ensures RunTo(r, end, v)
    ensures v in end.rows && 0 in end.devices && v.scope == end.devices[0].scope
    ensures v.sequence <= end.devices[0].cursor && !OrderAgrees(end.history)
  {
    var w := Version(RowKey(Bookmarks, 1), 0, 2, 0);
    v := Version(RowKey(ReadingProgress, 0), 0, 1, 1);
    var s;
    r, s := PolledPastOpenWriter(v, w);
    ValuesOfOne(v.key, v);
    end := s.(active := map[], rows := {w, v}, history := {w, v});
    assert s.active - {1} == end.active;
    r := Extend(r, s, Commit(1), end, v);
  }
}
