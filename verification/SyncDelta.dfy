/**
 One poll of the reading sync feed: three limited, gated queries over the tables that carry
 `sync_sequence`, and the cursor rule that must not jump over rows a LIMIT cut off.

 A query is modelled by what its ORDER BY / LIMIT / WHERE promise (`IsQueryResult`).  Rows are
 row versions, so that the `xmin` system column of a version is part of it.
 */
module SyncDelta {
  import opened Prelude

  const DELTA_LIMIT: nat := 500

  datatype Table = ReadingProgress | Bookmarks | Highlights

  datatype RowKey = RowKey(table: Table, id: nat)

  /** A row version: `xid` is its `xmin`, `scope` its (user, library) pair. */
  datatype Version = Version(key: RowKey, scope: nat, sequence: nat, xid: nat)

  /** The row versions a snapshot sees. */
  type Rows = set<Version>

  datatype Delta = Delta(cursor: nat, progress: seq<Version>, bookmarks: seq<Version>, highlights: seq<Version>)
  {
    function Part(t: Table): seq<Version> {
      match t
      case ReadingProgress => progress
      case Bookmarks => bookmarks
      case Highlights => highlights
    }

    predicate Empty() { progress == [] && bookmarks == [] && highlights == [] }

    predicate Delivers(v: Version) { v in progress || v in bookmarks || v in highlights }
  }

  /** Rows one of the three SELECTs may return. */
  function Eligible(rows: Rows, t: Table, scope: nat, since: nat, gate: nat): set<Version> {
    set v | v in rows && v.key.table == t && v.scope == scope && since < v.sequence && v.xid < gate
  }

  predicate Ascending(q: seq<Version>) {
    forall i, j :: 0 <= i < j < |q| ==> q[i].sequence <= q[j].sequence
  }

  /** `q` is `s` ORDER BY sync_sequence ASC LIMIT limit; ties may come out in any order. */
  predicate IsQueryResult(q: seq<Version>, s: set<Version>, limit: nat) {
    && Ascending(q) && Distinct(q) && |q| <= limit
    && (forall i :: 0 <= i < |q| ==> q[i] in s)
    && (forall v :: v in s && v !in q ==> |q| == limit && (limit > 0 ==> q[limit - 1].sequence <= v.sequence))
  }

  /** A page that hit the limit is complete only up to its last row. */
  predicate CutOff(q: seq<Version>) { |q| == DELTA_LIMIT }

  predicate EndsAt(q: seq<Version>, cursor: nat) {
    CutOff(q) && q[DELTA_LIMIT - 1].sequence == cursor
  }

  /**
   The next cursor: never past the end of a cut-off page; at the lowest such end when there is
   one, and otherwise at the highest delivered sequence (at `since` when nothing was delivered).
   */
  ghost predicate CursorRule(since: nat, d: Delta) {
    && since <= d.cursor
    && (CutOff(d.progress) ==> d.cursor <= d.progress[DELTA_LIMIT - 1].sequence)
    && (CutOff(d.bookmarks) ==> d.cursor <= d.bookmarks[DELTA_LIMIT - 1].sequence)
    && (CutOff(d.highlights) ==> d.cursor <= d.highlights[DELTA_LIMIT - 1].sequence)
    && (EndsAt(d.progress, d.cursor) || EndsAt(d.bookmarks, d.cursor) || EndsAt(d.highlights, d.cursor)
        || (&& (forall v :: d.Delivers(v) ==> v.sequence <= d.cursor)
            && (d.cursor == since || exists v :: d.Delivers(v) && v.sequence == d.cursor)))
  }

  /** `d` is a response GetReadingSyncData may give on a snapshot with these rows and this low-water mark. */
  ghost predicate ValidDelta(rows: Rows, scope: nat, since: nat, gate: nat, d: Delta) {
    && IsQueryResult(d.progress, Eligible(rows, ReadingProgress, scope, since, gate), DELTA_LIMIT)
    && IsQueryResult(d.bookmarks, Eligible(rows, Bookmarks, scope, since, gate), DELTA_LIMIT)
    && IsQueryResult(d.highlights, Eligible(rows, Highlights, scope, since, gate), DELTA_LIMIT)
    && CursorRule(since, d)
  }

  /** No two rows of a table share a sequence number. */
  ghost predicate UniqueSequences(rows: Rows) {
    forall v, w :: v in rows && w in rows && v.key.table == w.key.table && v.sequence == w.sequence ==> v == w
  }

  // ----- the queries and the poll, as the repository runs them -----

  method LowestSequence(s: set<Version>) returns (v: Version)
    requires s != {}
    ensures v in s && forall w :: w in s ==> v.sequence <= w.sequence
  {
    v :| v in s;
    var rest := s - {v};
    while rest != {}
      invariant v in s && rest <= s
      invariant forall w :: w in s && w !in rest ==> v.sequence <= w.sequence
      decreases rest
    {
      var w :| w in rest;
      if w.sequence < v.sequence { v := w; }
      rest := rest - {w};
    }
  }

  method RunQuery(rows: Rows, t: Table, scope: nat, since: nat, gate: nat, limit: nat) returns (q: seq<Version>)
    ensures IsQueryResult(q, Eligible(rows, t, scope, since, gate), limit)
  {
    q := [];
    var rest := Eligible(rows, t, scope, since, gate);
    while rest != {} && |q| < limit
      invariant |q| <= limit && Ascending(q) && Distinct(q)
      invariant forall i :: 0 <= i < |q| ==> q[i] in Eligible(rows, t, scope, since, gate) && q[i] !in rest
      invariant forall v :: v in Eligible(rows, t, scope, since, gate) ==> v in rest || v in q
      invariant forall v, i :: v in rest && 0 <= i < |q| ==> q[i].sequence <= v.sequence
      invariant rest <= Eligible(rows, t, scope, since, gate)
      decreases rest
    {
      var v := LowestSequence(rest);
      q, rest := q + [v], rest - {v};
    }
  }

  method CollectRows(rows: seq<Version>, floor: nat) returns (out: seq<Version>, maxSeq: nat)
    ensures out == rows && floor <= maxSeq
    ensures forall v :: v in rows ==> v.sequence <= maxSeq
    ensures maxSeq == floor || exists v :: v in rows && v.sequence == maxSeq
  {
    out, maxSeq := [], floor;
    for i := 0 to |rows|
      invariant out == rows[..i] && floor <= maxSeq
      invariant forall v :: v in out ==> v.sequence <= maxSeq
      invariant maxSeq == floor || exists v :: v in out && v.sequence == maxSeq
    {
      out := out + [rows[i]];
      if rows[i].sequence > maxSeq {
        maxSeq := rows[i].sequence;
        assert rows[i] in out;
      }
    }
  }

  function Min(a: nat, b: nat): nat { if a < b then a else b }

  /** The cursor computation that follows the three loops. */
  method CapCursor(p: seq<Version>, b: seq<Version>, h: seq<Version>, since: nat, maxSeq: nat) returns (cursor: nat)
    requires forall v :: v in p || v in b || v in h ==> since < v.sequence <= maxSeq
    requires since <= maxSeq
    requires maxSeq == since || exists v :: (v in p || v in b || v in h) && v.sequence == maxSeq
    ensures CursorRule(since, Delta(cursor, p, b, h))
  {
    cursor := maxSeq;
    if |p| == DELTA_LIMIT {
      assert p[|p| - 1] in p;
      cursor := Min(cursor, p[|p| - 1].sequence);
    }
    if |b| == DELTA_LIMIT {
      assert b[|b| - 1] in b;
      cursor := Min(cursor, b[|b| - 1].sequence);
    }
    if |h| == DELTA_LIMIT {
      assert h[|h| - 1] in h;
      cursor := Min(cursor, h[|h| - 1].sequence);
    }
    if maxSeq != since {
      var v :| (v in p || v in b || v in h) && v.sequence == maxSeq;
      assert Delta(cursor, p, b, h).Delivers(v);
    }
  }

  method GetReadingSyncData(rows: Rows, scope: nat, since: nat, gate: nat) returns (res: Delta)
    ensures ValidDelta(rows, scope, since, gate, res)
    ensures forall t :: Distinct(res.Part(t)) && Ascending(res.Part(t)) && |res.Part(t)| <= 500
    ensures forall t, v :: v in res.Part(t)
              ==> v in rows && v.key.table == t && v.scope == scope && v.sequence > since && v.xid < gate
  {
    var q := RunQuery(rows, ReadingProgress, scope, since, gate, DELTA_LIMIT);
    var p, m0 := CollectRows(q, since);
    q := RunQuery(rows, Bookmarks, scope, since, gate, DELTA_LIMIT);
    var b, m1 := CollectRows(q, m0);
    q := RunQuery(rows, Highlights, scope, since, gate, DELTA_LIMIT);
    var h, m2 := CollectRows(q, m1);
    assert forall v :: v in p ==> v in Eligible(rows, ReadingProgress, scope, since, gate);
    assert forall v :: v in b ==> v in Eligible(rows, Bookmarks, scope, since, gate);
    assert forall v :: v in h ==> v in Eligible(rows, Highlights, scope, since, gate);
    var cursor := CapCursor(p, b, h, since, m2);
    res := Delta(cursor, p, b, h);
    DeltaRows(rows, scope, since, gate, res);
  }

  /** Each part holds rows of its own table, inside scope, window and gate, in order, once each, at most 500. */
  lemma DeltaRows(rows: Rows, scope: nat, since: nat, gate: nat, d: Delta)
    requires ValidDelta(rows, scope, since, gate, d)
    ensures forall t :: Distinct(d.Part(t)) && Ascending(d.Part(t)) && |d.Part(t)| <= 500
    ensures forall t, v :: v in d.Part(t)
              ==> v in rows && v.key.table == t && v.scope == scope && v.sequence > since && v.xid < gate
  {
    forall t, v | v in d.Part(t)
      ensures v in rows && v.key.table == t && v.scope == scope && v.sequence > since && v.xid < gate
    {
      assert v in Eligible(rows, t, scope, since, gate);
    }
  }

  // ----- what a poll promises -----

  lemma PartFacts(rows: Rows, scope: nat, since: nat, gate: nat, d: Delta, t: Table)
    requires ValidDelta(rows, scope, since, gate, d)
    ensures IsQueryResult(d.Part(t), Eligible(rows, t, scope, since, gate), DELTA_LIMIT)
    ensures forall v :: v in d.Part(t) ==> since < v.sequence && d.Delivers(v)
  {
  }

  /** A non-empty response moves the cursor strictly, to the sequence of a row it delivers. */
  lemma CursorFacts(rows: Rows, scope: nat, since: nat, gate: nat, d: Delta)
    requires ValidDelta(rows, scope, since, gate, d)
    ensures d.Empty() <==> d.cursor == since
    ensures !d.Empty() ==> exists v :: d.Delivers(v) && v.sequence == d.cursor
  {
    PartFacts(rows, scope, since, gate, d, ReadingProgress);
    PartFacts(rows, scope, since, gate, d, Bookmarks);
    PartFacts(rows, scope, since, gate, d, Highlights);
    if EndsAt(d.progress, d.cursor) {
      assert d.Delivers(d.progress[DELTA_LIMIT - 1]);
    } else if EndsAt(d.bookmarks, d.cursor) {
      assert d.Delivers(d.bookmarks[DELTA_LIMIT - 1]);
    } else if EndsAt(d.highlights, d.cursor) {
      assert d.Delivers(d.highlights[DELTA_LIMIT - 1]);
    } else if !d.Empty() {
      var v := if d.progress != [] then d.progress[0]
               else if d.bookmarks != [] then d.bookmarks[0] else d.highlights[0];
      assert d.Delivers(v);
    }
  }

  /** No hole below the cursor: a row the gate lets through, after `since` and up to the cursor, is in the response. */
  lemma DeltaComplete(rows: Rows, scope: nat, since: nat, gate: nat, d: Delta, v: Version)
    requires ValidDelta(rows, scope, since, gate, d) && UniqueSequences(rows)
    requires v in rows && v.scope == scope && since < v.sequence <= d.cursor && v.xid < gate
    ensures v in d.Part(v.key.table) && d.Delivers(v)
  {
  }

  /** Nothing outside the query window, the scope or the gate is ever delivered. */
  lemma DeltaSound(rows: Rows, scope: nat, since: nat, gate: nat, d: Delta, v: Version)
    requires ValidDelta(rows, scope, since, gate, d) && d.Delivers(v)
    ensures v in rows && v.scope == scope && since < v.sequence && v.xid < gate
  {
  }

  // ----- draining unchanging tables -----

  /** Every row still to be delivered, over the three tables. */
  function Remaining(rows: Rows, scope: nat, since: nat, gate: nat): set<Version> {
    set v | v in rows && v.scope == scope && since < v.sequence && v.xid < gate
  }

  /** Successive non-empty polls of unchanging tables, each starting where the last one left the cursor. */
  ghost predicate DrainChain(rows: Rows, scope: nat, since: nat, gate: nat, polls: seq<Delta>)
    decreases |polls|
  {
    polls == [] ||
    (ValidDelta(rows, scope, since, gate, polls[0]) && !polls[0].Empty()
     && DrainChain(rows, scope, polls[0].cursor, gate, polls[1..]))
  }

  function CursorAfter(since: nat, polls: seq<Delta>): nat {
    if polls == [] then since else polls[|polls| - 1].cursor
  }

  lemma PageRetired(q: seq<Version>, before: set<Version>, after: set<Version>, cursor: nat)
    requires CutOff(q) && Distinct(q)
    requires forall v :: v in q ==> v in before && v.sequence <= cursor
    requires after <= before && forall v :: v in after ==> cursor < v.sequence
    ensures |after| + DELTA_LIMIT <= |before|
  {
    var page := set v | v in q;
    DistinctCardinality(q);
    assert page !! after;
    CardinalityMonotone(page + after, before);
  }

  lemma FullPollProgress(rows: Rows, scope: nat, since: nat, gate: nat, d: Delta, t: Table)
    requires ValidDelta(rows, scope, since, gate, d) && EndsAt(d.Part(t), d.cursor)
    ensures |Remaining(rows, scope, d.cursor, gate)| + DELTA_LIMIT <= |Remaining(rows, scope, since, gate)|
  {
    PartFacts(rows, scope, since, gate, d, t);
    var q, before, after := d.Part(t), Remaining(rows, scope, since, gate), Remaining(rows, scope, d.cursor, gate);
    forall v | v in q ensures v in before && v.sequence <= d.cursor {
      assert v in Eligible(rows, t, scope, since, gate);
      var i :| 0 <= i < |q| && q[i] == v;
    }
    PageRetired(q, before, after, d.cursor);
  }

  lemma LastPollProgress(rows: Rows, scope: nat, since: nat, gate: nat, d: Delta, v: Version)
    requires ValidDelta(rows, scope, since, gate, d)
    requires forall w :: d.Delivers(w) ==> w.sequence <= d.cursor
    requires !EndsAt(d.Part(v.key.table), d.cursor)
    ensures v !in Remaining(rows, scope, d.cursor, gate)
  {
  }

  /** A poll that stops at a full page retires at least DELTA_LIMIT rows; any other poll retires all of them. */
  lemma PollProgress(rows: Rows, scope: nat, since: nat, gate: nat, d: Delta)
    requires ValidDelta(rows, scope, since, gate, d)
    ensures Remaining(rows, scope, d.cursor, gate) <= Remaining(rows, scope, since, gate)
    ensures Remaining(rows, scope, d.cursor, gate) == {}
            || |Remaining(rows, scope, d.cursor, gate)| + DELTA_LIMIT <= |Remaining(rows, scope, since, gate)|
  {
    if EndsAt(d.progress, d.cursor) {
      FullPollProgress(rows, scope, since, gate, d, ReadingProgress);
    } else if EndsAt(d.bookmarks, d.cursor) {
      FullPollProgress(rows, scope, since, gate, d, Bookmarks);
    } else if EndsAt(d.highlights, d.cursor) {
      FullPollProgress(rows, scope, since, gate, d, Highlights);
    } else {
      forall v ensures v !in Remaining(rows, scope, d.cursor, gate) {
        LastPollProgress(rows, scope, since, gate, d, v);
      }
    }
  }

  lemma NothingRemains(rows: Rows, scope: nat, since: nat, gate: nat, d: Delta, v: Version)
    requires ValidDelta(rows, scope, since, gate, d) && v in Remaining(rows, scope, since, gate)
    ensures !d.Empty()
  {
  }

  lemma SomethingRemained(rows: Rows, scope: nat, since: nat, gate: nat, d: Delta)
    requires ValidDelta(rows, scope, since, gate, d) && !d.Empty()
    ensures Remaining(rows, scope, since, gate) != {}
  {
    CursorFacts(rows, scope, since, gate, d);
    var v :| d.Delivers(v);
    DeltaSound(rows, scope, since, gate, d, v);
    assert v in Remaining(rows, scope, since, gate);
  }

  /** Draining N rows takes at most floor(N / 500) + 1 non-empty polls, whatever the tables they lie in. */
  lemma {:induction false} DrainBound(rows: Rows, scope: nat, since: nat, gate: nat, polls: seq<Delta>)
    requires DrainChain(rows, scope, since, gate, polls)
    ensures |polls| <= |Remaining(rows, scope, since, gate)| / DELTA_LIMIT + 1
    decreases |polls|
  {
    if polls != [] {
      var d := polls[0];
      PollProgress(rows, scope, since, gate, d);
      DrainBound(rows, scope, d.cursor, gate, polls[1..]);
      if Remaining(rows, scope, d.cursor, gate) == {} && 1 < |polls| {
        SomethingRemained(rows, scope, d.cursor, gate, polls[1]);
        assert false;
      }
    }
  }

  ghost predicate DeliveredIn(polls: seq<Delta>, v: Version) {
    exists d :: d in polls && d.Delivers(v)
  }

  /** An empty response says exactly that nothing remains, which is when a device stops polling. */
  lemma EmptyMeansDrained(rows: Rows, scope: nat, since: nat, gate: nat, d: Delta)
    requires ValidDelta(rows, scope, since, gate, d)
    ensures d.Empty() <==> Remaining(rows, scope, since, gate) == {}
  {
    if v :| v in Remaining(rows, scope, since, gate) {
      NothingRemains(rows, scope, since, gate, d, v);
    } else if !d.Empty() {
      SomethingRemained(rows, scope, since, gate, d);
    }
  }

  /** Once nothing remains, every row was in one of the responses. */
  lemma {:induction false} DrainComplete(rows: Rows, scope: nat, since: nat, gate: nat, polls: seq<Delta>, v: Version)
    requires UniqueSequences(rows) && DrainChain(rows, scope, since, gate, polls)
    requires Remaining(rows, scope, CursorAfter(since, polls), gate) == {}
    requires v in Remaining(rows, scope, since, gate)
    ensures DeliveredIn(polls, v)
    decreases |polls|
  {
    var d, rest := polls[0], polls[1..];
    if v.sequence <= d.cursor {
      DeltaComplete(rows, scope, since, gate, d, v);
    } else {
      assert CursorAfter(d.cursor, rest) == CursorAfter(since, polls);
      DrainComplete(rows, scope, d.cursor, gate, rest, v);
      var e :| e in rest && e.Delivers(v);
      assert e in polls;
    }
  }
}
