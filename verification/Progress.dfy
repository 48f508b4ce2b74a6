/**
 Reading-progress reconciliation: a lexicographic maximum over (epoch, percentage) with
 server-assigned epochs, and the row-locked transactions that apply it.
 */
module Progress {
  import opened Prelude

  type WorkId = nat

  datatype Record = Record(
    id: nat, workId: WorkId, percentage: real, epoch: int,
    position: Option<nat>, device: nat, observedAt: int)

  datatype Report = Report(
    workId: WorkId, percentage: real, observedEpoch: int,
    position: Option<nat>, device: nat, reportedAt: int)

  datatype Outcome = Advanced | Unchanged | Rejected | Overridden

  /** The record once a report has won: its values, at the stored epoch. */
  function Take(canonical: Record, r: Report): Record {
    canonical.(percentage := r.percentage, position := r.position, device := r.device, observedAt := r.reportedAt)
  }

  function Reconcile(canonical: Record, r: Report): (Record, Outcome) {
    if r.observedEpoch < canonical.epoch then (canonical, Rejected)
    else if r.percentage > canonical.percentage then (Take(canonical, r), Advanced)
    else if r.percentage == canonical.percentage then (canonical, Unchanged)
    else (canonical, Rejected)
  }

  function First(id: nat, r: Report): Record {
    Record(id, r.workId, r.percentage, 0, r.position, r.device, r.reportedAt)
  }

  function Override(canonical: Record, r: Report): Record {
    Take(canonical, r).(epoch := canonical.epoch + 1)
  }

  // ----- folding reports -----

  function Fold(canonical: Record, reports: seq<Report>): Record
    decreases |reports|
  {
    if reports == [] then canonical else Fold(Reconcile(canonical, reports[0]).0, reports[1..])
  }

  /** The first report for a work becomes its record directly, whatever epoch it observed. */
  function FoldFromNone(id: nat, reports: seq<Report>): Record
    requires reports != []
  {
    Fold(First(id, reports[0]), reports[1..])
  }

  predicate Counts(r: Report, epoch: int) { r.observedEpoch >= epoch }

  /** `p` is the maximum of `floor` and the percentages of the reports that are not behind `epoch`. */
  ghost predicate IsBest(p: real, floor: real, reports: seq<Report>, epoch: int) {
    && floor <= p
    && (forall r :: r in reports && Counts(r, epoch) ==> r.percentage <= p)
    && (p == floor || exists r :: r in reports && Counts(r, epoch) && r.percentage == p)
  }

  lemma {:induction false} FoldIsMaximum(canonical: Record, reports: seq<Report>)
    ensures var f := Fold(canonical, reports);
            && f.epoch == canonical.epoch && f.id == canonical.id && f.workId == canonical.workId
            && IsBest(f.percentage, canonical.percentage, reports, canonical.epoch)
    decreases |reports|
  {
    if reports != [] {
      var next := Reconcile(canonical, reports[0]).0;
      FoldIsMaximum(next, reports[1..]);
      assert reports == [reports[0]] + reports[1..];
      assert reports[0] in reports;
    }
  }

  lemma BestIsUnique(p: real, q: real, floor: real, reports: seq<Report>, others: seq<Report>, epoch: int)
    requires multiset(reports) == multiset(others)
    requires IsBest(p, floor, reports, epoch) && IsBest(q, floor, others, epoch)
    ensures p == q
  {
    assert forall r :: r in reports <==> r in multiset(reports);
    assert forall r :: r in others <==> r in multiset(others);
  }

  /** The same multiset of reports gives the same epoch and percentage in any order. */
  lemma FoldOrderIrrelevant(canonical: Record, reports: seq<Report>, others: seq<Report>)
    requires multiset(reports) == multiset(others)
    ensures Fold(canonical, reports).epoch == Fold(canonical, others).epoch == canonical.epoch
    ensures Fold(canonical, reports).percentage == Fold(canonical, others).percentage
  {
    FoldIsMaximum(canonical, reports);
    FoldIsMaximum(canonical, others);
    var p, q := Fold(canonical, reports).percentage, Fold(canonical, others).percentage;
    BestIsUnique(p, q, canonical.percentage, reports, others, canonical.epoch);
  }

  /** The API accepts no negative observed epoch. */
  predicate WellFormed(reports: seq<Report>) { forall r :: r in reports ==> 0 <= r.observedEpoch }

  lemma FoldFromNoneIsMaximum(id: nat, reports: seq<Report>)
    requires reports != [] && WellFormed(reports)
    ensures FoldFromNone(id, reports).epoch == 0
    ensures forall r :: r in reports ==> r.percentage <= FoldFromNone(id, reports).percentage
    ensures exists r :: r in reports && r.percentage == FoldFromNone(id, reports).percentage
  {
    FoldIsMaximum(First(id, reports[0]), reports[1..]);
    var f := FoldFromNone(id, reports);
    assert reports == [reports[0]] + reports[1..];
    assert reports[0] in reports;
    if f.percentage != reports[0].percentage {
      var r :| r in reports[1..] && Counts(r, 0) && r.percentage == f.percentage;
      assert r in reports;
    }
  }

  /** Starting from no record, order is irrelevant too, for reports the API accepts. */
  lemma FoldFromNoneOrderIrrelevant(id: nat, reports: seq<Report>, others: seq<Report>)
    requires reports != [] && others != [] && multiset(reports) == multiset(others) && WellFormed(reports)
    ensures FoldFromNone(id, reports).epoch == FoldFromNone(id, others).epoch
    ensures FoldFromNone(id, reports).percentage == FoldFromNone(id, others).percentage
  {
    assert forall r :: r in reports <==> r in multiset(reports);
    assert forall r :: r in others <==> r in multiset(others);
    FoldFromNoneIsMaximum(id, reports);
    FoldFromNoneIsMaximum(id, others);
  }

  /** Whatever report comes first is taken unseen; of the rest, those not behind epoch 0 count. */
  lemma FromNoneIsBest(id: nat, reports: seq<Report>)
    requires reports != []
    ensures IsBest(FoldFromNone(id, reports).percentage, reports[0].percentage, reports, 0)
  {
    FoldIsMaximum(First(id, reports[0]), reports[1..]);
    assert reports == [reports[0]] + reports[1..];
  }

  /** The reports with report i moved to the front. */
  function Fronted(reports: seq<Report>, i: nat): seq<Report>
    requires i < |reports|
  {
    [reports[i]] + reports[..i] + reports[i + 1..]
  }

  lemma FrontedSame(reports: seq<Report>, i: nat)
    requires i < |reports|
    ensures multiset(Fronted(reports, i)) == multiset(reports)
  {
    assert reports == reports[..i] + [reports[i]] + reports[i + 1..];
  }

  lemma {:induction false} TopReport(reports: seq<Report>) returns (i: nat)
    requires reports != []
    ensures i < |reports| && forall r :: r in reports ==> r.percentage <= reports[i].percentage
    decreases |reports|
  {
    i := 0;
    if |reports| > 1 {
      var rest := reports[1..];
      var j := TopReport(rest);
      assert forall r :: r in reports ==> r == reports[0] || r in rest;
      if reports[0].percentage < rest[j].percentage { i := j + 1; }
    }
  }

  /** From no record, these reports give this percentage in whatever order they come. */
  ghost predicate AnyOrder(id: nat, reports: seq<Report>, p: real) {
    forall others :: multiset(others) == multiset(reports) && others != [] ==> FoldFromNone(id, others).percentage == p
  }

  /** Some report not behind epoch 0 is the highest of all, or all reports are equally high. */
  ghost predicate TopCounts(reports: seq<Report>) {
    || (exists r :: r in reports && Counts(r, 0) && forall x :: x in reports ==> x.percentage <= r.percentage)
    || (forall r, x :: r in reports && x in reports ==> r.percentage == x.percentage)
  }

  /** For reports of any kind, negative epochs included: exactly when starting from no record does order not matter. */
  lemma FromNoneOrderExactly(id: nat, reports: seq<Report>)
    requires reports != []
    ensures AnyOrder(id, reports, FoldFromNone(id, reports).percentage) <==> TopCounts(reports)
  {
    var p := FoldFromNone(id, reports).percentage;
    if TopCounts(reports) {
      forall others | multiset(others) == multiset(reports) && others != []
        ensures FoldFromNone(id, others).percentage == p {
        TopDecides(id, reports, others);
      }
    } else {
      var i := TopReport(reports);
      var g :| g in reports && g.percentage < reports[i].percentage;
      var j :| 0 <= j < |reports| && reports[j] == g;
      FrontedSame(reports, i);
      FrontedSame(reports, j);
      var high, low := Fronted(reports, i), Fronted(reports, j);
      FromNoneIsBest(id, high);
      FromNoneIsBest(id, low);
      assert forall r :: r in low <==> r in multiset(reports);
      assert FoldFromNone(id, low).percentage < reports[i].percentage <= FoldFromNone(id, high).percentage;
    }
  }

  lemma TopDecides(id: nat, reports: seq<Report>, others: seq<Report>)
    requires reports != [] && others != [] && multiset(others) == multiset(reports) && TopCounts(reports)
    ensures FoldFromNone(id, others).percentage == FoldFromNone(id, reports).percentage
  {
    assert forall r :: r in reports <==> r in multiset(reports);
    assert forall r :: r in others <==> r in multiset(others);
    assert reports[0] in reports && others[0] in reports;
    FromNoneIsBest(id, reports);
    FromNoneIsBest(id, others);
  }

  /** A negative observed epoch would break it: the first report is taken unseen, a later one is refused. */
  lemma NegativeEpochMatters() returns (a: Report, b: Report)
    ensures FoldFromNone(0, [a, b]).percentage != FoldFromNone(0, [b, a]).percentage
  {
    a := Report(0, 0.9, -1, None, 0, 0);
    b := Report(0, 0.5, 0, None, 0, 0);
    assert [a, b][1..] == [b] && [b, a][1..] == [a];
    assert Fold(First(0, a), [b]) == Fold(Reconcile(First(0, a), b).0, []);
    assert Fold(First(0, b), [a]) == Fold(Reconcile(First(0, b), a).0, []);
  }

  /** Report i is the first of the fold to reach the percentage p above the record it started from. */
  predicate FirstToReach(reports: seq<Report>, i: nat, epoch: int, p: real) {
    && i < |reports| && Counts(reports[i], epoch) && reports[i].percentage == p
    && forall j :: 0 <= j < i && Counts(reports[j], epoch) ==> reports[j].percentage < p
  }

  /** A record stands where this report put it: the report's values, under the identity and epoch it had before. */
  predicate From(f: Record, before: Record, r: Report) {
    && f.percentage == r.percentage && f.position == r.position && f.device == r.device && f.observedAt == r.reportedAt
    && f.id == before.id && f.workId == before.workId && f.epoch == before.epoch
  }

  /** Provenance: the record is untouched, or carries the values of the first report that reached the maximum. */
  lemma {:induction false} FoldProvenance(canonical: Record, reports: seq<Report>)
    ensures var f := Fold(canonical, reports);
            if f.percentage == canonical.percentage then f == canonical
            else exists i: nat ::
                   FirstToReach(reports, i, canonical.epoch, f.percentage) && From(f, canonical, reports[i])
    decreases |reports|
  {
    if reports != [] {
      var next, rest := Reconcile(canonical, reports[0]).0, reports[1..];
      var f := Fold(next, rest);
      FoldProvenance(next, rest);
      FoldIsMaximum(next, rest);
      if f.percentage == next.percentage {
        if next != canonical {
          assert FirstToReach(reports, 0, canonical.epoch, f.percentage) && From(f, canonical, reports[0]);
        }
      } else {
        var i: nat :| FirstToReach(rest, i, next.epoch, f.percentage) && From(f, next, rest[i]);
        forall j | 0 <= j < i + 1 && Counts(reports[j], canonical.epoch) ensures reports[j].percentage < f.percentage {
          if j > 0 { assert reports[j] == rest[j - 1]; }
        }
        assert FirstToReach(reports, i + 1, canonical.epoch, f.percentage) && From(f, canonical, reports[i + 1]);
      }
    }
  }

  // ----- row-locked transactions -----

  datatype Tx = Tx(report: Report, override: bool, newId: nat)

  type Store = map<WorkId, Record>

  /** One transaction against the locked row of its work: the row it leaves, and the outcome it reports. */
  function Settle(row: Option<Record>, tx: Tx): (Record, Outcome) {
    match row
    case None => (First(tx.newId, tx.report), Advanced)
    case Some(current) =>
      if tx.override then (Override(current, tx.report), Overridden) else Reconcile(current, tx.report)
  }

  function Lookup(s: Store, w: WorkId): Option<Record> { if w in s then Some(s[w]) else None }

  function Commit(s: Store, tx: Tx): Store {
    s[tx.report.workId := Settle(Lookup(s, tx.report.workId), tx).0]
  }

  function Run(s: Store, txs: seq<Tx>): Store
    decreases |txs|
  {
    if txs == [] then s else Run(Commit(s, txs[0]), txs[1..])
  }

  class ProgressService {
    var rows: Store

    constructor ()
      ensures rows == map[]
    {
      rows := map[];
    }

    /**
     Reconciles and persists in one transaction. The first report becomes the row at epoch 0; an override replaces
     everything but the row's identity and raises the epoch by one; a report at or past the stored epoch with a
     higher percentage replaces the same at the same epoch; any other report leaves the row alone.
     */
    method ReportProgress(report: Report, override: bool, newId: nat) returns (result: Record, outcome: Outcome)
      modifies this
      ensures (result, outcome) == Settle(Lookup(old(rows), report.workId), Tx(report, override, newId))
      ensures rows == Commit(old(rows), Tx(report, override, newId)) == old(rows)[report.workId := result]
      ensures outcome.Unchanged? || outcome.Rejected? ==> rows == old(rows)
      ensures outcome.Advanced? || outcome.Overridden?
              ==> result.percentage == report.percentage && result.position == report.position
      ensures outcome.Advanced? || outcome.Overridden?
              ==> result.device == report.device && result.observedAt == report.reportedAt
      ensures report.workId !in old(rows)
              ==> outcome.Advanced? && result.id == newId && result.workId == report.workId && result.epoch == 0
      ensures report.workId in old(rows)
              ==> result.id == old(rows)[report.workId].id && result.workId == old(rows)[report.workId].workId
      ensures report.workId in old(rows) && override
              ==> outcome.Overridden? && result.epoch == old(rows)[report.workId].epoch + 1
      ensures report.workId in old(rows) && !override
              ==> !outcome.Overridden? && result.epoch == old(rows)[report.workId].epoch
      ensures report.workId in old(rows) && !override
              ==> (outcome.Advanced? <==> && report.observedEpoch >= old(rows)[report.workId].epoch
                                          && report.percentage > old(rows)[report.workId].percentage)
      ensures report.workId in old(rows) && !override
              ==> (outcome.Unchanged? <==> && report.observedEpoch >= old(rows)[report.workId].epoch
                                           && report.percentage == old(rows)[report.workId].percentage)
    {
      var w := report.workId;
      if w !in rows {
        result, outcome := First(newId, report), Advanced;
        rows := rows[w := result];
        return;
      }
      var current := rows[w];
      if override {
        result, outcome := Override(current, report), Overridden;
        rows := rows[w := result];
        return;
      }
      var res := Reconcile(current, report);
      result, outcome := res.0, res.1;
      if outcome.Advanced? {
        rows := rows[w := result];
      } else {
        assert rows[w := result] == rows;
      }
    }
  }

  /** The transactions on one work, in lock order. */
  function Only(txs: seq<Tx>, w: WorkId): seq<Tx>
    decreases |txs|
  {
    if txs == [] then []
    else (if txs[0].report.workId == w then [txs[0]] else []) + Only(txs[1..], w)
  }

  /** One row's history. */
  function Evolve(row: Option<Record>, txs: seq<Tx>): Option<Record>
    decreases |txs|
  {
    if txs == [] then row else Evolve(Some(Settle(row, txs[0]).0), txs[1..])
  }

  /** Any interleaving over many works is, for each work, the fold of its own transactions in lock order. */
  lemma {:induction false} RunIsRowwise(s: Store, txs: seq<Tx>, w: WorkId)
    ensures Lookup(Run(s, txs), w) == Evolve(Lookup(s, w), Only(txs, w))
    decreases |txs|
  {
    if txs != [] {
      RunIsRowwise(Commit(s, txs[0]), txs[1..], w);
      if txs[0].report.workId == w {
        assert ([txs[0]] + Only(txs[1..], w))[1..] == Only(txs[1..], w);
      } else {
        assert [] + Only(txs[1..], w) == Only(txs[1..], w);
      }
    }
  }

  function Reports(txs: seq<Tx>): seq<Report> { seq(|txs|, i requires 0 <= i < |txs| => txs[i].report) }

  /** Without overrides, that is the pure fold of the reports. */
  lemma {:induction false} EvolveIsFold(c: Record, txs: seq<Tx>)
    requires forall i :: 0 <= i < |txs| ==> !txs[i].override
    ensures Evolve(Some(c), txs) == Some(Fold(c, Reports(txs)))
    decreases |txs|
  {
    if txs != [] {
      assert Reports(txs)[1..] == Reports(txs[1..]);
      EvolveIsFold(Reconcile(c, txs[0].report).0, txs[1..]);
    }
  }

  /** Starting from no row it is the fold from none; the transaction that creates the row may even be an override. */
  lemma EvolveFromNoneIsFold(txs: seq<Tx>)
    requires txs != [] && forall i :: 0 < i < |txs| ==> !txs[i].override
    ensures Evolve(None, txs) == Some(FoldFromNone(txs[0].newId, Reports(txs)))
  {
    assert Reports(txs)[1..] == Reports(txs[1..]);
    EvolveIsFold(First(txs[0].newId, txs[0].report), txs[1..]);
  }

  /** So any interleaving of reports leaves, for each work, the fold of that work's reports in lock order. */
  lemma InterleavingIsFold(s: Store, txs: seq<Tx>, w: WorkId)
    requires Only(txs, w) != [] && forall i :: 0 <= i < |Only(txs, w)| ==> !Only(txs, w)[i].override
    ensures var own := Only(txs, w);
            && (w in s ==> Lookup(Run(s, txs), w) == Some(Fold(s[w], Reports(own))))
            && (w !in s ==> Lookup(Run(s, txs), w) == Some(FoldFromNone(own[0].newId, Reports(own))))
  {
    RunIsRowwise(s, txs, w);
    if w in s { EvolveIsFold(s[w], Only(txs, w)); } else { EvolveFromNoneIsFold(Only(txs, w)); }
  }

  /**
   A deliberate backward move holds: after an override and any later reports, the row is at the next epoch, at the
   override's own values or at those of the first later report, not behind that epoch, that reached the maximum.
   */
  lemma OverrideSetsTheFloor(c: Record, over: Tx, later: seq<Tx>)
    requires over.override && forall i :: 0 <= i < |later| ==> !later[i].override
    ensures Evolve(Some(c), [over] + later).Some?
    ensures var f, r, reports := Evolve(Some(c), [over] + later).value, over.report, Reports(later);
            && f.epoch == c.epoch + 1 && f.id == c.id && f.workId == c.workId
            && IsBest(f.percentage, r.percentage, reports, c.epoch + 1)
            && if f.percentage == r.percentage
               then f.position == r.position && f.device == r.device && f.observedAt == r.reportedAt
               else exists i: nat :: && FirstToReach(reports, i, c.epoch + 1, f.percentage)
                                     && f.position == reports[i].position && f.device == reports[i].device
                                     && f.observedAt == reports[i].reportedAt
  {
    var moved := Settle(Some(c), over).0;
    assert ([over] + later)[1..] == later;
    EvolveIsFold(moved, later);
    FoldIsMaximum(moved, Reports(later));
    FoldProvenance(moved, Reports(later));
  }

  /** Lexicographic order on (epoch, percentage). */
  predicate AtMost(a: Record, b: Record) {
    a.epoch < b.epoch || (a.epoch == b.epoch && a.percentage <= b.percentage)
  }

  function OverrideCount(txs: seq<Tx>): nat
    decreases |txs|
  {
    if txs == [] then 0 else (if txs[0].override then 1 else 0) + OverrideCount(txs[1..])
  }

  /** A row never moves down, keeps its id, and its epoch counts the overrides applied to it. */
  lemma {:induction false} EvolveNeverDecreases(c: Record, txs: seq<Tx>)
    ensures Evolve(Some(c), txs).Some?
    ensures var d := Evolve(Some(c), txs).value;
            AtMost(c, d) && d.id == c.id && d.epoch == c.epoch + OverrideCount(txs)
    decreases |txs|
  {
    if txs != [] { EvolveNeverDecreases(Settle(Some(c), txs[0]).0, txs[1..]); }
  }

  lemma {:induction false} RunSplit(s: Store, first: seq<Tx>, later: seq<Tx>)
    ensures Run(s, first + later) == Run(Run(s, first), later)
    decreases |first|
  {
    if first == [] {
      assert first + later == later;
    } else {
      assert (first + later)[1..] == first[1..] + later;
      RunSplit(Commit(s, first[0]), first[1..], later);
    }
  }

  /** Over any run: what is stored for a work never decreases, and its epoch rises by the overrides that hit the row. */
  lemma StoredNeverDecreases(s: Store, first: seq<Tx>, later: seq<Tx>, w: WorkId)
    requires w in Run(s, first)
    ensures w in Run(s, first + later)
    ensures var a, b := Run(s, first)[w], Run(s, first + later)[w];
            AtMost(a, b) && b.id == a.id && b.epoch == a.epoch + OverrideCount(Only(later, w))
  {
    RunSplit(s, first, later);
    RunIsRowwise(Run(s, first), later, w);
    EvolveNeverDecreases(Run(s, first)[w], Only(later, w));
  }

  /** A row created in the run has as epoch the number of overrides after the transaction that created it. */
  lemma EpochCountsOverrides(txs: seq<Tx>, w: WorkId)
    requires Only(txs, w) != []
    ensures w in Run(map[], txs) && Run(map[], txs)[w].epoch == OverrideCount(Only(txs, w)[1..])
  {
    RunIsRowwise(map[], txs, w);
    var mine := Only(txs, w);
    EvolveNeverDecreases(First(mine[0].newId, mine[0].report), mine[1..]);
  }

  lemma {:induction false} RunStep(s: Store, first: seq<Tx>, tx: Tx)
    ensures Run(s, first + [tx]) == Commit(Run(s, first), tx)
  {
    RunSplit(s, first, [tx]);
    assert [tx][1..] == [];
  }

  /** A report accepted as advanced is never lost: the store stays at or above it for ever. */
  lemma AcceptedNeverLost(s: Store, first: seq<Tx>, tx: Tx, later: seq<Tx>)
    requires Settle(Lookup(Run(s, first), tx.report.workId), tx).1.Advanced?
    ensures var w := tx.report.workId;
            && w in Run(s, first + [tx]) && w in Run(s, first + [tx] + later)
            && Run(s, first + [tx])[w].percentage == tx.report.percentage
            && AtMost(Run(s, first + [tx])[w], Run(s, first + [tx] + later)[w])
  {
    RunStep(s, first, tx);
    StoredNeverDecreases(s, first + [tx], later, tx.report.workId);
  }

  /** Once an override has raised the epoch, any report from an older epoch leaves the store untouched. */
  lemma OldEpochIgnored(s: Store, first: seq<Tx>, over: Tx, later: seq<Tx>, stale: Tx)
    requires over.override && over.report.workId in Run(s, first)
    requires !stale.override && stale.report.workId == over.report.workId
    requires stale.report.observedEpoch <= Run(s, first)[over.report.workId].epoch
    ensures Run(s, first + [over] + later + [stale]) == Run(s, first + [over] + later)
  {
    var w := over.report.workId;
    RunStep(s, first, over);
    StoredNeverDecreases(s, first + [over], later, w);
    RunStep(s, first + [over] + later, stale);
    var t := Run(s, first + [over] + later);
    assert Commit(t, stale) == t[w := t[w]];
  }
}
