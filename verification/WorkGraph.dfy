/**
 The containment graph read through the merge forest: which canonical work contains which, and
 how recording, undoing a merge and editing containment change it.
 */
module WorkGraph {
  import opened Prelude
  import opened Digraph
  import opened MergeForest

  /** Every work resolves and every containment reference points at an existing work. */
  ghost predicate Sound(ws: Works) {
    && Forest(ws)
    && forall w, c :: w in ws && c in ws[w].contains ==> c in ws
  }

  predicate IsReference(ws: Works, w: WorkId, c: WorkId) { w in ws && c in ws[w].contains }

  /** (a, b) when some work that means a contains some work that means b. */
  ghost function Containment(ws: Works): Edges<WorkId> {
    set w, c | w in ws && c in ws[w].contains && Canon(ws, w).Ok? && Canon(ws, c).Ok?
      :: (Canon(ws, w).value, Canon(ws, c).value)
  }

  lemma EdgeIntro(ws: Works, w: WorkId, c: WorkId)
    requires IsReference(ws, w, c) && Canon(ws, w).Ok? && Canon(ws, c).Ok?
    ensures (Canon(ws, w).value, Canon(ws, c).value) in Containment(ws)
  {
  }

  lemma EdgeElim(ws: Works, a: WorkId, b: WorkId) returns (w: WorkId, c: WorkId)
    requires (a, b) in Containment(ws)
    ensures IsReference(ws, w, c) && Canon(ws, w) == Ok(a) && Canon(ws, c) == Ok(b)
  {
    w, c :| w in ws && c in ws[w].contains && Canon(ws, w).Ok? && Canon(ws, c).Ok?
      && (Canon(ws, w).value, Canon(ws, c).value) == (a, b);
  }

  // ----- the containment closure -----

  /** Adds the resolved containment references of one work to the closure and the queue. */
  method VisitContains(ws: Works, w: WorkId, closure0: set<WorkId>, queue0: seq<WorkId>)
    returns (failed: Option<Category>, closure: set<WorkId>, queue: seq<WorkId>)
    requires w in ws
    ensures failed.Some? ==> exists c :: IsReference(ws, w, c) && Canon(ws, c) == Err(failed.value)
    ensures failed.None? ==> forall c :: IsReference(ws, w, c) ==> Canon(ws, c).Ok? && Canon(ws, c).value in closure
    ensures closure0 <= closure && queue0 <= queue
    ensures forall x :: x in closure && x !in closure0
              ==> x in queue && exists c :: IsReference(ws, w, c) && Canon(ws, c) == Ok(x)
    ensures forall x :: x in queue ==> x in queue0 || x in closure
  {
    closure, queue, failed := closure0, queue0, None;
    var refs := ws[w].contains;
    for i := 0 to |refs|
      invariant forall j :: 0 <= j < i ==> Canon(ws, refs[j]).Ok? && Canon(ws, refs[j]).value in closure
      invariant closure0 <= closure && queue0 <= queue
      invariant forall x :: x in closure && x !in closure0
                  ==> x in queue && exists c :: IsReference(ws, w, c) && Canon(ws, c) == Ok(x)
      invariant forall x :: x in queue ==> x in queue0 || x in closure
    {
      var resolved := ResolveCanonicalWork(ws, refs[i]);
      assert IsReference(ws, w, refs[i]);
      if resolved.Err? { return Some(resolved.category), closure, queue; }
      if resolved.value !in closure {
        closure, queue := closure + {resolved.value}, queue + [resolved.value];
      }
    }
  }

  /** What the closure walk has established; `visited` groups are fully expanded. */
  ghost predicate Walked(ws: Works, start: WorkId, closure: set<WorkId>, queue: seq<WorkId>, visited: set<WorkId>) {
    && (forall x :: x in closure ==> Reach(Containment(ws), start, x))
    && (forall x :: x in closure || x == start ==> x in visited || x in queue)
    && (forall x :: x in queue || x in visited ==> x == start || x in closure)
    && (forall x :: x in queue ==> IsRoot(ws, x))
    && (forall x, y :: x in visited && (x, y) in Containment(ws) ==> y in closure)
    && visited <= ws.Keys
  }

  /** `closure` is exactly what canonical work `a` contains, by one or more resolved references. */
  ghost predicate IsClosure(ws: Works, a: WorkId, closure: set<WorkId>) {
    forall x :: x in closure <==> Reach(Containment(ws), a, x)
  }

  /** Some reference fails to resolve, with this error. */
  ghost predicate BrokenReference(ws: Works, category: Category) {
    exists w, c :: IsReference(ws, w, c) && Canon(ws, c) == Err(category)
  }

  method ContainsClosure(ws: Works, start: WorkId) returns (r: Result<set<WorkId>>)
    ensures r.Ok? ==> Canon(ws, start).Ok? && IsClosure(ws, Canon(ws, start).value, r.value)
    ensures r.Err? ==> Canon(ws, start) == Err(r.category) || BrokenReference(ws, r.category)
    ensures Sound(ws) && start in ws ==> r.Ok?
  {
    var resolved := ResolveCanonicalWork(ws, start);
    if resolved.Err? { return Err(resolved.category); }
    var s := resolved.value;
    var _ := CanonIsRoot(ws, start);
    var closure, queue, visited := {}, [s], {};
    while |queue| > 0
      invariant Walked(ws, s, closure, queue, visited)
      decreases ws.Keys - visited, |queue|
    {
      var canonical := queue[0];
      assert canonical in queue;
      ghost var before := queue;
      queue := queue[1..];
      assert forall x :: x in before <==> x == canonical || x in queue;
      if canonical !in visited {
        var group := CollectMergeGroup(ws, canonical);
        var failed;
        failed, closure, queue := ExpandGroup(ws, s, canonical, group.value, closure, queue, visited);
        if failed.Some? { return Err(failed.value); }
        visited := visited + {canonical};
      }
    }
    forall x | Reach(Containment(ws), s, x) ensures x in closure {
      var n: nat :| Path(Containment(ws), s, x, n);
      ClosedContainsReach(Containment(ws), s, x, n, closure);
    }
    r := Ok(closure);
  }

  /** Half-way through expanding the group of `canonical`. */
  ghost predicate Expanding(ws: Works, start: WorkId, canonical: WorkId, closure: set<WorkId>, queue: seq<WorkId>,
                            visited: set<WorkId>) {
    && (forall x :: x in closure ==> Reach(Containment(ws), start, x))
    && (forall x :: x in closure || x == start ==> x in visited || x in queue || x == canonical)
    && (forall x :: x in queue ==> IsRoot(ws, x) && (x == start || x in closure))
  }

  lemma VisitKeeps(ws: Works, start: WorkId, canonical: WorkId, w: WorkId, visited: set<WorkId>,
                   closure: set<WorkId>, queue: seq<WorkId>, closure': set<WorkId>, queue': seq<WorkId>)
    requires Expanding(ws, start, canonical, closure, queue, visited)
    requires canonical == start || canonical in closure
    requires Canon(ws, w) == Ok(canonical)
    requires closure <= closure' && queue <= queue'
    requires forall x :: x in closure' && x !in closure
               ==> x in queue' && exists c :: IsReference(ws, w, c) && Canon(ws, c) == Ok(x)
    requires forall x :: x in queue' ==> x in queue || x in closure'
    ensures Expanding(ws, start, canonical, closure', queue', visited)
  {
    assert forall x :: x in queue ==> x in queue';
    forall x | x in closure' && x !in closure ensures Reach(Containment(ws), start, x) {
      var c :| IsReference(ws, w, c) && Canon(ws, c) == Ok(x);
      EdgeIntro(ws, w, c);
      ReachEdge(Containment(ws), canonical, x);
      if canonical != start { ReachTransitive(Containment(ws), start, canonical, x); }
    }
    forall x | x in queue' ensures IsRoot(ws, x) {
      if x !in queue { ReachedIsRoot(ws, start, x); }
    }
  }

  lemma ReachedIsRoot(ws: Works, a: WorkId, x: WorkId)
    requires Reach(Containment(ws), a, x)
    ensures IsRoot(ws, x)
  {
    var n: nat :| Path(Containment(ws), a, x, n);
    var b := LastEdge(Containment(ws), a, x, n);
    var w, c := EdgeElim(ws, b, x);
    var _ := CanonIsRoot(ws, c);
  }

  method ExpandGroup(ws: Works, ghost start: WorkId, canonical: WorkId, group: seq<WorkId>,
                     closure0: set<WorkId>, queue0: seq<WorkId>, ghost visited: set<WorkId>)
    returns (failed: Option<Category>, closure: set<WorkId>, queue: seq<WorkId>)
    requires IsMergeGroup(ws, canonical, group)
    requires Expanding(ws, start, canonical, closure0, queue0, visited)
    requires canonical == start || canonical in closure0
    ensures failed.Some? ==> BrokenReference(ws, failed.value)
    ensures failed.None? ==> Expanding(ws, start, canonical, closure, queue, visited) && closure0 <= closure
    ensures failed.None? ==> forall y :: (canonical, y) in Containment(ws) ==> y in closure
  {
    closure, queue, failed := closure0, queue0, None;
    for i := 0 to |group|
      invariant failed.None? && closure0 <= closure && Expanding(ws, start, canonical, closure, queue, visited)
      invariant forall j, c :: 0 <= j < i && IsReference(ws, group[j], c)
                  ==> Canon(ws, c).Ok? && Canon(ws, c).value in closure
    {
      var w := group[i];
      assert w in group;
      var _ := CanonIsRoot(ws, w);
      ghost var closure1, queue1 := closure, queue;
      failed, closure, queue := VisitContains(ws, w, closure, queue);
      if failed.Some? { return; }
      VisitKeeps(ws, start, canonical, w, visited, closure1, queue1, closure, queue);
    }
    forall y | (canonical, y) in Containment(ws) ensures y in closure {
      var w, c := EdgeElim(ws, canonical, y);
      assert w in group;
    }
  }
}
