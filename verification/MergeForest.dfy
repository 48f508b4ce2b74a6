/**
 Merge pointers between works: following them to the canonical work, and collecting the whole
 group that was merged into it.
 */
module MergeForest {
  import opened Prelude

  type WorkId = nat

  /** Title, subtitle and original language: what a resolved work takes from its canonical work alone. */
  datatype Heading = Heading(title: string, subtitle: string, language: Option<string>)

  /** The lists a resolved work unites over its merge group. */
  datatype Field = Authors | Subjects | References | Contains

  datatype Work = Work(
    mergedInto: Option<WorkId>, contains: seq<WorkId>,
    heading: Heading, authors: seq<nat>, subjects: seq<nat>, references: seq<nat>)
  {
    function List(f: Field): seq<nat> {
      match f
      case Authors => authors
      case Subjects => subjects
      case References => references
      case Contains => contains
    }
  }

  type Works = map<WorkId, Work>

  predicate IsRoot(ws: Works, id: WorkId) { id in ws && ws[id].mergedInto.None? }

  predicate IsMergedWork(ws: Works, id: WorkId) { id in ws && ws[id].mergedInto.Some? }

  function Parent(ws: Works, id: WorkId): WorkId
    requires IsMergedWork(ws, id)
  {
    ws[id].mergedInto.value
  }

  /** Following merge pointers from `id` ends, after exactly n hops, at `r`: a canonical or a missing work. */
  predicate Climbs(ws: Works, id: WorkId, r: WorkId, n: nat)
    decreases n
  {
    if n == 0 then id == r && !IsMergedWork(ws, r)
    else IsMergedWork(ws, id) && Climbs(ws, Parent(ws, id), r, n - 1)
  }

  /** `s` lies on the merge chain of `id`, n hops up. */
  predicate Visits(ws: Works, id: WorkId, s: WorkId, n: nat)
    decreases n
  {
    if n == 0 then id == s else IsMergedWork(ws, id) && Visits(ws, Parent(ws, id), s, n - 1)
  }

  ghost predicate OnChain(ws: Works, id: WorkId, s: WorkId) { exists n :: Visits(ws, id, s, n) }

  /** The answer for a chain that ends at `r`. */
  function Outcome(ws: Works, r: WorkId): Result<WorkId> {
    if r in ws then Ok(r) else Err(NotFound)
  }

  /** The resolution loop as a recursion; `seen` are the works visited so far. */
  function ResolveFrom(ws: Works, id: WorkId, seen: set<WorkId>): Result<WorkId>
    decreases ws.Keys - seen
  {
    if id in seen then Err(Internal)
    else if id !in ws then Err(NotFound)
    else if ws[id].mergedInto.None? then Ok(id)
    else ResolveFrom(ws, ws[id].mergedInto.value, seen + {id})
  }

  function Canon(ws: Works, id: WorkId): Result<WorkId> { ResolveFrom(ws, id, {}) }

  method ResolveCanonicalWork(ws: Works, id: WorkId) returns (r: Result<WorkId>)
    ensures r == Canon(ws, id)
  {
    var current, seen := id, {};
    while true
      invariant Canon(ws, id) == ResolveFrom(ws, current, seen)
      decreases ws.Keys - seen
    {
      if current in seen { return Err(Internal); }
      seen := seen + {current};
      if current !in ws { return Err(NotFound); }
      if ws[current].mergedInto.None? { return Ok(current); }
      current := ws[current].mergedInto.value;
    }
  }

  lemma {:induction false} ClimbUnique(ws: Works, id: WorkId, r: WorkId, r': WorkId, n: nat, n': nat)
    requires Climbs(ws, id, r, n) && Climbs(ws, id, r', n')
    ensures r == r' && n == n'
    decreases n
  {
    if n > 0 { ClimbUnique(ws, Parent(ws, id), r, r', n - 1, n' - 1); }
  }

  ghost predicate FurtherOut(ws: Works, x: WorkId, r: WorkId, n: nat) {
    exists m :: n < m && Climbs(ws, x, r, m)
  }

  /** Works visited before `id` on the way up are strictly further from the end, so `id` is not among them. */
  lemma {:induction false} ClimbResolves(ws: Works, id: WorkId, r: WorkId, n: nat, seen: set<WorkId>)
    requires Climbs(ws, id, r, n)
    requires forall x :: x in seen ==> FurtherOut(ws, x, r, n)
    ensures ResolveFrom(ws, id, seen) == Outcome(ws, r)
    decreases n
  {
    if id in seen {
      var m :| n < m && Climbs(ws, id, r, m);
      ClimbUnique(ws, id, r, r, n, m);
      assert false;
    } else if n > 0 {
      assert FurtherOut(ws, id, r, n - 1);
      assert forall x :: FurtherOut(ws, x, r, n) ==> FurtherOut(ws, x, r, n - 1);
      ClimbResolves(ws, Parent(ws, id), r, n - 1, seen + {id});
    }
  }

  lemma {:induction false} ResolvedClimbs(ws: Works, id: WorkId, seen: set<WorkId>) returns (r: WorkId, n: nat)
    requires ResolveFrom(ws, id, seen) != Err(Internal)
    ensures Climbs(ws, id, r, n) && ResolveFrom(ws, id, seen) == Outcome(ws, r)
    decreases ws.Keys - seen
  {
    if IsMergedWork(ws, id) {
      r, n := ResolvedClimbs(ws, Parent(ws, id), seen + {id});
      n := n + 1;
    } else {
      r, n := id, 0;
    }
  }

  ghost predicate Ends(ws: Works, id: WorkId, r: WorkId) { exists n :: Climbs(ws, id, r, n) }

  /**
   What resolution answers: the canonical work at the end of the chain, NotFound when the chain
   leads to a work that does not exist, Internal exactly when the chain never ends.
   */
  lemma CanonMeaning(ws: Works, id: WorkId)
    ensures forall r :: Canon(ws, id) == Ok(r) <==> r in ws && Ends(ws, id, r)
    ensures Canon(ws, id) == Err(NotFound) <==> exists r :: r !in ws && Ends(ws, id, r)
    ensures Canon(ws, id) == Err(Internal) <==> forall r :: !Ends(ws, id, r)
  {
    forall r | Ends(ws, id, r) ensures Canon(ws, id) == Outcome(ws, r) {
      var n :| Climbs(ws, id, r, n);
      ClimbResolves(ws, id, r, n, {});
    }
    if Canon(ws, id) != Err(Internal) {
      var r, n := ResolvedClimbs(ws, id, {});
      assert Ends(ws, id, r);
    }
  }

  lemma CanonOfClimb(ws: Works, id: WorkId, r: WorkId, n: nat)
    requires Climbs(ws, id, r, n)
    ensures Canon(ws, id) == Outcome(ws, r)
  {
    ClimbResolves(ws, id, r, n, {});
  }

  lemma CanonIsRoot(ws: Works, id: WorkId) returns (n: nat)
    requires Canon(ws, id).Ok?
    ensures id in ws && IsRoot(ws, Canon(ws, id).value) && Climbs(ws, id, Canon(ws, id).value, n)
    ensures Canon(ws, Canon(ws, id).value) == Canon(ws, id)
  {
    var r;
    r, n := ResolvedClimbs(ws, id, {});
    ClimbEndsAtLeaf(ws, id, r, n);
    CanonOfClimb(ws, r, r, 0);
  }

  lemma {:induction false} ClimbEndsAtLeaf(ws: Works, id: WorkId, r: WorkId, n: nat)
    requires Climbs(ws, id, r, n)
    ensures !IsMergedWork(ws, r) && (r in ws ==> id in ws)
    decreases n
  {
    if n > 0 { ClimbEndsAtLeaf(ws, Parent(ws, id), r, n - 1); }
  }

  /** Every work resolves: the merge pointers form a forest and none dangles. */
  ghost predicate Forest(ws: Works) { forall id :: id in ws ==> Canon(ws, id).Ok? }

  // ----- collecting a merge group -----

  /** SELECT id FROM works WHERE merged_into = canonical: one hop, in no particular order. */
  method FindMergedInto(ws: Works, canonical: WorkId) returns (members: seq<WorkId>)
    ensures Distinct(members)
    ensures forall m :: m in members <==> IsMergedWork(ws, m) && Parent(ws, m) == canonical
  {
    members := [];
    var rest := ws.Keys;
    while rest != {}
      invariant rest <= ws.Keys && Distinct(members)
      invariant forall m :: m in members <==> m in ws && m !in rest && IsMergedWork(ws, m) && Parent(ws, m) == canonical
      decreases rest
    {
      var w :| w in rest;
      if ws[w].mergedInto == Some(canonical) { members := members + [w]; }
      rest := rest - {w};
    }
  }

  /** `group` lists, once each, exactly the works that resolve to `canonical`. */
  ghost predicate IsMergeGroup(ws: Works, canonical: WorkId, group: seq<WorkId>) {
    Distinct(group) && forall w :: w in group <==> Canon(ws, w) == Ok(canonical)
  }

  /** `group` lists, once each, exactly the works whose merge chain passes through `top`. */
  ghost predicate ListsBelow(ws: Works, top: WorkId, group: seq<WorkId>) {
    Distinct(group) && forall w :: w in group <==> w in ws && OnChain(ws, w, top)
  }

  /** The merge chain of `id` does not come back to it. */
  ghost predicate OffCycle(ws: Works, id: WorkId) { IsMergedWork(ws, id) ==> !OnChain(ws, Parent(ws, id), id) }

  /**
   Breadth-first collection without a visited set. The queue is always the tail of the group still to be expanded,
   which is why it needs none: a member has one parent, and each parent is expanded once. Started on a merge cycle
   it would go round for ever; callers pass a resolved id, which is on none.
   */
  method CollectMergeGroup(ws: Works, canonical: WorkId) returns (r: Result<seq<WorkId>>)
    requires OffCycle(ws, canonical)
    ensures canonical !in ws ==> r == Err(NotFound)
    ensures canonical in ws ==> r.Ok? && ListsBelow(ws, canonical, r.value) && |r.value| > 0 && r.value[0] == canonical
    ensures IsRoot(ws, canonical) ==> r.Ok? && IsMergeGroup(ws, canonical, r.value)
  {
    if canonical !in ws { return Err(NotFound); }
    var group, queue := [canonical], [canonical];
    ghost var done, parents := 0, [0];
    while |queue| > 0
      invariant done <= |group| && queue == group[done..]
      invariant Grown(ws, canonical, group, parents, done)
      invariant |group| <= |ws.Keys|
      decreases 2 * (|ws.Keys| - |group|) + |queue|
    {
      var current := queue[0];
      var members := FindMergedInto(ws, current);
      parents := GrowStep(ws, canonical, group, parents, done, members);
      queue := queue[1..] + members;
      group := group + members;
      done := done + 1;
      DistinctFits(group, ws.Keys);
    }
    GrownComplete(ws, canonical, group, parents);
    if IsRoot(ws, canonical) { BelowRootIsGroup(ws, canonical, group); }
    r := Ok(group);
  }

  /**
   A breadth-first listing in which the first `done` works have been expanded; `parents` gives the
   position of each work's merge target.
   */
  ghost predicate Grown(ws: Works, top: WorkId, group: seq<WorkId>, parents: seq<nat>, done: nat) {
    && top in ws && OffCycle(ws, top) && 0 < |group| == |parents| && group[0] == top && done <= |group|
    && Distinct(group)
    && (forall i :: 0 <= i < |group| ==> group[i] in ws)
    && (forall i :: 0 < i < |group| ==> parents[i] < i && parents[i] < done)
    && (forall i :: 0 < i < |group| ==> IsMergedWork(ws, group[i]) && Parent(ws, group[i]) == group[parents[i]])
    && (forall m, j :: IsMergedWork(ws, m) && 0 <= j < done && Parent(ws, m) == group[j] ==> m in group)
  }

  lemma {:induction false} MemberVisits(ws: Works, top: WorkId, group: seq<WorkId>, parents: seq<nat>, done: nat,
                                        i: nat)
    returns (n: nat)
    requires Grown(ws, top, group, parents, done) && i < |group|
    ensures Visits(ws, group[i], top, n)
    decreases i
  {
    n := 0;
    if i > 0 {
      n := MemberVisits(ws, top, group, parents, done, parents[i]);
      n := n + 1;
    }
  }

  /** A work merged into a member is not in the group yet when that member is about to be expanded. */
  lemma NewMember(ws: Works, top: WorkId, group: seq<WorkId>, parents: seq<nat>, done: nat, m: WorkId)
    requires Grown(ws, top, group, parents, done) && done < |group|
    requires IsMergedWork(ws, m) && Parent(ws, m) == group[done]
    ensures m !in group
  {
    if m in group {
      var i :| 0 <= i < |group| && group[i] == m;
      if i == 0 {
        var n := MemberVisits(ws, top, group, parents, done, done);
        assert OnChain(ws, Parent(ws, top), top);
      }
    }
  }

  lemma GrowStep(ws: Works, top: WorkId, group: seq<WorkId>, parents: seq<nat>, done: nat, members: seq<WorkId>)
    returns (parents': seq<nat>)
    requires Grown(ws, top, group, parents, done) && done < |group| && Distinct(members)
    requires forall m :: m in members <==> IsMergedWork(ws, m) && Parent(ws, m) == group[done]
    ensures Grown(ws, top, group + members, parents', done + 1)
  {
    parents' := parents + seq(|members|, _ => done);
    var bigger := group + members;
    forall i, j | 0 <= i < |group| && 0 <= j < |members| ensures group[i] != members[j] {
      assert members[j] in members;
      NewMember(ws, top, group, parents, done, members[j]);
    }
    forall i | |group| <= i < |bigger| ensures IsMergedWork(ws, bigger[i]) && Parent(ws, bigger[i]) == group[done] {
      assert bigger[i] == members[i - |group|];
      assert bigger[i] in members;
    }
    assert Distinct(bigger);
    forall m, j | IsMergedWork(ws, m) && 0 <= j < done + 1 && Parent(ws, m) == bigger[j] ensures m in bigger {
      if j == done { assert m in members; } else { assert m in group; }
    }
  }

  lemma GrownComplete(ws: Works, top: WorkId, group: seq<WorkId>, parents: seq<nat>)
    requires Grown(ws, top, group, parents, |group|)
    ensures ListsBelow(ws, top, group)
  {
    forall w ensures w in group <==> w in ws && OnChain(ws, w, top) {
      if w in group {
        var i :| 0 <= i < |group| && group[i] == w;
        var n := MemberVisits(ws, top, group, parents, |group|, i);
      } else if OnChain(ws, w, top) {
        var n :| Visits(ws, w, top, n);
        VisitorIsMember(ws, top, group, parents, w, n);
      }
    }
  }

  lemma {:induction false} VisitorIsMember(ws: Works, top: WorkId, group: seq<WorkId>, parents: seq<nat>, w: WorkId,
                                           n: nat)
    requires Grown(ws, top, group, parents, |group|) && Visits(ws, w, top, n)
    ensures w in group
    decreases n
  {
    if n == 0 {
      assert w == group[0];
    } else {
      VisitorIsMember(ws, top, group, parents, Parent(ws, w), n - 1);
    }
  }

  lemma {:induction false} VisitIsClimb(ws: Works, w: WorkId, root: WorkId, n: nat)
    requires IsRoot(ws, root)
    ensures Visits(ws, w, root, n) <==> Climbs(ws, w, root, n)
    decreases n
  {
    if n > 0 && IsMergedWork(ws, w) { VisitIsClimb(ws, Parent(ws, w), root, n - 1); }
  }

  /** Below a canonical work lie exactly the works that resolve to it. */
  lemma BelowRootIsGroup(ws: Works, root: WorkId, group: seq<WorkId>)
    requires IsRoot(ws, root) && ListsBelow(ws, root, group)
    ensures IsMergeGroup(ws, root, group)
  {
    forall w ensures w in group <==> Canon(ws, w) == Ok(root) {
      if w in group {
        var n :| Visits(ws, w, root, n);
        VisitIsClimb(ws, w, root, n);
        CanonOfClimb(ws, w, root, n);
      } else if Canon(ws, w) == Ok(root) {
        var n := CanonIsRoot(ws, w);
        VisitIsClimb(ws, w, root, n);
      }
    }
  }
}
