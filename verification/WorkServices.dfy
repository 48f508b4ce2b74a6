/**
 The merge and containment services over a catalogue of works, and the two read-side views that
 go through a merge group: the resolved work and library membership.
 */
module WorkServices {
  import opened Prelude
  import opened Digraph
  import opened MergeForest
  import opened WorkGraph
  import WorkEdits

  type EditionId = nat

  datatype ResolvedWork = ResolvedWork(
    canonicalId: WorkId, heading: Heading,
    authors: seq<nat>, subjects: seq<nat>, references: seq<nat>, contains: seq<WorkId>)
  {
    function List(f: Field): seq<nat> {
      match f
      case Authors => authors
      case Subjects => subjects
      case References => references
      case Contains => contains
    }
  }

  /** `list` is, without repeats, the union of one field over the first n works of the group. */
  ghost predicate Unites(ws: Works, group: seq<WorkId>, n: nat, f: Field, list: seq<nat>, seen: set<nat>)
    requires n <= |group| && forall j :: 0 <= j < |group| ==> group[j] in ws
  {
    && Distinct(list) && (forall a :: a in list <==> a in seen)
    && (forall a :: a in list <==> exists j :: 0 <= j < n && a in ws[group[j]].List(f))
    && (n > 0 ==> OwnFirst(ws[group[0]].List(f), list))
  }

  /** What `own` holds comes first in `list`, in the order in which `own` first holds it. */
  ghost predicate OwnFirst(own: seq<nat>, list: seq<nat>) {
    forall i, j :: 0 <= i < j < |list| && list[j] in own ==> ComesBefore(own, list[i], list[j])
  }

  ghost predicate ComesBefore(own: seq<nat>, a: nat, b: nat) {
    exists p :: 0 <= p < |own| && own[p] == a && b !in own[..p + 1]
  }

  lemma NewOnesInOrder(own: seq<nat>, list: seq<nat>, picks: seq<nat>)
    requires Selects(own, picks, list) && Distinct(list)
    requires forall k :: 0 <= k < |picks| ==> own[picks[k]] !in own[..picks[k]]
    ensures OwnFirst(own, list)
  {
    forall i, j | 0 <= i < j < |list| ensures ComesBefore(own, list[i], list[j]) {
      assert forall q :: 0 <= q <= picks[i] ==> own[..picks[j]][q] == own[q];
      assert own[picks[i]] == list[i] && list[j] !in own[..picks[i] + 1];
    }
  }

  lemma OwnStaysFirst(own: seq<nat>, list0: seq<nat>, list: seq<nat>)
    requires OwnFirst(own, list0) && list0 <= list && Distinct(list) && forall a :: a in own ==> a in list0
    ensures OwnFirst(own, list)
  {
    forall i, j | 0 <= i < j < |list| && list[j] in own ensures ComesBefore(own, list[i], list[j]) {
      var k :| 0 <= k < |list0| && list0[k] == list[j];
      assert list[k] == list[j];
    }
  }

  method UniteNext(ws: Works, group: seq<WorkId>, n: nat, f: Field, list0: seq<nat>, seen0: set<nat>)
    returns (list: seq<nat>, seen: set<nat>)
    requires n < |group| && (forall j :: 0 <= j < |group| ==> group[j] in ws) && Unites(ws, group, n, f, list0, seen0)
    ensures Unites(ws, group, n + 1, f, list, seen)
  {
    ghost var picks;
    list, seen, picks := AppendUnseen(list0, seen0, ws[group[n]].List(f));
    if n == 0 {
      DistinctCardinality(list0);
      assert (set a | a in list0) == {};
      assert list[|list0|..] == list;
      NewOnesInOrder(ws[group[0]].List(f), list, picks);
    } else {
      OwnStaysFirst(ws[group[0]].List(f), list0, list);
    }
  }

  /** One field over the whole group. */
  method UniteField(ws: Works, group: seq<WorkId>, f: Field) returns (list: seq<nat>)
    requires forall j :: 0 <= j < |group| ==> group[j] in ws
    ensures Unites(ws, group, |group|, f, list, (set a | a in list))
  {
    list := [];
    var seen: set<nat> := {};
    for i := 0 to |group|
      invariant Unites(ws, group, i, f, list, seen)
    {
      list, seen := UniteNext(ws, group, i, f, list, seen);
    }
  }

  /** The list holds, once each, what the works that resolve like `id` have in this field, the canonical one's first. */
  ghost predicate IsUnion(ws: Works, id: WorkId, canonical: WorkId, f: Field, list: seq<nat>)
    requires canonical in ws
  {
    Distinct(list) && (forall a :: a in list <==> Carries(ws, id, f, a)) && OwnFirst(ws[canonical].List(f), list)
  }

  /** The union over a merge group is the union over the works that resolve alike. */
  lemma UnionOfGroup(ws: Works, id: WorkId, group: seq<WorkId>, f: Field, list: seq<nat>, seen: set<nat>)
    requires Canon(ws, id).Ok? && IsMergeGroup(ws, Canon(ws, id).value, group)
    requires (forall j :: 0 <= j < |group| ==> group[j] in ws) && Unites(ws, group, |group|, f, list, seen)
    requires 0 < |group| && group[0] == Canon(ws, id).value
    ensures IsUnion(ws, id, Canon(ws, id).value, f, list)
  {
    GroupMembers(ws, id, group);
    forall a | a in list ensures Carries(ws, id, f, a) {
      var j :| 0 <= j < |group| && a in ws[group[j]].List(f);
      assert Canon(ws, group[j]) == Canon(ws, id);
    }
  }

  /** Some work that resolves like `id` has `a` in this field. */
  ghost predicate Carries(ws: Works, id: WorkId, f: Field, a: nat) {
    exists w :: w in ws && Canon(ws, w) == Canon(ws, id) && a in ws[w].List(f)
  }

  /** A set of merged works, none of them `s`, that merge chains never leave. */
  lemma {:induction false} ClosedChainMisses(ws: Works, x: WorkId, s: WorkId, n: nat, closed: set<WorkId>)
    requires x in closed && s !in closed
    requires forall v :: v in closed ==> IsMergedWork(ws, v) && Parent(ws, v) in closed
    ensures !Visits(ws, x, s, n)
    decreases n
  {
    if n > 0 { ClosedChainMisses(ws, Parent(ws, x), s, n - 1, closed); }
  }

  lemma ChainStep(ws: Works, x: WorkId, s: WorkId)
    requires IsMergedWork(ws, x) && x != s
    ensures OnChain(ws, x, s) <==> OnChain(ws, Parent(ws, x), s)
  {
    if n: nat :| Visits(ws, Parent(ws, x), s, n) {
      assert Visits(ws, x, s, n + 1);
    }
    if n: nat :| Visits(ws, x, s, n) {
      assert Visits(ws, Parent(ws, x), s, n - 1);
    }
  }

  /** An entry exists for an edition of some work that resolves like `id`. */
  ghost predicate Owned(ws: Works, editions: map<EditionId, WorkId>, entries: set<EditionId>, id: WorkId) {
    exists e :: e in editions && e in entries && Canon(ws, editions[e]) == Canon(ws, id)
  }

  /** Both works exist, the source is not on the target's chain, and the target does not contain the source. */
  ghost predicate Mergeable(ws: Works, source: WorkId, target: WorkId) {
    && source in ws && target in ws && !OnChain(ws, target, source)
    && Canon(ws, source).Ok? && Canon(ws, target).Ok?
    && !Reach(Containment(ws), Canon(ws, target).value, Canon(ws, source).value)
  }

  /** Both works exist, mean different works, and the containee does not contain the container. */
  ghost predicate Containable(ws: Works, container: WorkId, containee: WorkId) {
    && container in ws && containee in ws && Canon(ws, container).Ok? && Canon(ws, containee).Ok?
    && Canon(ws, container) != Canon(ws, containee)
    && !Reach(Containment(ws), Canon(ws, containee).value, Canon(ws, container).value)
  }

  /** `after` is what `before` holds at these places, in order: everywhere but where it holds c. */
  ghost predicate Dropped(before: seq<WorkId>, c: WorkId, kept: seq<nat>, after: seq<WorkId>) {
    Selects(before, kept, after) && forall j: nat :: j < |before| ==> (j in kept <==> before[j] != c)
  }

  /** The compaction loop: every reference but those to c stays, in order. */
  method Compact(refs: seq<WorkId>, c: WorkId) returns (filtered: seq<WorkId>, ghost kept: seq<nat>)
    ensures filtered == WorkEdits.Without(refs, c) && Dropped(refs, c, kept, filtered)
  {
    filtered := [];
    for i := 0 to |refs|
      invariant filtered == WorkEdits.Without(refs[..i], c)
    {
      assert refs[..i + 1][..i] == refs[..i];
      if refs[i] != c { filtered := filtered + [refs[i]]; }
    }
    assert refs[..|refs|] == refs;
    kept := WorkEdits.WithoutKeepsTheRest(refs, c);
  }

  class WorkCatalogue {
    var works: Works

    constructor ()
      ensures works == map[]
    {
      works := map[];
    }

    /** Walks the target's merge chain; a cycle already in the data ends the walk with "not reachable". */
    method SourceReachableFromTarget(source: WorkId, target: WorkId) returns (r: Result<bool>)
      ensures r.Ok? ==> (r.value <==> OnChain(works, target, source))
      ensures r.Ok? && !r.value ==> target in works
      ensures r.Err? ==> r.category == NotFound && !OnChain(works, target, source)
      ensures r.Err? ==> Canon(works, target) == Err(NotFound)
    {
      var current, visited := target, {};
      while true
        invariant visited <= works.Keys && source !in visited && (current != target ==> target in visited)
        invariant forall v :: v in visited
                    ==> IsMergedWork(works, v) && (Parent(works, v) in visited || Parent(works, v) == current)
        invariant OnChain(works, target, source) <==> OnChain(works, current, source)
        invariant Canon(works, target) == ResolveFrom(works, current, visited)
        decreases works.Keys - visited
      {
        if current == source {
          assert Visits(works, current, source, 0);
          return Ok(true);
        }
        if current in visited {
          forall n: nat ensures !Visits(works, current, source, n) {
            ClosedChainMisses(works, current, source, n, visited);
          }
          return Ok(false);
        }
        if current !in works { return Err(NotFound); }
        visited := visited + {current};
        if works[current].mergedInto.None? { return Ok(false); }
        ChainStep(works, current, source);
        current := works[current].mergedInto.value;
      }
    }

    /** Does what the target means already contain what the source means? */
    method WouldCreateSelfContainment(source: WorkId, target: WorkId) returns (r: Result<bool>)
      ensures r.Ok? ==> Canon(works, source).Ok? && Canon(works, target).Ok?
      ensures r.Ok? ==> (r.value <==> Reach(Containment(works), Canon(works, target).value, Canon(works, source).value))
      ensures Sound(works) && target in works && source in works ==> r.Ok?
      ensures Sound(works) && r.Err? ==> r.category == NotFound
    {
      var t := ResolveCanonicalWork(works, target);
      CanonMeaning(works, target);
      if t.Err? { MissingIsNotFound(works, target); return Err(t.category); }
      var s := ResolveCanonicalWork(works, source);
      if s.Err? { MissingIsNotFound(works, source); return Err(s.category); }
      var _ := CanonIsRoot(works, target);
      var closure := ContainsClosure(works, t.value);
      if closure.Err? { return Err(closure.category); }
      r := Ok(s.value in closure.value);
    }

    /** Points source at target, unless that would close a merge chain or make a work contain itself. */
    method RecordMerge(source: WorkId, target: WorkId) returns (r: Result<()>)
      modifies this
      ensures r.Err? ==> works == old(works)
      ensures r.Ok? ==> WorkEdits.MergeAccepted(old(works), source, target)
      ensures Sound(old(works)) ==> (r.Ok? <==> Mergeable(old(works), source, target))
      ensures r.Ok? ==> source in old(works)
      ensures r.Ok? ==> works == old(works)[source := old(works)[source].(mergedInto := Some(target))]
      ensures Sound(old(works))
              ==> Sound(works) && works == WorkEdits.Apply(old(works), WorkEdits.Op.RecordMerge(source, target))
      ensures var known := source == target || (source in works && target in works);
              Sound(old(works)) && r.Err? ==> r.category == if known then Conflict else NotFound
    {
      WorkEdits.ApplySoundIf(works, WorkEdits.Op.RecordMerge(source, target));
      assert source == target ==> Visits(works, target, source, 0);
      var reachable := SourceReachableFromTarget(source, target);
      if reachable.Err? { return Err(reachable.category); }
      if reachable.value {
        if Sound(works) && source != target { ChainStaysInside(works, target, source); }
        return Err(Conflict);
      }
      var selfContaining := WouldCreateSelfContainment(source, target);
      if selfContaining.Err? { return Err(selfContaining.category); }
      var _ := CanonIsRoot(works, source);
      if selfContaining.value { return Err(Conflict); }
      if source !in works { return Err(NotFound); }
      works := works[source := works[source].(mergedInto := Some(target))];
      r := Ok(());
    }

    /** Clears source's merge pointer. */
    method UndoMerge(source: WorkId) returns (r: Result<()>)
      modifies this
      ensures r == if source in old(works) then Ok(()) else Err(NotFound)
      ensures works == WorkEdits.Apply(old(works), WorkEdits.Op.UndoMerge(source))
      ensures r.Ok? ==> works == old(works)[source := old(works)[source].(mergedInto := None)]
      ensures r.Err? ==> works == old(works)
      ensures Sound(old(works)) ==> Sound(works)
    {
      WorkEdits.ApplySoundIf(works, WorkEdits.Op.UndoMerge(source));
      if source !in works { return Err(NotFound); }
      works := works[source := works[source].(mergedInto := None)];
      r := Ok(());
    }

    /** Records that container contains containee, unless that closes a resolved containment cycle. */
    method AddContains(container: WorkId, containee: WorkId) returns (r: Result<()>)
      modifies this
      ensures r.Err? ==> works == old(works)
      ensures r.Ok? ==> WorkEdits.ContainsAccepted(old(works), container, containee)
      ensures Sound(old(works)) ==> (r.Ok? <==> Containable(old(works), container, containee))
      ensures r.Ok? ==> container in old(works)
      ensures r.Ok? ==> var was := old(works)[container];
                works == old(works)[container := was.(contains := was.contains + [containee])]
      ensures Sound(old(works))
              ==> Sound(works) && works == WorkEdits.Apply(old(works), WorkEdits.Op.AddContains(container, containee))
      ensures Sound(old(works)) && r.Err?
              ==> r.category == (if container in works && containee in works then Conflict else NotFound)
    {
      WorkEdits.ApplySoundIf(works, WorkEdits.Op.AddContains(container, containee));
      var a := ResolveCanonicalWork(works, container);
      if a.Err? { MissingIsNotFound(works, container); return Err(a.category); }
      var b := ResolveCanonicalWork(works, containee);
      if b.Err? { MissingIsNotFound(works, containee); return Err(b.category); }
      var _ := CanonIsRoot(works, container);
      var _ := CanonIsRoot(works, containee);
      if a.value == b.value { return Err(Conflict); }
      var closure := ContainsClosure(works, b.value);
      if closure.Err? { return Err(closure.category); }
      if a.value in closure.value { return Err(Conflict); }
      works := works[container := works[container].(contains := works[container].contains + [containee])];
      r := Ok(());
    }

    /** Drops every reference to containee from container's own list. */
    method RemoveContains(container: WorkId, containee: WorkId) returns (r: Result<()>, ghost kept: seq<nat>)
      modifies this
      ensures r.Err? ==> works == old(works)
      ensures r.Ok? ==> container in works && container in old(works)
      ensures r.Ok? ==> Dropped(old(works)[container].contains, containee, kept, works[container].contains)
      ensures r.Ok? ==> works == old(works)[container := old(works)[container].(contains := works[container].contains)]
      ensures r == if container in old(works) then Ok(()) else Err(NotFound)
      ensures works == WorkEdits.Apply(old(works), WorkEdits.Op.RemoveContains(container, containee))
      ensures Sound(old(works)) ==> Sound(works)
    {
      WorkEdits.ApplySoundIf(works, WorkEdits.Op.RemoveContains(container, containee));
      kept := [];
      if container !in works { return Err(NotFound), []; }
      var filtered;
      filtered, kept := Compact(works[container].contains, containee);
      works := works[container := works[container].(contains := filtered)];
      r := Ok(());
    }

    /** The heading of the canonical work, and the union of each of the group's lists without repeats. */
    method ResolveWork(id: WorkId) returns (r: Result<ResolvedWork>)
      ensures r.Err? <==> Canon(works, id).Err?
      ensures r.Err? ==> Canon(works, id) == Err(r.category)
      ensures r.Ok? ==> Canon(works, id) == Ok(r.value.canonicalId) && r.value.canonicalId in works
      ensures r.Ok? ==> r.value.heading == works[r.value.canonicalId].heading
      ensures r.Ok? ==> forall f :: IsUnion(works, id, r.value.canonicalId, f, r.value.List(f))
    {
      var canonical := ResolveCanonicalWork(works, id);
      if canonical.Err? { return Err(canonical.category); }
      var _ := CanonIsRoot(works, id);
      var group := CollectMergeGroup(works, canonical.value);
      GroupMembers(works, id, group.value);
      var resolved := UniteGroup(id, canonical.value, group.value);
      r := Ok(resolved);
    }

    method UniteGroup(id: WorkId, canonical: WorkId, group: seq<WorkId>) returns (resolved: ResolvedWork)
      requires Canon(works, id) == Ok(canonical) && canonical in works && IsMergeGroup(works, canonical, group)
      requires (forall j :: 0 <= j < |group| ==> group[j] in works) && 0 < |group| && group[0] == canonical
      ensures resolved.canonicalId == canonical && resolved.heading == works[canonical].heading
      ensures forall f :: IsUnion(works, id, canonical, f, resolved.List(f))
    {
      var authors := UniteField(works, group, Authors);
      var subjects := UniteField(works, group, Subjects);
      var references := UniteField(works, group, References);
      var contains := UniteField(works, group, Contains);
      resolved := ResolvedWork(canonical, works[canonical].heading, authors, subjects, references, contains);
      forall f ensures IsUnion(works, id, canonical, f, resolved.List(f)) {
        UnionOfGroup(works, id, group, f, resolved.List(f), (set a | a in resolved.List(f)));
      }
    }

    /** Is some edition of some work of the merge group in the library? */
    method IsInLibrary(editions: map<EditionId, WorkId>, entries: set<EditionId>, id: WorkId) returns (r: Result<bool>)
      ensures r.Err? ==> Canon(works, id) == Err(r.category)
      ensures r.Ok? ==> Canon(works, id).Ok?
      ensures r.Ok? ==> (r.value <==> Owned(works, editions, entries, id))
    {
      var canonical := ResolveCanonicalWork(works, id);
      if canonical.Err? { return Err(canonical.category); }
      var _ := CanonIsRoot(works, id);
      var group := CollectMergeGroup(works, canonical.value);
      for i := 0 to |group.value|
        invariant forall j, e :: 0 <= j < i && e in editions && editions[e] == group.value[j] ==> e !in entries
      {
        var es := FindByWork(editions, group.value[i]);
        assert group.value[i] in group.value;
        for k := 0 to |es|
          invariant forall j :: 0 <= j < k ==> es[j] !in entries
        {
          assert es[k] in es;
          if es[k] in entries { return Ok(true); }
        }
        forall e | e in editions && editions[e] == group.value[i] ensures e !in entries {
          assert e in es;
        }
      }
      forall e | e in editions && Canon(works, editions[e]) == Canon(works, id) ensures e !in entries {
        assert editions[e] in group.value;
      }
      r := Ok(false);
    }
  }

  lemma MissingIsNotFound(ws: Works, id: WorkId)
    ensures Sound(ws) && Canon(ws, id).Err? ==> id !in ws && Canon(ws, id).category == NotFound
  {
  }

  /** In a sound catalogue a merge chain never leaves the existing works. */
  lemma ChainStaysInside(ws: Works, x: WorkId, s: WorkId)
    requires Sound(ws) && OnChain(ws, x, s) && x != s
    ensures x in ws && s in ws
  {
    var n :| Visits(ws, x, s, n);
    VisitedExists(ws, x, s, n);
  }

  lemma {:induction false} VisitedExists(ws: Works, x: WorkId, s: WorkId, n: nat)
    requires Sound(ws) && Visits(ws, x, s, n) && x in ws
    ensures s in ws
    decreases n
  {
    if n > 0 {
      ParentExists(ws, x);
      VisitedExists(ws, Parent(ws, x), s, n - 1);
    }
  }

  lemma ParentExists(ws: Works, x: WorkId)
    requires Sound(ws) && IsMergedWork(ws, x)
    ensures Parent(ws, x) in ws
  {
    assert Canon(ws, x).Ok? && Canon(ws, x) == ResolveFrom(ws, Parent(ws, x), {} + {x});
  }

  lemma GroupMembers(ws: Works, id: WorkId, group: seq<WorkId>)
    requires Canon(ws, id).Ok? && IsMergeGroup(ws, Canon(ws, id).value, group)
    ensures forall w :: w in ws && Canon(ws, w) == Canon(ws, id) ==> exists j :: 0 <= j < |group| && group[j] == w
    ensures forall j :: 0 <= j < |group| ==> group[j] in ws && Canon(ws, group[j]) == Canon(ws, id)
  {
    forall j | 0 <= j < |group| ensures group[j] in ws && Canon(ws, group[j]) == Canon(ws, id) {
      assert group[j] in group;
    }
  }

  /** The items not seen before are appended, each once, in the order in which they first come. */
  method AppendUnseen(list0: seq<nat>, seen0: set<nat>, items: seq<nat>)
    returns (list: seq<nat>, seen: set<nat>, ghost picks: seq<nat>)
    requires Distinct(list0) && forall a :: a in list0 <==> a in seen0
    ensures Distinct(list) && forall a :: a in list <==> a in seen
    ensures forall a :: a in list <==> a in list0 || a in items
    ensures list0 <= list && Selects(items, picks, list[|list0|..])
    ensures forall k :: 0 <= k < |picks| ==> items[picks[k]] !in items[..picks[k]]
  {
    list, seen, picks := list0, seen0, [];
    for i := 0 to |items|
      invariant Distinct(list) && forall a :: a in list <==> a in seen
      invariant forall a :: a in list <==> a in list0 || a in items[..i]
      invariant list0 <= list && Selects(items, picks, list[|list0|..]) && forall k :: 0 <= k < |picks| ==> picks[k] < i
      invariant forall k :: 0 <= k < |picks| ==> items[picks[k]] !in items[..picks[k]]
    {
      if items[i] !in seen {
        seen, list, picks := seen + {items[i]}, list + [items[i]], picks + [i];
      }
    }
    assert items[..|items|] == items;
  }

  method FindByWork(editions: map<EditionId, WorkId>, w: WorkId) returns (es: seq<EditionId>)
    ensures forall e :: e in es <==> e in editions && editions[e] == w
  {
    es := [];
    var rest := editions.Keys;
    while rest != {}
      invariant rest <= editions.Keys
      invariant forall e :: e in es <==> e in editions && e !in rest && editions[e] == w
      decreases rest
    {
      var e :| e in rest;
      if editions[e] == w { es := es + [e]; }
      rest := rest - {e};
    }
  }
}
