/**
 What editing merge pointers and containment references does to resolution and to the resolved
 containment graph, one edit at a time and over whole runs of edits.
 */
module WorkEdits {
  import opened Prelude
  import opened Digraph
  import opened MergeForest
  import opened WorkGraph

  function WithMerge(ws: Works, s: WorkId, m: Option<WorkId>): Works
    requires s in ws
  {
    ws[s := ws[s].(mergedInto := m)]
  }

  function WithContains(ws: Works, w: WorkId, refs: seq<WorkId>): Works
    requires w in ws
  {
    ws[w := ws[w].(contains := refs)]
  }

  function Without(refs: seq<WorkId>, c: WorkId): (r: seq<WorkId>)
    ensures c !in r && forall x :: x in r <==> x in refs && x != c
  {
    if refs == [] then []
    else
      var front, last := Without(refs[..|refs| - 1], c), refs[|refs| - 1];
      if last == c then front else front + [last]
  }

  /** Every reference but those to c stays, in order. */
  lemma {:induction false} WithoutKeepsTheRest(refs: seq<WorkId>, c: WorkId) returns (kept: seq<nat>)
    ensures Selects(refs, kept, Without(refs, c)) && forall j: nat :: j < |refs| ==> (j in kept <==> refs[j] != c)
  {
    kept := [];
    if refs != [] {
      var n := |refs| - 1;
      var front := WithoutKeepsTheRest(refs[..n], c);
      assert refs == refs[..n] + [refs[n]];
      SelectsMore(refs[..n], refs[n], front, Without(refs[..n], c));
      kept := if refs[n] == c then front else front + [n];
    }
  }

  // ----- detaching a work from its merge target -----

  lemma {:induction false} DetachClimb(ws: Works, s: WorkId, x: WorkId, r: WorkId, n: nat) returns (m: nat)
    requires s in ws && Climbs(ws, x, r, n)
    ensures var d := WithMerge(ws, s, None); Climbs(d, x, s, m) || Climbs(d, x, r, n)
    decreases n
  {
    m := 0;
    if x != s && n > 0 {
      m := DetachClimb(ws, s, Parent(ws, x), r, n - 1);
      m := m + 1;
    }
  }

  lemma {:induction false} ReattachClimb(ws: Works, s: WorkId, x: WorkId, m: nat, r: WorkId, k: nat)
    requires s in ws && Climbs(WithMerge(ws, s, None), x, s, m) && Climbs(ws, s, r, k)
    ensures Climbs(ws, x, r, m + k)
    decreases m
  {
    if m > 0 { ReattachClimb(ws, s, Parent(ws, x), m - 1, r, k); }
  }

  /** Splitting a group: what now means s, and everything else, used to mean the same as s, or itself. */
  lemma CanonDetach(ws: Works, s: WorkId, x: WorkId)
    requires Forest(ws) && s in ws && x in ws
    ensures var d := WithMerge(ws, s, None);
            && Canon(d, x).Ok? && Canon(d, x).value in ws
            && (Canon(d, x) == Ok(s) || Canon(d, x) == Canon(ws, x))
            && Canon(ws, Canon(d, x).value) == Canon(ws, x)
  {
    var d := WithMerge(ws, s, None);
    var n := CanonIsRoot(ws, x);
    var m := DetachClimb(ws, s, x, Canon(ws, x).value, n);
    if Climbs(d, x, s, m) {
      CanonOfClimb(d, x, s, m);
      var k := CanonIsRoot(ws, s);
      ReattachClimb(ws, s, x, m, Canon(ws, s).value, k);
      CanonOfClimb(ws, x, Canon(ws, s).value, m + k);
    } else {
      CanonOfClimb(d, x, Canon(ws, x).value, n);
    }
  }

  lemma {:induction false} DetachOffChain(ws: Works, s: WorkId, x: WorkId, r: WorkId, n: nat)
    requires s in ws && Climbs(ws, x, r, n) && !OnChain(ws, x, s)
    ensures Climbs(WithMerge(ws, s, None), x, r, n) && r != s
    decreases n
  {
    assert !Visits(ws, x, s, 0);
    if n > 0 {
      forall k: nat | Visits(ws, Parent(ws, x), s, k) ensures false {
        assert Visits(ws, x, s, k + 1);
      }
      DetachOffChain(ws, s, Parent(ws, x), r, n - 1);
    }
  }

  function Coarse(ws: Works): WorkId -> WorkId {
    x => if Canon(ws, x).Ok? then Canon(ws, x).value else x
  }

  lemma DetachMapsEdges(ws: Works, s: WorkId)
    requires Sound(ws) && s in ws
    ensures Sound(WithMerge(ws, s, None))
    ensures forall a, b :: (a, b) in Containment(WithMerge(ws, s, None))
              ==> (Coarse(ws)(a), Coarse(ws)(b)) in Containment(ws)
  {
    var d := WithMerge(ws, s, None);
    forall x | x in d ensures Canon(d, x).Ok? { CanonDetach(ws, s, x); }
    forall a, b | (a, b) in Containment(d) ensures (Coarse(ws)(a), Coarse(ws)(b)) in Containment(ws) {
      var w, c := EdgeElim(d, a, b);
      assert IsReference(ws, w, c);
      CanonDetach(ws, s, w);
      CanonDetach(ws, s, c);
      EdgeIntro(ws, w, c);
    }
  }

  /** Undoing a merge maps any cycle of the finer graph onto one of the coarser, so it creates none. */
  lemma UndoKeepsAcyclic(ws: Works, s: WorkId)
    requires Sound(ws) && s in ws && Acyclic(Containment(ws))
    ensures Sound(WithMerge(ws, s, None)) && Acyclic(Containment(WithMerge(ws, s, None)))
  {
    DetachMapsEdges(ws, s);
    AcyclicImage(Containment(WithMerge(ws, s, None)), Containment(ws), Coarse(ws));
  }

  // ----- attaching a canonical work below another -----

  lemma {:induction false} AttachKeeps(ws: Works, s: WorkId, t: WorkId, x: WorkId, r: WorkId, n: nat)
    requires IsRoot(ws, s) && Climbs(ws, x, r, n) && r != s
    ensures Climbs(WithMerge(ws, s, Some(t)), x, r, n)
    decreases n
  {
    if n > 0 { AttachKeeps(ws, s, t, Parent(ws, x), r, n - 1); }
  }

  lemma {:induction false} AttachExtends(ws: Works, s: WorkId, t: WorkId, x: WorkId, n: nat, r: WorkId, k: nat)
    requires IsRoot(ws, s) && Climbs(ws, x, s, n) && Climbs(ws, t, r, k) && r != s
    ensures Climbs(WithMerge(ws, s, Some(t)), x, r, n + k + 1)
    decreases n
  {
    if n == 0 {
      AttachKeeps(ws, s, t, t, r, k);
    } else {
      AttachExtends(ws, s, t, Parent(ws, x), n - 1, r, k);
    }
  }

  /** Attaching renames the canonical work s to the one t resolves to, and nothing else. */
  lemma CanonAttach(ws: Works, s: WorkId, t: WorkId, x: WorkId)
    requires Forest(ws) && IsRoot(ws, s) && t in ws && Canon(ws, t) != Ok(s) && x in ws
    ensures Canon(WithMerge(ws, s, Some(t)), x) == Ok(Onto(s, Canon(ws, t).value, Canon(ws, x).value))
  {
    var m := WithMerge(ws, s, Some(t));
    var n := CanonIsRoot(ws, x);
    var k := CanonIsRoot(ws, t);
    if Canon(ws, x) == Ok(s) {
      AttachExtends(ws, s, t, x, n, Canon(ws, t).value, k);
      CanonOfClimb(m, x, Canon(ws, t).value, n + k + 1);
    } else {
      AttachKeeps(ws, s, t, x, Canon(ws, x).value, n);
      CanonOfClimb(m, x, Canon(ws, x).value, n);
    }
  }

  lemma AttachMerges(ws: Works, s: WorkId, t: WorkId)
    requires Sound(ws) && IsRoot(ws, s) && t in ws && Canon(ws, t) != Ok(s)
    ensures var m := WithMerge(ws, s, Some(t));
            Sound(m) && IsMerged(Containment(ws), Containment(m), s, Canon(ws, t).value)
  {
    var m, r := WithMerge(ws, s, Some(t)), Canon(ws, t).value;
    forall x | x in m ensures Canon(m, x).Ok? { CanonAttach(ws, s, t, x); }
    forall a, b | (a, b) in Containment(ws) ensures (Onto(s, r, a), Onto(s, r, b)) in Containment(m) {
      var w, c := EdgeElim(ws, a, b);
      assert IsReference(m, w, c);
      CanonAttach(ws, s, t, w);
      CanonAttach(ws, s, t, c);
      EdgeIntro(m, w, c);
    }
    forall a, b | (a, b) in Containment(m)
      ensures exists a', b' :: (a', b') in Containment(ws) && Onto(s, r, a') == a && Onto(s, r, b') == b
    {
      var w, c := EdgeElim(m, a, b);
      assert IsReference(ws, w, c);
      CanonAttach(ws, s, t, w);
      CanonAttach(ws, s, t, c);
      EdgeIntro(ws, w, c);
    }
  }

  // ----- recording a merge -----

  /** The merge passes both checks of the service. */
  ghost predicate MergeAccepted(ws: Works, s: WorkId, t: WorkId) {
    && s in ws && t in ws && !OnChain(ws, t, s)
    && Canon(ws, s).Ok? && Canon(ws, t).Ok?
    && !Reach(Containment(ws), Canon(ws, t).value, Canon(ws, s).value)
  }

  /** The direction the service does not check: once detached, the source contains what the target means. */
  ghost predicate SourceContainsTarget(ws: Works, s: WorkId, t: WorkId)
    requires s in ws && Canon(ws, t).Ok?
  {
    Reach(Containment(WithMerge(ws, s, None)), s, Canon(ws, t).value)
  }

  lemma OffChainCanon(ws: Works, s: WorkId, t: WorkId)
    requires Forest(ws) && s in ws && t in ws && !OnChain(ws, t, s)
    ensures Canon(WithMerge(ws, s, None), t) == Canon(ws, t) && Canon(ws, t) != Ok(s)
  {
    var n := CanonIsRoot(ws, t);
    DetachOffChain(ws, s, t, Canon(ws, t).value, n);
    CanonOfClimb(WithMerge(ws, s, None), t, Canon(ws, t).value, n);
  }

  /** An accepted merge keeps the forest, and keeps containment acyclic exactly when the unchecked side is clear. */
  lemma MergeAcyclicExactly(ws: Works, s: WorkId, t: WorkId)
    requires Sound(ws) && Acyclic(Containment(ws)) && MergeAccepted(ws, s, t)
    ensures Sound(WithMerge(ws, s, Some(t)))
    ensures Acyclic(Containment(WithMerge(ws, s, Some(t)))) <==> !SourceContainsTarget(ws, s, t)
  {
    var d, m, r := WithMerge(ws, s, None), WithMerge(ws, s, Some(t)), Canon(ws, t).value;
    UndoKeepsAcyclic(ws, s);
    DetachMapsEdges(ws, s);
    OffChainCanon(ws, s, t);
    AttachMerges(d, s, t);
    assert WithMerge(d, s, Some(t)) == m;
    MergeNodes(Containment(d), Containment(m), s, r);
    if Reach(Containment(d), r, s) {
      ReachImage(Containment(d), Containment(ws), Coarse(ws), r, s);
      CanonDetach(ws, s, t);
    }
  }

  /** It suffices that the source's group does not contain what the target means. */
  lemma GroupCheckSuffices(ws: Works, s: WorkId, t: WorkId)
    requires Sound(ws) && MergeAccepted(ws, s, t)
    requires !Reach(Containment(ws), Canon(ws, s).value, Canon(ws, t).value)
    ensures !SourceContainsTarget(ws, s, t)
  {
    var d, r := WithMerge(ws, s, None), Canon(ws, t).value;
    DetachMapsEdges(ws, s);
    if Reach(Containment(d), s, r) {
      ReachImage(Containment(d), Containment(ws), Coarse(ws), s, r);
      var _ := CanonIsRoot(ws, t);
    }
  }

  /** Two works show that the unchecked direction matters: the source contains the target. */
  lemma UncheckedDirectionMatters() returns (ws: Works, s: WorkId, t: WorkId)
    ensures Sound(ws) && Acyclic(Containment(ws)) && MergeAccepted(ws, s, t)
    ensures !Acyclic(Containment(WithMerge(ws, s, Some(t))))
  {
    s, t := 0, 1;
    var h := Heading("", "", None);
    ws := map[0 := Work(None, [1], h, [], [], []), 1 := Work(None, [], h, [], [], [])];
    CanonOfClimb(ws, 0, 0, 0);
    CanonOfClimb(ws, 1, 1, 0);
    forall a, b | (a, b) in Containment(ws) ensures a == 0 && b == 1 {
      var w, c := EdgeElim(ws, a, b);
    }
    forall a, b, n: nat | Path(Containment(ws), a, b, n) ensures a == 0 && b == 1 {
      OneEdgePath(Containment(ws), a, b, n);
    }
    assert !OnChain(ws, 1, 0);
    EdgeIntro(ws, 0, 1);
    MergeAcyclicExactly(ws, 0, 1);
    assert WithMerge(ws, 0, None) == ws;
    ReachEdge(Containment(ws), 0, 1);
  }

  lemma {:induction false} OneEdgePath(e: Edges<WorkId>, a: WorkId, b: WorkId, n: nat)
    requires forall x, y :: (x, y) in e ==> x == 0 && y == 1
    requires Path(e, a, b, n)
    ensures a == 0 && b == 1
    decreases n
  {
  }

  /** Undoing right after recording restores the catalogue exactly when the source was unmerged before. */
  lemma UndoReversesMerge(ws: Works, s: WorkId, t: WorkId)
    requires s in ws
    ensures WithMerge(WithMerge(ws, s, Some(t)), s, None) == ws <==> IsRoot(ws, s)
  {
  }

  // ----- editing containment -----

  lemma {:induction false} ResolveIgnoresContains(ws: Works, ws': Works, id: WorkId, seen: set<WorkId>)
    requires ws.Keys == ws'.Keys && forall w :: w in ws ==> ws[w].mergedInto == ws'[w].mergedInto
    ensures ResolveFrom(ws, id, seen) == ResolveFrom(ws', id, seen)
    decreases ws.Keys - seen
  {
    if id !in seen && IsMergedWork(ws, id) { ResolveIgnoresContains(ws, ws', Parent(ws, id), seen + {id}); }
  }

  lemma CanonIgnoresContains(ws: Works, w: WorkId, refs: seq<WorkId>)
    requires w in ws
    ensures forall id :: Canon(WithContains(ws, w, refs), id) == Canon(ws, id)
  {
    forall id ensures Canon(WithContains(ws, w, refs), id) == Canon(ws, id) {
      ResolveIgnoresContains(ws, WithContains(ws, w, refs), id, {});
    }
  }

  /** Adding a reference adds the one resolved edge. */
  lemma AddReference(ws: Works, a: WorkId, b: WorkId)
    requires Sound(ws) && a in ws && b in ws
    ensures var ws' := WithContains(ws, a, ws[a].contains + [b]);
            Sound(ws') && Containment(ws') == Containment(ws) + {(Canon(ws, a).value, Canon(ws, b).value)}
  {
    var ws' := WithContains(ws, a, ws[a].contains + [b]);
    CanonIgnoresContains(ws, a, ws[a].contains + [b]);
    forall x, y | (x, y) in Containment(ws')
      ensures (x, y) in Containment(ws) || (x, y) == (Canon(ws, a).value, Canon(ws, b).value) {
      var w, c := EdgeElim(ws', x, y);
      if w != a || c != b { EdgeIntro(ws, w, c); }
    }
    forall x, y | (x, y) in Containment(ws) ensures (x, y) in Containment(ws') {
      var w, c := EdgeElim(ws, x, y);
      EdgeIntro(ws', w, c);
    }
    assert IsReference(ws', a, b);
    EdgeIntro(ws', a, b);
  }

  ghost predicate ContainsAccepted(ws: Works, a: WorkId, b: WorkId) {
    && a in ws && b in ws && Canon(ws, a).Ok? && Canon(ws, b).Ok? && Canon(ws, a) != Canon(ws, b)
    && !Reach(Containment(ws), Canon(ws, b).value, Canon(ws, a).value)
  }

  /** The two checks of AddContains reject exactly the references that would close a cycle. */
  lemma AddContainsExactly(ws: Works, a: WorkId, b: WorkId)
    requires Sound(ws) && Acyclic(Containment(ws)) && a in ws && b in ws
    ensures ContainsAccepted(ws, a, b) <==> Acyclic(Containment(WithContains(ws, a, ws[a].contains + [b])))
  {
    AddReference(ws, a, b);
    AddEdge(Containment(ws), Canon(ws, a).value, Canon(ws, b).value);
  }

  lemma RemoveReference(ws: Works, a: WorkId, b: WorkId)
    requires Sound(ws) && a in ws
    ensures var ws' := WithContains(ws, a, Without(ws[a].contains, b));
            Sound(ws') && Containment(ws') <= Containment(ws)
  {
    var ws' := WithContains(ws, a, Without(ws[a].contains, b));
    CanonIgnoresContains(ws, a, Without(ws[a].contains, b));
    forall x, y | (x, y) in Containment(ws') ensures (x, y) in Containment(ws) {
      var w, c := EdgeElim(ws', x, y);
      EdgeIntro(ws, w, c);
    }
  }

  // ----- whole runs -----

  datatype Op =
    | Create(id: WorkId, work: Work)
    | RecordMerge(source: WorkId, target: WorkId)
    | UndoMerge(source: WorkId)
    | AddContains(container: WorkId, containee: WorkId)
    | RemoveContains(container: WorkId, containee: WorkId)

  /** A work as it is created: neither merged nor containing anything. */
  function Alone(w: Work): Work { w.(mergedInto := None, contains := []) }

  /** What each service call does to the stored works; a refused call changes nothing. */
  ghost function Apply(ws: Works, op: Op): Works {
    match op
    case Create(id, work) => if id in ws then ws else ws[id := Alone(work)]
    case RecordMerge(s, t) => if MergeAccepted(ws, s, t) then WithMerge(ws, s, Some(t)) else ws
    case UndoMerge(s) => if s in ws then WithMerge(ws, s, None) else ws
    case AddContains(a, b) => if ContainsAccepted(ws, a, b) then WithContains(ws, a, ws[a].contains + [b]) else ws
    case RemoveContains(a, b) => if a in ws then WithContains(ws, a, Without(ws[a].contains, b)) else ws
  }

  ghost function Run(ws: Works, ops: seq<Op>): Works
    decreases |ops|
  {
    if ops == [] then ws else Run(Apply(ws, ops[0]), ops[1..])
  }

  /** Every merge the run accepts has its unchecked direction clear at that moment. */
  ghost predicate MergesClear(ws: Works, ops: seq<Op>)
    decreases |ops|
  {
    ops == [] || (MergeClear(ws, ops[0]) && MergesClear(Apply(ws, ops[0]), ops[1..]))
  }

  ghost predicate MergeClear(ws: Works, op: Op) {
    op.RecordMerge? && MergeAccepted(ws, op.source, op.target) ==> !SourceContainsTarget(ws, op.source, op.target)
  }

  lemma {:induction false} ResolveIgnoresCreation(ws: Works, id: WorkId, w: Work, x: WorkId, seen: set<WorkId>)
    requires Forest(ws) && id !in ws && x in ws && ResolveFrom(ws, x, seen).Ok?
    ensures ResolveFrom(ws[id := w], x, seen) == ResolveFrom(ws, x, seen)
    decreases ws.Keys - seen
  {
    if IsMergedWork(ws, x) { ResolveIgnoresCreation(ws, id, w, Parent(ws, x), seen + {x}); }
  }

  lemma CreateKeeps(ws: Works, id: WorkId, work: Work)
    requires Sound(ws) && id !in ws
    ensures var ws' := ws[id := Alone(work)]; Sound(ws') && Containment(ws') == Containment(ws)
  {
    var ws' := ws[id := Alone(work)];
    forall x | x in ws ensures Canon(ws', x) == Canon(ws, x) {
      ResolveIgnoresCreation(ws, id, Alone(work), x, {});
    }
    forall x, y | (x, y) in Containment(ws') ensures (x, y) in Containment(ws) {
      var w, c := EdgeElim(ws', x, y);
      EdgeIntro(ws, w, c);
    }
    forall x, y | (x, y) in Containment(ws) ensures (x, y) in Containment(ws') {
      var w, c := EdgeElim(ws, x, y);
      EdgeIntro(ws', w, c);
    }
  }

  lemma ApplySound(ws: Works, op: Op)
    requires Sound(ws)
    ensures Sound(Apply(ws, op))
  {
    match op
    case Create(id, work) => if id !in ws { CreateKeeps(ws, id, work); }
    case RecordMerge(s, t) =>
      if MergeAccepted(ws, s, t) {
        DetachMapsEdges(ws, s);
        OffChainCanon(ws, s, t);
        AttachMerges(WithMerge(ws, s, None), s, t);
        assert WithMerge(WithMerge(ws, s, None), s, Some(t)) == WithMerge(ws, s, Some(t));
      }
    case UndoMerge(s) => if s in ws { DetachMapsEdges(ws, s); }
    case AddContains(a, b) => if ContainsAccepted(ws, a, b) { AddReference(ws, a, b); }
    case RemoveContains(a, b) => if a in ws { RemoveReference(ws, a, b); }
  }

  lemma ApplySoundIf(ws: Works, op: Op)
    ensures Sound(ws) ==> Sound(Apply(ws, op))
  {
    if Sound(ws) { ApplySound(ws, op); }
  }

  /** One call breaks acyclicity exactly when it is an unclear merge. */
  lemma ApplyAcyclicExactly(ws: Works, op: Op)
    requires Sound(ws) && Acyclic(Containment(ws))
    ensures Acyclic(Containment(Apply(ws, op))) <==> MergeClear(ws, op)
  {
    match op
    case Create(id, work) => if id !in ws { CreateKeeps(ws, id, work); }
    case RecordMerge(s, t) => if MergeAccepted(ws, s, t) { MergeAcyclicExactly(ws, s, t); }
    case UndoMerge(s) => if s in ws { UndoKeepsAcyclic(ws, s); }
    case AddContains(a, b) => if ContainsAccepted(ws, a, b) { AddContainsExactly(ws, a, b); }
    case RemoveContains(a, b) =>
      if a in ws {
        RemoveReference(ws, a, b);
        AcyclicImage(Containment(Apply(ws, op)), Containment(ws), x => x);
      }
  }

  /** Over any run of service calls whatever, every work keeps resolving: merge pointers stay a forest. */
  lemma {:induction false} RunKeepsForest(ws: Works, ops: seq<Op>)
    requires Sound(ws)
    ensures Sound(Run(ws, ops))
    decreases |ops|
  {
    if ops != [] {
      ApplySound(ws, ops[0]);
      RunKeepsForest(Apply(ws, ops[0]), ops[1..]);
    }
  }

  /** Over any run of service calls with clear merges, resolved containment stays acyclic. */
  lemma {:induction false} RunKeepsAcyclic(ws: Works, ops: seq<Op>)
    requires Sound(ws) && Acyclic(Containment(ws)) && MergesClear(ws, ops)
    ensures Acyclic(Containment(Run(ws, ops)))
    decreases |ops|
  {
    if ops != [] {
      ApplySound(ws, ops[0]);
      ApplyAcyclicExactly(ws, ops[0]);
      RunKeepsAcyclic(Apply(ws, ops[0]), ops[1..]);
    }
  }

  /** Resolved containment is acyclic after the first n calls. */
  ghost predicate AcyclicAfter(ws: Works, ops: seq<Op>, n: nat)
    requires n <= |ops|
  {
    Acyclic(Containment(Run(ws, ops[..n])))
  }

  lemma AfterFirst(ws: Works, ops: seq<Op>, n: nat)
    requires 0 < n <= |ops|
    ensures AcyclicAfter(ws, ops, n) <==> AcyclicAfter(Apply(ws, ops[0]), ops[1..], n - 1)
  {
    assert ops[..n][1..] == ops[1..][..n - 1];
  }

  /** It is so after every prefix of a run exactly when every merge of the run is clear. */
  lemma {:induction false} RunAcyclicExactly(ws: Works, ops: seq<Op>)
    requires Sound(ws) && Acyclic(Containment(ws))
    ensures (forall n: nat :: n <= |ops| ==> AcyclicAfter(ws, ops, n)) <==> MergesClear(ws, ops)
    decreases |ops|
  {
    if ops != [] {
      var ws', rest := Apply(ws, ops[0]), ops[1..];
      ApplySound(ws, ops[0]);
      ApplyAcyclicExactly(ws, ops[0]);
      AfterFirst(ws, ops, 1);
      if MergeClear(ws, ops[0]) {
        RunAcyclicExactly(ws', rest);
        forall n: nat | n <= |rest| ensures AcyclicAfter(ws, ops, n + 1) <==> AcyclicAfter(ws', rest, n) {
          AfterFirst(ws, ops, n + 1);
        }
        if MergesClear(ws', rest) {
          forall n: nat | n <= |ops| ensures AcyclicAfter(ws, ops, n) {
            if n > 0 { assert AcyclicAfter(ws', rest, n - 1); }
          }
        } else {
          var n: nat :| n <= |rest| && !AcyclicAfter(ws', rest, n);
          assert !AcyclicAfter(ws, ops, n + 1);
        }
      } else {
        assert !AcyclicAfter(ws, ops, 1);
      }
    }
  }
}
