/** Reachability by one or more edges in a finite directed graph, and what edits keep it acyclic. */
module Digraph {

  type Edges<N(==)> = set<(N, N)>

  /** A path of exactly n + 1 edges. */
  ghost predicate Path<N(!new)>(e: Edges<N>, a: N, b: N, n: nat) {
    if n == 0 then (a, b) in e else exists c :: (a, c) in e && Path(e, c, b, n - 1)
  }

  lemma {:induction false} LastEdge<N(!new)>(e: Edges<N>, a: N, b: N, n: nat) returns (c: N)
    requires Path(e, a, b, n)
    ensures (c, b) in e
    decreases n
  {
    if n == 0 {
      c := a;
    } else {
      var next :| (a, next) in e && Path(e, next, b, n - 1);
      c := LastEdge(e, next, b, n - 1);
    }
  }

  ghost predicate Reach<N(!new)>(e: Edges<N>, a: N, b: N) {
    exists n: nat :: Path(e, a, b, n)
  }

  ghost predicate Acyclic<N(!new)>(e: Edges<N>) {
    forall a :: !Reach(e, a, a)
  }

  lemma {:induction false} PathAppend<N(!new)>(e: Edges<N>, a: N, b: N, c: N, m: nat, n: nat)
    requires Path(e, a, b, m) && Path(e, b, c, n)
    ensures Path(e, a, c, m + n + 1)
    decreases m
  {
    if m > 0 {
      var d :| (a, d) in e && Path(e, d, b, m - 1);
      PathAppend(e, d, b, c, m - 1, n);
    }
  }

  lemma ReachEdge<N(!new)>(e: Edges<N>, a: N, b: N)
    requires (a, b) in e
    ensures Reach(e, a, b)
  {
    assert Path(e, a, b, 0);
  }

  lemma ReachTransitive<N(!new)>(e: Edges<N>, a: N, b: N, c: N)
    requires Reach(e, a, b) && Reach(e, b, c)
    ensures Reach(e, a, c)
  {
    var m: nat :| Path(e, a, b, m);
    var n: nat :| Path(e, b, c, n);
    PathAppend(e, a, b, c, m, n);
  }

  /** A set closed under successors, holding the successors of `a`, holds everything `a` reaches. */
  lemma {:induction false} ClosedContainsReach<N(!new)>(e: Edges<N>, a: N, b: N, n: nat, closed: set<N>)
    requires Path(e, a, b, n)
    requires forall y :: (a, y) in e ==> y in closed
    requires forall x, y :: x in closed && (x, y) in e ==> y in closed
    ensures b in closed
    decreases n
  {
    if n > 0 {
      var c :| (a, c) in e && Path(e, c, b, n - 1);
      ClosedContainsReach(e, c, b, n - 1, closed);
    }
  }

  /** A map of nodes that takes every edge to an edge takes every path to a path. */
  lemma {:induction false} PathImage<N(!new)>(e: Edges<N>, g: Edges<N>, f: N -> N, a: N, b: N, n: nat)
    requires forall x, y :: (x, y) in e ==> (f(x), f(y)) in g
    requires Path(e, a, b, n)
    ensures Path(g, f(a), f(b), n)
    decreases n
  {
    if n > 0 {
      var c :| (a, c) in e && Path(e, c, b, n - 1);
      PathImage(e, g, f, c, b, n - 1);
    }
  }

  lemma ReachImage<N(!new)>(e: Edges<N>, g: Edges<N>, f: N -> N, a: N, b: N)
    requires forall x, y :: (x, y) in e ==> (f(x), f(y)) in g
    requires Reach(e, a, b)
    ensures Reach(g, f(a), f(b))
  {
    var n: nat :| Path(e, a, b, n);
    PathImage(e, g, f, a, b, n);
  }

  lemma ReachMonotone<N(!new)>(e: Edges<N>, g: Edges<N>, a: N, b: N)
    requires e <= g && Reach(e, a, b)
    ensures Reach(g, a, b)
  {
    ReachImage(e, g, x => x, a, b);
  }

  lemma AcyclicImage<N(!new)>(e: Edges<N>, g: Edges<N>, f: N -> N)
    requires forall x, y :: (x, y) in e ==> (f(x), f(y)) in g
    requires Acyclic(g)
    ensures Acyclic(e)
  {
    forall a ensures !Reach(e, a, a) {
      if Reach(e, a, a) { ReachImage(e, g, f, a, a); }
    }
  }

  // ----- adding one edge -----

  lemma {:induction false} PathWithNewEdge<N(!new)>(e: Edges<N>, c: N, k: N, a: N, b: N, n: nat)
    requires Path(e + {(c, k)}, a, b, n)
    ensures Reach(e, a, b) || ((a == c || Reach(e, a, c)) && (b == k || Reach(e, k, b)))
    decreases n
  {
    if n == 0 {
      if (a, b) in e { ReachEdge(e, a, b); }
    } else {
      var d :| (a, d) in e + {(c, k)} && Path(e + {(c, k)}, d, b, n - 1);
      PathWithNewEdge(e, c, k, d, b, n - 1);
      if (a, d) in e {
        ReachEdge(e, a, d);
        if Reach(e, d, b) {
          ReachTransitive(e, a, d, b);
        } else if d != c {
          ReachTransitive(e, a, d, c);
        }
      }
    }
  }

  /** One more edge keeps an acyclic graph acyclic exactly when it is no loop and closes no path. */
  lemma AddEdge<N(!new)>(e: Edges<N>, c: N, k: N)
    requires Acyclic(e)
    ensures Acyclic(e + {(c, k)}) <==> c != k && !Reach(e, k, c)
  {
    var g := e + {(c, k)};
    if c == k {
      ReachEdge(g, c, k);
    } else if Reach(e, k, c) {
      ReachMonotone(e, g, k, c);
      ReachEdge(g, c, k);
      ReachTransitive(g, c, k, c);
    } else {
      forall a ensures !Reach(g, a, a) {
        if n: nat :| Path(g, a, a, n) {
          PathWithNewEdge(e, c, k, a, a, n);
          if a != c && a != k { ReachTransitive(e, k, a, c); }
        }
      }
    }
  }

  // ----- merging one node into another -----

  function Onto<N(==)>(s: N, t: N, x: N): N { if x == s then t else x }

  /** The graph once node s is renamed to t. */
  ghost predicate IsMerged<N(!new)>(e: Edges<N>, g: Edges<N>, s: N, t: N) {
    && (forall x, y :: (x, y) in e ==> (Onto(s, t, x), Onto(s, t, y)) in g)
    && (forall x, y :: (x, y) in g ==> exists x', y' :: (x', y') in e && Onto(s, t, x') == x && Onto(s, t, y') == y)
  }

  /** Either one path of the old graph, or two that meet the merged pair. */
  ghost predicate Joined<N(!new)>(e: Edges<N>, s: N, t: N, a: N, b: N) {
    Reach(e, a, b) || exists u, v :: u in {s, t} && v in {s, t} && Reach(e, a, u) && Reach(e, v, b)
  }

  ghost predicate Lifted<N(!new)>(e: Edges<N>, s: N, t: N, a: N, b: N) {
    exists a', b' :: Onto(s, t, a') == a && Onto(s, t, b') == b && Joined(e, s, t, a', b')
  }

  lemma JoinedPrepend<N(!new)>(e: Edges<N>, s: N, t: N, a: N, c: N, d: N, b: N)
    requires Reach(e, a, c) && Onto(s, t, c) == Onto(s, t, d) && Joined(e, s, t, d, b)
    ensures Joined(e, s, t, a, b)
  {
    if Reach(e, d, b) {
      if c == d { ReachTransitive(e, a, d, b); }
    } else {
      var u, v :| u in {s, t} && v in {s, t} && Reach(e, d, u) && Reach(e, v, b);
      if c == d { ReachTransitive(e, a, d, u); }
    }
  }

  lemma {:induction false} LiftPath<N(!new)>(e: Edges<N>, g: Edges<N>, s: N, t: N, a: N, b: N, n: nat)
    requires IsMerged(e, g, s, t) && Path(g, a, b, n)
    ensures Lifted(e, s, t, a, b)
    decreases n
  {
    if n == 0 {
      var a', b' :| (a', b') in e && Onto(s, t, a') == a && Onto(s, t, b') == b;
      ReachEdge(e, a', b');
      assert Joined(e, s, t, a', b');
    } else {
      var c :| (a, c) in g && Path(g, c, b, n - 1);
      LiftPath(e, g, s, t, c, b, n - 1);
      var a', c' :| (a', c') in e && Onto(s, t, a') == a && Onto(s, t, c') == c;
      ReachEdge(e, a', c');
      var d, b' :| Onto(s, t, d) == c && Onto(s, t, b') == b && Joined(e, s, t, d, b');
      JoinedPrepend(e, s, t, a', c', d, b');
    }
  }

  /** Merging s into t keeps an acyclic graph acyclic exactly when neither reaches the other. */
  lemma MergeNodes<N(!new)>(e: Edges<N>, g: Edges<N>, s: N, t: N)
    requires Acyclic(e) && IsMerged(e, g, s, t) && s != t
    ensures Acyclic(g) <==> !Reach(e, s, t) && !Reach(e, t, s)
  {
    var f := (x: N) => Onto(s, t, x);
    if Reach(e, s, t) {
      ReachImage(e, g, f, s, t);
    } else if Reach(e, t, s) {
      ReachImage(e, g, f, t, s);
    } else {
      forall a ensures !Reach(g, a, a) {
        if n: nat :| Path(g, a, a, n) {
          LiftPath(e, g, s, t, a, a, n);
          var a', b' :| Onto(s, t, a') == a && Onto(s, t, b') == a && Joined(e, s, t, a', b');
          if !Reach(e, a', b') {
            var u, v :| u in {s, t} && v in {s, t} && Reach(e, a', u) && Reach(e, v, b');
            if a' == b' { ReachTransitive(e, v, a', u); }
          }
        }
      }
    }
  }
}
