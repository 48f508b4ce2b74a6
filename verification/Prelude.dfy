/** Small shared vocabulary: optional values, the domain's categorised errors, lists without repeats. */
module Prelude {

  /** Nanoseconds. */
  type Time = int

  const SECOND: Time := 1_000_000_000
  const MINUTE: Time := 60 * SECOND
  const HOUR: Time := 60 * MINUTE

  datatype Option<+T> = None | Some(value: T)

  datatype Category = InvalidInput | NotFound | Conflict | Internal

  datatype Result<+T> = Ok(value: T) | Err(category: Category)

  predicate Distinct<T(==)>(q: seq<T>) {
    forall i, j :: 0 <= i < j < |q| ==> q[i] != q[j]
  }

  lemma {:induction false} DistinctCardinality<T>(q: seq<T>)
    requires Distinct(q)
    ensures |(set v | v in q)| == |q|
  {
    if q != [] {
      var front, last := q[..|q| - 1], q[|q| - 1];
      DistinctCardinality(front);
      assert (set v | v in q) == (set v | v in front) + {last};
    }
  }

  lemma CardinalityMonotone<T>(a: set<T>, b: set<T>)
    requires a <= b
    ensures |a| <= |b|
  {
    assert b == a + (b - a);
  }

  /** A list without repeats that draws from a finite set is no longer than the set. */
  lemma DistinctFits<T>(q: seq<T>, s: set<T>)
    requires Distinct(q) && forall i :: 0 <= i < |q| ==> q[i] in s
    ensures |q| <= |s|
  {
    DistinctCardinality(q);
    CardinalityMonotone((set v | v in q), s);
  }

  lemma SizeAfterRemoval<K, V>(m: map<K, V>, gone: set<K>)
    requires gone <= m.Keys
    ensures |m - gone| == |m| - |gone|
  {
  }

  /** White space, as trimming and validation understand it. */
  predicate Space(c: char) {
    || c == ' ' || '\t' <= c <= '\r' || c == '\U{85}' || c == '\U{a0}' || c == '\U{1680}'
    || '\U{2000}' <= c <= '\U{200a}'
    || c == '\U{2028}' || c == '\U{2029}' || c == '\U{202f}' || c == '\U{205f}' || c == '\U{3000}'
  }

  /** `out` is what stands in `items` at these places, in the same order. */
  predicate Selects<T(==)>(items: seq<T>, picks: seq<nat>, out: seq<T>) {
    && |picks| == |out| && (forall i, j :: 0 <= i < j < |picks| ==> picks[i] < picks[j])
    && (forall k :: 0 <= k < |picks| ==> picks[k] < |items| && out[k] == items[picks[k]])
  }

  lemma SelectsMore<T>(items: seq<T>, x: T, picks: seq<nat>, out: seq<T>)
    requires Selects(items, picks, out)
    ensures Selects(items + [x], picks, out) && Selects(items + [x], picks + [|items|], out + [x])
  {
  }
}
