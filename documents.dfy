/**
 * Decoded JSON documents, as the scraper holds them after `json.loads`:
 * dicts (insertion-ordered), lists and scalars, together with Python's `==`
 * on them, which ignores the order of dict entries.
 */
module Documents {
  import opened Wrappers
  import opened Dicts

  /** A JSON scalar. Integers and fractions both decode to numbers, and Python has 1 == 1.0. */
  datatype Scalar = Null | Bool(b: bool) | Num(x: real) | Str(s: string)

  datatype Json = Leaf(value: Scalar) | Arr(items: seq<Json>) | Obj(entries: Dict<Json>)

  /** Every dict, at every depth, has unique keys (as a decoded document does). */
  predicate WellFormed(j: Json) {
    match j
    case Leaf(_) => true
    case Arr(xs) => forall i :: 0 <= i < |xs| ==> WellFormed(xs[i])
    case Obj(es) => UniqueKeys(es) && forall i :: 0 <= i < |es| ==> WellFormed(es[i].1)
  }

  /** Python's `==` on scalars, where True == 1 and False == 0. */
  predicate ScalarEq(a: Scalar, b: Scalar) {
    match (a, b)
    case (Null, Null) => true
    case (Bool(p), Bool(q)) => p == q
    case (Num(x), Num(y)) => x == y
    case (Str(s), Str(t)) => s == t
    case (Bool(p), Num(y)) => y == if p then 1.0 else 0.0
    case (Num(x), Bool(q)) => x == if q then 1.0 else 0.0
    case _ => false
  }

  /**
   * Python's `==` on decoded documents: lists element by element; dicts by
   * size and then, for each key of the left one, by the value stored under
   * that key on the right, wherever it sits.
   */
  predicate Same(a: Json, b: Json)
    decreases a, 0
  {
    match a
    case Leaf(x) => b.Leaf? && ScalarEq(x, b.value)
    case Arr(xs) =>
      b.Arr? && |xs| == |b.items| && forall i :: 0 <= i < |xs| ==> Same(xs[i], b.items[i])
    case Obj(es) =>
      b.Obj? && |es| == |b.entries| && forall i :: 0 <= i < |es| ==> MatchedIn(es[i], b.entries)
  }

  /** Some entry of `d` has the key of `e` and a value equal to that of `e`. */
  predicate MatchedIn(e: (string, Json), d: Dict<Json>)
    decreases e.1, 1
  {
    exists j :: 0 <= j < |d| && d[j].0 == e.0 && Same(e.1, d[j].1)
  }

  /** Every document equals itself. */
  lemma {:induction false} SameReflexive(a: Json)
    ensures Same(a, a)
  {
    match a
    case Leaf(_) =>
    case Arr(xs) =>
      forall i | 0 <= i < |xs| ensures Same(xs[i], xs[i]) {
        SameReflexive(xs[i]);
      }
    case Obj(es) =>
      forall i | 0 <= i < |es| ensures MatchedIn(es[i], es) {
        SameReflexive(es[i].1);
        assert es[i].0 == es[i].0 && Same(es[i].1, es[i].1);
      }
  }

  /**
   * With unique keys on the right, two dicts are equal exactly when they have
   * the same size and every left entry's key is on the right with an equal value.
   */
  lemma SameDicts(a: Dict<Json>, b: Dict<Json>)
    requires UniqueKeys(b)
    ensures Same(Obj(a), Obj(b)) <==> |a| == |b| && EntriesFoundIn(a, b)
  {
    if Same(Obj(a), Obj(b)) {
      forall i | 0 <= i < |a| ensures Get(b, a[i].0).Some? && Same(a[i].1, Get(b, a[i].0).value) {
        assert MatchedIn(a[i], b);
        var j :| 0 <= j < |b| && b[j].0 == a[i].0 && Same(a[i].1, b[j].1);
        GetEntry(b, j);
      }
    }
    if |a| == |b| && EntriesFoundIn(a, b) {
      forall i | 0 <= i < |a| ensures MatchedIn(a[i], b) {
        var w := Get(b, a[i].0).value;
        var j :| 0 <= j < |b| && b[j] == (a[i].0, w);
        assert b[j].0 == a[i].0 && Same(a[i].1, b[j].1);
      }
    }
  }

  /** Every entry of `a` has its key in `b`, with a value equal to the one stored there. */
  predicate EntriesFoundIn(a: Dict<Json>, b: Dict<Json>) {
    forall i :: 0 <= i < |a| ==> Get(b, a[i].0).Some? && Same(a[i].1, Get(b, a[i].0).value)
  }
}
