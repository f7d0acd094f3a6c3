/**
 * `sort_nested_dict`: rebuilds every dict of a document, at every depth,
 * with its entries in ascending natural-key order, by Python's stable
 * `sorted`; lists and scalars are kept as they are.
 */
module NestedSort {
  import opened Wrappers
  import opened Dicts
  import opened NaturalKey
  import opened Documents

  // ---------------------------------------------------------------------------
  // Stable sort of dict entries by the natural key of their keys
  // ---------------------------------------------------------------------------

  /** Entries in non-decreasing natural-key order. */
  predicate Sorted<V>(es: Dict<V>) {
    forall i :: 0 <= i < |es| - 1 ==> KeyLeq(SortKey(es[i].0), SortKey(es[i + 1].0))
  }

  /** The entries whose key has sort key `k`, in their order: what stability is about. */
  function WithKey<V>(es: Dict<V>, k: seq<Part>): Dict<V> {
    if es == [] then []
    else (if SortKey(es[0].0) == k then [es[0]] else []) + WithKey(es[1..], k)
  }

  /**
   * Insertion of `e` into sorted `t`, after every entry whose key is smaller:
   * `e` lands before the entries it ties with.
   */
  function Insert<V>(e: (string, V), t: Dict<V>): (r: Dict<V>)
    ensures |r| == |t| + 1
    ensures r[0] == e || (t != [] && r[0] == t[0])
    ensures multiset(r) == multiset(t) + multiset{e}
  {
    if t == [] then [e]
    else if KeyLeq(SortKey(e.0), SortKey(t[0].0)) then [e] + t
    else
      assert t == [t[0]] + t[1..];
      [t[0]] + Insert(e, t[1..])
  }

  lemma {:induction false} InsertKeys<V>(e: (string, V), t: Dict<V>)
    ensures multiset(Keys(Insert(e, t))) == multiset(Keys(t)) + multiset{e.0}
  {
    if t != [] && !KeyLeq(SortKey(e.0), SortKey(t[0].0)) {
      InsertKeys(e, t[1..]);
      assert Keys(t) == [t[0].0] + Keys(t[1..]);
    }
  }

  lemma {:induction false} InsertSorted<V>(e: (string, V), t: Dict<V>)
    requires Sorted(t)
    ensures Sorted(Insert(e, t))
  {
    if t != [] && !KeyLeq(SortKey(e.0), SortKey(t[0].0)) {
      InsertSorted(e, t[1..]);
      KeyLessStrictTotal(SortKey(t[0].0), SortKey(e.0), SortKey(e.0));
      if |t| > 1 {
        assert KeyLeq(SortKey(t[0].0), SortKey(t[1].0));
      }
    }
  }

  lemma WithKeyCons<V>(x: (string, V), rest: Dict<V>, k: seq<Part>)
    ensures WithKey([x] + rest, k) == (if SortKey(x.0) == k then [x] else []) + WithKey(rest, k)
  {
    assert ([x] + rest)[1..] == rest;
  }

  /** Insertion puts `e` before the entries it ties with, so it keeps the input order of ties. */
  lemma {:induction false} InsertWithKey<V>(e: (string, V), t: Dict<V>, k: seq<Part>)
    ensures WithKey(Insert(e, t), k) == WithKey([e] + t, k)
  {
    if t != [] && !KeyLeq(SortKey(e.0), SortKey(t[0].0)) {
      var t' := t[1..];
      assert t == [t[0]] + t';
      InsertWithKey(e, t', k);
      assert Insert(e, t) == [t[0]] + Insert(e, t');
      var ke, kt := SortKey(e.0), SortKey(t[0].0);
      assert KeyLess(kt, ke);
      KeyLessStrictTotal(kt, ke, ke);
      assert kt != ke;
      var fe := if ke == k then [e] else [];
      var ft := if kt == k then [t[0]] else [];
      var rest := WithKey(t', k);
      WithKeyCons(e, t', k);
      WithKeyCons(t[0], Insert(e, t'), k);
      assert WithKey(Insert(e, t), k) == ft + (fe + rest);
      WithKeyCons(t[0], t', k);
      WithKeyCons(e, t, k);
      assert WithKey([e] + t, k) == fe + (ft + rest);
      if fe == [] {
        assert fe + rest == rest;
        assert ft + rest == fe + (ft + rest);
      } else {
        assert ft == [];
        assert ft + (fe + rest) == fe + rest;
        assert ft + rest == rest;
      }
    }
  }

  /** `sorted(entries, key=...)`: a stable insertion sort. */
  function SortEntries<V>(es: Dict<V>): (r: Dict<V>)
    ensures multiset(r) == multiset(es)
  {
    if es == [] then []
    else
      assert es == [es[0]] + es[1..];
      Insert(es[0], SortEntries(es[1..]))
  }

  /** The result is in natural-key order. */
  lemma {:induction false} SortEntriesSorted<V>(es: Dict<V>)
    ensures Sorted(SortEntries(es))
  {
    if es != [] {
      SortEntriesSorted(es[1..]);
      InsertSorted(es[0], SortEntries(es[1..]));
    }
  }

  /** The result has the same keys, each as often. */
  lemma {:induction false} SortEntriesKeyCounts<V>(es: Dict<V>)
    ensures multiset(Keys(SortEntries(es))) == multiset(Keys(es))
  {
    if es != [] {
      var rest := SortEntries(es[1..]);
      SortEntriesKeyCounts(es[1..]);
      InsertKeys(es[0], rest);
      assert SortEntries(es) == Insert(es[0], rest);
      assert Keys(es) == [es[0].0] + Keys(es[1..]);
    }
  }

  /** ... so unique keys stay unique. */
  lemma SortEntriesKeys<V>(es: Dict<V>)
    ensures multiset(Keys(SortEntries(es))) == multiset(Keys(es))
    ensures UniqueKeys(es) ==> UniqueKeys(SortEntries(es))
  {
    SortEntriesKeyCounts(es);
    if UniqueKeys(es) {
      UniqueByKeyCounts(es, SortEntries(es));
    }
  }

  /** Stability: for every sort key, the entries carrying it keep their input order. */
  lemma {:induction false} SortEntriesStable<V>(es: Dict<V>, k: seq<Part>)
    ensures WithKey(SortEntries(es), k) == WithKey(es, k)
  {
    if es != [] {
      var rest := SortEntries(es[1..]);
      SortEntriesStable(es[1..], k);
      InsertWithKey(es[0], rest, k);
      assert ([es[0]] + rest)[1..] == rest;
    }
  }

  /** Two entry lists with the same keys, each as often: unique keys in one means unique keys in the other. */
  lemma UniqueByKeyCounts<V>(a: Dict<V>, b: Dict<V>)
    requires UniqueKeys(a) && multiset(Keys(b)) == multiset(Keys(a))
    ensures UniqueKeys(b)
  {
    forall k ensures multiset(Keys(b))[k] <= 1 {
      KeyCountAtMostOne(a, k);
    }
    UniqueFromKeyCounts(b);
  }

  lemma {:induction false} KeyCountAtMostOne<V>(a: Dict<V>, k: string)
    requires UniqueKeys(a)
    ensures multiset(Keys(a))[k] <= 1
  {
    if a != [] {
      KeyCountAtMostOne(a[1..], k);
      assert Keys(a) == [a[0].0] + Keys(a[1..]);
      if a[0].0 == k {
        assert k !in Keys(a[1..]);
      }
    }
  }

  lemma {:induction false} UniqueFromKeyCounts<V>(b: Dict<V>)
    requires forall k :: multiset(Keys(b))[k] <= 1
    ensures UniqueKeys(b)
  {
    if b != [] {
      assert Keys(b) == [b[0].0] + Keys(b[1..]);
      forall k ensures multiset(Keys(b[1..]))[k] <= 1 {
        assert multiset(Keys(b))[k] == multiset{b[0].0}[k] + multiset(Keys(b[1..]))[k];
      }
      UniqueFromKeyCounts(b[1..]);
      assert multiset(Keys(b))[b[0].0] == 1 + multiset(Keys(b[1..]))[b[0].0];
      assert b[0].0 !in Keys(b[1..]);
      forall i, j | 0 <= i < j < |b| ensures b[i].0 != b[j].0 {
        if i > 0 {
          assert b[i].0 == b[1..][i - 1].0 && b[j].0 == b[1..][j - 1].0;
        } else {
          assert b[j].0 == Keys(b[1..])[j - 1];
        }
      }
    }
  }

  /** In a sorted list every entry is `<=` every later one. */
  lemma {:induction false} SortedPairwise<V>(s: Dict<V>, i: nat, j: nat)
    requires Sorted(s) && i <= j < |s|
    ensures KeyLeq(SortKey(s[i].0), SortKey(s[j].0))
    decreases j - i
  {
    if i == j {
      KeyLessStrictTotal(SortKey(s[i].0), SortKey(s[i].0), SortKey(s[i].0));
    } else {
      SortedPairwise(s, i + 1, j);
      KeyLeqTransitive(SortKey(s[i].0), SortKey(s[i + 1].0), SortKey(s[j].0));
    }
  }

  lemma {:induction false} InWithKey<V>(r: Dict<V>, k: seq<Part>, x: (string, V))
    ensures x in WithKey(r, k) <==> x in r && SortKey(x.0) == k
  {
    if r != [] {
      InWithKey(r[1..], k, x);
      assert r == [r[0]] + r[1..];
    }
  }

  /** The first entry of a non-empty list is the first entry of its sort key's group. */
  lemma WithKeyHead<V>(r: Dict<V>)
    requires r != []
    ensures WithKey(r, SortKey(r[0].0)) == [r[0]] + WithKey(r[1..], SortKey(r[0].0))
  {
    WithKeyCons(r[0], r[1..], SortKey(r[0].0));
    assert r == [r[0]] + r[1..];
  }

  /** The first entries of two sorted lists that agree group by group are the same entry. */
  lemma SortedHeads<V>(r: Dict<V>, s: Dict<V>)
    requires Sorted(r) && Sorted(s) && r != [] && s != []
    requires forall k :: WithKey(r, k) == WithKey(s, k)
    ensures r[0] == s[0]
  {
    var kr, ks := SortKey(r[0].0), SortKey(s[0].0);
    InWithKey(r, kr, r[0]);
    InWithKey(s, kr, r[0]);
    var p :| 0 <= p < |s| && s[p] == r[0];
    SortedPairwise(s, 0, p);
    InWithKey(s, ks, s[0]);
    InWithKey(r, ks, s[0]);
    var q :| 0 <= q < |r| && r[q] == s[0];
    SortedPairwise(r, 0, q);
    KeyLeqAntisymmetric(kr, ks);
    WithKeyHead(r);
    WithKeyHead(s);
  }

  /**
   * A sorted order with stable ties is unique: two sorted lists that agree,
   * sort key by sort key, on the order of their entries are the same list.
   */
  lemma {:induction false} SortedStableUnique<V>(r: Dict<V>, s: Dict<V>)
    requires Sorted(r) && Sorted(s)
    requires forall k :: WithKey(r, k) == WithKey(s, k)
    ensures r == s
    decreases |r|
  {
    if r != [] {
      WithKeyHead(r);
      assert WithKey(s, SortKey(r[0].0)) != [];
    }
    if s != [] {
      WithKeyHead(s);
      assert WithKey(r, SortKey(s[0].0)) != [];
    }
    if r != [] && s != [] {
      SortedHeads(r, s);
      forall k ensures WithKey(r[1..], k) == WithKey(s[1..], k) {
        WithKeyCons(r[0], r[1..], k);
        WithKeyCons(s[0], s[1..], k);
        assert r == [r[0]] + r[1..] && s == [s[0]] + s[1..];
        var f := if SortKey(r[0].0) == k then [r[0]] else [];
        var a, b := WithKey(r[1..], k), WithKey(s[1..], k);
        assert f + a == f + b;
        assert a == (f + a)[|f|..] && b == (f + b)[|f|..];
      }
      SortedStableUnique(r[1..], s[1..]);
      assert r == [r[0]] + r[1..] && s == [s[0]] + s[1..];
    }
  }

  /**
   * `SortEntries` is what a stable sort by natural key returns, and the only
   * such list: any sorted list that keeps the input order of ties equals it.
   */
  lemma SortEntriesIsStableSort<V>(es: Dict<V>, r: Dict<V>)
    requires Sorted(r) && forall k :: WithKey(r, k) == WithKey(es, k)
    ensures r == SortEntries(es)
  {
    SortEntriesSorted(es);
    forall k ensures WithKey(r, k) == WithKey(SortEntries(es), k) {
      SortEntriesStable(es, k);
    }
    SortedStableUnique(r, SortEntries(es));
  }

  /** An already sorted list is left as it is. */
  lemma {:induction false} SortEntriesOfSorted<V>(es: Dict<V>)
    requires Sorted(es)
    ensures SortEntries(es) == es
  {
    SortEntriesIsStableSort(es, es);
  }

  // ---------------------------------------------------------------------------
  // Sorting a whole document
  // ---------------------------------------------------------------------------

  /** `sort_nested_dict`: dict values are sorted recursively, other values kept. */
  function SortNested(j: Json): (r: Json)
    decreases j, 1
  {
    match j
    case Obj(es) => Obj(SortEntries(SortValues(es)))
    case _ => j
  }

  /** Each entry's value, sorted. */
  function SortValues(es: Dict<Json>): (r: Dict<Json>)
    decreases Obj(es), 0
  {
    seq(|es|, i requires 0 <= i < |es| => (es[i].0, SortNested(es[i].1)))
  }

  /** Every dict of the document, at every depth outside lists, is in natural-key order. */
  predicate Canonical(j: Json) {
    match j
    case Obj(es) => Sorted(es) && forall i :: 0 <= i < |es| ==> Canonical(es[i].1)
    case _ => true
  }

  /** Where an entry of a sorted dict comes from: an input entry, its value sorted. */
  lemma SortedEntryOrigin(es: Dict<Json>, x: (string, Json))
    requires x in SortNested(Obj(es)).entries
    ensures exists m :: 0 <= m < |es| && x == (es[m].0, SortNested(es[m].1))
  {
    var sv := SortValues(es);
    assert x in multiset(SortEntries(sv));
    assert x in sv;
  }

  /**
   * One level of `sort_nested_dict`: the entries are those of the input with
   * their values sorted, each once, in natural-key order, ties in input order.
   */
  lemma SortNestedEntries(es: Dict<Json>)
    ensures multiset(SortNested(Obj(es)).entries) == multiset(SortValues(es))
    ensures Sorted(SortNested(Obj(es)).entries)
    ensures forall k :: WithKey(SortNested(Obj(es)).entries, k) == WithKey(SortValues(es), k)
  {
    SortEntriesSorted(SortValues(es));
    forall k ensures WithKey(SortNested(Obj(es)).entries, k) == WithKey(SortValues(es), k) {
      SortEntriesStable(SortValues(es), k);
    }
  }

  /**
   * Looking a key up in a sorted dict gives what it gives in the input, sorted;
   * a key missing from the input is missing from the output.
   */
  lemma SortNestedGet(es: Dict<Json>, k: string)
    requires UniqueKeys(es)
    ensures Get(SortNested(Obj(es)).entries, k)
         == if Get(es, k).Some? then Some(SortNested(Get(es, k).value)) else None
  {
    var sv := SortValues(es);
    var r := SortNested(Obj(es)).entries;
    assert Keys(sv) == Keys(es);
    assert UniqueKeys(sv);
    SortEntriesKeys(sv);
    match Get(es, k)
    case Some(v) =>
      var m :| 0 <= m < |es| && es[m] == (k, v);
      assert sv[m] == (k, SortNested(v));
      assert (k, SortNested(v)) in multiset(r);
      GetIsMembership(r, k, SortNested(v));
    case None =>
      if Get(r, k).Some? {
        var i :| 0 <= i < |r| && r[i] == (k, Get(r, k).value);
        SortedEntryOrigin(es, r[i]);
      }
  }

  /** The output is canonical at every depth. */
  lemma {:induction false} SortNestedCanonical(j: Json)
    ensures Canonical(SortNested(j))
  {
    match j
    case Obj(es) =>
      var r := SortNested(j).entries;
      SortNestedEntries(es);
      forall i | 0 <= i < |r| ensures Canonical(r[i].1) {
        SortedEntryOrigin(es, r[i]);
        var m :| 0 <= m < |es| && r[i] == (es[m].0, SortNested(es[m].1));
        SortNestedCanonical(es[m].1);
      }
    case _ =>
  }

  /** A canonical document is left as it is. */
  lemma {:induction false} CanonicalUnchanged(j: Json)
    requires Canonical(j)
    ensures SortNested(j) == j
  {
    match j
    case Obj(es) =>
      forall i | 0 <= i < |es| ensures SortNested(es[i].1) == es[i].1 {
        CanonicalUnchanged(es[i].1);
      }
      assert SortValues(es) == es;
      SortEntriesOfSorted(es);
    case _ =>
  }

  /** Sorting twice is sorting once. */
  lemma SortNestedIdempotent(j: Json)
    ensures SortNested(SortNested(j)) == SortNested(j)
  {
    SortNestedCanonical(j);
    CanonicalUnchanged(SortNested(j));
  }

  /**
   * Sorting does not change what the document is, as Python compares it: the
   * output is well formed and `==` to the input.
   */
  lemma {:induction false} SortNestedSame(j: Json)
    requires WellFormed(j)
    ensures WellFormed(SortNested(j)) && Same(SortNested(j), j)
  {
    match j
    case Obj(es) =>
      var r := SortNested(j).entries;
      SortedKeysUnique(es);
      forall i | 0 <= i < |r| ensures WellFormed(r[i].1) && MatchedIn(r[i], es) {
        SortedEntryOrigin(es, r[i]);
        var m :| 0 <= m < |es| && r[i] == (es[m].0, SortNested(es[m].1));
        SortNestedSame(es[m].1);
        assert es[m].0 == r[i].0 && Same(r[i].1, es[m].1);
      }
      assert WellFormed(SortNested(j));
    case _ =>
      SameReflexive(j);
  }

  /** Sorting a dict with unique keys keeps its keys unique and its size. */
  lemma SortedKeysUnique(es: Dict<Json>)
    requires UniqueKeys(es)
    ensures UniqueKeys(SortNested(Obj(es)).entries) && |SortNested(Obj(es)).entries| == |es|
  {
    var sv := SortValues(es);
    assert Keys(sv) == Keys(es);
    SortEntriesKeys(sv);
    assert |multiset(SortEntries(sv))| == |multiset(sv)|;
  }
}
