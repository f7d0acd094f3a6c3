/**
 * An insertion-ordered dictionary with string keys, the way a Python dict behaves: a sequence of
 * (key, value) entries, where assigning to a present key replaces its value in
 * place and assigning to a new key appends an entry at the end.
 */
module Dicts {
  import opened Wrappers

  type Dict<V> = seq<(string, V)>

  /** The keys, in entry order. */
  function Keys<V>(d: Dict<V>): (ks: seq<string>)
    ensures |ks| == |d|
    ensures forall i :: 0 <= i < |d| ==> ks[i] == d[i].0
  {
    if d == [] then [] else [d[0].0] + Keys(d[1..])
  }

  /** No key occurs twice: the representation invariant of a dict. */
  predicate UniqueKeys<V>(d: Dict<V>) {
    forall i, j :: 0 <= i < j < |d| ==> d[i].0 != d[j].0
  }

  /** `d.get(k)`: the value of the first entry whose key is `k`. */
  function Get<V>(d: Dict<V>, k: string): (r: Option<V>)
    ensures r.Some? <==> k in Keys(d)
    ensures r.Some? ==> exists i :: 0 <= i < |d| && d[i] == (k, r.value)
    ensures r.None? ==> forall i :: 0 <= i < |d| ==> d[i].0 != k
  {
    if d == [] then None
    else if d[0].0 == k then Some(d[0].1)
    else Get(d[1..], k)
  }

  /** `d[k] = v` on a dict. */
  function Put<V>(d: Dict<V>, k: string, v: V): (r: Dict<V>)
    ensures forall k' :: Get(r, k') == if k' == k then Some(v) else Get(d, k')
    ensures Keys(r) == if k in Keys(d) then Keys(d) else Keys(d) + [k]
  {
    if d == [] then [(k, v)]
    else if d[0].0 == k then [(k, v)] + d[1..]
    else [d[0]] + Put(d[1..], k, v)
  }

  /** A lookup in a dict with one more entry at the end finds the earlier entries first. */
  lemma {:induction false} GetSnoc<V>(d: Dict<V>, e: (string, V), k: string)
    ensures Get(d + [e], k) == if Get(d, k).Some? then Get(d, k) else if k == e.0 then Some(e.1) else None
  {
    if d != [] {
      assert (d + [e])[1..] == d[1..] + [e];
      GetSnoc(d[1..], e, k);
    }
  }

  /** Assignment keeps keys unique. */
  lemma PutUnique<V>(d: Dict<V>, k: string, v: V)
    requires UniqueKeys(d)
    ensures UniqueKeys(Put(d, k, v))
  {
    var r := Put(d, k, v);
    var ks, kr := Keys(d), Keys(r);
    forall i, j | 0 <= i < j < |r|
      ensures r[i].0 != r[j].0
    {
      assert r[i].0 == kr[i] && r[j].0 == kr[j];
      if j < |d| {
        assert kr[i] == ks[i] == d[i].0 && kr[j] == ks[j] == d[j].0;
      } else {
        assert k !in ks && kr[j] == k && kr[i] == ks[i];
      }
    }
  }

  /** Assigning a new key adds one entry; assigning a present key adds none. */
  lemma PutSize<V>(d: Dict<V>, k: string, v: V)
    ensures |Put(d, k, v)| == if k in Keys(d) then |d| else |d| + 1
  {
    assert |Keys(Put(d, k, v))| == |Put(d, k, v)|;
  }

  /** With unique keys, looking up the key of an entry finds that entry's value. */
  lemma {:induction false} GetEntry<V>(d: Dict<V>, i: nat)
    requires UniqueKeys(d) && i < |d|
    ensures Get(d, d[i].0) == Some(d[i].1)
  {
    if i > 0 {
      GetEntry(d[1..], i - 1);
    }
  }

  /** With unique keys, a lookup finds exactly the entries of the dict. */
  lemma GetIsMembership<V>(d: Dict<V>, k: string, v: V)
    requires UniqueKeys(d)
    ensures Get(d, k) == Some(v) <==> (k, v) in d
  {
    if (k, v) in d {
      var i :| 0 <= i < |d| && d[i] == (k, v);
      GetEntry(d, i);
    }
  }
}
