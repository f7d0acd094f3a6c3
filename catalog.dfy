/**
 * The in-memory part of `update_pricing_file`: the scraped families are
 * merged into the `compute` section of the decoded pricing document; an
 * update that leaves the document equal (as Python compares it) writes
 * nothing, and any other update stamps the document with the time and sorts
 * it into natural-key order. Reading and writing the file and the clock are
 * parameters: the decoded document comes in, the document to write goes out,
 * and the time is `now`.
 */
module Catalog {
  import opened Wrappers
  import opened Dicts
  import opened Documents
  import opened NestedSort

  /** How the update fails on a document of the wrong shape (a Python exception). */
  datatype Failure =
    | NotAnObject         // the document is not a dict: `data['compute']` raises
    | MissingCompute      // there is no `compute` key: `data['compute']` raises
    | ComputeNotAnObject  // `compute` has no `update` method

  datatype Outcome = Unchanged | Written(doc: Json) | Failed(reason: Failure)

  /** `d.update(p)`: the entries of `p` assigned to `d` one after the other. */
  function Update(d: Dict<Json>, p: Dict<Json>): Dict<Json> {
    if p == [] then d else Put(Update(d, p[..|p| - 1]), p[|p| - 1].0, p[|p| - 1].1)
  }

  /** After an update a key maps to its value in `p` if it has one there, and to its old value otherwise. */
  lemma {:induction false} UpdateGet(d: Dict<Json>, p: Dict<Json>, k: string)
    requires UniqueKeys(p)
    ensures Get(Update(d, p), k) == if k in Keys(p) then Get(p, k) else Get(d, k)
  {
    if p != [] {
      var init := p[..|p| - 1];
      var last := p[|p| - 1];
      LastKeyFresh(p);
      GetInitLast(p, k);
      UpdateGet(d, init, k);
      UpdateLastGet(d, p, k);
    }
  }

  /** The last entry of `p` is assigned last. */
  lemma UpdateLastGet(d: Dict<Json>, p: Dict<Json>, k: string)
    requires p != []
    ensures Get(Update(d, p), k) == if k == p[|p| - 1].0 then Some(p[|p| - 1].1) else Get(Update(d, p[..|p| - 1]), k)
  {
  }

  /** With unique keys, the key of the last entry is not among the others. */
  lemma LastKeyFresh(p: Dict<Json>)
    requires UniqueKeys(p) && p != []
    ensures UniqueKeys(p[..|p| - 1]) && Get(p[..|p| - 1], p[|p| - 1].0) == None
  {
  }

  /** A lookup in `p` searches all entries but the last, then the last. */
  lemma GetInitLast(p: Dict<Json>, k: string)
    requires p != []
    ensures Get(p, k) == if Get(p[..|p| - 1], k).Some? then Get(p[..|p| - 1], k)
                         else if k == p[|p| - 1].0 then Some(p[|p| - 1].1) else None
  {
    assert p == p[..|p| - 1] + [p[|p| - 1]];
    GetSnoc(p[..|p| - 1], p[|p| - 1], k);
  }

  /** An update keeps the existing keys in place, in front. */
  lemma {:induction false} UpdateKeepsKeys(d: Dict<Json>, p: Dict<Json>)
    ensures |d| <= |Update(d, p)| && Keys(Update(d, p))[..|d|] == Keys(d)
  {
    if p != [] {
      var u := Update(d, p[..|p| - 1]);
      UpdateKeepsKeys(d, p[..|p| - 1]);
      assert Keys(Update(d, p))[..|u|] == Keys(u);
      assert Keys(Update(d, p))[..|d|] == Keys(u)[..|d|];
    }
  }

  /** An update keeps unique keys unique. */
  lemma {:induction false} UpdateUnique(d: Dict<Json>, p: Dict<Json>)
    requires UniqueKeys(d)
    ensures UniqueKeys(Update(d, p))
  {
    if p != [] {
      UpdateUnique(d, p[..|p| - 1]);
      PutUnique(Update(d, p[..|p| - 1]), p[|p| - 1].0, p[|p| - 1].1);
    }
  }

  /** The keys after an update are those of `d` and those of `p`. */
  lemma {:induction false} UpdateKeys(d: Dict<Json>, p: Dict<Json>)
    ensures forall k :: k in Keys(Update(d, p)) <==> k in Keys(d) || k in Keys(p)
  {
    if p != [] {
      var init := p[..|p| - 1];
      UpdateKeys(d, init);
      assert Keys(p) == Keys(init) + [p[|p| - 1].0];
    }
  }

  /** Every key of `p` is already a key of `d`. */
  predicate KeysKnown(d: Dict<Json>, p: Dict<Json>) {
    forall i :: 0 <= i < |p| ==> p[i].0 in Keys(d)
  }

  lemma KeysKnownSnoc(d: Dict<Json>, p: Dict<Json>)
    requires p != []
    ensures KeysKnown(d, p) <==> KeysKnown(d, p[..|p| - 1]) && p[|p| - 1].0 in Keys(d)
  {
    assert forall i :: 0 <= i < |p| - 1 ==> p[..|p| - 1][i] == p[i];
  }

  /** An update leaves the number of entries as it was exactly when every key of `p` is already in `d`. */
  lemma {:induction false} UpdateSize(d: Dict<Json>, p: Dict<Json>)
    ensures |Update(d, p)| == |d| <==> KeysKnown(d, p)
  {
    if p != [] {
      var init := p[..|p| - 1];
      var last := p[|p| - 1];
      var u := Update(d, init);
      UpdateSize(d, init);
      UpdateKeepsKeys(d, init);
      KeysKnownSnoc(d, p);
      PutSize(u, last.0, last.1);
      assert |Update(d, p)| == if last.0 in Keys(u) then |u| else |u| + 1;
      if KeysKnown(d, init) {
        UpdateWithinKeys(d, init);
      }
    }
  }

  /** When every key of `p` is already in `d`, the keys after the update are those of `d`. */
  lemma UpdateWithinKeys(d: Dict<Json>, p: Dict<Json>)
    requires KeysKnown(d, p)
    ensures forall k :: k in Keys(Update(d, p)) <==> k in Keys(d)
  {
    UpdateKeys(d, p);
    forall k | k in Keys(p) ensures k in Keys(d) {
      var i :| 0 <= i < |p| && Keys(p)[i] == k;
    }
  }

  /** An update of a well-formed dict by well-formed values has well-formed values. */
  lemma {:induction false} UpdateWF(d: Dict<Json>, p: Dict<Json>)
    requires UniqueKeys(d) && forall i :: 0 <= i < |d| ==> WellFormed(d[i].1)
    requires forall i :: 0 <= i < |p| ==> WellFormed(p[i].1)
    ensures WellFormed(Obj(Update(d, p)))
  {
    if p != [] {
      UpdateWF(d, p[..|p| - 1]);
      PutValuesWF(Update(d, p[..|p| - 1]), p[|p| - 1].0, p[|p| - 1].1);
    }
  }

  /** Assigning a well-formed value to a well-formed dict keeps it well formed. */
  lemma PutValuesWF(d: Dict<Json>, k: string, v: Json)
    requires WellFormed(Obj(d)) && WellFormed(v)
    ensures WellFormed(Obj(Put(d, k, v)))
  {
    var r := Put(d, k, v);
    PutUnique(d, k, v);
    forall i | 0 <= i < |r| ensures WellFormed(r[i].1) {
      GetEntry(r, i);
      if r[i].0 != k {
        var j :| 0 <= j < |d| && d[j] == (r[i].0, Get(d, r[i].0).value);
      }
    }
  }

  /** The document is a dict whose `compute` value is a dict. */
  predicate HasCompute(doc: Json) {
    doc.Obj? && Get(doc.entries, "compute").Some? && Get(doc.entries, "compute").value.Obj?
  }

  function ComputeOf(doc: Json): Dict<Json>
    requires HasCompute(doc)
  {
    Get(doc.entries, "compute").value.entries
  }

  /** Every scraped family is already in `compute`, with a value equal to the scraped one. */
  predicate NothingNew(compute: Dict<Json>, pricing: Dict<Json>) {
    forall i :: 0 <= i < |pricing| ==>
      Get(compute, pricing[i].0).Some? && Same(pricing[i].1, Get(compute, pricing[i].0).value)
  }

  /** Replacing one value of a dict by an equal one leaves the dict equal to what it was, and only then. */
  lemma SameAfterPut(es: Dict<Json>, k: string, v: Json)
    requires UniqueKeys(es) && Get(es, k).Some?
    ensures Same(Obj(Put(es, k, v)), Obj(es)) <==> Same(v, Get(es, k).value)
  {
    PutSize(es, k, v);
    PutUnique(es, k, v);
    SameDicts(Put(es, k, v), es);
    if Same(v, Get(es, k).value) {
      PutEqualFound(es, k, v);
    }
    if EntriesFoundIn(Put(es, k, v), es) {
      var data := Put(es, k, v);
      var i :| 0 <= i < |data| && Keys(data)[i] == k;
      GetEntry(data, i);
    }
  }

  lemma PutEqualFound(es: Dict<Json>, k: string, v: Json)
    requires UniqueKeys(es) && Get(es, k).Some? && Same(v, Get(es, k).value)
    ensures EntriesFoundIn(Put(es, k, v), es)
  {
    var data := Put(es, k, v);
    PutUnique(es, k, v);
    forall i | 0 <= i < |data| ensures Get(es, data[i].0).Some? && Same(data[i].1, Get(es, data[i].0).value) {
      GetEntry(data, i);
      if data[i].0 != k {
        SameReflexive(data[i].1);
      }
    }
  }

  /** With every key of `pricing` in `compute`, the updated `compute` equals the old one exactly when nothing is new. */
  lemma UpdatedEntriesFound(compute: Dict<Json>, pricing: Dict<Json>)
    requires UniqueKeys(compute) && UniqueKeys(pricing)
    requires KeysKnown(compute, pricing)
    ensures EntriesFoundIn(Update(compute, pricing), compute) <==> NothingNew(compute, pricing)
  {
    if EntriesFoundIn(Update(compute, pricing), compute) {
      FoundMeansNothingNew(compute, pricing);
    }
    if NothingNew(compute, pricing) {
      NothingNewMeansFound(compute, pricing);
    }
  }

  lemma FoundMeansNothingNew(compute: Dict<Json>, pricing: Dict<Json>)
    requires UniqueKeys(compute) && UniqueKeys(pricing)
    requires EntriesFoundIn(Update(compute, pricing), compute)
    ensures NothingNew(compute, pricing)
  {
    var u := Update(compute, pricing);
    UpdateKeys(compute, pricing);
    UpdateKeepsKeys(compute, pricing);
    UpdateUnique(compute, pricing);
    forall i | 0 <= i < |pricing|
      ensures Get(compute, pricing[i].0).Some? && Same(pricing[i].1, Get(compute, pricing[i].0).value)
    {
      var k := pricing[i].0;
      assert k in Keys(pricing);
      var j :| 0 <= j < |u| && Keys(u)[j] == k;
      GetEntry(u, j);
      UpdateGet(compute, pricing, k);
      GetEntry(pricing, i);
    }
  }

  lemma NothingNewMeansFound(compute: Dict<Json>, pricing: Dict<Json>)
    requires UniqueKeys(compute) && UniqueKeys(pricing)
    requires NothingNew(compute, pricing)
    ensures EntriesFoundIn(Update(compute, pricing), compute)
  {
    var u := Update(compute, pricing);
    UpdateKeys(compute, pricing);
    UpdateKeepsKeys(compute, pricing);
    UpdateUnique(compute, pricing);
    forall j | 0 <= j < |u| ensures Get(compute, u[j].0).Some? && Same(u[j].1, Get(compute, u[j].0).value) {
      var k := u[j].0;
      GetEntry(u, j);
      UpdateGet(compute, pricing, k);
      if k in Keys(pricing) {
        var i :| 0 <= i < |pricing| && pricing[i] == (k, Get(pricing, k).value);
      } else {
        SameReflexive(u[j].1);
      }
    }
  }

  /**
   * The no-op test: assigning the scraped families into `compute` leaves the
   * document `==` to the original exactly when every scraped family is already
   * there with an equal value.
   */
  lemma NoChangeIff(doc: Json, pricing: Dict<Json>)
    requires WellFormed(doc) && HasCompute(doc) && UniqueKeys(pricing)
    ensures Same(Obj(Put(doc.entries, "compute", Obj(Update(ComputeOf(doc), pricing)))), doc)
            <==> NothingNew(ComputeOf(doc), pricing)
  {
    var es := doc.entries;
    var compute := ComputeOf(doc);
    var u := Update(compute, pricing);
    SameAfterPut(es, "compute", Obj(u));
    var m :| 0 <= m < |es| && es[m] == ("compute", Obj(compute));
    assert UniqueKeys(compute);
    SameDicts(u, compute);
    UpdateSize(compute, pricing);
    if KeysKnown(compute, pricing) {
      UpdatedEntriesFound(compute, pricing);
    }
  }

  /** An optional value, sorted. */
  function SortedOpt(v: Option<Json>): Option<Json> {
    if v.Some? then Some(SortNested(v.value)) else None
  }

  /**
   * What is written: a canonical, well-formed document, `==` to the updated and
   * stamped one, whose `updated` is `now`, whose `compute` is the updated one,
   * sorted, and whose other keys keep their values, sorted.
   */
  ghost predicate Stamped(out: Json, doc: Json, pricing: Dict<Json>, now: int)
    requires HasCompute(doc)
  {
    && out.Obj? && WellFormed(out) && Canonical(out) && Same(out, Obj(Stamp(doc, pricing, now)))
    && Get(out.entries, "updated") == Some(Leaf(Num(now as real)))
    && Get(out.entries, "compute") == Some(SortNested(Obj(Update(ComputeOf(doc), pricing))))
    && forall k :: k != "updated" && k != "compute" ==> Get(out.entries, k) == SortedOpt(Get(doc.entries, k))
  }

  /** The families of the written `compute`: the scraped ones replace, the others stay; all sorted. */
  lemma WrittenCompute(doc: Json, pricing: Dict<Json>, f: string)
    requires WellFormed(doc) && HasCompute(doc) && UniqueKeys(pricing)
    ensures Get(SortNested(Obj(Update(ComputeOf(doc), pricing))).entries, f)
            == SortedOpt(if f in Keys(pricing) then Get(pricing, f) else Get(ComputeOf(doc), f))
  {
    var compute := ComputeOf(doc);
    var m :| 0 <= m < |doc.entries| && doc.entries[m] == ("compute", Obj(compute));
    UpdateKeepsKeys(compute, pricing);
    UpdateUnique(compute, pricing);
    SortNestedGet(Update(compute, pricing), f);
    UpdateGet(compute, pricing, f);
  }

  /** The document after the update and the stamp, before sorting. */
  function Stamp(doc: Json, pricing: Dict<Json>, now: int): Dict<Json>
    requires HasCompute(doc)
  {
    Put(Put(doc.entries, "compute", Obj(Update(ComputeOf(doc), pricing))), "updated", Leaf(Num(now as real)))
  }

  /** The stamped document is well formed. */
  lemma StampWF(doc: Json, pricing: Dict<Json>, now: int)
    requires WellFormed(doc) && HasCompute(doc)
    requires forall i :: 0 <= i < |pricing| ==> WellFormed(pricing[i].1)
    ensures WellFormed(Obj(Stamp(doc, pricing, now)))
  {
    var es := doc.entries;
    var compute := ComputeOf(doc);
    var m :| 0 <= m < |es| && es[m] == ("compute", Obj(compute));
    assert WellFormed(Obj(compute));
    UpdateWF(compute, pricing);
    var d1 := Put(es, "compute", Obj(Update(compute, pricing)));
    PutValuesWF(es, "compute", Obj(Update(compute, pricing)));
    PutValuesWF(d1, "updated", Leaf(Num(now as real)));
  }

  /** After sorting, `updated` holds the stamp. */
  lemma StampedUpdated(doc: Json, pricing: Dict<Json>, now: int)
    requires WellFormed(doc) && HasCompute(doc)
    requires forall i :: 0 <= i < |pricing| ==> WellFormed(pricing[i].1)
    ensures Get(SortNested(Obj(Stamp(doc, pricing, now))).entries, "updated") == Some(Leaf(Num(now as real)))
  {
    var stamp := Leaf(Num(now as real));
    var d1 := Put(doc.entries, "compute", Obj(Update(ComputeOf(doc), pricing)));
    var d2 := Put(d1, "updated", stamp);
    assert d2 == Stamp(doc, pricing, now);
    StampWF(doc, pricing, now);
    assert UniqueKeys(d2);
    assert Get(d2, "updated") == Some(stamp);
    SortNestedGet(d2, "updated");
    assert SortNested(stamp) == stamp;
  }

  /** After sorting, `compute` holds the updated families, sorted. */
  lemma StampedCompute(doc: Json, pricing: Dict<Json>, now: int)
    requires WellFormed(doc) && HasCompute(doc)
    requires forall i :: 0 <= i < |pricing| ==> WellFormed(pricing[i].1)
    ensures Get(SortNested(Obj(Stamp(doc, pricing, now))).entries, "compute")
            == Some(SortNested(Obj(Update(ComputeOf(doc), pricing))))
  {
    var c := Obj(Update(ComputeOf(doc), pricing));
    var d1 := Put(doc.entries, "compute", c);
    var d2 := Stamp(doc, pricing, now);
    StampWF(doc, pricing, now);
    assert Get(d1, "compute") == Some(c);
    assert Get(d2, "compute") == Get(d1, "compute");
    SortNestedGet(d2, "compute");
  }

  /** After sorting, every other top-level key keeps its value, sorted. */
  lemma StampedOtherKey(doc: Json, pricing: Dict<Json>, now: int, k: string)
    requires WellFormed(doc) && HasCompute(doc)
    requires forall i :: 0 <= i < |pricing| ==> WellFormed(pricing[i].1)
    requires k != "updated" && k != "compute"
    ensures Get(SortNested(Obj(Stamp(doc, pricing, now))).entries, k) == SortedOpt(Get(doc.entries, k))
  {
    var d2 := Stamp(doc, pricing, now);
    StampWF(doc, pricing, now);
    SortNestedGet(d2, k);
  }

  /** The stamped document, sorted, is as `Stamped` says. */
  lemma StampedOutput(doc: Json, pricing: Dict<Json>, now: int)
    requires WellFormed(doc) && HasCompute(doc)
    requires forall i :: 0 <= i < |pricing| ==> WellFormed(pricing[i].1)
    ensures Stamped(SortNested(Obj(Stamp(doc, pricing, now))), doc, pricing, now)
  {
    var d2 := Stamp(doc, pricing, now);
    StampWF(doc, pricing, now);
    SortNestedCanonical(Obj(d2));
    SortNestedSame(Obj(d2));
    StampedUpdated(doc, pricing, now);
    StampedCompute(doc, pricing, now);
    forall k | k != "updated" && k != "compute"
      ensures Get(SortNested(Obj(d2)).entries, k) == SortedOpt(Get(doc.entries, k))
    {
      StampedOtherKey(doc, pricing, now, k);
    }
  }

  /**
   * `update_pricing_file` on the decoded document: merge the scraped families
   * into `compute`; if the document is still `==` to the original, write
   * nothing; otherwise stamp `updated` with `now` and sort the document.
   */
  method UpdatePricingFile(doc: Json, pricing: Dict<Json>, now: int) returns (out: Outcome)
    requires WellFormed(doc)
    requires UniqueKeys(pricing) && forall i :: 0 <= i < |pricing| ==> WellFormed(pricing[i].1)
    ensures out == Failed(NotAnObject) <==> !doc.Obj?
    ensures out == Failed(MissingCompute) <==> doc.Obj? && Get(doc.entries, "compute").None?
    ensures out == Failed(ComputeNotAnObject)
            <==> doc.Obj? && Get(doc.entries, "compute").Some? && !Get(doc.entries, "compute").value.Obj?
    ensures out == Unchanged <==> HasCompute(doc) && NothingNew(ComputeOf(doc), pricing)
    ensures out.Written? ==> HasCompute(doc) && Stamped(out.doc, doc, pricing, now)
  {
    if !doc.Obj? {
      return Failed(NotAnObject);
    }
    var data := doc.entries;
    var compute := Get(data, "compute");
    if compute.None? {
      return Failed(MissingCompute);
    }
    if !compute.value.Obj? {
      return Failed(ComputeNotAnObject);
    }
    data := Put(data, "compute", Obj(Update(compute.value.entries, pricing)));
    NoChangeIff(doc, pricing);
    if Same(Obj(data), doc) {
      return Unchanged;
    }
    data := Put(data, "updated", Leaf(Num(now as real)));
    assert data == Stamp(doc, pricing, now);
    StampedOutput(doc, pricing, now);
    out := Written(SortNested(Obj(data)));
  }
}
