/**
 * The in-memory part of `scrape_ec2_pricing`: the legacy price documents are
 * folded into the Linux table, the per-region price lists of the newer
 * endpoint are collected, and the collected prices are merged into the Linux
 * and Windows tables. A table maps an instance type (or legacy size name) to a
 * row, and a row maps a region to a price.
 *
 * HTTP is a parameter: the legacy documents arrive already decoded, and the
 * newer endpoint is a function `fetch(region, os)` from a region and an
 * operating system to a status code and a list of price entries. The
 * conversion `float(price)` is the parameter `toFloat`.
 */
module Scrape {
  import opened Wrappers
  import opened Dicts
  import opened Documents

  type Row = Dict<real>
  type Table = Dict<Row>

  const LINUX := "ec2_linux"
  const WINDOWS := "ec2_windows"

  /** The operating systems asked of the newer endpoint, in the order they are asked. */
  const OPERATING_SYSTEMS: seq<string> := ["linux", "windows-std"]

  /** The mapping from an operating system to the family it is stored under. */
  function FamilyOf(os: string): string {
    if os == "linux" then LINUX else WINDOWS
  }

  const EC2_REGIONS: seq<string> := [
    "us-east-1", "us-east-2", "us-west-1", "us-west-2", "us-gov-west-1",
    "eu-west-1", "eu-west-2", "eu-west-3", "eu-north-1", "eu-central-1",
    "ca-central-1", "ap-southeast-1", "ap-southeast-2", "ap-northeast-1",
    "ap-northeast-2", "ap-south-1", "sa-east-1", "cn-north-1"
  ]

  // ---------------------------------------------------------------------------
  // Tables and cells
  // ---------------------------------------------------------------------------

  /** Unique keys in the table and in each of its rows. */
  predicate TableWF(t: Table) {
    UniqueKeys(t) && forall i :: 0 <= i < |t| ==> UniqueKeys(t[i].1)
  }

  /** The price stored for `key` in `region`, if there is one. */
  function Cell(t: Table, key: string, region: string): Option<real> {
    if Get(t, key).Some? then Get(Get(t, key).value, region) else None
  }

  /** The row under `key`, or an empty one when the key is absent. */
  function RowOf(t: Table, key: string): Row {
    Get(t, key).GetOr([])
  }

  /** `table.get(key, False)` is truthy: the row is there and not empty. */
  predicate HasFilledRow(t: Table, key: string) {
    Get(t, key).Some? && Get(t, key).value != []
  }

  /** An empty row is put under `key` unless a non-empty one is already there. */
  function EnsureRow(t: Table, key: string): (r: Table)
    ensures key in Keys(r)
  {
    if HasFilledRow(t, key) then t else Put(t, key, [])
  }

  /** `table[key][region] = price`, where the row under `key` exists. */
  function SetCell(t: Table, key: string, region: string, price: real): Table {
    Put(t, key, Put(RowOf(t, key), region, price))
  }

  /** With unique keys, every row found by a lookup has unique keys. */
  lemma RowOfWF(t: Table, key: string)
    requires TableWF(t)
    ensures UniqueKeys(RowOf(t, key))
  {
    if Get(t, key).Some? {
      var i :| 0 <= i < |t| && t[i] == (key, Get(t, key).value);
    }
  }

  /** Putting a row with unique keys into a well-formed table keeps it well formed. */
  lemma {:induction false} PutRowWF(t: Table, key: string, row: Row)
    requires TableWF(t) && UniqueKeys(row)
    ensures TableWF(Put(t, key, row))
  {
    PutUnique(t, key, row);
    if t != [] && t[0].0 != key {
      PutRowWF(t[1..], key, row);
      var r := Put(t, key, row);
      assert r == [t[0]] + Put(t[1..], key, row);
      forall i | 0 <= i < |r| ensures UniqueKeys(r[i].1) {
        if i > 0 {
          assert r[i] == Put(t[1..], key, row)[i - 1];
        }
      }
    }
  }

  /** Making sure a row exists adds the key and changes no cell. */
  lemma EnsureRowEffect(t: Table, key: string)
    ensures Keys(EnsureRow(t, key)) == if key in Keys(t) then Keys(t) else Keys(t) + [key]
    ensures forall k, r :: Cell(EnsureRow(t, key), k, r) == Cell(t, k, r)
    ensures TableWF(t) ==> TableWF(EnsureRow(t, key))
  {
    if !HasFilledRow(t, key) && TableWF(t) {
      PutRowWF(t, key, []);
    }
  }

  /** Setting one cell changes that cell, no other, and no key of the table. */
  lemma SetCellEffect(t: Table, key: string, region: string, price: real)
    requires key in Keys(t)
    ensures Keys(SetCell(t, key, region, price)) == Keys(t)
    ensures forall k, r :: Cell(SetCell(t, key, region, price), k, r)
                         == if k == key && r == region then Some(price) else Cell(t, k, r)
    ensures TableWF(t) ==> TableWF(SetCell(t, key, region, price))
  {
    if TableWF(t) {
      RowOfWF(t, key);
      PutRowWF(t, key, Put(RowOf(t, key), region, price));
    }
  }

  // ---------------------------------------------------------------------------
  // Prices read from the documents
  // ---------------------------------------------------------------------------

  /** Python's truthiness of a decoded scalar. */
  predicate Truthy(v: Scalar) {
    match v
    case Null => false
    case Bool(b) => b
    case Num(x) => x != 0.0
    case Str(s) => s != []
  }

  function LowerChar(c: char): char {
    if 'A' <= c <= 'Z' then (c as int + 32) as char else c
  }

  /** Lower-casing of ASCII letters; no other character lowers to a letter of "n/a". */
  function LowerAscii(s: string): string {
    seq(|s|, i requires 0 <= i < |s| => LowerChar(s[i]))
  }

  /**
   * The legacy marker of a missing price: `str(price).lower() == 'n/a'`.
   * Only strings can print as "n/a"; `None`, booleans and numbers cannot.
   */
  predicate IsNotAvailable(p: Scalar) {
    p.Str? && LowerAscii(p.s) == "n/a"
  }

  /** The marker is "n/a" in any mix of cases, and nothing else. */
  lemma NotAvailableSpellings(p: Scalar)
    ensures IsNotAvailable(p) <==> p in {Str("n/a"), Str("N/A"), Str("n/A"), Str("N/a")}
  {
    if IsNotAvailable(p) {
      var s := p.s;
      var l := LowerAscii(s);
      assert |s| == |l| == 3;
      assert l[0] == LowerChar(s[0]) && l[1] == LowerChar(s[1]) && l[2] == LowerChar(s[2]);
      assert LowerChar(s[0]) == 'n' && LowerChar(s[1]) == '/' && LowerChar(s[2]) == 'a';
      assert s[0] == 'n' || s[0] == 'N';
      assert s[1] == '/';
      assert s[2] == 'a' || s[2] == 'A';
      assert s == [s[0], s[1], s[2]];
    }
  }

  // ---------------------------------------------------------------------------
  // The legacy documents
  // ---------------------------------------------------------------------------

  /** One entry of `sizes`: its `size` name and `valueColumns[0].prices.USD`. */
  datatype Size = Size(size: string, usd: Scalar)
  /** One entry of `instanceTypes`. */
  datatype InstanceType = InstanceType(sizes: seq<Size>)
  /** One entry of `config.regions`. */
  datatype RegionData = RegionData(region: string, instanceTypes: seq<InstanceType>)
  /** One decoded legacy document, reduced to its `config.regions`. */
  datatype LegacyDoc = LegacyDoc(regions: seq<RegionData>)

  /** A size seen with a price in a region, in the order the documents list them. */
  datatype Sighting = Sighting(size: string, region: string, price: Scalar)

  function Flatten<T>(xss: seq<seq<T>>): seq<T> {
    if xss == [] then [] else Flatten(xss[..|xss| - 1]) + xss[|xss| - 1]
  }

  lemma FlattenStep<T>(xss: seq<seq<T>>, n: nat)
    requires n < |xss|
    ensures Flatten(xss[..n + 1]) == Flatten(xss[..n]) + xss[n]
  {
    assert xss[..n + 1][..n] == xss[..n];
  }

  function SizeSightings(region: string, sizes: seq<Size>): seq<Sighting> {
    seq(|sizes|, i requires 0 <= i < |sizes| => Sighting(sizes[i].size, region, sizes[i].usd))
  }

  lemma SizeSightingsStep(region: string, sizes: seq<Size>, m: nat)
    requires m < |sizes|
    ensures SizeSightings(region, sizes[..m + 1])
         == SizeSightings(region, sizes[..m]) + [Sighting(sizes[m].size, region, sizes[m].usd)]
  {
  }

  function RegionSightings(rd: RegionData): seq<Sighting> {
    Flatten(seq(|rd.instanceTypes|, i requires 0 <= i < |rd.instanceTypes| =>
      SizeSightings(rd.region, rd.instanceTypes[i].sizes)))
  }

  function DocSightings(doc: LegacyDoc): seq<Sighting> {
    Flatten(seq(|doc.regions|, i requires 0 <= i < |doc.regions| => RegionSightings(doc.regions[i])))
  }

  /** Every size of every instance type of every region of every document, in order. */
  function LegacySightings(docs: seq<LegacyDoc>): seq<Sighting> {
    Flatten(seq(|docs|, i requires 0 <= i < |docs| => DocSightings(docs[i])))
  }

  /** What one visited size does to the Linux table. */
  function Record(t: Table, s: Sighting, toFloat: Scalar -> real): Table {
    var t1 := EnsureRow(t, s.size);
    if IsNotAvailable(s.price) then t1 else SetCell(t1, s.size, s.region, toFloat(s.price))
  }

  function RecordAll(t: Table, ss: seq<Sighting>, toFloat: Scalar -> real): Table {
    if ss == [] then t else Record(RecordAll(t, ss[..|ss| - 1], toFloat), ss[|ss| - 1], toFloat)
  }

  /** The Linux table once every legacy document has been read. */
  function LegacyTable(docs: seq<LegacyDoc>, toFloat: Scalar -> real): Table {
    RecordAll([], LegacySightings(docs), toFloat)
  }

  /** The reference for a legacy cell: the last available price listed for that size and region. */
  function LastAvailable(ss: seq<Sighting>, size: string, region: string): (p: Option<Scalar>)
    ensures p.Some? ==> !IsNotAvailable(p.value) && Sighting(size, region, p.value) in ss
    ensures p.None? ==> forall i :: 0 <= i < |ss| && ss[i].size == size && ss[i].region == region
                                    ==> IsNotAvailable(ss[i].price)
  {
    if ss == [] then None
    else
      var s := ss[|ss| - 1];
      if s.size == size && s.region == region && !IsNotAvailable(s.price) then Some(s.price)
      else LastAvailable(ss[..|ss| - 1], size, region)
  }

  lemma {:induction false} RecordAllAppend(t: Table, a: seq<Sighting>, b: seq<Sighting>, toFloat: Scalar -> real)
    ensures RecordAll(t, a + b, toFloat) == RecordAll(RecordAll(t, a, toFloat), b, toFloat)
  {
    if b == [] {
      assert a + b == a;
    } else {
      assert (a + b)[..|a + b| - 1] == a + b[..|b| - 1];
      RecordAllAppend(t, a, b[..|b| - 1], toFloat);
    }
  }

  /** The sizes named by the sightings. */
  function SizesOf(ss: seq<Sighting>): (r: set<string>)
    ensures forall k :: k in r <==> exists i :: 0 <= i < |ss| && ss[i].size == k
  {
    if ss == [] then {}
    else
      var r := SizesOf(ss[..|ss| - 1]) + {ss[|ss| - 1].size};
      assert forall i :: 0 <= i < |ss| - 1 ==> ss[..|ss| - 1][i] == ss[i];
      r
  }

  /** What one visited size does to the cells: an available price is set, nothing else changes. */
  lemma RecordCells(t: Table, s: Sighting, toFloat: Scalar -> real, k: string, r: string)
    ensures Cell(Record(t, s, toFloat), k, r)
            == if k == s.size && r == s.region && !IsNotAvailable(s.price) then Some(toFloat(s.price)) else Cell(t, k, r)
  {
    EnsureRowEffect(t, s.size);
    if !IsNotAvailable(s.price) {
      SetCellEffect(EnsureRow(t, s.size), s.size, s.region, toFloat(s.price));
    }
  }

  /** The legacy fold's cells in terms of their reference: the converted last available price. */
  lemma {:induction false} RecordAllCells(t: Table, ss: seq<Sighting>, toFloat: Scalar -> real, k: string, r: string)
    ensures Cell(RecordAll(t, ss, toFloat), k, r)
            == (match LastAvailable(ss, k, r) case Some(p) => Some(toFloat(p)) case None => Cell(t, k, r))
  {
    if ss != [] {
      var init := ss[..|ss| - 1];
      RecordAllCells(t, init, toFloat, k, r);
      RecordCells(RecordAll(t, init, toFloat), ss[|ss| - 1], toFloat, k, r);
    }
  }

  /**
   * The legacy fold's rows: a row exists exactly for the keys already there and
   * the sizes seen, rows already there keep their place, and keys stay unique.
   */
  lemma {:induction false} RecordAllKeys(t: Table, ss: seq<Sighting>, toFloat: Scalar -> real)
    ensures forall k :: k in Keys(RecordAll(t, ss, toFloat)) <==> k in Keys(t) || k in SizesOf(ss)
    ensures |t| <= |RecordAll(t, ss, toFloat)| && Keys(RecordAll(t, ss, toFloat))[..|t|] == Keys(t)
    ensures TableWF(t) ==> TableWF(RecordAll(t, ss, toFloat))
  {
    if ss != [] {
      var init := ss[..|ss| - 1];
      var s := ss[|ss| - 1];
      var u := RecordAll(t, init, toFloat);
      RecordAllKeys(t, init, toFloat);
      EnsureRowEffect(u, s.size);
      if !IsNotAvailable(s.price) {
        SetCellEffect(EnsureRow(u, s.size), s.size, s.region, toFloat(s.price));
      }
      assert Keys(RecordAll(t, ss, toFloat))[..|t|] == Keys(u)[..|t|];
    }
  }

  /** Folds the sizes of one region into the table, as the two innermost loops do. */
  method RecordRegion(t: Table, rd: RegionData, toFloat: Scalar -> real) returns (u: Table)
    ensures u == RecordAll(t, RegionSightings(rd), toFloat)
  {
    u := t;
    var perType := seq(|rd.instanceTypes|, i requires 0 <= i < |rd.instanceTypes| =>
      SizeSightings(rd.region, rd.instanceTypes[i].sizes));
    for n := 0 to |rd.instanceTypes|
      invariant u == RecordAll(t, Flatten(perType[..n]), toFloat)
    {
      var sizes := rd.instanceTypes[n].sizes;
      ghost var before := u;
      for m := 0 to |sizes|
        invariant u == RecordAll(before, SizeSightings(rd.region, sizes[..m]), toFloat)
      {
        var size := sizes[m];
        SizeSightingsStep(rd.region, sizes, m);
        RecordAllAppend(before, SizeSightings(rd.region, sizes[..m]), [Sighting(size.size, rd.region, size.usd)], toFloat);
        if !(Get(u, size.size).Some? && Get(u, size.size).value != []) {
          u := Put(u, size.size, []);
        }
        if !IsNotAvailable(size.usd) {
          u := Put(u, size.size, Put(Get(u, size.size).GetOr([]), rd.region, toFloat(size.usd)));
        }
      }
      assert sizes[..|sizes|] == sizes;
      FlattenStep(perType, n);
      RecordAllAppend(t, Flatten(perType[..n]), perType[n], toFloat);
    }
    assert perType[..|perType|] == perType;
  }

  /** Folds every region of one legacy document into the table. */
  method RecordDoc(t: Table, doc: LegacyDoc, toFloat: Scalar -> real) returns (u: Table)
    ensures u == RecordAll(t, DocSightings(doc), toFloat)
  {
    u := t;
    var perRegion := seq(|doc.regions|, i requires 0 <= i < |doc.regions| => RegionSightings(doc.regions[i]));
    for r := 0 to |doc.regions|
      invariant u == RecordAll(t, Flatten(perRegion[..r]), toFloat)
    {
      u := RecordRegion(u, doc.regions[r], toFloat);
      FlattenStep(perRegion, r);
      RecordAllAppend(t, Flatten(perRegion[..r]), perRegion[r], toFloat);
    }
    assert perRegion[..|perRegion|] == perRegion;
  }

  /** The legacy half of the scrape: every document, region by region, into the Linux table. */
  method ScrapeLegacy(docs: seq<LegacyDoc>, toFloat: Scalar -> real) returns (linux: Table)
    ensures linux == LegacyTable(docs, toFloat)
  {
    linux := [];
    var perDoc := seq(|docs|, i requires 0 <= i < |docs| => DocSightings(docs[i]));
    for d := 0 to |docs|
      invariant linux == RecordAll([], Flatten(perDoc[..d]), toFloat)
    {
      linux := RecordDoc(linux, docs[d], toFloat);
      FlattenStep(perDoc, d);
      RecordAllAppend([], Flatten(perDoc[..d]), perDoc[d], toFloat);
    }
    assert perDoc[..|perDoc|] == perDoc;
  }

  /** The legacy table's cells, rows and well-formedness in terms of the documents. */
  lemma LegacyTableEffect(docs: seq<LegacyDoc>, toFloat: Scalar -> real)
    ensures forall k, r ::
              Cell(LegacyTable(docs, toFloat), k, r)
              == (match LastAvailable(LegacySightings(docs), k, r) case Some(p) => Some(toFloat(p)) case None => None)
    ensures forall k :: k in Keys(LegacyTable(docs, toFloat)) <==> k in SizesOf(LegacySightings(docs))
    ensures TableWF(LegacyTable(docs, toFloat))
  {
    RecordAllKeys([], LegacySightings(docs), toFloat);
    forall k, r ensures Cell(LegacyTable(docs, toFloat), k, r)
                        == (match LastAvailable(LegacySightings(docs), k, r) case Some(p) => Some(toFloat(p)) case None => None)
    {
      RecordAllCells([], LegacySightings(docs), toFloat, k, r);
    }
  }

  // ---------------------------------------------------------------------------
  // The newer per-region endpoint
  // ---------------------------------------------------------------------------

  /**
   * One entry of a region's `prices`: its `attributes["aws:ec2:instanceType"]`
   * and its `price["USD"]`, each of which may be missing.
   */
  datatype PriceEntry = PriceEntry(instanceType: Option<string>, usd: Option<Scalar>)

  /** A response of the endpoint: its status code and, when decoded, its `prices`. */
  datatype Response = Response(status: int, prices: seq<PriceEntry>)

  /** A missing instance type reads as the empty name. */
  function InstanceName(e: PriceEntry): string {
    e.instanceType.GetOr("")
  }

  /** A missing USD price reads as the number 0. */
  function EntryPrice(e: PriceEntry): Scalar {
    e.usd.GetOr(Num(0.0))
  }

  /** The instance types named by a list of entries. */
  function NamesIn(ps: seq<PriceEntry>): set<string> {
    set i | 0 <= i < |ps| :: InstanceName(ps[i])
  }

  /** The price per instance type left by a list of entries, later entries overwriting earlier ones. */
  function PriceMap(ps: seq<PriceEntry>): (m: map<string, Scalar>)
    ensures m.Keys == NamesIn(ps)
  {
    if ps == [] then map[]
    else
      var init := ps[..|ps| - 1];
      var m := PriceMap(init)[InstanceName(ps[|ps| - 1]) := EntryPrice(ps[|ps| - 1])];
      assert forall i :: 0 <= i < |init| ==> init[i] == ps[i];
      m
  }

  /** Each instance type holds the price of the LAST entry naming it. */
  lemma {:induction false} PriceMapLast(ps: seq<PriceEntry>, name: string)
    requires name in PriceMap(ps)
    ensures exists i :: 0 <= i < |ps| && InstanceName(ps[i]) == name && PriceMap(ps)[name] == EntryPrice(ps[i])
                        && forall j :: i < j < |ps| ==> InstanceName(ps[j]) != name
  {
    var init := ps[..|ps| - 1];
    if InstanceName(ps[|ps| - 1]) != name {
      PriceMapLast(init, name);
      var i :| 0 <= i < |init| && InstanceName(init[i]) == name && PriceMap(init)[name] == EntryPrice(init[i])
               && forall j :: i < j < |init| ==> InstanceName(init[j]) != name;
      assert InstanceName(ps[i]) == name && PriceMap(ps)[name] == EntryPrice(ps[i]);
      assert forall j :: i < j < |ps| ==> InstanceName(ps[j]) != name by {
        forall j | i < j < |ps| ensures InstanceName(ps[j]) != name {
          if j < |init| { assert init[j] == ps[j]; }
        }
      }
    } else {
      var i := |ps| - 1;
      assert InstanceName(ps[i]) == name && PriceMap(ps)[name] == EntryPrice(ps[i]);
    }
  }

  /** What one region's response leaves in `res[family][region]`: nothing unless the status is 200. */
  function RegionPrices(resp: Response): map<string, Scalar> {
    if resp.status == 200 then PriceMap(resp.prices) else map[]
  }

  /** The instance types one response adds to `instances`. */
  function ResponseNames(resp: Response): set<string> {
    if resp.status == 200 then NamesIn(resp.prices) else {}
  }

  /** `res[family]` for one operating system: every region asked, each with its prices. */
  function PricesIn(fetch: (string, string) -> Response, os: string, regions: seq<string>): map<string, map<string, Scalar>> {
    map r | r in regions :: RegionPrices(fetch(r, os))
  }

  function ExpectedPrices(fetch: (string, string) -> Response, os: string): map<string, map<string, Scalar>> {
    PricesIn(fetch, os, EC2_REGIONS)
  }

  function SeenInRegions(fetch: (string, string) -> Response, os: string, regions: seq<string>): set<string> {
    if regions == [] then {}
    else SeenInRegions(fetch, os, regions[..|regions| - 1]) + ResponseNames(fetch(regions[|regions| - 1], os))
  }

  function SeenFor(fetch: (string, string) -> Response, oses: seq<string>): set<string> {
    if oses == [] then {}
    else SeenFor(fetch, oses[..|oses| - 1]) + SeenInRegions(fetch, oses[|oses| - 1], EC2_REGIONS)
  }

  /** Every instance type named by a successful response, for either operating system and any region. */
  function Seen(fetch: (string, string) -> Response): set<string> {
    SeenFor(fetch, OPERATING_SYSTEMS)
  }

  lemma {:induction false} SeenInRegionsMembers(fetch: (string, string) -> Response, os: string, regions: seq<string>, name: string)
    ensures name in SeenInRegions(fetch, os, regions)
            <==> exists k :: 0 <= k < |regions| && name in ResponseNames(fetch(regions[k], os))
  {
    if regions != [] {
      var init := regions[..|regions| - 1];
      SeenInRegionsMembers(fetch, os, init, name);
      if exists k :: 0 <= k < |init| && name in ResponseNames(fetch(init[k], os)) {
        var k :| 0 <= k < |init| && name in ResponseNames(fetch(init[k], os));
        assert regions[k] == init[k];
      }
      if exists k :: 0 <= k < |regions| && name in ResponseNames(fetch(regions[k], os)) {
        var k :| 0 <= k < |regions| && name in ResponseNames(fetch(regions[k], os));
        if k < |init| {
          assert init[k] == regions[k];
        }
      }
    }
  }

  /** An instance type is seen exactly when some region answered 200 for some operating system and listed it. */
  lemma SeenMembers(fetch: (string, string) -> Response, name: string)
    ensures name in Seen(fetch)
            <==> exists o, k :: 0 <= o < |OPERATING_SYSTEMS| && 0 <= k < |EC2_REGIONS|
                                && fetch(EC2_REGIONS[k], OPERATING_SYSTEMS[o]).status == 200
                                && name in NamesIn(fetch(EC2_REGIONS[k], OPERATING_SYSTEMS[o]).prices)
  {
    assert OPERATING_SYSTEMS[..1] == ["linux"];
    assert OPERATING_SYSTEMS[..1][..0] == [];
    assert SeenFor(fetch, OPERATING_SYSTEMS[..1]) == SeenInRegions(fetch, "linux", EC2_REGIONS);
    assert Seen(fetch) == SeenInRegions(fetch, "linux", EC2_REGIONS) + SeenInRegions(fetch, "windows-std", EC2_REGIONS);
    SeenInRegionsMembers(fetch, "linux", EC2_REGIONS, name);
    SeenInRegionsMembers(fetch, "windows-std", EC2_REGIONS, name);
    if name in Seen(fetch) {
      var o := if name in SeenInRegions(fetch, "linux", EC2_REGIONS) then 0 else 1;
      var k :| 0 <= k < |EC2_REGIONS| && name in ResponseNames(fetch(EC2_REGIONS[k], OPERATING_SYSTEMS[o]));
      assert fetch(EC2_REGIONS[k], OPERATING_SYSTEMS[o]).status == 200;
    }
    if exists o, k :: 0 <= o < |OPERATING_SYSTEMS| && 0 <= k < |EC2_REGIONS|
                      && fetch(EC2_REGIONS[k], OPERATING_SYSTEMS[o]).status == 200
                      && name in NamesIn(fetch(EC2_REGIONS[k], OPERATING_SYSTEMS[o]).prices) {
      var o, k :| 0 <= o < |OPERATING_SYSTEMS| && 0 <= k < |EC2_REGIONS|
                  && fetch(EC2_REGIONS[k], OPERATING_SYSTEMS[o]).status == 200
                  && name in NamesIn(fetch(EC2_REGIONS[k], OPERATING_SYSTEMS[o]).prices);
      assert name in ResponseNames(fetch(EC2_REGIONS[k], OPERATING_SYSTEMS[o]));
    }
  }

  /** One more entry of a response adds its instance type and overwrites its price. */
  lemma PriceMapStep(ps: seq<PriceEntry>, e: nat)
    requires e < |ps|
    ensures NamesIn(ps[..e + 1]) == NamesIn(ps[..e]) + {InstanceName(ps[e])}
    ensures PriceMap(ps[..e + 1]) == PriceMap(ps[..e])[InstanceName(ps[e]) := EntryPrice(ps[e])]
  {
    assert ps[..e + 1][..e] == ps[..e];
    assert forall i :: 0 <= i < e ==> ps[..e + 1][i] == ps[..e][i];
  }

  /** One request: the prices of a region, with the instance types it names added to `instances`. */
  method CollectRegion(fetch: (string, string) -> Response, region: string, os: string, instances: set<string>)
    returns (prices: map<string, Scalar>, seen: set<string>)
    ensures prices == RegionPrices(fetch(region, os))
    ensures seen == instances + ResponseNames(fetch(region, os))
  {
    prices := map[];
    seen := instances;
    var response := fetch(region, os);
    if response.status != 200 {
      return;
    }
    for e := 0 to |response.prices|
      invariant prices == PriceMap(response.prices[..e])
      invariant seen == instances + NamesIn(response.prices[..e])
    {
      var entry := response.prices[e];
      var instanceType := entry.instanceType.GetOr("");
      seen := seen + {instanceType};
      prices := prices[instanceType := entry.usd.GetOr(Num(0.0))];
      PriceMapStep(response.prices, e);
    }
    assert response.prices[..|response.prices|] == response.prices;
  }

  /** The region loop for one operating system: `res[family]`, and the instance types seen so far. */
  method CollectFamily(fetch: (string, string) -> Response, os: string, regions: seq<string>, instances: set<string>)
    returns (regionPrices: map<string, map<string, Scalar>>, seen: set<string>)
    ensures regionPrices == PricesIn(fetch, os, regions)
    ensures seen == instances + SeenInRegions(fetch, os, regions)
  {
    regionPrices := map[];
    seen := instances;
    for k := 0 to |regions|
      invariant regionPrices == PricesIn(fetch, os, regions[..k])
      invariant seen == instances + SeenInRegions(fetch, os, regions[..k])
    {
      var region := regions[k];
      var prices;
      prices, seen := CollectRegion(fetch, region, os, seen);
      regionPrices := regionPrices[region := prices];
      assert regions[..k + 1][..k] == regions[..k];
      assert regions[..k + 1] == regions[..k] + [region];
    }
    assert regions[..|regions|] == regions;
  }

  /**
   * The collecting loops: for each operating system and each region, one
   * request; a response other than 200 leaves that region without prices.
   * Returns `res` and `instances`.
   */
  method CollectNewApi(fetch: (string, string) -> Response)
    returns (res: map<string, map<string, map<string, Scalar>>>, instances: set<string>)
    ensures res == map[LINUX := ExpectedPrices(fetch, "linux"), WINDOWS := ExpectedPrices(fetch, "windows-std")]
    ensures instances == Seen(fetch)
  {
    res := map[];
    instances := {};
    for o := 0 to |OPERATING_SYSTEMS|
      invariant res == if o == 0 then map[]
                       else if o == 1 then map[LINUX := ExpectedPrices(fetch, "linux")]
                       else map[LINUX := ExpectedPrices(fetch, "linux"), WINDOWS := ExpectedPrices(fetch, "windows-std")]
      invariant instances == SeenFor(fetch, OPERATING_SYSTEMS[..o])
    {
      var os := OPERATING_SYSTEMS[o];
      assert os == if o == 0 then "linux" else "windows-std";
      assert FamilyOf(os) == if o == 0 then LINUX else WINDOWS;
      var regionPrices;
      regionPrices, instances := CollectFamily(fetch, os, EC2_REGIONS, instances);
      res := res[FamilyOf(os) := regionPrices];
      assert OPERATING_SYSTEMS[..o + 1][..o] == OPERATING_SYSTEMS[..o];
    }
    assert OPERATING_SYSTEMS[..2] == OPERATING_SYSTEMS;
  }

  // ---------------------------------------------------------------------------
  // Merging the collected prices
  // ---------------------------------------------------------------------------

  /** `res[item][region].get(instance, False)`, with an absent region reading as no price. */
  function PriceAt(prices: map<string, map<string, Scalar>>, region: string, instance: string): Scalar {
    if region in prices && instance in prices[region] then prices[region][instance] else Bool(false)
  }

  /**
   * The reference for a cell after the merge: a truthy collected price for a
   * merged instance type and a listed region replaces whatever was there;
   * any other cell keeps its value.
   */
  function MergedCell(base: Table, prices: map<string, map<string, Scalar>>, regions: seq<string>,
                      merged: set<string>, key: string, region: string, toFloat: Scalar -> real): Option<real>
  {
    var p := PriceAt(prices, region, key);
    if key in merged && region in regions && Truthy(p) then Some(toFloat(p)) else Cell(base, key, region)
  }

  /**
   * `t` is `base` with the instance types `merged` merged in: rows already in
   * `base` keep their place, a row exists for each merged instance type, every
   * cell is as `MergedCell` says, and unique keys stay unique.
   */
  ghost predicate Merged(t: Table, base: Table, prices: map<string, map<string, Scalar>>, regions: seq<string>,
                   merged: set<string>, toFloat: Scalar -> real)
  {
    && |base| <= |t| && Keys(t)[..|base|] == Keys(base)
    && (forall k :: k in Keys(t) <==> k in Keys(base) || k in merged)
    && (forall k, r :: Cell(t, k, r) == MergedCell(base, prices, regions, merged, k, r, toFloat))
    && (TableWF(base) ==> TableWF(t))
  }

  /** The reference for the region loop of one instance type: each region's truthy price set in turn. */
  function MergeRegions(t: Table, instance: string, prices: map<string, map<string, Scalar>>,
                        regions: seq<string>, toFloat: Scalar -> real): Table
  {
    if regions == [] then t
    else
      var u := MergeRegions(t, instance, prices, regions[..|regions| - 1], toFloat);
      var price := PriceAt(prices, regions[|regions| - 1], instance);
      if Truthy(price) then SetCell(u, instance, regions[|regions| - 1], toFloat(price)) else u
  }

  /** The region loop keeps the keys of the table, and unique keys unique. */
  lemma {:induction false} MergeRegionsKeys(t: Table, instance: string, prices: map<string, map<string, Scalar>>,
                                            regions: seq<string>, toFloat: Scalar -> real)
    requires instance in Keys(t)
    ensures Keys(MergeRegions(t, instance, prices, regions, toFloat)) == Keys(t)
    ensures TableWF(t) ==> TableWF(MergeRegions(t, instance, prices, regions, toFloat))
  {
    if regions != [] {
      var region := regions[|regions| - 1];
      var u := MergeRegions(t, instance, prices, regions[..|regions| - 1], toFloat);
      MergeRegionsKeys(t, instance, prices, regions[..|regions| - 1], toFloat);
      SetCellEffect(u, instance, region, toFloat(PriceAt(prices, region, instance)));
    }
  }

  /** After the region loop, a cell of the instance type holds its truthy price in a listed region; every other cell is as it was. */
  lemma {:induction false} MergeRegionsCells(t: Table, instance: string, prices: map<string, map<string, Scalar>>,
                                             regions: seq<string>, toFloat: Scalar -> real, k: string, r: string)
    requires instance in Keys(t)
    ensures Cell(MergeRegions(t, instance, prices, regions, toFloat), k, r)
            == if k == instance && r in regions && Truthy(PriceAt(prices, r, k))
               then Some(toFloat(PriceAt(prices, r, k))) else Cell(t, k, r)
  {
    if regions != [] {
      var init := regions[..|regions| - 1];
      var region := regions[|regions| - 1];
      var u := MergeRegions(t, instance, prices, init, toFloat);
      assert regions == init + [region];
      MergeRegionsCells(t, instance, prices, init, toFloat, k, r);
      MergeRegionsKeys(t, instance, prices, init, toFloat);
      SetCellEffect(u, instance, region, toFloat(PriceAt(prices, region, instance)));
    }
  }

  /** The region loop for one instance type of one family. */
  method MergeInstance(t: Table, instance: string, prices: map<string, map<string, Scalar>>,
                       regions: seq<string>, toFloat: Scalar -> real) returns (u: Table)
    requires forall r :: r in regions ==> r in prices
    ensures u == MergeRegions(EnsureRow(t, instance), instance, prices, regions, toFloat)
  {
    u := t;
    if !(Get(u, instance).Some? && Get(u, instance).value != []) {
      u := Put(u, instance, []);
    }
    ghost var start := u;
    for n := 0 to |regions|
      invariant u == MergeRegions(start, instance, prices, regions[..n], toFloat)
    {
      var region := regions[n];
      var price := if instance in prices[region] then prices[region][instance] else Bool(false);
      assert regions[..n + 1][..n] == regions[..n];
      if Truthy(price) {
        u := Put(u, instance, Put(Get(u, instance).GetOr([]), region, toFloat(price)));
      }
    }
    assert regions[..|regions|] == regions;
  }

  /**
   * Merging one instance type adds its row if missing, sets its truthy prices
   * in the listed regions, changes no other cell, and keeps unique keys unique.
   */
  lemma MergeInstanceEffect(t: Table, instance: string, prices: map<string, map<string, Scalar>>,
                            regions: seq<string>, toFloat: Scalar -> real)
    ensures var u := MergeRegions(EnsureRow(t, instance), instance, prices, regions, toFloat);
            && Keys(u) == (if instance in Keys(t) then Keys(t) else Keys(t) + [instance])
            && (forall k, r :: Cell(u, k, r)
                               == if k == instance && r in regions && Truthy(PriceAt(prices, r, k))
                                  then Some(toFloat(PriceAt(prices, r, k))) else Cell(t, k, r))
            && (TableWF(t) ==> TableWF(u))
  {
    var start := EnsureRow(t, instance);
    EnsureRowEffect(t, instance);
    MergeRegionsKeys(start, instance, prices, regions, toFloat);
    forall k, r ensures Cell(MergeRegions(start, instance, prices, regions, toFloat), k, r)
                        == if k == instance && r in regions && Truthy(PriceAt(prices, r, k))
                           then Some(toFloat(PriceAt(prices, r, k))) else Cell(t, k, r)
    {
      MergeRegionsCells(start, instance, prices, regions, toFloat, k, r);
    }
  }

  /** A table that differs from `t` as merging one instance type does extends a merge by that instance type. */
  lemma MergedStep(t: Table, u: Table, base: Table, prices: map<string, map<string, Scalar>>, regions: seq<string>,
                   merged: set<string>, instance: string, toFloat: Scalar -> real)
    requires Merged(t, base, prices, regions, merged, toFloat)
    requires Keys(u) == if instance in Keys(t) then Keys(t) else Keys(t) + [instance]
    requires forall k, r :: Cell(u, k, r)
                            == if k == instance && r in regions && Truthy(PriceAt(prices, r, k))
                               then Some(toFloat(PriceAt(prices, r, k))) else Cell(t, k, r)
    requires TableWF(t) ==> TableWF(u)
    ensures Merged(u, base, prices, regions, merged + {instance}, toFloat)
  {
    assert Keys(u)[..|t|] == Keys(t);
    assert Keys(u)[..|base|] == Keys(t)[..|base|];
    forall k ensures k in Keys(u) <==> k in Keys(base) || k in merged + {instance} {
      assert k in Keys(u) <==> k in Keys(t) || k == instance;
    }
    forall k, r ensures Cell(u, k, r) == MergedCell(base, prices, regions, merged + {instance}, k, r, toFloat) {
      assert Cell(t, k, r) == MergedCell(base, prices, regions, merged, k, r, toFloat);
    }
  }

  /** Merging one more instance type, as `MergeInstance` does, extends a merge by that instance type. */
  lemma MergedFold(t: Table, base: Table, prices: map<string, map<string, Scalar>>, regions: seq<string>,
                   merged: set<string>, instance: string, toFloat: Scalar -> real)
    requires Merged(t, base, prices, regions, merged, toFloat)
    ensures Merged(MergeRegions(EnsureRow(t, instance), instance, prices, regions, toFloat),
                   base, prices, regions, merged + {instance}, toFloat)
  {
    MergeInstanceEffect(t, instance, prices, regions, toFloat);
    MergedStep(t, MergeRegions(EnsureRow(t, instance), instance, prices, regions, toFloat),
               base, prices, regions, merged, instance, toFloat);
  }

  /**
   * The merge loop of one family: every collected instance type, in an
   * arbitrary order (that of iterating a set), through every region.
   */
  method MergeNewApi(table: Table, prices: map<string, map<string, Scalar>>, instances: set<string>,
                     toFloat: Scalar -> real) returns (t: Table)
    requires forall r :: r in EC2_REGIONS ==> r in prices
    ensures Merged(t, table, prices, EC2_REGIONS, instances, toFloat)
  {
    t := table;
    var remaining := instances;
    while remaining != {}
      invariant remaining <= instances
      invariant Merged(t, table, prices, EC2_REGIONS, instances - remaining, toFloat)
      decreases remaining
    {
      var instance :| instance in remaining;
      MergedFold(t, table, prices, EC2_REGIONS, instances - remaining, instance, toFloat);
      t := MergeInstance(t, instance, prices, EC2_REGIONS, toFloat);
      assert instances - (remaining - {instance}) == (instances - remaining) + {instance};
      remaining := remaining - {instance};
    }
  }

  /**
   * The whole scrape: the Linux table is the legacy table with the collected
   * Linux prices merged in; the Windows table starts empty and receives the
   * collected Windows prices. Both families merge the same instance types.
   */
  method ScrapeEc2Pricing(docs: seq<LegacyDoc>, fetch: (string, string) -> Response, toFloat: Scalar -> real)
    returns (result: Dict<Table>)
    ensures Keys(result) == [LINUX, WINDOWS]
    ensures Merged(result[0].1, LegacyTable(docs, toFloat), ExpectedPrices(fetch, "linux"), EC2_REGIONS, Seen(fetch), toFloat)
    ensures Merged(result[1].1, [], ExpectedPrices(fetch, "windows-std"), EC2_REGIONS, Seen(fetch), toFloat)
  {
    var linux := ScrapeLegacy(docs, toFloat);
    var windows: Table := [];
    var res, instances := CollectNewApi(fetch);
    linux := MergeNewApi(linux, res[LINUX], instances, toFloat);
    windows := MergeNewApi(windows, res[WINDOWS], instances, toFloat);
    result := [(LINUX, linux), (WINDOWS, windows)];
  }

  /** The collected price of `k` in region `r` for an operating system is truthy and came in a response with status 200. */
  predicate FreshPrice(fetch: (string, string) -> Response, os: string, k: string, r: string) {
    r in EC2_REGIONS && fetch(r, os).status == 200 && k in PriceMap(fetch(r, os).prices)
    && Truthy(PriceMap(fetch(r, os).prices)[k])
  }

  /** A region that did not answer 200 is in `res[family]` with no prices, so it gives no fresh price. */
  lemma FailedRegionEmpty(fetch: (string, string) -> Response, os: string, r: string, k: string)
    requires r in EC2_REGIONS && fetch(r, os).status != 200
    ensures r in ExpectedPrices(fetch, os) && ExpectedPrices(fetch, os)[r] == map[]
    ensures !FreshPrice(fetch, os, k, r)
  {
  }

  /**
   * When the last entry naming `k` in a region's response has no USD price,
   * the price defaults to 0, which is falsy, so the cell gets no fresh price.
   */
  lemma {:induction false} MissingUsdSkipped(fetch: (string, string) -> Response, os: string, r: string, k: string, i: nat)
    requires i < |fetch(r, os).prices|
    requires InstanceName(fetch(r, os).prices[i]) == k && fetch(r, os).prices[i].usd.None?
    requires forall j :: i < j < |fetch(r, os).prices| ==> InstanceName(fetch(r, os).prices[j]) != k
    ensures !FreshPrice(fetch, os, k, r)
  {
    var ps := fetch(r, os).prices;
    assert k in NamesIn(ps);
    PriceMapLast(ps, k);
    var m :| 0 <= m < |ps| && InstanceName(ps[m]) == k && PriceMap(ps)[k] == EntryPrice(ps[m])
             && forall j :: m < j < |ps| ==> InstanceName(ps[j]) != k;
    assert m == i;
  }

  /**
   * A scraped cell of either family, in terms of the responses: a fresh price
   * wins, even over a price already in the table; otherwise the cell is as it was.
   */
  lemma FamilyCell(fetch: (string, string) -> Response, toFloat: Scalar -> real, o: nat,
                   base: Table, t: Table, k: string, r: string)
    requires o < |OPERATING_SYSTEMS|
    requires Merged(t, base, ExpectedPrices(fetch, OPERATING_SYSTEMS[o]), EC2_REGIONS, Seen(fetch), toFloat)
    ensures Cell(t, k, r) == if FreshPrice(fetch, OPERATING_SYSTEMS[o], k, r)
                             then Some(toFloat(PriceMap(fetch(r, OPERATING_SYSTEMS[o]).prices)[k]))
                             else Cell(base, k, r)
  {
    var os := OPERATING_SYSTEMS[o];
    var prices := ExpectedPrices(fetch, os);
    assert Cell(t, k, r) == MergedCell(base, prices, EC2_REGIONS, Seen(fetch), k, r, toFloat);
    if r in EC2_REGIONS {
      assert prices[r] == RegionPrices(fetch(r, os));
    }
    if FreshPrice(fetch, os, k, r) {
      FreshPriceSeen(fetch, o, k, r);
    }
  }

  /** An instance type with a fresh price was named by a successful response, so it is among those seen. */
  lemma FreshPriceSeen(fetch: (string, string) -> Response, o: nat, k: string, r: string)
    requires o < |OPERATING_SYSTEMS| && FreshPrice(fetch, OPERATING_SYSTEMS[o], k, r)
    ensures k in Seen(fetch)
  {
    var os := OPERATING_SYSTEMS[o];
    assert k in NamesIn(fetch(r, os).prices);
    var n :| 0 <= n < |EC2_REGIONS| && EC2_REGIONS[n] == r;
    assert fetch(EC2_REGIONS[n], OPERATING_SYSTEMS[o]).status == 200;
    SeenMembers(fetch, k);
  }

  /**
   * A scraped Linux cell in terms of the inputs alone: a fresh Linux price,
   * else the converted last available legacy price, else nothing.
   */
  lemma LinuxCell(docs: seq<LegacyDoc>, fetch: (string, string) -> Response, toFloat: Scalar -> real,
                  t: Table, k: string, r: string)
    requires Merged(t, LegacyTable(docs, toFloat), ExpectedPrices(fetch, "linux"), EC2_REGIONS, Seen(fetch), toFloat)
    ensures Cell(t, k, r) == if FreshPrice(fetch, "linux", k, r)
                             then Some(toFloat(PriceMap(fetch(r, "linux").prices)[k]))
                             else match LastAvailable(LegacySightings(docs), k, r)
                                  case Some(p) => Some(toFloat(p)) case None => None
    ensures TableWF(t)
  {
    LegacyTableEffect(docs, toFloat);
    FamilyCell(fetch, toFloat, 0, LegacyTable(docs, toFloat), t, k, r);
  }

  /** A scraped Windows cell holds a fresh Windows price or nothing, and a Windows row exists exactly for the instance types seen. */
  lemma WindowsCell(fetch: (string, string) -> Response, toFloat: Scalar -> real, t: Table, k: string, r: string)
    requires Merged(t, [], ExpectedPrices(fetch, "windows-std"), EC2_REGIONS, Seen(fetch), toFloat)
    ensures Cell(t, k, r) == if FreshPrice(fetch, "windows-std", k, r)
                             then Some(toFloat(PriceMap(fetch(r, "windows-std").prices)[k]))
                             else None
    ensures k in Keys(t) <==> k in Seen(fetch)
    ensures TableWF(t)
  {
    FamilyCell(fetch, toFloat, 1, [], t, k, r);
  }

  // ---------------------------------------------------------------------------
  // The scraped tables as documents
  // ---------------------------------------------------------------------------

  /** A row as a JSON object of numbers. */
  function RowJson(row: Row): (j: Json)
    ensures j.Obj? && Keys(j.entries) == Keys(row)
  {
    Obj(seq(|row|, i requires 0 <= i < |row| => (row[i].0, Leaf(Num(row[i].1)))))
  }

  /** A table as a JSON object of rows. */
  function TableJson(t: Table): (j: Json)
    ensures j.Obj? && Keys(j.entries) == Keys(t)
  {
    Obj(seq(|t|, i requires 0 <= i < |t| => (t[i].0, RowJson(t[i].1))))
  }

  /** The scrape's result as the `pricing_data` handed to the pricing file update. */
  function PricingData(result: Dict<Table>): (d: Dict<Json>)
    ensures Keys(d) == Keys(result)
  {
    seq(|result|, i requires 0 <= i < |result| => (result[i].0, TableJson(result[i].1)))
  }

  /** Well-formed tables become well-formed documents. */
  lemma PricingDataWF(result: Dict<Table>)
    requires UniqueKeys(result) && forall i :: 0 <= i < |result| ==> TableWF(result[i].1)
    ensures UniqueKeys(PricingData(result))
    ensures forall i :: 0 <= i < |result| ==> WellFormed(PricingData(result)[i].1)
  {
    forall i | 0 <= i < |result| ensures WellFormed(PricingData(result)[i].1) {
      var t := result[i].1;
      var j := TableJson(t);
      assert UniqueKeys(j.entries) by {
        assert forall a :: 0 <= a < |t| ==> j.entries[a].0 == Keys(t)[a];
      }
      forall a | 0 <= a < |t| ensures WellFormed(j.entries[a].1) {
        var row := t[a].1;
        assert forall b :: 0 <= b < |row| ==> RowJson(row).entries[b].0 == Keys(row)[b];
      }
    }
  }
}
