# EC2 price scraper: sort key, canonical sort and price merge

This project is a Dafny model of the data logic in libcloud's maintenance
script `contrib/scrape-ec2-prices.py`. The script scrapes Amazon EC2
on-demand prices and refreshes libcloud's `pricing.json`. The model covers
three parts of it, working on already-decoded data:

- **The natural-order sort key** (`sort_key_by_numeric_other`), in module
  `NaturalKey`.
  - A key is split into maximal runs: decimal digits; the letters
    `[-A-Za-z_]` (the hyphen counts as a letter); or anything else.
  - Each run becomes a triple `(number, word, other)`. A size word from the
    vocabulary `micro … extra-large` is replaced by its rank, written as a
    digit.
  - Keys compare lexicographically, as Python compares tuples.
  - `SortKey` is the reference definition. The method `SortKeyByNumericOther`
    is the source's loop, proved equal to it.
- **The recursive canonical sort** (`sort_nested_dict`), in module
  `NestedSort`.
  - It is a stable insertion sort of dict entries by sort key, applied to
    every nested dict.
  - The lemmas prove that the result is sorted and a permutation of the
    input, that the sort is stable, that it is the only stable sort of its
    input, that it is idempotent, and that the result is `==` to the input.
  - Documents (module `Documents`) are decoded JSON values. Dicts keep their
    insertion order, and `Same` is Python's order-insensitive `==`.
- **The scrape and the pricing-file update** (`scrape_ec2_pricing` and
  `update_pricing_file`), in modules `Scrape` and `Catalog`.
  - These are methods with the source's loops. Each is proved against
    reference functions: `LastAvailable` for legacy cells, `PriceMap`,
    `Seen` and `ExpectedPrices` for the newer endpoint, `MergedCell` for the
    merge, and `NothingNew` and `Stamped` for the update.
  - The dicts the script mutates in place are sequences of entries that the
    methods reassign (module `Dicts`). An assignment replaces a key in place
    or appends a new key, as a Python dict does.

Inputs that come from outside the script are parameters:

- The legacy documents arrive decoded, reduced to `config.regions`.
- The newer per-region endpoint is `fetch(region, os)`, which returns a
  status code and the decoded price entries.
- `float(price)` is `toFloat`.
- `int(time.time())` is `now`.
- The pricing file comes in and goes out as a decoded document.

Two behaviours of the code are worth stating up front:

- **Merge precedence.** A truthy price from the newer endpoint overwrites a
  legacy cell (`contrib/scrape-ec2-prices.py:138-140`). `LinuxCell` and
  `FamilyCell` state this precedence.
- **Unused slots.** In a triple of the sort key, an unused number slot holds
  `-1` and an unused string slot holds `""`
  (`contrib/scrape-ec2-prices.py:195-198`). `PartSlots` states this.

## Model

| member | source | states |
|---|---|---|
| `Dicts.Get` | contrib/scrape-ec2-prices.py:104 | `d.get(k)`: a value is found exactly when `k` is a key. The value is that of an entry with key `k`. |
| `Dicts.Put` | contrib/scrape-ec2-prices.py:105 | `d[k] = v`: afterwards `k` maps to `v` and every other key is unchanged. A present key keeps its place; a new key is appended. |
| `Dicts.GetSnoc` | contrib/scrape-ec2-prices.py:104 | A lookup in a dict with one more entry at the end finds an earlier entry first, else the new one. |
| `Dicts.PutUnique` | contrib/scrape-ec2-prices.py:105 | Assignment keeps the keys of a dict unique. |
| `Dicts.PutSize` | contrib/scrape-ec2-prices.py:105 | An assignment adds one entry for a new key and none for a present key. |
| `Dicts.GetEntry` | contrib/scrape-ec2-prices.py:135 | With unique keys, looking up an entry's key finds that entry's value. |
| `Dicts.GetIsMembership` | contrib/scrape-ec2-prices.py:179 | With unique keys, a lookup finds `v` under `k` exactly when `(k, v)` is an entry. |
| `NaturalKey.RunLength` | contrib/scrape-ec2-prices.py:71 | The run at the front of a non-empty string is as long as possible: one class throughout, and the next character is of another class. |
| `NaturalKey.Runs` | contrib/scrape-ec2-prices.py:71 | The runs `findall` returns concatenate back to the key. Each run is all digits, all `[-A-Za-z_]` or all other characters, and neighbouring runs differ in class. |
| `NaturalKey.RunsUnique` | contrib/scrape-ec2-prices.py:194 | Any split into maximal runs that concatenates to the key is the one `Runs` returns, so tokenising is determined by the key. |
| `NaturalKey.RunsOfRun` | contrib/scrape-ec2-prices.py:194 | A key made of one run tokenises to itself alone. |
| `NaturalKey.RunsConcat` | contrib/scrape-ec2-prices.py:194 | At a change of character class, the runs of a concatenation are the runs of the two halves. |
| `NaturalKey.DecimalValue` | contrib/scrape-ec2-prices.py:195 | `int(run)` of a run of decimal digits: its value in base ten. `DigitRunsByValue` proves that digit runs compare by this value. |
| `NaturalKey.PartOf` | contrib/scrape-ec2-prices.py:195-198 | The triple of one run: number, word and other slot. `PartSlots` states which slot each kind of run fills and with what. |
| `NaturalKey.IndexOf` | contrib/scrape-ec2-prices.py:196 | `INSTANCE_SIZES.index(w)` is the first position holding `w`. |
| `NaturalKey.DigitText` | contrib/scrape-ec2-prices.py:197 | `str(i)` of a rank below ten is one decimal digit. |
| `NaturalKey.SortKey` | contrib/scrape-ec2-prices.py:188-201 | The key has exactly one triple per run of the key. |
| `NaturalKey.SortKeyByNumericOther` | contrib/scrape-ec2-prices.py:192-201 | The source's loop over the runs returns exactly `SortKey(key)`. |
| `NaturalKey.PartSlots` | contrib/scrape-ec2-prices.py:195-198 | A digit run fills only the number slot, with its integer value. A letter run fills only the word slot, with its size rank as text when it is a size word and with itself otherwise. Any other run fills only the last slot, with itself. An unused number slot holds -1 and an unused string slot holds "". |
| `NaturalKey.StrLess` | contrib/scrape-ec2-prices.py:179 | Python's `<` on strings, code point by code point, with a proper prefix first. `StrLessStrictTotal` proves it a strict total order. |
| `NaturalKey.PartLess` | contrib/scrape-ec2-prices.py:179 | Python's `<` on a triple: number first, then word, then other slot. `PartLessStrictTotal` proves it a strict total order. |
| `NaturalKey.KeyLess` | contrib/scrape-ec2-prices.py:179 | Python's `<` on tuples of triples, which `sorted` compares keys with. `KeyLessStrictTotal` proves it a strict total order. |
| `NaturalKey.StrLessStrictTotal` | contrib/scrape-ec2-prices.py:179 | Python's string `<` is irreflexive, asymmetric, total and transitive. |
| `NaturalKey.PartLessStrictTotal` | contrib/scrape-ec2-prices.py:179 | The tuple `<` on triples is irreflexive, asymmetric, total and transitive. |
| `NaturalKey.KeyLessStrictTotal` | contrib/scrape-ec2-prices.py:179 | The lexicographic `<` on keys, where a proper prefix sorts first, is irreflexive, asymmetric, total and transitive. |
| `NaturalKey.KeyLeqTransitive` | contrib/scrape-ec2-prices.py:179 | The key order `<=` is transitive. |
| `NaturalKey.KeyLeqAntisymmetric` | contrib/scrape-ec2-prices.py:179 | Keys that are `<=` both ways are equal. |
| `NaturalKey.KeyLessCommonPrefix` | contrib/scrape-ec2-prices.py:179 | A common prefix does not change how two keys compare. |
| `NaturalKey.DigitRunsByValue` | contrib/scrape-ec2-prices.py:195 | Digit runs compare by integer value, not as text. |
| `NaturalKey.SizeWordKey` | contrib/scrape-ec2-prices.py:196-197 | A size word's key is the single triple `(-1, str(rank), "")`. |
| `NaturalKey.SizeVocabularyOrder` | contrib/scrape-ec2-prices.py:61-69 | Size words sort in vocabulary order: micro < small < medium < large < xlarge < x-large < extra-large. |
| `NaturalKey.KeyOfRunsAppend` | contrib/scrape-ec2-prices.py:194-200 | The triples of two lists of runs, side by side, are the two lists of triples joined. |
| `NaturalKey.SortKeyConcat` | contrib/scrape-ec2-prices.py:194-200 | At a change of character class, the key of a concatenation is the two keys joined. |
| `NaturalKey.KeyOfMultiple` | contrib/scrape-ec2-prices.py:195-198 | The key of `<n>xlarge` is `(n, "", "")` followed by xlarge's rank. |
| `NaturalKey.KeyOfM5Size` | contrib/scrape-ec2-prices.py:194-200 | The key of `m5.<size word>` is the key of `m5.` followed by the word's rank. |
| `NaturalKey.KeyOfM5Multiple` | contrib/scrape-ec2-prices.py:194-200 | The key of `m5.<n>xlarge` is the key of `m5.`, then the value of `n`, then the rank of xlarge. |
| `NaturalKey.LargeBeforeXlarge` | contrib/scrape-ec2-prices.py:61-69 | `m5.large` sorts before `m5.xlarge`. |
| `NaturalKey.XlargeBeforeMultiple` | contrib/scrape-ec2-prices.py:194-200 | `m5.xlarge` sorts before `m5.2xlarge`. |
| `NaturalKey.SmallerMultipleFirst` | contrib/scrape-ec2-prices.py:195 | `m5.2xlarge` sorts before `m5.16xlarge`, although "16" < "2" as text. |
| `NaturalKey.InstanceNameOrder` | contrib/scrape-ec2-prices.py:179-201 | m5.large < m5.xlarge < m5.2xlarge < m5.16xlarge under the sort key. |
| `NaturalKey.LeadingZerosTie` | contrib/scrape-ec2-prices.py:195 | `m7` and `m07` have the same key, so only the sort's stability orders them. |
| `NestedSort.Insert` | contrib/scrape-ec2-prices.py:179 | One insertion step adds exactly the one entry, as a multiset, to the list. |
| `NestedSort.InsertSorted` | contrib/scrape-ec2-prices.py:179 | Inserting into a sorted list keeps it sorted. |
| `NestedSort.InsertWithKey` | contrib/scrape-ec2-prices.py:179 | Inserting keeps entries with equal sort keys in the order they were met. |
| `NestedSort.SortEntries` | contrib/scrape-ec2-prices.py:179 | `sorted(value.items(), key=…)` returns a permutation of the entries. |
| `NestedSort.SortEntriesSorted` | contrib/scrape-ec2-prices.py:179 | The sorted entries are in non-decreasing sort-key order. |
| `NestedSort.SortEntriesKeyCounts` | contrib/scrape-ec2-prices.py:179 | Sorting keeps every key, each as often as before. |
| `NestedSort.SortEntriesKeys` | contrib/scrape-ec2-prices.py:179 | Sorting keeps the multiset of keys, so unique keys stay unique. |
| `NestedSort.SortEntriesStable` | contrib/scrape-ec2-prices.py:179 | The sort is stable: entries sharing a sort key keep their input order. |
| `NestedSort.SortEntriesIsStableSort` | contrib/scrape-ec2-prices.py:179 | Any sorted list that keeps each group of equal keys in input order is the result of the sort, so the output is fully determined. |
| `NestedSort.SortEntriesOfSorted` | contrib/scrape-ec2-prices.py:179 | Sorting an already sorted list changes nothing. |
| `NestedSort.SortNested` | contrib/scrape-ec2-prices.py:173-185 | `sort_nested_dict`: a dict gets its values sorted recursively and its entries sorted by the natural key; any other value is kept. `SortNestedEntries`, `SortNestedGet`, `SortNestedCanonical`, `SortNestedIdempotent` and `SortNestedSame` prove what it promises. |
| `NestedSort.SortNestedEntries` | contrib/scrape-ec2-prices.py:177-185 | One level of `sort_nested_dict` is a permutation of the input entries with sorted values. It is in sort-key order, and ties keep input order. |
| `NestedSort.SortNestedGet` | contrib/scrape-ec2-prices.py:179-183 | With unique keys, a lookup in the sorted dict gives the input's value, sorted, and a missing key stays missing. |
| `NestedSort.SortNestedCanonical` | contrib/scrape-ec2-prices.py:173-185 | Every dict in the output, at every depth outside lists, is in sort-key order. |
| `NestedSort.CanonicalUnchanged` | contrib/scrape-ec2-prices.py:173-185 | A document already in canonical order is returned unchanged. |
| `NestedSort.SortNestedIdempotent` | contrib/scrape-ec2-prices.py:173-185 | `sort_nested_dict(sort_nested_dict(x)) == sort_nested_dict(x)`. |
| `NestedSort.SortNestedSame` | contrib/scrape-ec2-prices.py:173-185 | A well-formed input gives a well-formed output that is `==` to the input. |
| `NestedSort.SortedKeysUnique` | contrib/scrape-ec2-prices.py:177-185 | Sorting a dict with unique keys keeps its size and its keys unique. |
| `Documents.Same` | contrib/scrape-ec2-prices.py:154 | Python's `==` on decoded documents, where dicts compare without regard to key order. `SameReflexive` and `SameDicts` state it. |
| `Documents.SameReflexive` | contrib/scrape-ec2-prices.py:154 | Every document is `==` to itself. |
| `Documents.SameDicts` | contrib/scrape-ec2-prices.py:154 | Two dicts are `==` exactly when they have the same size and each left entry's key holds an equal value on the right. |
| `Scrape.EnsureRow` | contrib/scrape-ec2-prices.py:104-105 | After the check-and-create step, the key has a row. |
| `Scrape.EnsureRowEffect` | contrib/scrape-ec2-prices.py:104-105 | Creating a missing or empty row adds at most the key and changes no cell. |
| `Scrape.SetCellEffect` | contrib/scrape-ec2-prices.py:111-112 | `table[key][region] = price` changes that one cell and no key of the table. |
| `Scrape.RowOfWF` | contrib/scrape-ec2-prices.py:111 | In a table with unique keys, the row found under any key has unique keys. |
| `Scrape.PutRowWF` | contrib/scrape-ec2-prices.py:105 | Putting a row with unique keys into a well-formed table keeps the table well formed. |
| `Scrape.Truthy` | contrib/scrape-ec2-prices.py:135-138 | Python's truthiness of a decoded price: `None`, `False`, `0` and `""` are falsy. `MergeNewApi`, `FamilyCell` and `MissingUsdSkipped` use it to decide which prices are written. |
| `Scrape.IsNotAvailable` | contrib/scrape-ec2-prices.py:107 | The legacy marker of a missing price. `NotAvailableSpellings` proves it holds exactly for the four spellings of `n/a`. |
| `Scrape.NotAvailableSpellings` | contrib/scrape-ec2-prices.py:107 | A price counts as not available exactly when it is the string n/a in some mix of cases. |
| `Scrape.SizesOf` | contrib/scrape-ec2-prices.py:104-105 | A size belongs exactly when some visited entry names it. |
| `Scrape.LastAvailable` | contrib/scrape-ec2-prices.py:106-112 | The reference for a legacy cell: a found price is available and was listed for that size and region. No price means every listing for that pair was n/a. |
| `Scrape.Record` | contrib/scrape-ec2-prices.py:104-112 | What one visited size does to the Linux table: its row is ensured, and its price is set unless it is n/a. `RecordCells` states the effect on cells. |
| `Scrape.RecordAll` | contrib/scrape-ec2-prices.py:97-112 | The legacy loops as a fold of `Record` over the sizes in order. `RecordAllCells` and `RecordAllKeys` state its result. |
| `Scrape.RecordAllAppend` | contrib/scrape-ec2-prices.py:97-103 | Visiting two runs of sizes one after the other is visiting their concatenation. |
| `Scrape.RecordCells` | contrib/scrape-ec2-prices.py:103-112 | One visited size sets its region's cell to the converted price unless the price is n/a. No other cell changes. |
| `Scrape.RecordAllCells` | contrib/scrape-ec2-prices.py:103-112 | After the legacy loops, each cell holds the converted last available price listed for its size and region; otherwise it holds what it held before. |
| `Scrape.RecordAllKeys` | contrib/scrape-ec2-prices.py:103-105 | Every size seen gets a row, even when all its prices are n/a, and no other row is added. Earlier rows keep their place, and keys stay unique. |
| `Scrape.RecordRegion` | contrib/scrape-ec2-prices.py:97-112 | The instance-type and size loops of one region fold exactly that region's sizes into the table. |
| `Scrape.RecordDoc` | contrib/scrape-ec2-prices.py:97-112 | The region loop folds exactly one document's sizes into the table. |
| `Scrape.ScrapeLegacy` | contrib/scrape-ec2-prices.py:83-112 | The legacy loops build exactly `LegacyTable(docs)`. |
| `Scrape.LegacyTableEffect` | contrib/scrape-ec2-prices.py:97-112 | The legacy Linux table has a row exactly for every size seen. Its cells hold the converted last available prices, and its keys are unique. |
| `Scrape.PriceMap` | contrib/scrape-ec2-prices.py:127-132 | The instance types priced by a response are exactly those its entries name. |
| `Scrape.PriceMapLast` | contrib/scrape-ec2-prices.py:127-132 | Each instance type holds the price of the last entry naming it. |
| `Scrape.SeenInRegionsMembers` | contrib/scrape-ec2-prices.py:120-130 | An instance type is collected for an OS exactly when some region's response for it was 200 and named that type. |
| `Scrape.SeenMembers` | contrib/scrape-ec2-prices.py:117-130 | `instances` holds exactly the types named by a 200 response for either OS and any region. |
| `Scrape.PriceMapStep` | contrib/scrape-ec2-prices.py:127-132 | One more entry adds its instance type to the names and overwrites its price. |
| `Scrape.CollectRegion` | contrib/scrape-ec2-prices.py:121-132 | One request: a non-200 status leaves the region with no prices and adds no names. Otherwise the region gets `PriceMap` of the entries, and their names are added. |
| `Scrape.CollectFamily` | contrib/scrape-ec2-prices.py:120-132 | The region loop gives every listed region its prices and adds every name seen. |
| `Scrape.CollectNewApi` | contrib/scrape-ec2-prices.py:117-132 | `res` holds the per-region prices of every region for both families, and `instances` is exactly `Seen(fetch)`. |
| `Scrape.FailedRegionEmpty` | contrib/scrape-ec2-prices.py:121-124 | A region that did not answer 200 has an empty price map and gives no fresh price. |
| `Scrape.MissingUsdSkipped` | contrib/scrape-ec2-prices.py:131-138 | When the last entry for a type has no USD price, the price defaults to 0, which is falsy, so no cell is written. |
| `Scrape.MergeRegions` | contrib/scrape-ec2-prices.py:137-140 | The region loop of one instance type as a fold: each region's truthy price is set in turn. `MergeRegionsKeys` and `MergeRegionsCells` state its result. |
| `Scrape.MergeRegionsKeys` | contrib/scrape-ec2-prices.py:135-140 | The region loop of one instance type keeps the keys of the table and keeps keys unique. |
| `Scrape.MergeRegionsCells` | contrib/scrape-ec2-prices.py:135-140 | After the region loop, the instance type's cell in a listed region with a truthy price holds that price converted. Every other cell is as it was. |
| `Scrape.MergeInstance` | contrib/scrape-ec2-prices.py:135-140 | The loop computes exactly `MergeRegions` of the table with the row ensured. |
| `Scrape.MergeInstanceEffect` | contrib/scrape-ec2-prices.py:135-140 | One instance type gets a row. Each listed region with a truthy price gets that price converted, no other cell changes, and keys stay unique. |
| `Scrape.MergedStep` | contrib/scrape-ec2-prices.py:134-140 | A table changed as one instance type's merge changes it extends the merge by that type. |
| `Scrape.MergedFold` | contrib/scrape-ec2-prices.py:134-140 | Merging one more instance type extends the merge by that type. |
| `Scrape.MergeNewApi` | contrib/scrape-ec2-prices.py:133-140 | After the merge loop, in any set order, earlier rows keep their place and every collected type has a row. Each cell is its truthy collected price if there is one; otherwise it keeps its previous value. Unique keys stay unique. |
| `Scrape.ScrapeEc2Pricing` | contrib/scrape-ec2-prices.py:78-142 | The result has the two families `ec2_linux` and `ec2_windows`. Linux is the legacy table merged with the Linux prices; Windows is an empty table merged with the Windows prices. Both take the same collected instance types. |
| `Scrape.FreshPriceSeen` | contrib/scrape-ec2-prices.py:126-132 | An instance type with a fresh price is among the instance types collected. |
| `Scrape.FamilyCell` | contrib/scrape-ec2-prices.py:133-140 | A scraped cell holds a fresh price from a 200 response when there is one, even over an existing price. Otherwise it is unchanged. |
| `Scrape.LinuxCell` | contrib/scrape-ec2-prices.py:97-140 | A Linux cell is the fresh Linux price if there is one, else the converted last available legacy price, else empty. The table is well formed. |
| `Scrape.WindowsCell` | contrib/scrape-ec2-prices.py:133-140 | A Windows cell is the fresh Windows price or empty. A Windows row exists exactly for the collected instance types. |
| `Scrape.RowJson` | contrib/scrape-ec2-prices.py:139-140 | A row as a document has the row's keys. |
| `Scrape.TableJson` | contrib/scrape-ec2-prices.py:136 | A table as a document has the table's keys. |
| `Scrape.PricingData` | contrib/scrape-ec2-prices.py:142 | The scrape result as `pricing_data` has the families as its keys. |
| `Scrape.PricingDataWF` | contrib/scrape-ec2-prices.py:152 | Well-formed tables become well-formed documents. |
| `Catalog.Update` | contrib/scrape-ec2-prices.py:152 | `compute.update(pricing)`: the scraped families are assigned one after another. `UpdateGet`, `UpdateKeys` and `UpdateSize` state its result. |
| `Catalog.UpdateGet` | contrib/scrape-ec2-prices.py:152 | After `compute.update(pricing)`, a family maps to its scraped value if it was scraped, and to its old value otherwise. |
| `Catalog.UpdateKeepsKeys` | contrib/scrape-ec2-prices.py:152 | The update keeps the existing families in place, in front. |
| `Catalog.UpdateUnique` | contrib/scrape-ec2-prices.py:152 | The update keeps the keys of `compute` unique. |
| `Catalog.UpdateKeys` | contrib/scrape-ec2-prices.py:152 | The families after the update are the old ones and the scraped ones. |
| `Catalog.UpdateSize` | contrib/scrape-ec2-prices.py:152 | The update keeps the number of families exactly when every scraped family was already present. |
| `Catalog.UpdateWithinKeys` | contrib/scrape-ec2-prices.py:152 | When every scraped family was already present, the update adds no family. |
| `Catalog.UpdateWF` | contrib/scrape-ec2-prices.py:152 | Updating with well-formed values keeps `compute` well formed. |
| `Catalog.PutValuesWF` | contrib/scrape-ec2-prices.py:159 | Assigning a well-formed value keeps a dict well formed. |
| `Catalog.KeysKnownSnoc` | contrib/scrape-ec2-prices.py:152 | Every scraped family is known exactly when all but the last are known and the last is known too. |
| `Catalog.SameAfterPut` | contrib/scrape-ec2-prices.py:152-154 | Replacing one value leaves the dict `==` to the original exactly when the new value is `==` to the old one. |
| `Catalog.PutEqualFound` | contrib/scrape-ec2-prices.py:154 | After replacing a value by an equal one, every entry is found with an equal value in the original. |
| `Catalog.FoundMeansNothingNew` | contrib/scrape-ec2-prices.py:152-154 | If the updated `compute` is found entry by entry in the old one, every scraped family was already there with an equal value. |
| `Catalog.NothingNewMeansFound` | contrib/scrape-ec2-prices.py:152-154 | If every scraped family was already there with an equal value, the updated `compute` is found entry by entry in the old one. |
| `Catalog.UpdatedEntriesFound` | contrib/scrape-ec2-prices.py:152-154 | With every scraped family already present, the updated `compute` matches the old one entry by entry exactly when nothing is new. |
| `Catalog.NoChangeIff` | contrib/scrape-ec2-prices.py:152-157 | After the update the document is `==` to the original exactly when every scraped family was already in `compute` with an equal value. |
| `Catalog.WrittenCompute` | contrib/scrape-ec2-prices.py:152-162 | In the written `compute`, each scraped family replaces the old entry as a whole, and unscraped families keep their value. All are sorted. |
| `Catalog.Stamp` | contrib/scrape-ec2-prices.py:152-159 | The document with the updated `compute` and `updated` set to `now`, before sorting. `StampWF` and `StampedOutput` state what is written from it. |
| `Catalog.StampWF` | contrib/scrape-ec2-prices.py:159 | The updated and stamped document is well formed. |
| `Catalog.StampedUpdated` | contrib/scrape-ec2-prices.py:159-162 | In the sorted output, `updated` is `now`. |
| `Catalog.StampedCompute` | contrib/scrape-ec2-prices.py:152-162 | In the sorted output, `compute` is the updated `compute`, sorted. |
| `Catalog.StampedOtherKey` | contrib/scrape-ec2-prices.py:159-162 | In the sorted output, every top-level key other than `updated` and `compute` keeps its value, sorted, and a missing key stays missing. |
| `Catalog.StampedOutput` | contrib/scrape-ec2-prices.py:159-162 | The sorted, stamped document is canonical, well formed and `==` to the stamped one. It has `updated = now` and the updated `compute`; every other top-level key keeps its value, sorted. |
| `Catalog.UpdatePricingFile` | contrib/scrape-ec2-prices.py:145-162 | A non-dict document, a missing `compute` and a non-dict `compute` each fail. Nothing is written exactly when every scraped family is already present with an equal value. Otherwise the written document is as `Stamped` says. |

## Left out

- HTTP requests to the legacy URLs and to the per-region endpoint
  (`contrib/scrape-ec2-prices.py:84`, `:122`) are network I/O. The decoded
  legacy documents and the function `fetch(region, os)` are parameters.
  `LINUX_PRICING_URLS` becomes the list of documents.
- Decoding is done by foreign libraries and is not modelled: `response.json()`,
  the `callback(...)` regex extraction and the lenient `demjson.decode`
  (`:86-95`, `:125`). Only the fields the loops read are kept: `region`,
  `instanceTypes`, `sizes`, `size`, the first value column's USD price, and
  the `aws:ec2:instanceType` attribute and USD price of the newer entries.
- Malformed decoded data, such as a missing `config`, `regions` or `size`
  key, raises in the script. The model's input records always have these
  fields, so it does not reach those errors. Only the update's failures on
  the shape of the pricing document are modelled.
- File reading and writing, `json.loads`, `json.dumps` with indentation, and
  the per-line `rstrip` (`:146-149`, `:164-170`) are file I/O and library
  serialisation. The document comes in decoded, and the document to write
  goes out.
- `time.time()` (`:159`) is the clock: `now` is a parameter.
- `float(price)` (`:112`, `:139`) is floating-point parsing. It is the
  parameter `toFloat`; its `ValueError` on an unparsable string and
  float rounding are not modelled. Numbers are reals, so NaN and infinities
  are not modelled. The model does not tell an integer from a float, which
  only affects how the file would be printed.
- `main` and the progress prints (`:156`, `:204-215`) are console I/O.
- Set iteration order: the merge visits the collected instance types in an
  arbitrary order. So the relative order of newly appended rows is not
  specified. Python would use one fixed, unspecified order.
- `Scrape.LowerAscii` lower-cases ASCII letters only, where Python's
  `lower()` covers all of Unicode. The two agree on whether a string lowers
  to `n/a`: outside `A`–`Z`, no character lowers to `n`, `/` or `a`.
- `Scrape.MergeNewApi` requires every region to be present in `prices`.
  The script would raise `KeyError` otherwise, and the collection always
  provides every region.
