# Asset usage cache for Neos, modelled in Dafny

This project models the core of the `webandco/neos-asset-usage-cache` package. The package
answers "which content nodes use this asset?" from a tagged cache instead of scanning every
node. It keeps that cache up to date as nodes are added, updated and removed. It also filters
the asset-usage strategies Neos consults down to the ones the configuration enables.

The project has six modules:

- `Collections` (collections.dfy) holds the PHP array functions the services rely on:
  - `AppendNew`: append unless present;
  - `Dedup`, for `array_values(array_unique(..))`;
  - `Without`, for `array_values(array_diff(..))`;
  - `Get`: a list that reads as empty when missing.
- `CacheStore` (cache_store.dfy) is the tagged key-value store, modelled as a value:
  - Each key `sha1(prefix ':' uuid)` becomes `Hashed(kind, uuid)`.
  - The reserved `isPopulated` key becomes `Marker`.
  - Each tag `sha1('poid:' poid)` becomes `PoidTag(poid)`.
  - It defines the lifetime rule, and gives as a function the store each write operation of the
    cache service leaves. `StoreValid` is the invariant every write keeps: the marker holds a
    timestamp, and every list entry is tagged with exactly its POIDs.
- `AssetCache` (asset_cache_service.dfy) models `AssetCacheService` as a class:
  - Its fields are the `disable` and `realTimeUpdate` flags, the population time and the store.
  - A ghost log records every accepted write, so that the order of the population writes can be
    stated.
  - Each method is proved against the `CacheStore` functions.
- `UsageIndex` (usage_index.dfy) is the pure side of `AssetUsageService`:
  - the two reference patterns of `updateNodesLists`, as a left-to-right scanner with the
    semantics of `preg_match_all`;
  - the per-uuid POID lists;
  - the index built by the full scan;
  - the merge done by `getPOIDsByAssetIdentifiers`;
  - the `propertiesNeedToBeConsidered` pre-filter.
- `AssetUsage` (asset_usage_service.dfy) models `AssetUsageService` as a class over a cache
  service, plus the lemmas about its protocol:
  - lookups agree with a full scan after an initial population with a non-negative lifetime,
    provided the store held no list entry before that pass;
  - `nodeAdded` records exactly the node's references;
  - `nodeUpdated` retracts stale references.
- `StrategiesAspect` (asset_usage_strategies_aspect.dfy) models the advice around
  `AssetService::getUsageStrategies()`.

Inputs that come from outside the services become parameters:

- The database rows of `queryAssetAndIdentifiers`: the POID and serialized properties of every
  node, in row order.
- The uuids of an asset and its variants.
- The set of POIDs the node repository can resolve.
- The clock reading `now`.
- The configured backend lifetime.
- The `instanceof` test.

## Model

| member | source | states |
|---|---|---|
| Collections.AppendNewSpec | Classes/Service/AssetUsageService.php:119-124 | Skipping POIDs already collected keeps the old prefix. The result holds exactly the old and new POIDs, and stays duplicate-free when the old list was. |
| Collections.DedupMembers | Classes/Service/AssetCacheService.php:162-165 | `array_unique` of a merge keeps exactly the merged members. |
| Collections.AppendNewConcat | Classes/Service/AssetUsageService.php:117-135 | Collecting two runs of POIDs is collecting the first run, then the second. |
| Collections.AppendNewAbsorbs | Classes/Service/AssetUsageService.php:119-124 | Appending POIDs that are all present already changes nothing. |
| Collections.AppendNewFirstSeen | Classes/Service/AssetUsageService.php:117-135 | Collected POIDs appear in order of their first occurrence. |
| Collections.Without | Classes/Service/AssetCacheService.php:213 | Removing a POID leaves exactly the other members, in their original order. The list does not grow, stays as it is when the POID is absent, and stays duplicate-free. |
| CacheStore.TagsOf | Classes/Service/AssetCacheService.php:117-119 | An entry is tagged `poid:p` exactly for the POIDs p of its list. |
| CacheStore.BackendConfiguredLifetime | Classes/Service/AssetCacheService.php:220-229 | The backend lifetime is 0 (no expiry) exactly when 0 is configured. An unset setting never means "no expiry": it gives a positive lifetime (the 3600 default). |
| CacheStore.CacheLifetime | Classes/Service/AssetCacheService.php:231-248 | The result is 0 (no expiry) exactly when the backend lifetime is 0. Otherwise it is the lifetime left since the population time, or -1 ("do not write") when none is left. The result is never below -1. |
| CacheStore.Keyed | Classes/Service/AssetCacheService.php:107-116 | Each uuid list is written under the key of its prefix and uuid, and under no other key. |
| CacheStore.ByTagExact | Classes/Service/AssetCacheService.php:193-200 | On a valid store, `getByTag('poid:p')` returns exactly the list entries holding p, with their lists. |
| CacheStore.WriteListsAt | Classes/Service/AssetCacheService.php:107-123 | After a `populateCache` pass, each written key holds its list entry with the pass's lifetime. Every other key is untouched. A negative lifetime writes nothing. |
| CacheStore.WriteListsStep | Classes/Service/AssetCacheService.php:109-122 | Each `setCacheEntry` in the loop extends the pass by one list. |
| CacheStore.WriteListsValid | Classes/Service/AssetCacheService.php:107-123 | Writing lists under hashed keys keeps the store invariant. |
| CacheStore.PopulateAllAt | Classes/Service/AssetCacheService.php:125-140 | After a population pass, the marker holds the population time. Each listed uuid's key holds its list. Keys of unlisted uuids are as before. A negative lifetime changes nothing. |
| CacheStore.PopulateAllValid | Classes/Service/AssetCacheService.php:125-140 | A population pass keeps the store invariant. With a non-negative lifetime, it leaves the population time in the marker. |
| CacheStore.RemovePoidUnfold | Classes/Service/AssetCacheService.php:202-218 | The removal writes back exactly the stripped tagged entries, and writes nothing when no entry is tagged. |
| CacheStore.RemovePoidAt | Classes/Service/AssetCacheService.php:202-218 | Removal keeps the key set. A list holding the POID is rewritten without it when the lifetime allows; every other entry is unchanged. |
| CacheStore.RemovePoidEffect | Classes/Service/AssetCacheService.php:202-218 | Removing a POID keeps the invariant, the keys and the marker. With a non-negative lifetime, no list holds the POID afterwards. |
| CacheStore.RemoveAbsentPoid | Classes/Service/AssetCacheService.php:202-218 | Removing a POID that no list holds leaves the store as it is. |
| CacheStore.RemovePoidsEffect | Classes/Service/AssetCacheService.php:62-67 | After flushing POIDs with a non-negative lifetime, none of them is listed anywhere. Every other listed POID stays. Keys and marker are unchanged, and nothing is added. |
| CacheStore.ReadIntoMerges | Classes/Service/AssetCacheService.php:153-173 | Each searched uuid with a cached entry gets a duplicate-free list holding exactly the POIDs of its old list and of the cached list. When the old list is duplicate-free, the result is that list followed by the unseen cached POIDs. Every other uuid keeps its list. |
| CacheStore.ReadIntoAt | Classes/Service/AssetCacheService.php:153-173 | The cache read, seen at one uuid: which uuids get a list, and what that list is. |
| CacheStore.ReadIntoStep | Classes/Service/AssetCacheService.php:169-172 | Each iteration of the read loop merges one more searched uuid. |
| AssetCache.AssetCacheService.constructor | Classes/Service/AssetCacheService.php:34-55 | A new service holds the configured flags, no population time and the given valid store. |
| AssetCache.AssetCacheService.FlushCache | Classes/Service/AssetCacheService.php:57-60 | Flushing empties the store, marker included, so the cache no longer counts as populated. |
| AssetCache.AssetCacheService.SetRealTimeUpdate | Classes/Service/AssetCacheService.php:74-78 | The real-time-update flag takes the given value. |
| AssetCache.AssetCacheService.SetCacheDisabled | Classes/Service/AssetCacheService.php:85-89 | The disable flag takes the given value. |
| AssetCache.AssetCacheService.IsPopulated | Classes/Service/AssetCacheService.php:91-105 | True exactly when caching is enabled and the marker holds a positive time, which then becomes the population time. |
| AssetCache.AssetCacheService.SetCacheEntry | Classes/Service/AssetCacheService.php:142-151 | With a negative lifetime, nothing is written. Otherwise exactly this entry is written, with the computed lifetime, and logged. |
| AssetCache.AssetCacheService.PopulateCache | Classes/Service/AssetCacheService.php:107-123 | The store becomes the `WriteLists` result. The log only grows, and the pass never touches the marker. |
| AssetCache.AssetCacheService.PopulateCacheByUUIDLists | Classes/Service/AssetCacheService.php:125-140 | When disabled, nothing changes. On an initial pass, or an unpopulated cache, the population time restarts at `now`; otherwise the stored time is kept. The store becomes `PopulateAll` of both maps, and stays valid. The log shows the marker set to 0 first on a restart, then only list writes, then the marker set to the population time. |
| AssetCache.AssetCacheService.WriteListsAndMarker | Classes/Service/AssetCacheService.php:135-138 | The identifier lists and then the asset lists are written under their hashed keys, and the marker is then set to the population time. The log shows only list writes followed by that one marker write, or nothing when the lifetime is negative. |
| AssetCache.AssetCacheService.ReadUUIDListsFromCache | Classes/Service/AssetCacheService.php:153-173 | When not populated, the maps come back unchanged. Otherwise each map gets the cached lists of its kind merged in for the searched uuids. |
| AssetCache.AssetCacheService.FillNodesList | Classes/Service/AssetCacheService.php:159-167 | A uuid with a cached entry gets the de-duplicated merge of its list and the cached one. Otherwise the map is unchanged. |
| AssetCache.AssetCacheService.GetEntriesByPOID | Classes/Service/AssetCacheService.php:193-200 | An unpopulated cache gives nothing. A populated one gives exactly the list entries holding the POID, with their lists. |
| AssetCache.AssetCacheService.RemovePOIDFromCache | Classes/Service/AssetCacheService.php:202-218 | An unpopulated cache is untouched. Otherwise the store becomes `RemovePoid` of the POID, and stays valid. |
| AssetCache.AssetCacheService.FlushByPOIDs | Classes/Service/AssetCacheService.php:62-67 | The store becomes `RemovePoids` of the POIDs when populated, and is unchanged otherwise. |
| AssetCache.StripPoid | Classes/Service/AssetCacheService.php:211-214 | Every tagged entry keeps its key and loses the POID from its list. |
| AssetCache.PopulationResult | Classes/Service/AssetCacheService.php:125-140 | The writes of a population pass build `PopulateAll`: the optional "in progress" marker, both list passes, then the final marker. |
| AssetCache.WriteListsAfterMarker | Classes/Service/AssetCacheService.php:131-139 | List writes leave an earlier marker write in place. |
| UsageIndex.ScanBound | Classes/Service/AssetUsageService.php:97-98 | `Scan` models the left-to-right `preg_match_all` scan. The scan resumes after each match, so matches do not overlap: n matches need at least n full match lengths of text. `ScanSound` shows each capture is uuid-shaped. |
| UsageIndex.ScanSound | Classes/Service/AssetUsageService.php:95-111 | `ExtractUuids` (`$matches[1]` of `preg_match_all`) is `Scan` of the properties. Every uuid the scan extracts is uuid-shaped, and is captured by a full pattern match at some position of the text. |
| UsageIndex.ReferenceMatches | Classes/Service/AssetUsageService.php:110-111 | A reference as `json_encode` writes it is a pattern match that captures its uuid. |
| UsageIndex.ExtractReference | Classes/Service/AssetUsageService.php:95-111 | A reference at the start of the properties is extracted first, and the scan resumes right after it. |
| UsageIndex.AddPoidAt | Classes/Service/AssetUsageService.php:95-108 | The `$uuidFinder` closure, seen at one uuid. A matched uuid gets a list, appended with the POID unless it holds it already. The old list stays a prefix. Unmatched uuids keep their lists. |
| UsageIndex.AddPoidFresh | Classes/Service/AssetUsageService.php:95-108 | On empty maps, each matched uuid gets the one-element list of the POID. |
| UsageIndex.AddPoidExtends | Classes/Service/AssetUsageService.php:95-108 | The closure only extends lists and keeps them duplicate-free. |
| UsageIndex.AppendOnceMore | Classes/Service/AssetUsageService.php:103-105 | Appending a POID a second time changes nothing. |
| UsageIndex.AddPoidStep | Classes/Service/AssetUsageService.php:98-106 | Each loop iteration of the closure records one more matched uuid. |
| UsageIndex.AddPoidIdempotent | Classes/Service/AssetUsageService.php:95-108 | Recording the same matches twice is recording them once. |
| UsageIndex.NodeListsIdempotent | Classes/Service/AssetUsageService.php:94-112 | `updateNodesLists` for the same node twice is doing it once. |
| UsageIndex.IndexNodesStep | Classes/Service/AssetUsageService.php:75-77 | The full scan after one more row records that row on top of the rest. |
| UsageIndex.ReferencedStep | Classes/Service/AssetUsageService.php:75-77 | A uuid is referenced by some row iff it is referenced by an earlier row or by the last one. |
| UsageIndex.ReferencedByStep | Classes/Service/AssetUsageService.php:75-77 | A node references a uuid iff it does so in an earlier row or in the last one. |
| UsageIndex.IndexNodesAt | Classes/Service/AssetUsageService.php:73-78 | The index, seen at one uuid: it has a list iff some row references the uuid. The list holds exactly the POIDs of those rows, without duplicates. |
| UsageIndex.IndexNodesExact | Classes/Service/AssetUsageService.php:73-78 | The full-scan index is exact for every uuid and both patterns. |
| UsageIndex.CandidatesAt | Classes/Service/AssetUsageService.php:114-138 | A POID is looked at iff it is listed under a searched uuid, in either map. |
| UsageIndex.CandidatesMembers | Classes/Service/AssetUsageService.php:114-138 | The POIDs looked at are exactly those listed under a searched uuid. |
| UsageIndex.CollectMeaning | Classes/Service/AssetUsageService.php:114-138 | The answer is duplicate-free and holds exactly the POIDs listed under a searched uuid, in order of first sight. |
| UsageIndex.CollectCongruence | Classes/Service/AssetUsageService.php:114-138 | The answer depends only on the lists of the searched uuids. |
| UsageIndex.PropertiesNeedToBeConsidered | Classes/Service/AssetUsageService.php:192-195 | Only a node under `/sites` can pass the pre-filter. `ConsideredIfReferenced` is the converse for references as `json_encode` writes them. |
| UsageIndex.ConsideredIfReferenced | Classes/Service/AssetUsageService.php:192-195 | A node under `/sites` whose properties hold a reference, written as `json_encode` writes it, passes the pre-filter. |
| AssetUsage.AssetUsageService.constructor | Classes/Service/AssetUsageService.php:31-41 | The service works on the given cache service. |
| AssetUsage.AssetUsageService.UuidFinder | Classes/Service/AssetUsageService.php:95-108 | The closure's loop computes `AddPoid` of the matched uuids. |
| AssetUsage.AssetUsageService.UpdateNodesLists | Classes/Service/AssetUsageService.php:94-112 | The identifier pattern feeds the first map and the asset pattern the second, both through `$uuidFinder`. |
| AssetUsage.AssetUsageService.GetPOIDsByAssetIdentifiers | Classes/Service/AssetUsageService.php:114-138 | The loop computes `Collect`: each searched uuid's asset list, then its identifier list, skipping POIDs already collected. |
| AssetUsage.AssetUsageService.AppendAll | Classes/Service/AssetUsageService.php:119-124 | The inner loop appends the POIDs not yet collected, in order. |
| AssetUsage.AssetUsageService.GetRelatedPOIDs | Classes/Service/AssetUsageService.php:63-92 | The answer is the cached lookup when populated, else the full-scan lookup. A disabled or populated cache is not written. An enabled unpopulated cache gets an initial population from the scanned maps at `now`, and the store stays valid. |
| AssetUsage.AssetUsageService.GetRelatedNodes | Classes/Service/AssetUsageService.php:49-55 | The related nodes are exactly the related POIDs the repository can resolve. |
| AssetUsage.AssetUsageService.NodeRemoved | Classes/Service/AssetUsageService.php:182-190 | On a populated cache with real-time updates, the POID is removed from the cache. Otherwise the store is unchanged. |
| AssetUsage.AssetUsageService.NodeAdded | Classes/Service/AssetUsageService.php:149-168 | On a populated cache with real-time updates, a node that passes the pre-filter is recorded by `AddNode`. Otherwise the store is unchanged. |
| AssetUsage.AssetUsageService.NodeUpdated | Classes/Service/AssetUsageService.php:170-180 | On a populated cache with real-time updates, the node is removed and then added. Otherwise the store is unchanged. |
| AssetUsage.SearchedUuidsMembers | Classes/Service/AssetUsageService.php:163 | `nodeAdded` searches exactly the uuids either pattern matched in the node's properties. |
| AssetUsage.NodeReadAt | Classes/Service/AssetUsageService.php:159-164 | After the cache read in `nodeAdded`, a referenced uuid holds the POID, then its unseen cached POIDs. Any other listed uuid holds its cached list. |
| AssetUsage.AddNodeAt | Classes/Service/AssetUsageService.php:159-166 | For a non-negative lifetime: after `nodeAdded`, a referenced key holds the de-duplicated POID-first list. Any other key holds the same POIDs as before. |
| AssetUsage.AddNodeMembersAt | Classes/Service/AssetUsageService.php:149-168 | For a non-negative lifetime: `nodeAdded` at one key only adds the node's POID, and adds it where the node references the uuid. |
| AssetUsage.ListAfterAdd | Classes/Service/AssetUsageService.php:159-166 | A list after the add keeps every old POID and adds at most the node's POID, which it holds when referenced. |
| AssetUsage.NodeAddedEffect | Classes/Service/AssetUsageService.php:149-168 | On a valid store written with a non-negative lifetime, `nodeAdded` keeps the invariant and the population time. It lists the POID under every uuid the node references, drops no POID, and adds no other POID. Keys the node does not reference hold the same POIDs. |
| AssetUsage.UpdateNodeAt | Classes/Service/AssetUsageService.php:170-180 | For a non-negative lifetime: after `nodeUpdated`, a key lists the POID iff the node passes the pre-filter and references it now. Other POIDs are as before. |
| AssetUsage.UpdateRetractsStaleReferences | Classes/Service/AssetUsageService.php:170-180 | On a valid store written with a non-negative lifetime: after `nodeUpdated`, the POID is listed exactly under the uuids its new properties reference. A reference the node no longer holds is gone. No other node's POID changes. |
| AssetUsage.CachedLookupMeaning | Classes/Service/AssetUsageService.php:80-89 | The cached answer is duplicate-free and holds exactly the POIDs the store lists under a searched uuid. |
| AssetUsage.ScannedLookupMeaning | Classes/Service/AssetUsageService.php:73-89 | The full-scan answer is duplicate-free and holds exactly the POIDs of rows referencing a searched uuid. |
| AssetUsage.ReadBackAt | Classes/Service/AssetCacheService.php:125-173 | A duplicate-free list written with a non-negative lifetime by a population pass over a store without list entries is read back unchanged. (`array_unique` would shorten a list with a repeated POID.) |
| AssetUsage.ReadBack | Classes/Service/AssetCacheService.php:125-173 | When every written list of a kind is duplicate-free, each searched uuid's list written by such a pass is read back unchanged. |
| AssetUsage.CachedLookupAfterPopulation | Classes/Service/AssetUsageService.php:80-89 | After a population with a non-negative lifetime of duplicate-free lists over a store without list entries, the cached answer equals the answer over the populated maps. |
| AssetUsage.CachedLookupAgreesWithScan | Classes/Service/AssetUsageService.php:63-92 | Cache consistency, for a store that holds no list entry before the pass and a non-negative lifetime: after an initial population from a full scan, the cached lookup returns what the full scan returns, in the same order. |
| AssetUsage.LeftoverListFound | Classes/Service/AssetCacheService.php:125-140 | A population pass does not clear the list of a uuid it does not write. The cached lookup of that uuid still finds the old POIDs. |
| AssetUsage.LeftoverListOutlivesPopulation | Classes/Service/AssetCacheService.php:130-139 | A concrete valid, unpopulated store whose leftover list survives an initial population: the full scan over no rows finds nothing, yet the cached lookup finds the leftover POID. |
| StrategiesAspect.IsEnabled | Classes/Aspect/AssetUsageStrategiesAspect.php:48 | An entry is enabled iff its `disable` setting is not true: unset, null and false all enable it. |
| StrategiesAspect.EnabledClassNamesConcat | Classes/Aspect/AssetUsageStrategiesAspect.php:45-53 | The enabled names of two runs of configuration entries are those of the first run, then those of the second. |
| StrategiesAspect.EnabledClassNamesAt | Classes/Aspect/AssetUsageStrategiesAspect.php:45-53 | A class name is enabled iff some entry carrying it is not disabled. |
| StrategiesAspect.EnabledClassNamesMembers | Classes/Aspect/AssetUsageStrategiesAspect.php:45-53 | The enabled names are exactly the class names of the entries that are not disabled. |
| StrategiesAspect.EnabledContributesItsName | Classes/Aspect/AssetUsageStrategiesAspect.php:47-50 | An enabled entry contributes its class name, at its own place in the configuration order. |
| StrategiesAspect.DisabledContributesNothing | Classes/Aspect/AssetUsageStrategiesAspect.php:48 | Dropping an entry whose `disable` is set leaves the enabled names as they are. |
| StrategiesAspect.EnabledClassNamesSingle | Classes/Aspect/AssetUsageStrategiesAspect.php:48-50 | One entry contributes its class name iff `disable` is unset or false. |
| StrategiesAspect.GetEnabledAssetUsageStrategies | Classes/Aspect/AssetUsageStrategiesAspect.php:45-53 | The loop returns the enabled class names in configuration order. |
| StrategiesAspect.IsInstanceOfEnabled | Classes/Aspect/AssetUsageStrategiesAspect.php:32-40 | The closure is true iff the strategy is an instance of some enabled class. |
| StrategiesAspect.KeepInstancesSubsequence | Classes/Aspect/AssetUsageStrategiesAspect.php:32-41 | `array_filter` keeps a subsequence of the strategies: keys and order are preserved. |
| StrategiesAspect.KeepInstancesAt | Classes/Aspect/AssetUsageStrategiesAspect.php:32-41 | An entry is kept iff it was returned by the advised method and is an instance of an enabled class. |
| StrategiesAspect.KeepInstancesMeaning | Classes/Aspect/AssetUsageStrategiesAspect.php:26-42 | The filter keeps exactly the instances of enabled classes, in order. With nothing enabled, it keeps nothing. |
| Collections.SubsequenceOfPrefix | Classes/Aspect/AssetUsageStrategiesAspect.php:32-41 | Keeping or dropping one more entry keeps the result a subsequence. |
| Collections.SubsequenceShrink | Classes/Aspect/AssetUsageStrategiesAspect.php:32-41 | A kept run without its last entry is still a subsequence. |
| StrategiesAspect.FilterAssetUsageStrategies | Classes/Aspect/AssetUsageStrategiesAspect.php:26-42 | The advice returns the strategies that are instances of a configured, enabled class. |

## Left out

- The database (`DatabaseService`) is not part of this model. Its queries become parameters:
  - the `(POID, properties)` rows of `queryAssetAndIdentifiers`, in row order;
  - the uuids of `getAssetIdentifiersIncludingVariants`;
  - the set of POIDs `getNodesByPOIDs` resolves.
- `GetRelatedNodes`: the result is the set of resolvable related POIDs. The order in which the
  repository returns the nodes, and the node objects themselves, are left out.
- `sha1` keys and tags are modelled as the injective constructors `Hashed` and `PoidTag`. Digest
  collisions are not modelled.
- The backend's own expiry of entries is not modelled. The store keeps every entry, with the
  lifetime it was written with recorded alongside.
- A re-population does not clear list entries an earlier or interrupted pass left behind
  (`LeftoverListOutlivesPopulation`). The cached lookup agrees with a full scan only when the
  backend has expired those lists together with the marker. The model leaves backend expiry out,
  so `CachedLookupAgreesWithScan` assumes a store with no list entry before the initial pass.
- The rows of `queryAssetAndIdentifiers` are a sequence of `(POID, properties)` pairs that may
  repeat a POID. The source keys them by POID, so the last row for a POID wins and POIDs are
  distinct. Every property proved holds for distinct rows as a special case.
- Concurrency is not modelled: requests that interleave on the shared cache, and the
  "population in progress" window seen by another request. Only the order of one pass's own
  writes is stated, through the ghost log.
- The clock is the parameter `now`, read once per call. PHP reads `time()` at each write and
  at `populateCacheByUUIDLists`.
- `SetCacheDisabled`: the PHP method declares a `bool` result but returns the service object.
  That result, and the runtime type error it leads to after the flag is set, are not modelled.
- `addPOIDToUUIDList` (AssetCacheService.php:175-191) is not modelled. On an unpopulated cache
  it returns at once. On a populated one it passes the merge closure's `null` result where
  `populateCacheByUUIDLists` expects an array, so it throws a type error before any write. It
  writes nothing either way, and nothing in the package calls it.
- `isRealTimeUpdateEnabled` and `isDisabled` become reads of the fields `realTimeUpdate` and
  `disable`.
- The configuration injection, the `Package` signal wiring and `AssetUsageCacheStrategy` are not
  part of this model.
- General regular-expression semantics are not modelled. The scanner covers the two patterns of
  `updateNodesLists` only:
  - matching is case-insensitive for the literal part and the hex digits;
  - the search restarts after each match.
- `UsageIndex.ExtractUuids`: its own contract covers only text shorter than one match. The
  scan's results are described by `ScanSound` (soundness) and `ScanBound`. Completeness, that
  every match in the text is extracted, is not proved.
- `UsageIndex.ExtractReference`: it covers a reference at the start of the text. A reference
  further in is covered by `ScanSound` in one direction only: every extracted uuid comes from a
  match.
- `UsageIndex.ConsideredIfReferenced`: it covers references in the lower case that `json_encode`
  writes. The pre-filter's `strpos` is case-sensitive while the patterns are not, so upper-case
  spellings are not covered.
- PHP's loose typing is not modelled, such as a `disable` setting given as a string. `disable`
  is `None` when unset or null, and otherwise its truth value.
- `instanceof` is the parameter `instanceOf`. The class hierarchy is not modelled.
