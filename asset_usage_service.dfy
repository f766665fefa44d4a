/** The usage service: answering "which nodes use this asset" from a full scan or from the
    cache, and keeping the cache in step with node changes. The database is not modelled: the
    rows of `queryAssetAndIdentifiers` (POID and serialized properties, in row order), the
    uuids of `getAssetIdentifiersIncludingVariants` and the POIDs `getNodesByPOIDs` can
    resolve are parameters. */
module AssetUsage {
  import opened Collections
  import opened CacheStore
  import opened AssetCache
  import opened UsageIndex

  // ---------------------------------------------------------------------------------------
  // What the service answers and what it writes

  /** The answer of the full-scan path: the maps built from every row, merged for the searched
      uuids (the identifier map is passed as the second argument). */
  function ScannedLookup(identifiersToSearch: seq<Uuid>, nodes: seq<(Poid, string)>): seq<Poid> {
    var index := IndexNodes(nodes);
    Collect(identifiersToSearch, index.0, index.1)
  }

  /** The answer of the cached path: the maps read from the store for the searched uuids. */
  function CachedLookup(identifiersToSearch: seq<Uuid>, s: Store): seq<Poid> {
    Collect(identifiersToSearch,
      ReadInto(map[], identifiersToSearch, Identifier, s),
      ReadInto(map[], identifiersToSearch, Asset, s))
  }

  /** The answer `getRelatedPOIDs` gives, depending on whether the cache was populated. */
  function Lookup(identifiersToSearch: seq<Uuid>, nodes: seq<(Poid, string)>, populated: bool, s: Store): seq<Poid> {
    if populated then CachedLookup(identifiersToSearch, s) else ScannedLookup(identifiersToSearch, nodes)
  }

  /** `array_merge(array_keys($identifiersToNodes), array_keys($assetsToNodes))` after one
      `updateNodesLists` on empty maps: the uuids in order of first match, per pattern. */
  function SearchedUuids(properties: string): seq<Uuid> {
    Dedup(ExtractUuids(Identifier, properties)) + Dedup(ExtractUuids(Asset, properties))
  }

  /** One map of `nodeAdded` after `readUUIDListsFromCache`: the node's own list for each uuid
      it references, merged with the cached lists of the searched uuids. */
  function NodeRead(s: Store, poid: Poid, properties: string, kind: Kind): UuidLists {
    ReadInto(OfKind(NodeLists(map[], map[], poid, properties), kind), SearchedUuids(properties), kind, s)
  }

  /** The store `nodeAdded` leaves on a populated cache for a considered node: both merged maps
      written back as a non-initial pass, keeping the population time. */
  function AddNode(s: Store, poid: Poid, properties: string, lifetime: int): Store {
    PopulateAll(s, NodeRead(s, poid, properties, Identifier), NodeRead(s, poid, properties, Asset), MarkerTime(s), lifetime)
  }

  /** The store `nodeUpdated` leaves on a populated cache: `nodeRemoved`, then `nodeAdded`. */
  function UpdateNode(s: Store, poid: Poid, path: string, properties: string, lifetime: int): Store {
    var removed := RemovePoid(s, poid, lifetime);
    if PropertiesNeedToBeConsidered(path, properties) then AddNode(removed, poid, properties, lifetime) else removed
  }

  // ---------------------------------------------------------------------------------------
  // The service

  class AssetUsageService {
    const cacheService: AssetCacheService

    constructor (cacheService: AssetCacheService)
      ensures this.cacheService == cacheService
    {
      this.cacheService := cacheService;
    }

    /** The `$uuidFinder` closure: for each matched uuid, create its list when missing and
        append the POID unless the list holds it. */
    method UuidFinder(uuidToNodes: UuidLists, uuids: seq<Uuid>, poid: Poid) returns (r: UuidLists)
      ensures r == AddPoid(uuidToNodes, uuids, poid)
    {
      r := uuidToNodes;
      assert r == AddPoid(uuidToNodes, uuids[..0], poid);
      for i := 0 to |uuids|
        invariant r == AddPoid(uuidToNodes, uuids[..i], poid)
      {
        var uuid := uuids[i];
        assert uuids[..i + 1] == uuids[..i] + [uuid];
        AddPoidStep(uuidToNodes, uuids[..i], uuid, poid);
        var list := if uuid in r then r[uuid] else [];
        if poid !in list {
          list := list + [poid];
        }
        r := r[uuid := list];
      }
      assert uuids[..|uuids|] == uuids;
    }

    /** `updateNodesLists($poid, $properties, &$identifiersToNodes, &$assetsToNodes)`. */
    method UpdateNodesLists(poid: Poid, properties: string, identifiersToNodes: UuidLists, assetsToNodes: UuidLists)
      returns (identifiersOut: UuidLists, assetsOut: UuidLists)
      ensures (identifiersOut, assetsOut) == NodeLists(identifiersToNodes, assetsToNodes, poid, properties)
    {
      identifiersOut := UuidFinder(identifiersToNodes, ExtractUuids(Identifier, properties), poid);
      assetsOut := UuidFinder(assetsToNodes, ExtractUuids(Asset, properties), poid);
    }

    /** `getPOIDsByAssetIdentifiers($identifiers, $assetsList, $identifiersList)`. */
    method GetPOIDsByAssetIdentifiers(identifiers: seq<Uuid>, assetsList: UuidLists, identifiersList: UuidLists)
      returns (finalPoids: seq<Poid>)
      ensures finalPoids == Collect(identifiers, assetsList, identifiersList)
    {
      finalPoids := [];
      for i := 0 to |identifiers|
        invariant finalPoids == AppendNew([], Candidates(identifiers[..i], assetsList, identifiersList))
      {
        var uuid := identifiers[i];
        ghost var seen := Candidates(identifiers[..i], assetsList, identifiersList);
        assert identifiers[..i + 1][..i] == identifiers[..i];
        if uuid in assetsList {
          finalPoids := AppendAll(finalPoids, assetsList[uuid]);
        }
        if uuid in identifiersList {
          finalPoids := AppendAll(finalPoids, identifiersList[uuid]);
        }
        AppendNewConcat([], seen, Get(assetsList, uuid));
        AppendNewConcat([], seen + Get(assetsList, uuid), Get(identifiersList, uuid));
      }
      assert identifiers[..|identifiers|] == identifiers;
    }

    /** The inner `foreach` of `getPOIDsByAssetIdentifiers`: skip a POID already collected,
        append it otherwise. */
    method AppendAll(finalPoids: seq<Poid>, poids: seq<Poid>) returns (r: seq<Poid>)
      ensures r == AppendNew(finalPoids, poids)
    {
      r := finalPoids;
      for j := 0 to |poids|
        invariant r == AppendNew(finalPoids, poids[..j])
      {
        assert poids[..j + 1] == poids[..j] + [poids[j]];
        AppendNewConcat(finalPoids, poids[..j], [poids[j]]);
        if poids[j] in r {
          continue;
        }
        r := r + [poids[j]];
      }
      assert poids[..|poids|] == poids;
    }

    /** `getRelatedPOIDs($asset)`. With the cache disabled or not populated, every row is
        scanned; a disabled cache is then left alone, an enabled one gets an initial population
        from the scanned maps. A populated cache is read instead, for the searched uuids only,
        and not written. */
    method GetRelatedPOIDs(identifiersToSearch: seq<Uuid>, nodes: seq<(Poid, string)>, now: int)
      returns (finalPoids: seq<Poid>)
      requires cacheService.Valid()
      modifies cacheService`store, cacheService`log, cacheService`cachePopulationTime
      ensures cacheService.Valid()
      ensures finalPoids ==
        Lookup(identifiersToSearch, nodes, Populated(cacheService.disable, old(cacheService.store)), old(cacheService.store))
      ensures cacheService.disable || Populated(cacheService.disable, old(cacheService.store)) ==>
        cacheService.store == old(cacheService.store) && cacheService.log == old(cacheService.log)
      ensures !cacheService.disable && !Populated(cacheService.disable, old(cacheService.store)) ==>
        && cacheService.cachePopulationTime == now
        && cacheService.store == PopulateAll(old(cacheService.store), IndexNodes(nodes).0, IndexNodes(nodes).1, now,
             CacheLifetime(cacheService.backendLifetime, now, now))
    {
      var cacheIsDisabled := cacheService.disable;
      var cacheIsPopulated := cacheService.IsPopulated();
      ghost var populationTime := cacheService.cachePopulationTime;

      var identifiersToNodes: UuidLists := map[];
      var assetsToNodes: UuidLists := map[];

      if cacheIsDisabled || !cacheIsPopulated {
        for i := 0 to |nodes|
          invariant (identifiersToNodes, assetsToNodes) == IndexNodes(nodes[..i])
          invariant cacheService.store == old(cacheService.store) && cacheService.log == old(cacheService.log)
          invariant cacheService.cachePopulationTime == populationTime
        {
          assert nodes[..i + 1][..i] == nodes[..i];
          identifiersToNodes, assetsToNodes := UpdateNodesLists(nodes[i].0, nodes[i].1, identifiersToNodes, assetsToNodes);
        }
        assert nodes[..|nodes|] == nodes;
      }

      if !cacheIsDisabled {
        if !cacheIsPopulated {
          cacheService.PopulateCacheByUUIDLists(identifiersToNodes, assetsToNodes, true, now);
        } else {
          identifiersToNodes, assetsToNodes :=
            cacheService.ReadUUIDListsFromCache(identifiersToSearch, identifiersToNodes, assetsToNodes);
        }
      }

      finalPoids := GetPOIDsByAssetIdentifiers(identifiersToSearch, identifiersToNodes, assetsToNodes);
    }

    /** `getRelatedNodes($asset)`: the nodes among the related POIDs that the repository can
        resolve. */
    method GetRelatedNodes(identifiersToSearch: seq<Uuid>, nodes: seq<(Poid, string)>, existing: set<Poid>, now: int)
      returns (related: set<Poid>)
      requires cacheService.Valid()
      modifies cacheService`store, cacheService`log, cacheService`cachePopulationTime
      ensures cacheService.Valid()
      ensures forall q :: q in related <==> (q in existing &&
        q in Lookup(identifiersToSearch, nodes, Populated(cacheService.disable, old(cacheService.store)), old(cacheService.store)))
    {
      var poids := GetRelatedPOIDs(identifiersToSearch, nodes, now);
      if |poids| == 0 {
        return {};
      }
      related := set q | q in poids && q in existing;
    }

    /** `nodeRemoved($node)`: on a populated cache with real-time updates, the node's POID is
        removed from the cache; otherwise nothing happens. */
    method NodeRemoved(poid: Poid, now: int)
      requires cacheService.Valid()
      modifies cacheService`store, cacheService`log, cacheService`cachePopulationTime
      ensures cacheService.Valid()
      ensures cacheService.store ==
        if Populated(cacheService.disable, old(cacheService.store)) && cacheService.realTimeUpdate
        then RemovePoid(old(cacheService.store), poid,
          CacheLifetime(cacheService.backendLifetime, MarkerTime(old(cacheService.store)), now))
        else old(cacheService.store)
    {
      var populated := cacheService.IsPopulated();
      if !populated || !cacheService.realTimeUpdate {
        return;
      }
      cacheService.RemovePOIDFromCache(poid, now);
    }

    /** `nodeAdded($node)`: on a populated cache with real-time updates, a node the pre-filter
        admits has its references recorded: the cached lists of its uuids are read, merged with
        its POID and written back as a non-initial pass. */
    method NodeAdded(poid: Poid, path: string, properties: string, now: int)
      requires cacheService.Valid()
      modifies cacheService`store, cacheService`log, cacheService`cachePopulationTime
      ensures cacheService.Valid()
      ensures cacheService.store ==
        if Populated(cacheService.disable, old(cacheService.store)) && cacheService.realTimeUpdate
           && PropertiesNeedToBeConsidered(path, properties)
        then AddNode(old(cacheService.store), poid, properties,
          CacheLifetime(cacheService.backendLifetime, MarkerTime(old(cacheService.store)), now))
        else old(cacheService.store)
    {
      var populated := cacheService.IsPopulated();
      if !populated || !cacheService.realTimeUpdate {
        return;
      }
      if PropertiesNeedToBeConsidered(path, properties) {
        ghost var s0 := cacheService.store;
        var identifiersToNodes, assetsToNodes := UpdateNodesLists(poid, properties, map[], map[]);
        var identifiersToSearch := SearchedUuids(properties);
        identifiersToNodes, assetsToNodes :=
          cacheService.ReadUUIDListsFromCache(identifiersToSearch, identifiersToNodes, assetsToNodes);
        assert identifiersToNodes == NodeRead(s0, poid, properties, Identifier);
        assert assetsToNodes == NodeRead(s0, poid, properties, Asset);
        assert cacheService.cachePopulationTime == MarkerTime(s0);
        cacheService.PopulateCacheByUUIDLists(identifiersToNodes, assetsToNodes, false, now);
      }
    }

    /** `nodeUpdated($node)`: on a populated cache with real-time updates, `nodeRemoved` and
        then `nodeAdded`, so a reference the node no longer holds is dropped. */
    method NodeUpdated(poid: Poid, path: string, properties: string, now: int)
      requires cacheService.Valid()
      modifies cacheService`store, cacheService`log, cacheService`cachePopulationTime
      ensures cacheService.Valid()
      ensures cacheService.store ==
        if Populated(cacheService.disable, old(cacheService.store)) && cacheService.realTimeUpdate
        then UpdateNode(old(cacheService.store), poid, path, properties,
          CacheLifetime(cacheService.backendLifetime, MarkerTime(old(cacheService.store)), now))
        else old(cacheService.store)
    {
      var populated := cacheService.IsPopulated();
      if !populated || !cacheService.realTimeUpdate {
        return;
      }
      ghost var s0 := cacheService.store;
      ghost var lifetime := CacheLifetime(cacheService.backendLifetime, MarkerTime(s0), now);
      NodeRemoved(poid, now);
      RemovePoidEffect(s0, poid, lifetime);
      NodeAdded(poid, path, properties, now);
    }
  }

  // ---------------------------------------------------------------------------------------
  // Properties of the protocol

  /** The uuids `nodeAdded` searches are those either pattern matched. */
  lemma SearchedUuidsMembers(properties: string)
    ensures forall u :: u in SearchedUuids(properties) <==>
      u in ExtractUuids(Identifier, properties) || u in ExtractUuids(Asset, properties)
  {
    AppendNewSpec([], ExtractUuids(Identifier, properties));
    AppendNewSpec([], ExtractUuids(Asset, properties));
  }

  /** A merged map of `nodeAdded`, seen at one uuid: a referenced uuid holds the POID followed by
      the cached list; another searched uuid with an entry holds the cached list. */
  lemma NodeReadAt(s: Store, poid: Poid, properties: string, kind: Kind, u: Uuid)
    ensures var read := NodeRead(s, poid, properties, kind);
      var key := Hashed(kind, u);
      && (u in ExtractUuids(kind, properties) ==> u in read && read[u] == Dedup([poid] + ListAt(s, key)))
      && (u !in ExtractUuids(kind, properties) && u in read ==> key in s && read[u] == Dedup(ListAt(s, key)))
  {
    var found := ExtractUuids(kind, properties);
    var own := AddPoid(map[], found, poid);
    assert OfKind(NodeLists(map[], map[], poid, properties), kind) == own;
    var ids := SearchedUuids(properties);
    var key := Hashed(kind, u);
    AddPoidFresh(found, poid, u);
    ReadIntoAt(own, ids, kind, s, u);
    if u in found {
      SearchedUuidsHas(properties, kind, u);
      if key !in s {
        assert [poid] + ListAt(s, key) == [poid];
        DedupSingle(poid);
      }
    } else {
      assert [] + ListAt(s, key) == ListAt(s, key);
    }
  }

  /** A uuid either pattern matched is searched. */
  lemma SearchedUuidsHas(properties: string, kind: Kind, u: Uuid)
    requires u in ExtractUuids(kind, properties)
    ensures u in SearchedUuids(properties)
  {
    SearchedUuidsMembers(properties);
  }

  /** `nodeAdded`, seen at one hashed key of a store written with a non-negative lifetime: a
      uuid the node references gets the list `array_unique([poid] + cached)`; any other entry
      keeps its POIDs (a searched uuid's entry of the other kind is only de-duplicated). */
  lemma AddNodeAt(s: Store, poid: Poid, properties: string, lifetime: int, k: Key)
    requires 0 <= lifetime
    requires k.Hashed?
    ensures var r := AddNode(s, poid, properties, lifetime);
      && (k.uuid in ExtractUuids(k.kind, properties) ==> k in r && ListAt(r, k) == Dedup([poid] + ListAt(s, k)))
      && (k.uuid !in ExtractUuids(k.kind, properties) ==>
            (k in r <==> k in s) && forall q :: q in ListAt(r, k) <==> q in ListAt(s, k))
  {
    var identifiers := NodeRead(s, poid, properties, Identifier);
    var assets := NodeRead(s, poid, properties, Asset);
    PopulateAllAt(s, identifiers, assets, MarkerTime(s), lifetime, k);
    NodeReadAt(s, poid, properties, k.kind, k.uuid);
    DedupMembers(ListAt(s, k));
  }

  /** `nodeAdded`, seen at one key, in terms of list membership. */
  lemma AddNodeMembersAt(s: Store, poid: Poid, properties: string, lifetime: int, k: Key)
    requires StoreValid(s) && 0 <= lifetime
    ensures var r := AddNode(s, poid, properties, lifetime);
      && (forall q :: q in ListAt(s, k) ==> q in ListAt(r, k))
      && (forall q :: q in ListAt(r, k) ==> q in ListAt(s, k) || q == poid)
      && (k.Hashed? && k.uuid in ExtractUuids(k.kind, properties) ==> poid in ListAt(r, k))
      && (k.Hashed? && k.uuid !in ExtractUuids(k.kind, properties) ==>
            forall q :: q in ListAt(r, k) <==> q in ListAt(s, k))
  {
    if k.Hashed? {
      AddNodeAt(s, poid, properties, lifetime, k);
      ListAfterAdd(ListAt(s, k), ListAt(AddNode(s, poid, properties, lifetime), k), poid,
        k.uuid in ExtractUuids(k.kind, properties));
    } else {
      PopulateAllValid(s, NodeRead(s, poid, properties, Identifier), NodeRead(s, poid, properties, Asset),
        MarkerTime(s), lifetime);
      MarkerListEmpty(s);
      MarkerListEmpty(AddNode(s, poid, properties, lifetime));
    }
  }

  /** A list after the node was added: the de-duplicated POID-first list where the node
      refers to the uuid, the same members elsewhere. */
  lemma ListAfterAdd(before: seq<Poid>, after: seq<Poid>, poid: Poid, referenced: bool)
    requires referenced ==> after == Dedup([poid] + before)
    requires !referenced ==> forall q :: q in after <==> q in before
    ensures forall q :: q in before ==> q in after
    ensures forall q :: q in after ==> q in before || q == poid
    ensures referenced ==> poid in after
  {
    DedupMembers([poid] + before);
  }

  /** `nodeAdded` on a valid store written with a non-negative lifetime: the POID appears in the
      cached list of every uuid the node references, no POID is lost from any list, the POID is
      the only one added, the store stays valid and keeps its population time. */
  lemma NodeAddedEffect(s: Store, poid: Poid, properties: string, lifetime: int)
    requires StoreValid(s) && 0 <= lifetime
    ensures var r := AddNode(s, poid, properties, lifetime);
      && StoreValid(r)
      && MarkerTime(r) == MarkerTime(s)
      && (forall kind, u :: u in ExtractUuids(kind, properties) ==> poid in ListAt(r, Hashed(kind, u)))
      && (forall k, q :: q in ListAt(s, k) ==> q in ListAt(r, k))
      && (forall k, q :: q in ListAt(r, k) ==> q in ListAt(s, k) || q == poid)
      && (forall k: Key :: k.Hashed? && k.uuid !in ExtractUuids(k.kind, properties) ==>
            forall q :: q in ListAt(r, k) <==> q in ListAt(s, k))
  {
    var r := AddNode(s, poid, properties, lifetime);
    PopulateAllValid(s, NodeRead(s, poid, properties, Identifier), NodeRead(s, poid, properties, Asset),
      MarkerTime(s), lifetime);
    forall k
      ensures (forall q :: q in ListAt(s, k) ==> q in ListAt(r, k))
      ensures (forall q :: q in ListAt(r, k) ==> q in ListAt(s, k) || q == poid)
      ensures k.Hashed? && k.uuid !in ExtractUuids(k.kind, properties) ==>
        forall q :: q in ListAt(r, k) <==> q in ListAt(s, k)
    {
      AddNodeMembersAt(s, poid, properties, lifetime, k);
    }
    forall kind, u | u in ExtractUuids(kind, properties) ensures poid in ListAt(r, Hashed(kind, u)) {
      AddNodeMembersAt(s, poid, properties, lifetime, Hashed(kind, u));
    }
  }

  /** `nodeUpdated`, seen at one key of a valid store written with a non-negative lifetime. */
  lemma UpdateNodeAt(s: Store, poid: Poid, path: string, properties: string, lifetime: int, k: Key)
    requires StoreValid(s) && 0 <= lifetime
    ensures var r := UpdateNode(s, poid, path, properties, lifetime);
      && (poid in ListAt(r, k) <==>
            PropertiesNeedToBeConsidered(path, properties) && k.Hashed? && k.uuid in ExtractUuids(k.kind, properties))
      && (forall q :: q != poid ==> (q in ListAt(r, k) <==> q in ListAt(s, k)))
  {
    var removed := RemovePoid(s, poid, lifetime);
    RemovePoidAt(s, poid, lifetime, k);
    RemovePoidValid(s, poid, lifetime);
    assert ListAt(removed, k) == if poid in ListAt(s, k) then Without(ListAt(s, k), poid) else ListAt(s, k);
    if PropertiesNeedToBeConsidered(path, properties) {
      AddNodeMembersAt(removed, poid, properties, lifetime, k);
    }
  }

  /** Update is remove then add: after `nodeUpdated` of a node the pre-filter admits, on a valid
      store with a non-negative lifetime, the node's POID is listed under exactly the uuids its
      properties reference now, each under the pattern that matched; the other POIDs of every
      list are kept. A node the pre-filter rejects is listed nowhere. */
  lemma UpdateRetractsStaleReferences(s: Store, poid: Poid, path: string, properties: string, lifetime: int)
    requires StoreValid(s) && 0 <= lifetime
    ensures var r := UpdateNode(s, poid, path, properties, lifetime);
      && StoreValid(r)
      && (forall kind, u :: poid in ListAt(r, Hashed(kind, u)) <==>
            PropertiesNeedToBeConsidered(path, properties) && u in ExtractUuids(kind, properties))
      && (forall k, q :: q != poid ==> (q in ListAt(r, k) <==> q in ListAt(s, k)))
  {
    var removed := RemovePoid(s, poid, lifetime);
    RemovePoidValid(s, poid, lifetime);
    if PropertiesNeedToBeConsidered(path, properties) {
      PopulateAllValid(removed, NodeRead(removed, poid, properties, Identifier), NodeRead(removed, poid, properties, Asset),
        MarkerTime(removed), lifetime);
    }
    var r := UpdateNode(s, poid, path, properties, lifetime);
    forall kind, u ensures poid in ListAt(r, Hashed(kind, u)) <==>
      PropertiesNeedToBeConsidered(path, properties) && u in ExtractUuids(kind, properties)
    {
      UpdateNodeAt(s, poid, path, properties, lifetime, Hashed(kind, u));
    }
    forall k ensures forall q :: q != poid ==> (q in ListAt(r, k) <==> q in ListAt(s, k)) {
      UpdateNodeAt(s, poid, path, properties, lifetime, k);
    }
  }

  /** The cached lookup returns, without duplicates, exactly the POIDs the store lists under a
      searched uuid, in either kind of entry. */
  lemma CachedLookupMeaning(identifiersToSearch: seq<Uuid>, s: Store)
    ensures NoDup(CachedLookup(identifiersToSearch, s))
    ensures forall q :: q in CachedLookup(identifiersToSearch, s) <==>
      exists i :: 0 <= i < |identifiersToSearch| &&
        (q in ListAt(s, Hashed(Identifier, identifiersToSearch[i])) || q in ListAt(s, Hashed(Asset, identifiersToSearch[i])))
  {
    var ids := identifiersToSearch;
    var identifiers := ReadInto(map[], ids, Identifier, s);
    var assets := ReadInto(map[], ids, Asset, s);
    CollectMeaning(ids, identifiers, assets);
    forall i | 0 <= i < |ids|
      ensures forall q :: q in Get(identifiers, ids[i]) <==> q in ListAt(s, Hashed(Identifier, ids[i]))
      ensures forall q :: q in Get(assets, ids[i]) <==> q in ListAt(s, Hashed(Asset, ids[i]))
    {
      ReadIntoAt(map[], ids, Identifier, s, ids[i]);
      ReadIntoAt(map[], ids, Asset, s, ids[i]);
      AppendNewSpec([], [] + ListAt(s, Hashed(Identifier, ids[i])));
      AppendNewSpec([], [] + ListAt(s, Hashed(Asset, ids[i])));
      assert [] + ListAt(s, Hashed(Identifier, ids[i])) == ListAt(s, Hashed(Identifier, ids[i]));
      assert [] + ListAt(s, Hashed(Asset, ids[i])) == ListAt(s, Hashed(Asset, ids[i]));
    }
  }

  /** The scanned lookup returns, without duplicates, exactly the POIDs of the rows that
      reference a searched uuid with either pattern. */
  lemma ScannedLookupMeaning(identifiersToSearch: seq<Uuid>, nodes: seq<(Poid, string)>)
    ensures NoDup(ScannedLookup(identifiersToSearch, nodes))
    ensures forall q :: q in ScannedLookup(identifiersToSearch, nodes) <==>
      exists i :: 0 <= i < |identifiersToSearch| &&
        (ReferencedBy(nodes, Identifier, identifiersToSearch[i], q) || ReferencedBy(nodes, Asset, identifiersToSearch[i], q))
  {
    var index := IndexNodes(nodes);
    CollectMeaning(identifiersToSearch, index.0, index.1);
    IndexNodesExact(nodes, Identifier);
    IndexNodesExact(nodes, Asset);
  }

  /** After a population over a store without list entries, reading one searched uuid back
      gives the duplicate-free list that was written. */
  lemma ReadBackAt(identifiersToSearch: seq<Uuid>, identifiers: UuidLists, assets: UuidLists, s: Store,
                   populationTime: int, lifetime: int, kind: Kind, u: Uuid)
    requires forall k :: k in s ==> k.Marker?
    requires 0 <= lifetime && u in identifiersToSearch
    requires NoDup(Get(OfKind((identifiers, assets), kind), u))
    ensures Get(ReadInto(map[], identifiersToSearch, kind, PopulateAll(s, identifiers, assets, populationTime, lifetime)), u)
      == Get(OfKind((identifiers, assets), kind), u)
  {
    var written := OfKind((identifiers, assets), kind);
    var r := PopulateAll(s, identifiers, assets, populationTime, lifetime);
    var key := Hashed(kind, u);
    assert key !in s;
    ReadIntoAt(map[], identifiersToSearch, kind, r, u);
    PopulateAllAt(s, identifiers, assets, populationTime, lifetime, key);
    if u in written {
      assert key in r && ListAt(r, key) == written[u];
      assert [] + written[u] == written[u];
      DedupOfDistinct(written[u]);
    } else {
      assert key !in r;
    }
  }

  /** After a population over a store without list entries, reading back the searched uuids
      of one kind gives the lists that were written. */
  lemma ReadBack(identifiersToSearch: seq<Uuid>, identifiers: UuidLists, assets: UuidLists, s: Store,
                 populationTime: int, lifetime: int, kind: Kind)
    requires forall k :: k in s ==> k.Marker?
    requires 0 <= lifetime
    requires forall u :: NoDup(Get(OfKind((identifiers, assets), kind), u))
    ensures forall u :: u in identifiersToSearch ==>
      Get(ReadInto(map[], identifiersToSearch, kind, PopulateAll(s, identifiers, assets, populationTime, lifetime)), u)
        == Get(OfKind((identifiers, assets), kind), u)
  {
    forall u | u in identifiersToSearch
      ensures Get(ReadInto(map[], identifiersToSearch, kind, PopulateAll(s, identifiers, assets, populationTime, lifetime)), u)
        == Get(OfKind((identifiers, assets), kind), u)
    {
      ReadBackAt(identifiersToSearch, identifiers, assets, s, populationTime, lifetime, kind, u);
    }
  }

  /** After a population with a non-negative lifetime over a store without list entries, the
      cached lookup answers from exactly the maps that were written, as long as their lists
      hold no duplicates. */
  lemma CachedLookupAfterPopulation(identifiersToSearch: seq<Uuid>, identifiers: UuidLists, assets: UuidLists, s: Store,
                                    populationTime: int, lifetime: int)
    requires forall k :: k in s ==> k.Marker?
    requires 0 <= lifetime
    requires forall u :: NoDup(Get(identifiers, u))
    requires forall u :: NoDup(Get(assets, u))
    ensures CachedLookup(identifiersToSearch, PopulateAll(s, identifiers, assets, populationTime, lifetime))
      == Collect(identifiersToSearch, identifiers, assets)
  {
    var ids := identifiersToSearch;
    assert OfKind((identifiers, assets), Identifier) == identifiers;
    assert OfKind((identifiers, assets), Asset) == assets;
    ReadBack(ids, identifiers, assets, s, populationTime, lifetime, Identifier);
    ReadBack(ids, identifiers, assets, s, populationTime, lifetime, Asset);
    var r := PopulateAll(s, identifiers, assets, populationTime, lifetime);
    CollectCongruence(ids, ReadInto(map[], ids, Identifier, r), ReadInto(map[], ids, Asset, r), identifiers, assets);
  }

  /** Cache consistency: once an initial population with a non-negative lifetime has written
      the scanned maps into a store that held no list entries, the cached lookup gives the same
      answer as a full scan, for any searched uuids. */
  lemma CachedLookupAgreesWithScan(identifiersToSearch: seq<Uuid>, nodes: seq<(Poid, string)>, s: Store,
                                   populationTime: int, lifetime: int)
    requires forall k :: k in s ==> k.Marker?
    requires 0 <= lifetime
    ensures CachedLookup(identifiersToSearch, PopulateAll(s, IndexNodes(nodes).0, IndexNodes(nodes).1, populationTime, lifetime))
      == ScannedLookup(identifiersToSearch, nodes)
  {
    var index := IndexNodes(nodes);
    IndexNodesExact(nodes, Identifier);
    IndexNodesExact(nodes, Asset);
    assert OfKind(index, Identifier) == index.0 && OfKind(index, Asset) == index.1;
    CachedLookupAfterPopulation(identifiersToSearch, index.0, index.1, s, populationTime, lifetime);
  }

  /** A list entry of a uuid that no written map lists survives a population pass and is found
      by the cached lookup of that uuid. */
  lemma LeftoverListFound(s: Store, identifiers: UuidLists, assets: UuidLists, populationTime: int, lifetime: int,
                          u: Uuid, q: Poid)
    requires u !in identifiers && q in ListAt(s, Hashed(Identifier, u))
    ensures q in CachedLookup([u], PopulateAll(s, identifiers, assets, populationTime, lifetime))
  {
    var r := PopulateAll(s, identifiers, assets, populationTime, lifetime);
    PopulateAllAt(s, identifiers, assets, populationTime, lifetime, Hashed(Identifier, u));
    assert q in ListAt(r, Hashed(Identifier, u));
    CachedLookupMeaning([u], r);
    assert [u][0] == u;
  }

  /** An initial population does not clear list entries an earlier pass left behind: a POID
      listed before the pass is still found by the cached lookup, although no row references
      the uuid and the full scan finds nothing. */
  lemma LeftoverListOutlivesPopulation(u: Uuid, q: Poid)
    ensures var s := map[Hashed(Identifier, u) := EntryFor([q], 0)];
      && StoreValid(s) && !Populated(false, s)
      && ScannedLookup([u], []) == []
      && q in CachedLookup([u], PopulateAll(s, IndexNodes([]).0, IndexNodes([]).1, 5, 0))
  {
    var k := Hashed(Identifier, u);
    var s := map[k := EntryFor([q], 0)];
    assert EntryValid(k, s[k]);
    assert ListAt(s, k) == [q];
    assert IndexNodes([]) == (map[], map[]);
    LeftoverListFound(s, map[], map[], 5, 0, u, q);
    ScanOfNoRows(u);
  }

  /** With no rows, the full scan for one uuid finds nothing. */
  lemma ScanOfNoRows(u: Uuid)
    ensures ScannedLookup([u], []) == []
  {
    assert IndexNodes([]) == (map[], map[]);
    assert [u][..0] == [];
    assert Candidates([u], map[], map[]) == [];
  }
}
