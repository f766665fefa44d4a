/** The cache manager: configuration toggles, the population marker, entry writes with the
    lifetime rule, merge-reads into caller maps and tag-driven removal of a POID. */
module AssetCache {
  import opened Collections
  import opened CacheStore

  class AssetCacheService {
    /** `queryCache.disable` */
    var disable: bool
    /** `queryCache.realTimeUpdate` */
    var realTimeUpdate: bool
    /** Unix time the cached snapshot was populated. PHP starts it at null, which adds like 0. */
    var cachePopulationTime: int
    /** The tagged cache store, shared by every request. */
    var store: Store
    /** `backendOptions.defaultLifetime` of the cache configuration, None when unset. */
    const backendLifetime: Option<int>
    /** Every write the store accepted, in order. */
    ghost var log: seq<(Key, Entry)>

    ghost predicate Valid()
      reads this`store
    {
      StoreValid(store)
    }

    /** The lifetime an entry written now gets: `getCacheLifetime($this->cachePopulationTime)`. */
    function Lifetime(now: int): int
      reads this`cachePopulationTime
    {
      CacheLifetime(backendLifetime, cachePopulationTime, now)
    }

    constructor (disable: bool, realTimeUpdate: bool, backendLifetime: Option<int>, store: Store)
      requires StoreValid(store)
      ensures Valid()
      ensures this.disable == disable && this.realTimeUpdate == realTimeUpdate
      ensures this.backendLifetime == backendLifetime && this.store == store
      ensures cachePopulationTime == 0 && log == []
    {
      this.disable := disable;
      this.realTimeUpdate := realTimeUpdate;
      this.backendLifetime := backendLifetime;
      this.store := store;
      cachePopulationTime := 0;
      log := [];
    }

    /** `flushCache()`: every entry goes, the marker included. */
    method FlushCache()
      modifies this`store
      ensures store == map[] && Valid()
      ensures !Populated(disable, store)
    {
      store := map[];
    }

    /** `setRealTimeUpdate($val)` */
    method SetRealTimeUpdate(val: bool)
      modifies this`realTimeUpdate
      ensures realTimeUpdate == val
    {
      realTimeUpdate := val;
    }

    /** `setCacheDisabled($val)`; the PHP method's declared `bool` result is not honoured and
        not modelled. */
    method SetCacheDisabled(val: bool)
      modifies this`disable
      ensures disable == val
    {
      disable := val;
    }

    /** `isPopulated()`: false without looking at the store when disabled; otherwise true iff
        the marker holds a positive time, which then becomes the population time. */
    method IsPopulated() returns (populated: bool)
      modifies this`cachePopulationTime
      ensures populated == Populated(disable, store)
      ensures cachePopulationTime == if populated then MarkerTime(store) else old(cachePopulationTime)
    {
      if disable {
        return false;
      }
      var populationTime := MarkerTime(store);
      if 0 < populationTime {
        cachePopulationTime := populationTime;
        return true;
      }
      return false;
    }

    /** `setCacheEntry($key, $value, $tags)`: nothing is written when the lifetime computed from
        the population time is negative; otherwise exactly this entry with that lifetime. */
    method SetCacheEntry(key: Key, value: Value, tags: set<Tag>, now: int)
      modifies this`store, this`log
      ensures store == SetEntry(old(store), key, value, tags, Lifetime(now))
      ensures Lifetime(now) < 0 ==> store == old(store) && log == old(log)
      ensures 0 <= Lifetime(now) ==> log == old(log) + [(key, Entry(value, tags, Lifetime(now)))]
    {
      var pendingLifetime := CacheLifetime(backendLifetime, cachePopulationTime, now);
      if pendingLifetime < 0 {
        return;
      }
      store := store[key := Entry(value, tags, pendingLifetime)];
      log := log + [(key, Entry(value, tags, pendingLifetime))];
    }

    /** `populateCache($entries)`: each list written under its key, tagged with its POIDs. The
        hashing of the `$prefix` branch is done by the caller through `Keyed`. */
    method PopulateCache(entries: map<Key, seq<Poid>>, now: int)
      modifies this`store, this`log
      ensures store == WriteLists(old(store), entries, Lifetime(now))
      ensures Extends(old(log), log)
      ensures Marker !in entries ==> NoMarkerFrom(log, |old(log)|)
      ensures Lifetime(now) < 0 ==> log == old(log)
    {
      var pending := entries.Keys;
      ghost var written: map<Key, seq<Poid>> := map[];
      while pending != {}
        invariant pending <= entries.Keys
        invariant written.Keys == entries.Keys - pending
        invariant forall k :: k in written ==> written[k] == entries[k]
        invariant store == WriteLists(old(store), written, Lifetime(now))
        invariant Extends(old(log), log)
        invariant Marker !in entries ==> NoMarkerFrom(log, |old(log)|)
        invariant Lifetime(now) < 0 ==> log == old(log)
        decreases pending
      {
        var key :| key in pending;
        WriteListsStep(old(store), written, key, entries[key], Lifetime(now));
        ghost var before := log;
        SetCacheEntry(key, Poids(entries[key]), TagsOf(entries[key]), now);
        AppendWrite(old(log), before, log, (key, Entry(Poids(entries[key]), TagsOf(entries[key]), Lifetime(now))));
        written := written[key := entries[key]];
        pending := pending - {key};
      }
      assert written == entries;
    }

    /** `populateCacheByUUIDLists($identifiersToNodes, $assetsToNodes, $initial)`. Nothing when
        disabled. On an initial pass, or when the cache is not populated, the population time
        becomes `now` and the marker is set to 0 before any entry is written; otherwise the
        stored population time is kept. Every list is written under its hashed key, and the
        marker ends holding the population time. All writes share one lifetime. */
    method PopulateCacheByUUIDLists(identifiersToNodes: UuidLists, assetsToNodes: UuidLists, initial: bool, now: int)
      requires Valid()
      modifies this`store, this`log, this`cachePopulationTime
      ensures Valid()
      ensures disable ==> store == old(store) && log == old(log) && cachePopulationTime == old(cachePopulationTime)
      ensures !disable ==>
        cachePopulationTime == (if initial || !Populated(disable, old(store)) then now else MarkerTime(old(store)))
      ensures !disable ==>
        store == PopulateAll(old(store), identifiersToNodes, assetsToNodes, cachePopulationTime, Lifetime(now))
      ensures Lifetime(now) < 0 ==> log == old(log)
      // the marker brackets the batch
      ensures !disable && 0 <= Lifetime(now) ==>
        Bracketed(old(log), log, initial || !Populated(disable, old(store)), cachePopulationTime, Lifetime(now))
    {
      if disable {
        return;
      }
      ghost var s0 := store;
      ghost var log0 := log;
      var restart := initial;
      if !restart {
        var populated := IsPopulated();
        restart := !populated;
      }
      if restart {
        cachePopulationTime := now;
        SetCacheEntry(Marker, Stamp(0), {}, now);
      }
      ghost var s1 := store;
      ghost var log1 := log;
      ghost var lifetime := Lifetime(now);
      assert restart == (initial || !Populated(disable, s0));
      assert s1 == s0 || (0 <= lifetime && s1 == s0[Marker := Entry(Stamp(0), {}, lifetime)]);
      WriteListsAndMarker(identifiersToNodes, assetsToNodes, now);
      PopulationResult(s0, s1, identifiersToNodes, assetsToNodes, cachePopulationTime, lifetime);
      PopulateAllValid(s0, identifiersToNodes, assetsToNodes, cachePopulationTime, lifetime);
      if 0 <= lifetime && restart {
        BracketRestart(log0, log1, log, cachePopulationTime, lifetime);
      }
    }

    /** The rest of `populateCacheByUUIDLists` once the population time is settled: both maps
        written under their hashed keys, then the marker set to the population time. */
    method WriteListsAndMarker(identifiersToNodes: UuidLists, assetsToNodes: UuidLists, now: int)
      modifies this`store, this`log
      ensures store == SetEntry(WriteLists(WriteLists(old(store), Keyed(identifiersToNodes, Identifier), Lifetime(now)),
        Keyed(assetsToNodes, Asset), Lifetime(now)), Marker, Stamp(cachePopulationTime), {}, Lifetime(now))
      ensures Lifetime(now) < 0 ==> log == old(log)
      ensures 0 <= Lifetime(now) ==> Bracketed(old(log), log, false, cachePopulationTime, Lifetime(now))
    {
      ghost var log1 := log;
      PopulateCache(Keyed(identifiersToNodes, Identifier), now);
      ghost var log2 := log;
      PopulateCache(Keyed(assetsToNodes, Asset), now);
      ghost var log3 := log;
      SetCacheEntry(Marker, Stamp(cachePopulationTime), {}, now);
      if 0 <= Lifetime(now) {
        ConcatWrites(log1, log2, log3);
        BracketLog(log1, log3, log, cachePopulationTime, Lifetime(now));
      }
    }

    /** `readUUIDListsFromCache($identifiersToSearch, &$identifiersToNodes, &$assetsToNodes)`:
        the maps come back unchanged when the cache is not populated; otherwise every searched
        uuid with an entry of a kind gets that entry's POIDs merged into the map of that kind. */
    method ReadUUIDListsFromCache(identifiersToSearch: seq<Uuid>, identifiersToNodes: UuidLists, assetsToNodes: UuidLists)
      returns (identifiersOut: UuidLists, assetsOut: UuidLists)
      modifies this`cachePopulationTime
      ensures !Populated(disable, store) ==> identifiersOut == identifiersToNodes && assetsOut == assetsToNodes
      ensures Populated(disable, store) ==>
        && identifiersOut == ReadInto(identifiersToNodes, identifiersToSearch, Identifier, store)
        && assetsOut == ReadInto(assetsToNodes, identifiersToSearch, Asset, store)
      ensures cachePopulationTime == if Populated(disable, store) then MarkerTime(store) else old(cachePopulationTime)
    {
      identifiersOut, assetsOut := identifiersToNodes, assetsToNodes;
      var populated := IsPopulated();
      if !populated {
        return;
      }
      for i := 0 to |identifiersToSearch|
        invariant cachePopulationTime == MarkerTime(store)
        invariant identifiersOut == ReadInto(identifiersToNodes, identifiersToSearch[..i], Identifier, store)
        invariant assetsOut == ReadInto(assetsToNodes, identifiersToSearch[..i], Asset, store)
      {
        var uuid := identifiersToSearch[i];
        assert identifiersToSearch[..i + 1] == identifiersToSearch[..i] + [uuid];
        ReadIntoStep(identifiersToNodes, identifiersToSearch[..i], uuid, Identifier, store);
        ReadIntoStep(assetsToNodes, identifiersToSearch[..i], uuid, Asset, store);
        identifiersOut := FillNodesList(Identifier, uuid, identifiersOut);
        assetsOut := FillNodesList(Asset, uuid, assetsOut);
      }
      assert identifiersToSearch[..|identifiersToSearch|] == identifiersToSearch;
    }

    /** The `$fillNodesList` closure: when the store has the entry of this kind for `uuid`, the
        list of `uuid` becomes the old list merged with the cached POIDs, without duplicates. */
    method FillNodesList(kind: Kind, uuid: Uuid, nodesList: UuidLists) returns (r: UuidLists)
      ensures Hashed(kind, uuid) !in store ==> r == nodesList
      ensures Hashed(kind, uuid) in store ==>
        r == nodesList[uuid := Dedup(Get(nodesList, uuid) + ListAt(store, Hashed(kind, uuid)))]
    {
      var key := Hashed(kind, uuid);
      r := nodesList;
      if key in store {
        var cached := ListAt(store, key);
        r := nodesList[uuid := Dedup(Get(nodesList, uuid) + cached)];
      }
    }

    /** `getEntriesByPOID($poid)`: nothing when the cache is not populated, otherwise exactly the
        entries whose list holds the POID (the entries tagged with it), with their lists. */
    method GetEntriesByPOID(poid: Poid) returns (entries: map<Key, seq<Poid>>)
      requires Valid()
      modifies this`cachePopulationTime
      ensures !Populated(disable, store) ==> entries == map[]
      ensures Populated(disable, store) ==> entries == ByTag(store, PoidTag(poid))
      ensures Populated(disable, store) ==>
        forall k :: k in entries <==> k in store && k.Hashed? && poid in ListAt(store, k)
      ensures forall k :: k in entries ==> entries[k] == ListAt(store, k)
    {
      var populated := IsPopulated();
      if !populated {
        return map[];
      }
      ByTagExact(store, poid);
      entries := ByTag(store, PoidTag(poid));
    }

    /** `removePOIDFromCache($poid)`: nothing when the cache is not populated; otherwise every
        entry tagged with the POID is written back under its key without it. */
    method RemovePOIDFromCache(poid: Poid, now: int)
      requires Valid()
      modifies this`store, this`log, this`cachePopulationTime
      ensures Valid()
      ensures !Populated(disable, old(store)) ==> store == old(store) && cachePopulationTime == old(cachePopulationTime)
      ensures Populated(disable, old(store)) ==>
        cachePopulationTime == MarkerTime(old(store)) && store == RemovePoid(old(store), poid, Lifetime(now))
    {
      var populated := IsPopulated();
      if !populated {
        return;
      }
      ghost var s0 := store;
      ghost var lifetime := Lifetime(now);
      RemovePoidValid(s0, poid, lifetime);
      var tag := PoidTag(poid);
      var cacheEntries := ByTag(store, tag);
      if |cacheEntries| > 0 {
        var stripped := StripPoid(cacheEntries, poid);
        RemovePoidUnfold(s0, poid, lifetime, stripped);
        PopulateCache(stripped, now);
        assert store == RemovePoid(s0, poid, lifetime);
      }
    }

    /** `flushByPOIDs($poids)`: `removePOIDFromCache` for each POID in turn. */
    method FlushByPOIDs(poids: seq<Poid>, now: int)
      requires Valid()
      modifies this`store, this`log, this`cachePopulationTime
      ensures Valid()
      ensures store == if Populated(disable, old(store))
        then RemovePoids(old(store), poids, CacheLifetime(backendLifetime, MarkerTime(old(store)), now))
        else old(store)
    {
      ghost var s0 := store;
      ghost var lifetime := CacheLifetime(backendLifetime, MarkerTime(s0), now);
      for i := 0 to |poids|
        invariant Valid()
        invariant MarkerTime(store) == MarkerTime(s0)
        invariant store == if Populated(disable, s0) then RemovePoids(s0, poids[..i], lifetime) else s0
      {
        assert poids[..i + 1][..i] == poids[..i];
        RemovePOIDFromCache(poids[i], now);
        if Populated(disable, s0) {
          RemovePoidEffect(RemovePoids(s0, poids[..i], lifetime), poids[i], lifetime);
        }
      }
      assert poids[..|poids|] == poids;
    }
  }

  /** `newer` is `older` followed by further writes. */
  ghost predicate Extends(older: seq<(Key, Entry)>, newer: seq<(Key, Entry)>) {
    |older| <= |newer| && newer[..|older|] == older
  }

  /** No write from position `from` on touches the marker. */
  ghost predicate NoMarkerFrom(log: seq<(Key, Entry)>, from: int) {
    forall i :: from <= i < |log| && 0 <= i ==> log[i].0 != Marker
  }

  /** The writes a population pass adds to `older`: when it restarts, first the marker set to 0;
      then only list entries; last the marker set to the population time. */
  ghost predicate Bracketed(older: seq<(Key, Entry)>, newer: seq<(Key, Entry)>, restart: bool, populationTime: int, lifetime: int) {
    var start := if restart then |older| + 1 else |older|;
    && Extends(older, newer)
    && start < |newer|
    && (restart ==> newer[|older|] == (Marker, Entry(Stamp(0), {}, lifetime)))
    && newer[|newer| - 1] == (Marker, Entry(Stamp(populationTime), {}, lifetime))
    && forall i :: start <= i < |newer| - 1 ==> newer[i].0 != Marker
  }

  lemma AppendWrite(log0: seq<(Key, Entry)>, before: seq<(Key, Entry)>, after: seq<(Key, Entry)>, w: (Key, Entry))
    requires Extends(log0, before)
    requires after == before || after == before + [w]
    ensures Extends(log0, after)
    ensures w.0 != Marker && NoMarkerFrom(before, |log0|) ==> NoMarkerFrom(after, |log0|)
  {
    assert after[..|before|] == before;
    assert after[..|log0|] == before[..|log0|];
  }

  lemma ConcatWrites(log1: seq<(Key, Entry)>, log2: seq<(Key, Entry)>, log3: seq<(Key, Entry)>)
    requires Extends(log1, log2) && Extends(log2, log3)
    requires NoMarkerFrom(log2, |log1|) && NoMarkerFrom(log3, |log2|)
    ensures Extends(log1, log3) && NoMarkerFrom(log3, |log1|)
  {
    assert log3[..|log1|] == log3[..|log2|][..|log1|];
    forall i | |log1| <= i < |log2| ensures log3[i].0 != Marker {
      assert log3[i] == log3[..|log2|][i];
    }
  }

  lemma BracketLog(log1: seq<(Key, Entry)>, log3: seq<(Key, Entry)>, log4: seq<(Key, Entry)>,
                   populationTime: int, lifetime: int)
    requires Extends(log1, log3) && NoMarkerFrom(log3, |log1|)
    requires log4 == log3 + [(Marker, Entry(Stamp(populationTime), {}, lifetime))]
    ensures Bracketed(log1, log4, false, populationTime, lifetime)
  {
    assert log4[..|log3|] == log3;
    assert log4[..|log1|] == log3[..|log1|];
    forall i | |log1| <= i < |log4| - 1 ensures log4[i].0 != Marker {
      assert log4[i] == log3[i];
    }
  }

  /** A pass that restarts writes the "in progress" marker first, then a bracketed batch. */
  lemma BracketRestart(log0: seq<(Key, Entry)>, log1: seq<(Key, Entry)>, log4: seq<(Key, Entry)>,
                       populationTime: int, lifetime: int)
    requires log1 == log0 + [(Marker, Entry(Stamp(0), {}, lifetime))]
    requires Bracketed(log1, log4, false, populationTime, lifetime)
    ensures Bracketed(log0, log4, true, populationTime, lifetime)
  {
    assert log4[..|log0|] == log4[..|log1|][..|log0|];
    assert log4[|log0|] == log4[..|log1|][|log0|];
  }

  /** The `foreach` of `removePOIDFromCache`: every list of the tagged entries loses the POID,
      each staying under its key. */
  method StripPoid(entries: map<Key, seq<Poid>>, poid: Poid) returns (r: map<Key, seq<Poid>>)
    ensures r.Keys == entries.Keys
    ensures forall k :: k in r ==> r[k] == Without(entries[k], poid)
  {
    r := entries;
    var pending := entries.Keys;
    while pending != {}
      invariant pending <= entries.Keys && r.Keys == entries.Keys
      invariant forall k :: k in r ==> r[k] == if k in pending then entries[k] else Without(entries[k], poid)
      decreases pending
    {
      var uuidKey :| uuidKey in pending;
      r := r[uuidKey := Without(r[uuidKey], poid)];
      pending := pending - {uuidKey};
    }
  }

  lemma RemovePoidValid(s: Store, p: Poid, lifetime: int)
    requires StoreValid(s)
    ensures StoreValid(RemovePoid(s, p, lifetime))
  {
    RemovePoidEffect(s, p, lifetime);
  }

  /** The store `populateCacheByUUIDLists` leaves is the one its writes build up: an optional
      "in progress" marker, then the lists, then the final marker. */
  lemma PopulationResult(s0: Store, s1: Store, identifiers: UuidLists, assets: UuidLists, populationTime: int, lifetime: int)
    requires s1 == s0 || (0 <= lifetime && s1 == s0[Marker := Entry(Stamp(0), {}, lifetime)])
    ensures SetEntry(WriteLists(WriteLists(s1, Keyed(identifiers, Identifier), lifetime), Keyed(assets, Asset), lifetime),
      Marker, Stamp(populationTime), {}, lifetime) == PopulateAll(s0, identifiers, assets, populationTime, lifetime)
  {
    var identifierLists, assetLists := Keyed(identifiers, Identifier), Keyed(assets, Asset);
    var final := Entry(Stamp(populationTime), {}, lifetime);
    if 0 <= lifetime && s1 != s0 {
      var inProgress := Entry(Stamp(0), {}, lifetime);
      var withIdentifiers := WriteLists(s0, identifierLists, lifetime);
      var withAssets := WriteLists(withIdentifiers, assetLists, lifetime);
      WriteListsAfterMarker(s0, identifierLists, lifetime, inProgress);
      WriteListsAfterMarker(withIdentifiers, assetLists, lifetime, inProgress);
      assert WriteLists(WriteLists(s1, identifierLists, lifetime), assetLists, lifetime) == withAssets[Marker := inProgress];
      UpdateTwice(withAssets, Marker, inProgress, final);
    }
  }

  /** Lists written after a marker entry leave it in place. */
  lemma WriteListsAfterMarker(s: Store, m: map<Key, seq<Poid>>, lifetime: int, e: Entry)
    requires forall k :: k in m ==> k.Hashed?
    ensures WriteLists(s[Marker := e], m, lifetime) == WriteLists(s, m, lifetime)[Marker := e]
  {
    if 0 <= lifetime {
      var written := map k | k in m :: EntryFor(m[k], lifetime);
      assert Marker !in written;
      assert s[Marker := e] + written == (s + written)[Marker := e];
    }
  }
}
