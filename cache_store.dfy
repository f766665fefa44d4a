/** The tagged key-value store behind the asset-usage cache, as values: the entry key and tag
    scheme, the population marker, the lifetime rule, and the store each write operation of
    the cache service leaves behind. */
module CacheStore {
  import opened Collections

  /** Persistence object identifier of a content node. */
  type Poid = string
  /** Identifier of an asset or of one of its variants. */
  type Uuid = string

  /** The two ways serialized node properties reference an asset; each has its own key prefix,
      `identifier` and `asset`. */
  datatype Kind = Identifier | Asset

  /** Entry identifiers. `Marker` is the reserved `isPopulated` key; `Hashed(kind, uuid)` stands
      for `sha1(prefix ':' uuid)`, the digest being taken as injective. */
  datatype Key = Marker | Hashed(kind: Kind, uuid: Uuid)

  /** `PoidTag(p)` stands for the tag `sha1('poid:' p)`. */
  datatype Tag = PoidTag(poid: Poid)

  /** What the store holds: the marker's timestamp (0 while a population runs) or a POID list. */
  datatype Value = Stamp(time: int) | Poids(poids: seq<Poid>)

  /** One stored entry: its value, its tags and the lifetime it was written with (0: no expiry). */
  datatype Entry = Entry(value: Value, tags: set<Tag>, lifetime: int)

  type Store = map<Key, Entry>

  /** uuid => list of POIDs referencing it. */
  type UuidLists = map<Uuid, seq<Poid>>

  /** Lifetime used when the backend configures none. */
  const DefaultLifetime := 3600

  /** One tag per POID of the list. */
  function TagsOf(poids: seq<Poid>): (tags: set<Tag>)
    ensures forall p :: PoidTag(p) in tags <==> p in poids
  {
    set p | p in poids :: PoidTag(p)
  }

  /** The entry `populateCache` writes for a POID list. */
  function EntryFor(poids: seq<Poid>, lifetime: int): Entry {
    Entry(Poids(poids), TagsOf(poids), lifetime)
  }

  /** The store invariant every write of the service keeps: the marker holds a timestamp and
      no tags, and every hashed entry holds a POID list tagged with exactly its POIDs. */
  predicate StoreValid(s: Store) {
    forall k :: k in s ==> EntryValid(k, s[k])
  }

  /** What `StoreValid` demands of one entry. */
  predicate EntryValid(k: Key, e: Entry) {
    if k.Marker? then e.value.Stamp? && e.tags == {}
    else e.value.Poids? && e.tags == TagsOf(e.value.poids)
  }

  /** The POID list stored under `k` (`(array)$cache->get($k)`), empty when there is none. */
  function ListAt(s: Store, k: Key): seq<Poid> {
    if k in s && s[k].value.Poids? then s[k].value.poids else []
  }

  /** The marker's value; an absent marker reads as 0 (`get` returns false). */
  function MarkerTime(s: Store): int {
    if Marker in s && s[Marker].value.Stamp? then s[Marker].value.time else 0
  }

  /** `isPopulated()`: caching enabled and a positive population timestamp stored. */
  predicate Populated(disabled: bool, s: Store) {
    !disabled && 0 < MarkerTime(s)
  }

  /** `getBackendConfiguredLifetime()`: the configured default lifetime, 3600 when unset. Only
      a configured 0 means "no expiry"; an unset setting gives a positive lifetime. */
  function BackendConfiguredLifetime(configured: Option<int>): (l: int)
    ensures l == 0 <==> configured == Some(0)
    ensures configured.None? ==> 0 < l
  {
    match configured
    case None => DefaultLifetime
    case Some(l) => l
  }

  /** `getCacheLifetime($populationTime)` at clock reading `now`: 0 (no expiry) when the backend
      lifetime is 0, otherwise what remains of it since `populationTime`, or -1 ("do not write")
      when nothing remains. */
  function CacheLifetime(configured: Option<int>, populationTime: int, now: int): (r: int)
    ensures r == 0 <==> configured == Some(0)
    ensures -1 <= r
    ensures configured != Some(0) ==>
      var remaining := populationTime + BackendConfiguredLifetime(configured) - now;
      (0 < remaining ==> r == remaining) && (remaining <= 0 ==> r == -1)
  {
    var backendLifetime := BackendConfiguredLifetime(configured);
    if backendLifetime == 0 then 0
    else
      var pendingLifetime := populationTime + backendLifetime - now;
      if pendingLifetime <= 0 then -1 else pendingLifetime
  }

  /** The store after `set(k, v, tags, lifetime)`, skipped when the lifetime is negative. */
  function SetEntry(s: Store, k: Key, v: Value, tags: set<Tag>, lifetime: int): Store {
    if lifetime < 0 then s else s[k := Entry(v, tags, lifetime)]
  }

  /** The keys `populateCache($m, $prefix)` writes under: `sha1($prefix . ':' . $uuid)`. */
  function Keyed(m: UuidLists, kind: Kind): (r: map<Key, seq<Poid>>)
    ensures forall k :: k in r <==> k.Hashed? && k.kind == kind && k.uuid in m
    ensures forall u :: u in m ==> r[Hashed(kind, u)] == m[u]
  {
    map u | u in m :: Hashed(kind, u) := m[u]
  }

  /** The store after the `populateCache` loop writes every list of `m` under its own key
      with per-POID tags; nothing is written when the lifetime is negative. */
  function WriteLists(s: Store, m: map<Key, seq<Poid>>, lifetime: int): Store {
    if lifetime < 0 then s else s + map k | k in m :: EntryFor(m[k], lifetime)
  }

  /** The store after `populateCacheByUUIDLists` wrote both maps and then the marker. The
      marker's "in progress" write that may come first is overwritten by the last one. */
  function PopulateAll(s: Store, identifiers: UuidLists, assets: UuidLists, populationTime: int, lifetime: int): Store {
    if lifetime < 0 then s
    else
      WriteLists(WriteLists(s, Keyed(identifiers, Identifier), lifetime), Keyed(assets, Asset), lifetime)
        [Marker := Entry(Stamp(populationTime), {}, lifetime)]
  }

  /** `getByTag($tag)`: every POID-list entry carrying the tag. */
  function ByTag(s: Store, t: Tag): map<Key, seq<Poid>> {
    map k | k in s && t in s[k].tags && s[k].value.Poids? :: s[k].value.poids
  }

  /** The store after `removePOIDFromCache($poid)` on a populated cache: every entry tagged
      with the POID is rewritten without it. */
  function RemovePoid(s: Store, poid: Poid, lifetime: int): Store {
    var tagged := ByTag(s, PoidTag(poid));
    if |tagged| == 0 then s
    else WriteLists(s, map k | k in tagged :: Without(tagged[k], poid), lifetime)
  }

  /** The store after removing each POID of `poids` in turn. */
  function RemovePoids(s: Store, poids: seq<Poid>, lifetime: int): Store
    decreases |poids|
  {
    if poids == [] then s
    else RemovePoid(RemovePoids(s, poids[..|poids| - 1], lifetime), poids[|poids| - 1], lifetime)
  }

  /** `readUUIDListsFromCache` on one map: for every searched uuid with an entry of this kind,
      the map's list becomes `array_values(array_unique(array_merge(old, cached)))`. */
  function ReadInto(m: UuidLists, ids: seq<Uuid>, kind: Kind, s: Store): UuidLists {
    map u | u in m.Keys + (set v | v in ids && Hashed(kind, v) in s) ::
      if u in ids && Hashed(kind, u) in s then Dedup(Get(m, u) + ListAt(s, Hashed(kind, u))) else m[u]
  }

  // ---------------------------------------------------------------------------------------
  // Lemmas

  /** The tag index is exact on a valid store: an entry carries `poid:p` iff its list holds p. */
  lemma ByTagExact(s: Store, p: Poid)
    requires StoreValid(s)
    ensures forall k :: k in ByTag(s, PoidTag(p)) <==> k in s && k.Hashed? && p in ListAt(s, k)
    ensures forall k :: k in ByTag(s, PoidTag(p)) ==> ByTag(s, PoidTag(p))[k] == ListAt(s, k)
  {
    forall k | k in s && k.Hashed? ensures PoidTag(p) in s[k].tags <==> p in ListAt(s, k) {
      assert s[k].tags == TagsOf(s[k].value.poids);
    }
  }

  /** Writing POID lists, seen at one key. */
  lemma WriteListsAt(s: Store, m: map<Key, seq<Poid>>, lifetime: int, k: Key)
    ensures k in WriteLists(s, m, lifetime) <==> k in s || (0 <= lifetime && k in m)
    ensures k in WriteLists(s, m, lifetime) ==>
      WriteLists(s, m, lifetime)[k] == if 0 <= lifetime && k in m then EntryFor(m[k], lifetime) else s[k]
  {
  }

  /** Writing one more list, as `setCacheEntry` does inside the `populateCache` loop, is writing
      the map extended by that list. */
  lemma WriteListsStep(s: Store, m: map<Key, seq<Poid>>, k: Key, poids: seq<Poid>, lifetime: int)
    ensures SetEntry(WriteLists(s, m, lifetime), k, Poids(poids), TagsOf(poids), lifetime)
      == WriteLists(s, m[k := poids], lifetime)
  {
    if 0 <= lifetime {
      var lhs := SetEntry(WriteLists(s, m, lifetime), k, Poids(poids), TagsOf(poids), lifetime);
      var rhs := WriteLists(s, m[k := poids], lifetime);
      forall j ensures (j in lhs <==> j in rhs) && (j in lhs ==> lhs[j] == rhs[j]) {
        WriteListsAt(s, m, lifetime, j);
        WriteListsAt(s, m[k := poids], lifetime, j);
      }
      assert lhs == rhs;
    }
  }

  /** Writing POID lists under hashed keys keeps the store valid. */
  lemma WriteListsValid(s: Store, m: map<Key, seq<Poid>>, lifetime: int)
    requires StoreValid(s)
    requires Marker !in m
    ensures StoreValid(WriteLists(s, m, lifetime))
  {
    forall k | k in WriteLists(s, m, lifetime) {
      WriteListsAt(s, m, lifetime, k);
    }
  }

  /** A population pass, seen at one key: the marker holds the population time, the hashed keys
      of both maps hold their lists with per-POID tags, every other entry is left alone; with a
      negative lifetime nothing is written. */
  lemma PopulateAllAt(s: Store, identifiers: UuidLists, assets: UuidLists, populationTime: int, lifetime: int, k: Key)
    ensures var r := PopulateAll(s, identifiers, assets, populationTime, lifetime);
      && (lifetime < 0 ==> r == s)
      && (0 <= lifetime && k == Marker ==> k in r && r[k] == Entry(Stamp(populationTime), {}, lifetime))
      && (0 <= lifetime && k.Hashed? && k.uuid in (if k.kind == Identifier then identifiers else assets) ==>
            k in r && r[k] == EntryFor((if k.kind == Identifier then identifiers else assets)[k.uuid], lifetime))
      && (k.Hashed? && k.uuid !in (if k.kind == Identifier then identifiers else assets) ==>
            (k in r <==> k in s) && (k in s ==> r[k] == s[k]))
  {
    if 0 <= lifetime && k.Hashed? {
      var identifierLists, assetLists := Keyed(identifiers, Identifier), Keyed(assets, Asset);
      var s1 := WriteLists(s, identifierLists, lifetime);
      WriteListsAt(s, identifierLists, lifetime, k);
      WriteListsAt(s1, assetLists, lifetime, k);
      if k.kind == Identifier {
        assert k !in assetLists;
        assert k in identifierLists <==> k.uuid in identifiers;
      } else {
        assert k !in identifierLists;
        assert k in assetLists <==> k.uuid in assets;
      }
    }
  }

  /** The marker of a valid store holds no POID list. */
  lemma MarkerListEmpty(s: Store)
    requires StoreValid(s)
    ensures ListAt(s, Marker) == []
  {
    assert Marker in s ==> EntryValid(Marker, s[Marker]);
  }

  /** A population pass keeps the store valid. */
  lemma PopulateAllValid(s: Store, identifiers: UuidLists, assets: UuidLists, populationTime: int, lifetime: int)
    requires StoreValid(s)
    ensures StoreValid(PopulateAll(s, identifiers, assets, populationTime, lifetime))
    ensures 0 <= lifetime ==> MarkerTime(PopulateAll(s, identifiers, assets, populationTime, lifetime)) == populationTime
  {
    forall k | k in PopulateAll(s, identifiers, assets, populationTime, lifetime) {
      PopulateAllAt(s, identifiers, assets, populationTime, lifetime, k);
    }
    PopulateAllAt(s, identifiers, assets, populationTime, lifetime, Marker);
  }

  /** `removePOIDFromCache` writes back exactly the stripped tagged entries. */
  lemma RemovePoidUnfold(s: Store, p: Poid, lifetime: int, stripped: map<Key, seq<Poid>>)
    requires stripped.Keys == ByTag(s, PoidTag(p)).Keys
    requires forall k :: k in stripped ==> stripped[k] == Without(ByTag(s, PoidTag(p))[k], p)
    ensures RemovePoid(s, p, lifetime) == if |ByTag(s, PoidTag(p))| == 0 then s else WriteLists(s, stripped, lifetime)
  {
    var tagged := ByTag(s, PoidTag(p));
    MapsAgree(stripped, map k | k in tagged :: Without(tagged[k], p));
  }

  /** Invalidation, seen at one key: the entry is rewritten without the POID iff its list holds
      it (and the lifetime is non-negative), otherwise it is left as it was. */
  lemma RemovePoidAt(s: Store, p: Poid, lifetime: int, k: Key)
    requires StoreValid(s)
    ensures var r := RemovePoid(s, p, lifetime);
      && (k in r <==> k in s)
      && (k in s ==> r[k] == if 0 <= lifetime && p in ListAt(s, k) then EntryFor(Without(ListAt(s, k), p), lifetime) else s[k])
  {
    ByTagExact(s, p);
    var tagged := ByTag(s, PoidTag(p));
    if |tagged| != 0 {
      var m := map k | k in tagged :: Without(tagged[k], p);
      WriteListsAt(s, m, lifetime, k);
    }
  }

  /** Invalidation: on a valid store, removing a POID keeps the store valid and the marker,
      and with a non-negative lifetime leaves no list holding the POID while every other POID
      stays in its list, in order; nothing is ever added. */
  lemma RemovePoidEffect(s: Store, p: Poid, lifetime: int)
    requires StoreValid(s)
    ensures StoreValid(RemovePoid(s, p, lifetime))
    ensures RemovePoid(s, p, lifetime).Keys == s.Keys
    ensures MarkerTime(RemovePoid(s, p, lifetime)) == MarkerTime(s)
    ensures forall k ::
      ListAt(RemovePoid(s, p, lifetime), k) == (if 0 <= lifetime && p in ListAt(s, k) then Without(ListAt(s, k), p) else ListAt(s, k))
    ensures 0 <= lifetime ==> forall k :: p !in ListAt(RemovePoid(s, p, lifetime), k)
  {
    var r := RemovePoid(s, p, lifetime);
    forall k ensures (k in r <==> k in s) && (k in r ==> EntryValid(k, r[k])) && ListAt(r, k) ==
      (if 0 <= lifetime && p in ListAt(s, k) then Without(ListAt(s, k), p) else ListAt(s, k))
    {
      RemovePoidAt(s, p, lifetime, k);
    }
    assert r.Keys == s.Keys;
    RemovePoidAt(s, p, lifetime, Marker);
  }

  /** Removing a POID that no entry holds leaves the store as it is. */
  lemma RemoveAbsentPoid(s: Store, p: Poid, lifetime: int)
    requires StoreValid(s)
    requires forall k :: p !in ListAt(s, k)
    ensures RemovePoid(s, p, lifetime) == s
  {
    ByTagExact(s, p);
    assert ByTag(s, PoidTag(p)) == map[];
  }

  /** `flushByPOIDs`: after removing a list of POIDs with a non-negative lifetime none of them
      is left in any list; no other POID is lost, the marker is kept and the store stays valid. */
  lemma {:induction false} RemovePoidsEffect(s: Store, poids: seq<Poid>, lifetime: int)
    requires StoreValid(s)
    ensures var r := RemovePoids(s, poids, lifetime);
      && StoreValid(r)
      && r.Keys == s.Keys
      && MarkerTime(r) == MarkerTime(s)
      && (forall k, q :: q in ListAt(r, k) ==> q in ListAt(s, k))
      && (0 <= lifetime ==> forall k, q :: q in poids ==> q !in ListAt(r, k))
      && (0 <= lifetime ==> forall k, q :: q in ListAt(s, k) && q !in poids ==> q in ListAt(r, k))
    decreases |poids|
  {
    if poids != [] {
      var init := poids[..|poids| - 1];
      var last := poids[|poids| - 1];
      RemovePoidsEffect(s, init, lifetime);
      var mid := RemovePoids(s, init, lifetime);
      RemovePoidEffect(mid, last, lifetime);
      assert forall q :: q in poids <==> q in init || q == last;
    }
  }

  /** Reading from the cache only merges: for each searched uuid with an entry, a duplicate-free
      old list is kept in order and followed by the cached POIDs not yet in it; the result holds
      exactly the old and the cached POIDs, without duplicates; every other uuid is untouched. */
  lemma ReadIntoMerges(m: UuidLists, ids: seq<Uuid>, kind: Kind, s: Store)
    ensures forall u :: u in ids && Hashed(kind, u) in s ==>
      u in ReadInto(m, ids, kind, s) && NoDup(ReadInto(m, ids, kind, s)[u]) &&
      (forall q :: q in ReadInto(m, ids, kind, s)[u] <==> q in Get(m, u) || q in ListAt(s, Hashed(kind, u)))
    ensures forall u :: u in ids && Hashed(kind, u) in s && NoDup(Get(m, u)) ==>
      ReadInto(m, ids, kind, s)[u] == AppendNew(Get(m, u), ListAt(s, Hashed(kind, u)))
    ensures forall u :: !(u in ids && Hashed(kind, u) in s) ==> Get(ReadInto(m, ids, kind, s), u) == Get(m, u)
  {
    var r := ReadInto(m, ids, kind, s);
    forall u | u in ids && Hashed(kind, u) in s
      ensures u in r && NoDup(r[u]) && (forall q :: q in r[u] <==> q in Get(m, u) || q in ListAt(s, Hashed(kind, u)))
      ensures NoDup(Get(m, u)) ==> r[u] == AppendNew(Get(m, u), ListAt(s, Hashed(kind, u)))
    {
      AppendNewSpec([], Get(m, u) + ListAt(s, Hashed(kind, u)));
      if NoDup(Get(m, u)) {
        MergeKeepsOld(Get(m, u), ListAt(s, Hashed(kind, u)));
      }
    }
  }

  /** Reading from the cache, seen at one uuid. */
  lemma ReadIntoAt(m: UuidLists, ids: seq<Uuid>, kind: Kind, s: Store, v: Uuid)
    ensures v in ReadInto(m, ids, kind, s) <==> v in m || (v in ids && Hashed(kind, v) in s)
    ensures Get(ReadInto(m, ids, kind, s), v) ==
      if v in ids && Hashed(kind, v) in s then Dedup(Get(m, v) + ListAt(s, Hashed(kind, v))) else Get(m, v)
  {
  }

  /** One more searched uuid extends the read by one merge; merging a uuid twice is merging once. */
  lemma ReadIntoStep(m: UuidLists, ids: seq<Uuid>, u: Uuid, kind: Kind, s: Store)
    ensures ReadInto(m, ids + [u], kind, s) ==
      var cur := ReadInto(m, ids, kind, s);
      if Hashed(kind, u) in s then cur[u := Dedup(Get(cur, u) + ListAt(s, Hashed(kind, u)))] else cur
  {
    var cur := ReadInto(m, ids, kind, s);
    var lhs := ReadInto(m, ids + [u], kind, s);
    var rhs := if Hashed(kind, u) in s then cur[u := Dedup(Get(cur, u) + ListAt(s, Hashed(kind, u)))] else cur;
    forall v ensures (v in lhs <==> v in rhs) && Get(lhs, v) == Get(rhs, v) {
      ReadIntoStepAt(m, ids, u, kind, s, v);
    }
    assert lhs.Keys == rhs.Keys;
    forall v | v in lhs ensures lhs[v] == rhs[v] {
      assert Get(lhs, v) == Get(rhs, v);
    }
  }

  /** `ReadIntoStep`, seen at one uuid. */
  lemma ReadIntoStepAt(m: UuidLists, ids: seq<Uuid>, u: Uuid, kind: Kind, s: Store, v: Uuid)
    ensures var cur := ReadInto(m, ids, kind, s);
      var lhs := ReadInto(m, ids + [u], kind, s);
      var rhs := if Hashed(kind, u) in s then cur[u := Dedup(Get(cur, u) + ListAt(s, Hashed(kind, u)))] else cur;
      (v in lhs <==> v in rhs) && Get(lhs, v) == Get(rhs, v)
  {
    assert v in ids + [u] <==> v in ids || v == u;
    ReadIntoAt(m, ids + [u], kind, s, v);
    ReadIntoAt(m, ids, kind, s, v);
    if v == u && u in ids && Hashed(kind, u) in s {
      MergeTwice(Get(m, u), ListAt(s, Hashed(kind, u)));
    }
  }
}
