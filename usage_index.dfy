/** The pure side of the usage service: finding asset references in serialized node
    properties, indexing nodes by the uuids they reference, merging the per-uuid POID lists
    into one answer, and the pre-filter applied to changed nodes. */
module UsageIndex {
  import opened Collections
  import opened CacheStore

  // ---------------------------------------------------------------------------------------
  // Reference extraction

  /** Literal text before the uuid in each reference pattern of `updateNodesLists`:
      `"__identifier": "` for `Identifier`, and for `Asset` the JSON-escaped `asset:\/\/`. */
  function Prefix(kind: Kind): string {
    match kind
    case Identifier => "\"__identifier\": \""
    case Asset => "asset:\\/\\/"
  }

  /** 8-4-4-4-12 hex digits with dashes. */
  const UuidLength := 36

  /** Characters one match consumes: the prefix, the uuid and the closing quote. */
  function MatchLength(kind: Kind): nat {
    |Prefix(kind)| + UuidLength + 1
  }

  /** `[0-9a-f]` under the `i` flag. */
  predicate IsHexDigit(c: char) {
    '0' <= c <= '9' || 'a' <= c <= 'f' || 'A' <= c <= 'F'
  }

  /** The capture group `[0-9a-f]{8}-[0-9a-f]{4}-[0-9a-f]{4}-[0-9a-f]{4}-[0-9a-f]{12}`. */
  predicate IsUuid(u: string) {
    |u| == UuidLength && UuidShapedFrom(u, 0)
  }

  /** From position `k` on, `u` has a dash at 8, 13, 18 and 23 and a hex digit elsewhere. */
  predicate UuidShapedFrom(u: string, k: nat)
    decreases |u| - k
  {
    k >= |u| ||
    ((if k == 8 || k == 13 || k == 18 || k == 23 then u[k] == '-' else IsHexDigit(u[k])) && UuidShapedFrom(u, k + 1))
  }

  /** Pattern character `p` matches `c` under the `i` flag (the patterns hold no upper case). */
  predicate SameLetterCI(c: char, p: char) {
    c == p || ('a' <= p <= 'z' && c as int == p as int - 32)
  }

  /** `t` matches the literal `p` case-insensitively. */
  predicate MatchesCI(t: string, p: string)
    decreases |t|
  {
    |t| == |p| && (|t| == 0 || (SameLetterCI(t[0], p[0]) && MatchesCI(t[1..], p[1..])))
  }

  /** Every literal matches itself. */
  lemma {:induction false} MatchesCISelf(p: string)
    ensures MatchesCI(p, p)
    decreases |p|
  {
    if p != [] {
      MatchesCISelf(p[1..]);
    }
  }

  /** The pattern of `kind` matches at the start of `s`. */
  predicate MatchesAtStart(s: string, kind: Kind) {
    var n := |Prefix(kind)|;
    && MatchLength(kind) <= |s|
    && MatchesCI(s[..n], Prefix(kind))
    && IsUuid(s[n..n + UuidLength])
    && s[n + UuidLength] == '"'
  }

  /** The uuid a match at the start of `s` captures. */
  function Captured(s: string, kind: Kind): string
    requires MatchLength(kind) <= |s|
  {
    s[|Prefix(kind)|..|Prefix(kind)| + UuidLength]
  }

  /** `preg_match_all` on `s`: leftmost matches, each search resuming after the previous
      match, capture group 1 of each. */
  function Scan(s: string, kind: Kind): seq<Uuid>
    decreases |s|
  {
    if |s| < MatchLength(kind) then []
    else if MatchesAtStart(s, kind) then [Captured(s, kind)] + Scan(s[MatchLength(kind)..], kind)
    else Scan(s[1..], kind)
  }

  /** `$matches[1]` of `preg_match_all` with the pattern of `kind` on `properties`. */
  function ExtractUuids(kind: Kind, properties: string): (r: seq<Uuid>)
    ensures |properties| < MatchLength(kind) ==> r == []
  {
    Scan(properties, kind)
  }

  /** The scan resumes after each match, so matches do not overlap: `n` matches take at least
      `n` full match lengths of text. */
  lemma {:induction false} ScanBound(s: string, kind: Kind)
    ensures |Scan(s, kind)| * MatchLength(kind) <= |s|
    decreases |s|
  {
    if |s| < MatchLength(kind) {
    } else if MatchesAtStart(s, kind) {
      ScanBound(s[MatchLength(kind)..], kind);
    } else {
      ScanBound(s[1..], kind);
    }
  }

  /** A reference as `json_encode` writes it: prefix, uuid, closing quote. */
  function Reference(kind: Kind, u: Uuid): string {
    Prefix(kind) + u + "\""
  }

  /** Every extracted uuid is captured by a match at some position of the text, and so is
      uuid-shaped. */
  lemma {:induction false} ScanSound(s: string, kind: Kind)
    ensures forall u :: u in Scan(s, kind) ==>
      IsUuid(u) && exists j: nat :: j + MatchLength(kind) <= |s| && MatchesAtStart(s[j..], kind) && Captured(s[j..], kind) == u
    decreases |s|, 1
  {
    var ml := MatchLength(kind);
    if ml <= |s| {
      if MatchesAtStart(s, kind) {
        assert Scan(s, kind) == [Captured(s, kind)] + Scan(s[ml..], kind);
        ScanSoundAfter(s, kind, ml);
        assert s[0..] == s;
      } else {
        assert Scan(s, kind) == Scan(s[1..], kind);
        ScanSoundAfter(s, kind, 1);
      }
    }
  }

  /** What the scan finds after skipping `k` characters lies in `s`, `k` characters further on. */
  lemma {:induction false} ScanSoundAfter(s: string, kind: Kind, k: nat)
    requires 0 < k <= |s|
    ensures forall u :: u in Scan(s[k..], kind) ==>
      IsUuid(u) && exists j: nat :: j + MatchLength(kind) <= |s| && MatchesAtStart(s[j..], kind) && Captured(s[j..], kind) == u
    decreases |s|, 0
  {
    var rest := s[k..];
    ScanSound(rest, kind);
    forall u | u in Scan(rest, kind)
      ensures exists j: nat :: j + MatchLength(kind) <= |s| && MatchesAtStart(s[j..], kind) && Captured(s[j..], kind) == u
    {
      var j: nat :| j + MatchLength(kind) <= |rest| && MatchesAtStart(rest[j..], kind) && Captured(rest[j..], kind) == u;
      assert rest[j..] == s[k + j..];
    }
  }

  /** A reference as written is a match at the start of the text that holds it, capturing its
      uuid. */
  lemma ReferenceMatches(kind: Kind, u: Uuid, rest: string)
    requires IsUuid(u)
    ensures var s := Reference(kind, u) + rest;
      MatchesAtStart(s, kind) && Captured(s, kind) == u && s[MatchLength(kind)..] == rest
  {
    var s := Reference(kind, u) + rest;
    var n := |Prefix(kind)|;
    assert s[..n] == Prefix(kind);
    MatchesCISelf(Prefix(kind));
    assert s[n..n + UuidLength] == u;
  }

  /** A reference at the start of the properties is extracted first, then the scan goes on
      after it. */
  lemma ExtractReference(kind: Kind, u: Uuid, rest: string)
    requires IsUuid(u)
    ensures ExtractUuids(kind, Reference(kind, u) + rest) == [u] + ExtractUuids(kind, rest)
  {
    ReferenceMatches(kind, u, rest);
  }

  // ---------------------------------------------------------------------------------------
  // Per-uuid POID lists

  /** The lists after `$uuidFinder` records `poid` under each of `uuids`: a list is created
      when missing and gets `poid` appended unless it holds it already. */
  function AddPoid(m: UuidLists, uuids: seq<Uuid>, poid: Poid): UuidLists {
    map u | u in m.Keys + (set v | v in uuids) :: if u in uuids then AppendNew(Get(m, u), [poid]) else m[u]
  }

  /** `AddPoid`, seen at one uuid. */
  lemma AddPoidAt(m: UuidLists, uuids: seq<Uuid>, poid: Poid, u: Uuid)
    ensures u in AddPoid(m, uuids, poid) <==> u in m || u in uuids
    ensures u !in uuids ==> Get(AddPoid(m, uuids, poid), u) == Get(m, u)
    ensures var old_ := Get(m, u); var new_ := Get(AddPoid(m, uuids, poid), u);
      && |old_| <= |new_| && new_[..|old_|] == old_
      && (forall q :: q in new_ <==> q in old_ || (q == poid && u in uuids))
      && (NoDup(old_) ==> NoDup(new_))
  {
    AppendNewSpec(Get(m, u), [poid]);
  }

  /** Recording into empty maps gives each matched uuid the one-element list of the POID. */
  lemma AddPoidFresh(uuids: seq<Uuid>, poid: Poid, u: Uuid)
    ensures u in AddPoid(map[], uuids, poid) <==> u in uuids
    ensures Get(AddPoid(map[], uuids, poid), u) == if u in uuids then [poid] else []
  {
    DedupSingle(poid);
  }

  /** `AddPoid` only extends: every old list stays a prefix of its new list, the POID is added
      under exactly the matched uuids, nothing else is added, no duplicate is created, and the
      lists of other uuids are untouched. */
  lemma AddPoidExtends(m: UuidLists, uuids: seq<Uuid>, poid: Poid)
    ensures forall u :: u in AddPoid(m, uuids, poid) <==> u in m || u in uuids
    ensures forall u :: u !in uuids ==> Get(AddPoid(m, uuids, poid), u) == Get(m, u)
    ensures forall u :: var old_ := Get(m, u); var new_ := Get(AddPoid(m, uuids, poid), u);
      && |old_| <= |new_| && new_[..|old_|] == old_
      && (forall q :: q in new_ <==> q in old_ || (q == poid && u in uuids))
      && (NoDup(old_) ==> NoDup(new_))
  {
    forall u ensures var old_ := Get(m, u); var new_ := Get(AddPoid(m, uuids, poid), u);
      && (u in AddPoid(m, uuids, poid) <==> u in m || u in uuids)
      && |old_| <= |new_| && new_[..|old_|] == old_
      && (forall q :: q in new_ <==> q in old_ || (q == poid && u in uuids))
      && (NoDup(old_) ==> NoDup(new_))
    {
      AddPoidAt(m, uuids, poid, u);
    }
  }

  /** Recording a POID twice is recording it once. */
  lemma AppendOnceMore(l: seq<Poid>, poid: Poid)
    ensures AppendNew(AppendNew(l, [poid]), [poid]) == AppendNew(l, [poid])
  {
    AppendNewSpec(l, [poid]);
    AppendNewAbsorbs(AppendNew(l, [poid]), [poid]);
  }

  /** One more matched uuid is one more guarded append. */
  lemma AddPoidStep(m: UuidLists, uuids: seq<Uuid>, u: Uuid, poid: Poid)
    ensures AddPoid(m, uuids + [u], poid) ==
      var cur := AddPoid(m, uuids, poid);
      cur[u := AppendNew(Get(cur, u), [poid])]
  {
    var cur := AddPoid(m, uuids, poid);
    var lhs := AddPoid(m, uuids + [u], poid);
    var rhs := cur[u := AppendNew(Get(cur, u), [poid])];
    forall v ensures (v in lhs <==> v in rhs) && (v in lhs ==> lhs[v] == rhs[v]) {
      assert v in uuids + [u] <==> v in uuids || v == u;
      if v == u && u in uuids {
        AppendOnceMore(Get(m, u), poid);
      }
    }
    assert lhs == rhs;
  }

  /** Recording the same matches again changes nothing. */
  lemma AddPoidIdempotent(m: UuidLists, uuids: seq<Uuid>, poid: Poid)
    ensures AddPoid(AddPoid(m, uuids, poid), uuids, poid) == AddPoid(m, uuids, poid)
  {
    var once := AddPoid(m, uuids, poid);
    var twice := AddPoid(once, uuids, poid);
    forall v | v in uuids ensures twice[v] == once[v] {
      AppendOnceMore(Get(m, v), poid);
    }
    assert twice == once;
  }

  /** `updateNodesLists($poid, $properties, ..)`: the identifier pattern feeds the first map,
      the asset pattern the second. */
  function NodeLists(identifiersToNodes: UuidLists, assetsToNodes: UuidLists, poid: Poid, properties: string): (UuidLists, UuidLists) {
    (AddPoid(identifiersToNodes, ExtractUuids(Identifier, properties), poid),
     AddPoid(assetsToNodes, ExtractUuids(Asset, properties), poid))
  }

  /** The map of one kind in a pair of lists. */
  function OfKind(lists: (UuidLists, UuidLists), kind: Kind): UuidLists {
    if kind == Identifier then lists.0 else lists.1
  }

  /** `updateNodesLists` is idempotent. */
  lemma NodeListsIdempotent(identifiersToNodes: UuidLists, assetsToNodes: UuidLists, poid: Poid, properties: string)
    ensures var once := NodeLists(identifiersToNodes, assetsToNodes, poid, properties);
      NodeLists(once.0, once.1, poid, properties) == once
  {
    AddPoidIdempotent(identifiersToNodes, ExtractUuids(Identifier, properties), poid);
    AddPoidIdempotent(assetsToNodes, ExtractUuids(Asset, properties), poid);
  }

  /** The maps the full scan of `getRelatedPOIDs` builds from the rows of
      `queryAssetAndIdentifiers`, one `updateNodesLists` per row, in row order. */
  function IndexNodes(nodes: seq<(Poid, string)>): (UuidLists, UuidLists)
    decreases |nodes|
  {
    if nodes == [] then (map[], map[])
    else
      var prev := IndexNodes(nodes[..|nodes| - 1]);
      var last := nodes[|nodes| - 1];
      NodeLists(prev.0, prev.1, last.0, last.1)
  }

  /** Some row references `u` through the pattern of `kind`. */
  ghost predicate Referenced(nodes: seq<(Poid, string)>, kind: Kind, u: Uuid) {
    exists i :: 0 <= i < |nodes| && u in ExtractUuids(kind, nodes[i].1)
  }

  /** Some row with POID `q` references `u` through the pattern of `kind`. */
  ghost predicate ReferencedBy(nodes: seq<(Poid, string)>, kind: Kind, u: Uuid, q: Poid) {
    exists i :: 0 <= i < |nodes| && nodes[i].0 == q && u in ExtractUuids(kind, nodes[i].1)
  }

  /** The index after one more row: that row's matches are recorded on top of the rest. */
  lemma IndexNodesStep(nodes: seq<(Poid, string)>, kind: Kind)
    requires nodes != []
    ensures var last := nodes[|nodes| - 1];
      OfKind(IndexNodes(nodes), kind) ==
        AddPoid(OfKind(IndexNodes(nodes[..|nodes| - 1]), kind), ExtractUuids(kind, last.1), last.0)
  {
    var prev := IndexNodes(nodes[..|nodes| - 1]);
    var last := nodes[|nodes| - 1];
    var next := NodeLists(prev.0, prev.1, last.0, last.1);
    assert IndexNodes(nodes) == next;
    assert OfKind(next, kind) == AddPoid(OfKind(prev, kind), ExtractUuids(kind, last.1), last.0);
  }

  /** Some row references `u`: one of the earlier rows or the last one. */
  lemma ReferencedStep(nodes: seq<(Poid, string)>, kind: Kind, u: Uuid)
    requires nodes != []
    ensures Referenced(nodes, kind, u) <==>
      Referenced(nodes[..|nodes| - 1], kind, u) || u in ExtractUuids(kind, nodes[|nodes| - 1].1)
  {
    var init := nodes[..|nodes| - 1];
    if Referenced(nodes, kind, u) {
      var i :| 0 <= i < |nodes| && u in ExtractUuids(kind, nodes[i].1);
      if i < |init| {
        assert init[i] == nodes[i];
      }
    }
    if Referenced(init, kind, u) {
      var i :| 0 <= i < |init| && u in ExtractUuids(kind, init[i].1);
      assert init[i] == nodes[i];
    }
  }

  /** Some row with POID `q` references `u`: one of the earlier rows or the last one. */
  lemma ReferencedByStep(nodes: seq<(Poid, string)>, kind: Kind, u: Uuid, q: Poid)
    requires nodes != []
    ensures ReferencedBy(nodes, kind, u, q) <==>
      ReferencedBy(nodes[..|nodes| - 1], kind, u, q) || (q == nodes[|nodes| - 1].0 && u in ExtractUuids(kind, nodes[|nodes| - 1].1))
  {
    var init := nodes[..|nodes| - 1];
    if ReferencedBy(nodes, kind, u, q) {
      var i :| 0 <= i < |nodes| && nodes[i].0 == q && u in ExtractUuids(kind, nodes[i].1);
      if i < |init| {
        assert init[i] == nodes[i];
      }
    }
    if ReferencedBy(init, kind, u, q) {
      var i :| 0 <= i < |init| && init[i].0 == q && u in ExtractUuids(kind, init[i].1);
      assert init[i] == nodes[i];
    }
  }

  /** The node index, seen at one uuid. */
  lemma {:induction false} IndexNodesAt(nodes: seq<(Poid, string)>, kind: Kind, u: Uuid)
    ensures u in OfKind(IndexNodes(nodes), kind) <==> Referenced(nodes, kind, u)
    ensures forall q :: q in Get(OfKind(IndexNodes(nodes), kind), u) <==> ReferencedBy(nodes, kind, u, q)
    ensures NoDup(Get(OfKind(IndexNodes(nodes), kind), u))
    decreases |nodes|
  {
    if nodes != [] {
      var init := nodes[..|nodes| - 1];
      var last := nodes[|nodes| - 1];
      IndexNodesAt(init, kind, u);
      var prev := OfKind(IndexNodes(init), kind);
      AddPoidAt(prev, ExtractUuids(kind, last.1), last.0, u);
      IndexNodesStep(nodes, kind);
      forall q ensures ReferencedBy(nodes, kind, u, q) <==>
        ReferencedBy(init, kind, u, q) || (q == last.0 && u in ExtractUuids(kind, last.1))
      {
        ReferencedByStep(nodes, kind, u, q);
      }
      ReferencedStep(nodes, kind, u);
    } else {
      assert IndexNodes(nodes) == (map[], map[]);
    }
  }

  /** The node index is exact: a uuid has a list iff some row references it, the list holds
      exactly the POIDs of the rows referencing it, and holds each only once. */
  lemma IndexNodesExact(nodes: seq<(Poid, string)>, kind: Kind)
    ensures forall u :: u in OfKind(IndexNodes(nodes), kind) <==> Referenced(nodes, kind, u)
    ensures forall u, q :: q in Get(OfKind(IndexNodes(nodes), kind), u) <==> ReferencedBy(nodes, kind, u, q)
    ensures forall u :: NoDup(Get(OfKind(IndexNodes(nodes), kind), u))
  {
    forall u ensures (u in OfKind(IndexNodes(nodes), kind) <==> Referenced(nodes, kind, u))
      && (forall q :: q in Get(OfKind(IndexNodes(nodes), kind), u) <==> ReferencedBy(nodes, kind, u, q))
      && NoDup(Get(OfKind(IndexNodes(nodes), kind), u))
    {
      IndexNodesAt(nodes, kind, u);
    }
  }

  // ---------------------------------------------------------------------------------------
  // Merging the lists of the searched uuids

  /** Every POID `getPOIDsByAssetIdentifiers` looks at, in the order it looks at them: for each
      searched uuid, the list of its second argument, then the list of its third. */
  function Candidates(identifiers: seq<Uuid>, assetsList: UuidLists, identifiersList: UuidLists): seq<Poid>
    decreases |identifiers|
  {
    if identifiers == [] then []
    else
      var last := identifiers[|identifiers| - 1];
      Candidates(identifiers[..|identifiers| - 1], assetsList, identifiersList) + Get(assetsList, last) + Get(identifiersList, last)
  }

  /** The answer of `getPOIDsByAssetIdentifiers`: every candidate once, at its first occurrence. */
  function Collect(identifiers: seq<Uuid>, assetsList: UuidLists, identifiersList: UuidLists): seq<Poid> {
    Dedup(Candidates(identifiers, assetsList, identifiersList))
  }

  /** A POID is a candidate iff it is listed, in either map, under a searched uuid. */
  lemma {:induction false} CandidatesAt(identifiers: seq<Uuid>, assetsList: UuidLists, identifiersList: UuidLists, q: Poid)
    ensures q in Candidates(identifiers, assetsList, identifiersList) <==>
      exists i :: 0 <= i < |identifiers| && (q in Get(assetsList, identifiers[i]) || q in Get(identifiersList, identifiers[i]))
    decreases |identifiers|
  {
    if identifiers != [] {
      var init := identifiers[..|identifiers| - 1];
      var last := identifiers[|identifiers| - 1];
      CandidatesAt(init, assetsList, identifiersList, q);
      var before := Candidates(init, assetsList, identifiersList);
      assert Candidates(identifiers, assetsList, identifiersList) == before + Get(assetsList, last) + Get(identifiersList, last);
      assert q in before + Get(assetsList, last) + Get(identifiersList, last) <==>
        q in before || q in Get(assetsList, last) || q in Get(identifiersList, last);
      if exists i :: 0 <= i < |identifiers| && (q in Get(assetsList, identifiers[i]) || q in Get(identifiersList, identifiers[i])) {
        var i :| 0 <= i < |identifiers| && (q in Get(assetsList, identifiers[i]) || q in Get(identifiersList, identifiers[i]));
        if i < |init| {
          assert init[i] == identifiers[i];
        }
      }
      if exists i :: 0 <= i < |init| && (q in Get(assetsList, init[i]) || q in Get(identifiersList, init[i])) {
        var i :| 0 <= i < |init| && (q in Get(assetsList, init[i]) || q in Get(identifiersList, init[i]));
        assert init[i] == identifiers[i];
      }
    }
  }

  /** The candidates are exactly the POIDs listed, in either map, under a searched uuid. */
  lemma CandidatesMembers(identifiers: seq<Uuid>, assetsList: UuidLists, identifiersList: UuidLists)
    ensures forall q :: q in Candidates(identifiers, assetsList, identifiersList) <==>
      exists i :: 0 <= i < |identifiers| && (q in Get(assetsList, identifiers[i]) || q in Get(identifiersList, identifiers[i]))
  {
    forall q
      ensures q in Candidates(identifiers, assetsList, identifiersList) <==>
        exists i :: 0 <= i < |identifiers| && (q in Get(assetsList, identifiers[i]) || q in Get(identifiersList, identifiers[i]))
    {
      CandidatesAt(identifiers, assetsList, identifiersList, q);
    }
  }

  /** Union correctness: the answer has no duplicates, holds exactly the POIDs listed under a
      searched uuid in either map, and lists them in the order they are first seen. */
  lemma CollectMeaning(identifiers: seq<Uuid>, assetsList: UuidLists, identifiersList: UuidLists)
    ensures var r := Collect(identifiers, assetsList, identifiersList);
      && NoDup(r)
      && (forall q :: q in r <==>
           exists i :: 0 <= i < |identifiers| && (q in Get(assetsList, identifiers[i]) || q in Get(identifiersList, identifiers[i])))
      && (forall i, j :: 0 <= i < j < |r| ==>
           var c := Candidates(identifiers, assetsList, identifiersList);
           r[i] in c && r[j] in c && IndexOf(c, r[i]) < IndexOf(c, r[j]))
  {
    var c := Candidates(identifiers, assetsList, identifiersList);
    AppendNewSpec([], c);
    AppendNewFirstSeen([], c);
    CandidatesMembers(identifiers, assetsList, identifiersList);
  }

  /** The answer depends only on the lists of the searched uuids. */
  lemma {:induction false} CollectCongruence(identifiers: seq<Uuid>, a1: UuidLists, i1: UuidLists, a2: UuidLists, i2: UuidLists)
    requires forall u :: u in identifiers ==> Get(a1, u) == Get(a2, u) && Get(i1, u) == Get(i2, u)
    ensures Collect(identifiers, a1, i1) == Collect(identifiers, a2, i2)
    ensures Candidates(identifiers, a1, i1) == Candidates(identifiers, a2, i2)
    decreases |identifiers|
  {
    if identifiers != [] {
      var init := identifiers[..|identifiers| - 1];
      assert identifiers[|identifiers| - 1] in identifiers;
      forall u | u in init ensures u in identifiers {
      }
      CollectCongruence(init, a1, i1, a2, i2);
    }
  }

  // ---------------------------------------------------------------------------------------
  // Pre-filter for changed nodes

  /** `SiteService::SITES_ROOT_PATH` */
  const SitesRootPath := "/sites"
  /** What `propertiesNeedToBeConsidered` searches for: an identifier key ... */
  const IdentifierNeedle := "\"__identifier\": "
  /** ... or the escaped asset scheme. */
  const AssetNeedle := "asset:\\/\\/"

  predicate StartsWith(s: string, p: string) {
    |p| <= |s| && s[..|p|] == p
  }

  /** `needle` occurs in `s` at position `i`. */
  predicate OccursAt(s: string, needle: string, i: int) {
    0 <= i && i + |needle| <= |s| && s[i..i + |needle|] == needle
  }

  /** `strpos($s, $needle) !== false` (case-sensitive). */
  predicate Contains(s: string, needle: string) {
    exists i :: 0 <= i <= |s| && OccursAt(s, needle, i)
  }

  /** `propertiesNeedToBeConsidered($node, $properties)`: the node lies under the sites root
      (`strpos(..) === 0`) and the properties mention an identifier key or an asset link. */
  function PropertiesNeedToBeConsidered(path: string, properties: string): (r: bool)
    ensures r ==> StartsWith(path, SitesRootPath)
  {
    StartsWith(path, SitesRootPath) && (Contains(properties, IdentifierNeedle) || Contains(properties, AssetNeedle))
  }

  /** A node under the sites root whose properties hold a reference written in lower case is
      considered. */
  lemma ConsideredIfReferenced(path: string, properties: string, kind: Kind, u: Uuid, before: string, after: string)
    requires properties == before + Reference(kind, u) + after
    ensures StartsWith(path, SitesRootPath) ==> PropertiesNeedToBeConsidered(path, properties)
  {
    var needle := if kind == Identifier then IdentifierNeedle else AssetNeedle;
    var reference := Reference(kind, u);
    assert reference[..|needle|] == needle;
    SliceOfMiddle(before, reference, after, |needle|);
    assert OccursAt(properties, needle, |before|);
  }

  /** The text right after `a` in `a + b + c` is the start of `b`. */
  lemma SliceOfMiddle(a: string, b: string, c: string, n: nat)
    requires n <= |b|
    ensures (a + b + c)[|a|..|a| + n] == b[..n]
  {
  }
}
