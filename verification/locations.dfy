/** The location lookup table of iati3w_common.py (`get_location_lookup_table`,
    lines 142-182) and the location lookup built on it (`lookup_location`,
    lines 185-196).

    The location map is a three-level hierarchy: regions (admin1), each with
    its districts (admin2) under the key "admin2", each with its sites
    (unclassified locations) under the key "unclassified". Every entry at
    every level may carry synonyms. The builder walks the hierarchy in a
    fixed order, stamps each district and site with the names of its
    ancestors, and files every entry under the token of its key and of each
    synonym. */
module Locations {
  import opened Wrappers
  import opened Text
  import opened Tables
  import Keys

  /** An entry of the location map at any level. `children` holds a region's
      districts or a district's sites, in file order; a site's children are
      never read. `admin1` and `admin2` are the ancestor names the builder
      stamps in. An entry without `synonyms` has `[]`. */
  datatype Place = Place(
    level: Option<string>,
    name: Option<string>,
    admin1: Option<string>,
    admin2: Option<string>,
    synonyms: seq<string>,
    children: seq<(string, Place)>)

  /** The location map as read from its JSON file: region keys and regions
      in file order. */
  type LocationMap = seq<(string, Place)>

  // ---------------------------------------------------------------------------
  // Stamping ancestor names
  // ---------------------------------------------------------------------------

  /** An entry whose children need its `name` to be stamped, but which has
      none: the builder's `info["name"]` raises `KeyError` on it. */
  predicate Unnamed(p: Place) {
    p.children != [] && p.name.None?
  }

  /** Processing this region raises `KeyError`: it, or one of its
      districts, has children but no name. */
  predicate BreaksBuild(r: Place) {
    Unnamed(r) || exists j :: 0 <= j < |r.children| && Unnamed(r.children[j].1)
  }

  /** `info3["admin1"] = ...; info3["admin2"] = ...` on every site. */
  function StampSites(sites: seq<(string, Place)>, region: string, district: string): (r: seq<(string, Place)>)
    ensures |r| == |sites|
    ensures forall j :: 0 <= j < |sites| ==>
      r[j] == (sites[j].0, sites[j].1.(admin1 := Some(region), admin2 := Some(district)))
  {
    if sites == [] then []
    else [(sites[0].0, sites[0].1.(admin1 := Some(region), admin2 := Some(district)))]
         + StampSites(sites[1..], region, district)
  }

  /** `info2["admin1"] = info1["name"]` on a district, then its sites. Fails
      when the district has sites but no name. */
  function StampDistrict(d: Place, region: string): (r: Option<Place>)
    ensures r.None? <==> Unnamed(d)
    ensures r.Some? ==>
      && r.value == d.(admin1 := Some(region), children := r.value.children)
      && |r.value.children| == |d.children|
      && forall j :: 0 <= j < |d.children| ==>
           r.value.children[j]
             == (d.children[j].0, d.children[j].1.(admin1 := Some(region), admin2 := d.name))
  {
    if d.children == [] then Some(d.(admin1 := Some(region)))
    else if d.name.None? then None
    else Some(d.(admin1 := Some(region), children := StampSites(d.children, region, d.name.value)))
  }

  /** Stamps every district of a region; fails if any district fails. */
  function StampDistricts(ds: seq<(string, Place)>, region: string): (r: Option<seq<(string, Place)>>)
    ensures r.None? <==> exists j :: 0 <= j < |ds| && Unnamed(ds[j].1)
    ensures r.Some? ==> |r.value| == |ds|
    ensures r.Some? ==> forall j :: 0 <= j < |ds| ==>
      r.value[j].0 == ds[j].0 && StampDistrict(ds[j].1, region) == Some(r.value[j].1)
  {
    if ds == [] then Some([])
    else
      match (StampDistrict(ds[0].1, region), StampDistricts(ds[1..], region))
      case (Some(d), Some(rest)) =>
        assert forall j :: 1 <= j < |ds| ==> ds[1..][j - 1] == ds[j];
        Some([(ds[0].0, d)] + rest)
      case _ =>
        assert forall j :: 0 <= j < |ds[1..]| ==> ds[1..][j] == ds[j + 1];
        None
  }

  /** The effect of processing a region on the region itself and on the
      entries below it. Fails when the region, or one of its districts, has
      children but no name. */
  function StampRegion(r: Place): (s: Option<Place>)
    ensures s.None? <==> BreaksBuild(r)
    ensures s.Some? ==>
      && s.value == r.(children := s.value.children)
      && |s.value.children| == |r.children|
      && forall j :: 0 <= j < |r.children| ==>
           s.value.children[j].0 == r.children[j].0
           && StampDistrict(r.children[j].1, r.name.value) == Some(s.value.children[j].1)
  {
    if r.children == [] then Some(r)
    else if r.name.None? then None
    else
      match StampDistricts(r.children, r.name.value)
      case Some(ds) => Some(r.(children := ds))
      case None => None
  }

  /** Every region of the map stamped; fails if any region fails. */
  function StampMap(m: LocationMap): (r: Option<LocationMap>)
    ensures r.None? <==> exists i :: 0 <= i < |m| && StampRegion(m[i].1).None?
    ensures r.Some? ==> |r.value| == |m|
    ensures r.Some? ==> forall i :: 0 <= i < |m| ==>
      r.value[i].0 == m[i].0 && StampRegion(m[i].1) == Some(r.value[i].1)
  {
    if m == [] then Some([])
    else
      match (StampRegion(m[0].1), StampMap(m[1..]))
      case (Some(p), Some(rest)) =>
        assert forall i :: 1 <= i < |m| ==> m[1..][i - 1] == m[i];
        Some([(m[0].0, p)] + rest)
      case _ =>
        assert forall i :: 0 <= i < |m[1..]| ==> m[1..][i] == m[i + 1];
        None
  }

  // ---------------------------------------------------------------------------
  // The traversal
  // ---------------------------------------------------------------------------

  /** A site: its key token, then its synonyms' tokens, all set only where
      still absent. */
  function SiteWrites(e: (string, Place)): seq<Write<Place>> {
    [InsertIfAbsent(MakeToken(e.0), e.1)] + InsertNames(e.1.synonyms, e.1)
  }

  function SitesWrites(ss: seq<(string, Place)>): seq<Write<Place>> {
    Concat(ss, SiteWrites)
  }

  /** A district: its key token, then each of its sites, then its synonyms,
      all set only where still absent. */
  function DistrictWrites(e: (string, Place)): seq<Write<Place>> {
    [InsertIfAbsent(MakeToken(e.0), e.1)] + SitesWrites(e.1.children) + InsertNames(e.1.synonyms, e.1)
  }

  function DistrictsWrites(ds: seq<(string, Place)>): seq<Write<Place>> {
    Concat(ds, DistrictWrites)
  }

  /** A region: its key token assigned outright, then each of its districts,
      then its synonyms set only where still absent. */
  function RegionWrites(e: (string, Place)): seq<Write<Place>> {
    [Assign(MakeToken(e.0), e.1)] + DistrictsWrites(e.1.children) + InsertNames(e.1.synonyms, e.1)
  }

  function MapWrites(m: LocationMap): seq<Write<Place>> {
    Concat(m, RegionWrites)
  }

  /** `get_location_lookup_table()` on the map read from the location file:
      `None` when the build raises `KeyError`. */
  function GetLocationLookupTable(m: LocationMap): (r: Option<map<string, Place>>)
    ensures r.None? <==> exists i :: 0 <= i < |m| && BreaksBuild(m[i].1)
  {
    match StampMap(m)
    case Some(sm) => Some(Replay(map[], MapWrites(sm)))
    case None => None
  }

  /** `lookup_location(name, loctype)` against the location table. */
  function LookupLocation(name: Option<string>, table: map<string, Place>,
                          loctype: string := Keys.DefaultLevel): (r: Option<Place>)
    ensures r.None? <==> name.None? || IsBlank(name.value)
    ensures r.Some? && MakeToken(name.value) in table ==> r.value == table[MakeToken(name.value)]
    ensures r.Some? && MakeToken(name.value) !in table ==>
      && r.value == Place(Some(loctype), NormaliseString(name.value), None, None, [], [])
      && r.value.name.Some? && r.value.name.value != []
      && IsNormal(r.value.name.value)
  {
    if name.None? || IsBlank(name.value) then None
    else
      var token := MakeToken(name.value);
      if token in table then Some(table[token])
      else Some(Place(Some(loctype), NormaliseString(name.value), None, None, [], []))
  }

  // ---------------------------------------------------------------------------
  // Only region keys are assigned
  // ---------------------------------------------------------------------------

  lemma {:induction false} SitesOnlyInsert(ss: seq<(string, Place)>, k: string)
    ensures NoAssign(SitesWrites(ss), k)
    decreases |ss|
  {
    if ss != [] {
      SitesOnlyInsert(ss[1..], k);
      InsertNamesFacts(ss[0].1.synonyms, ss[0].1);
      var a := [InsertIfAbsent(MakeToken(ss[0].0), ss[0].1)];
      NoAssignAppend(a, InsertNames(ss[0].1.synonyms, ss[0].1), k);
      NoAssignAppend(SiteWrites(ss[0]), SitesWrites(ss[1..]), k);
    }
  }

  lemma {:induction false} DistrictsOnlyInsert(ds: seq<(string, Place)>, k: string)
    ensures NoAssign(DistrictsWrites(ds), k)
    decreases |ds|
  {
    if ds != [] {
      DistrictsOnlyInsert(ds[1..], k);
      var e := ds[0];
      InsertNamesFacts(e.1.synonyms, e.1);
      SitesOnlyInsert(e.1.children, k);
      var a := [InsertIfAbsent(MakeToken(e.0), e.1)];
      NoAssignAppend(a, SitesWrites(e.1.children), k);
      NoAssignAppend(a + SitesWrites(e.1.children), InsertNames(e.1.synonyms, e.1), k);
      NoAssignAppend(DistrictWrites(e), DistrictsWrites(ds[1..]), k);
    }
  }

  /** A region's writes start with its key's assignment and assign nothing
      else. */
  lemma RegionHead(e: (string, Place), k: string)
    ensures RegionWrites(e)[0] == Assign(MakeToken(e.0), e.1)
    ensures NoAssign(RegionWrites(e)[1..], k)
  {
    var b := DistrictsWrites(e.1.children);
    var c := InsertNames(e.1.synonyms, e.1);
    InsertNamesFacts(e.1.synonyms, e.1);
    DistrictsOnlyInsert(e.1.children, k);
    ConsParts(Assign(MakeToken(e.0), e.1), b, c);
    NoAssignAppend(b, c, k);
  }

  /** The only assignments are of region key tokens. */
  lemma {:induction false} MapNoAssign(m: LocationMap, k: string)
    requires forall j :: 0 <= j < |m| ==> MakeToken(m[j].0) != k
    ensures NoAssign(MapWrites(m), k)
    decreases |m|
  {
    if m != [] {
      RegionHead(m[0], k);
      var w := RegionWrites(m[0]);
      assert w == [w[0]] + w[1..];
      NoAssignAppend([w[0]], w[1..], k);
      assert forall j :: 0 <= j < |m[1..]| ==> m[1..][j] == m[j + 1];
      MapNoAssign(m[1..], k);
      NoAssignAppend(w, MapWrites(m[1..]), k);
    }
  }

  // ---------------------------------------------------------------------------
  // What the table holds
  // ---------------------------------------------------------------------------

  /** In the table replayed from a stamped map, a region's key token holds
      that region unless a later region has the same key token. */
  lemma LastRegionHolds(sm: LocationMap, i: nat)
    requires i < |sm|
    requires forall j :: i < j < |sm| ==> MakeToken(sm[j].0) != MakeToken(sm[i].0)
    ensures MakeToken(sm[i].0) in Replay(map[], MapWrites(sm))
    ensures Replay(map[], MapWrites(sm))[MakeToken(sm[i].0)] == sm[i].1
  {
    var k := MakeToken(sm[i].0);
    var pre := MapWrites(sm[..i]);
    var mid := RegionWrites(sm[i]);
    var post := MapWrites(sm[i + 1..]);
    ConcatSplit(sm, RegionWrites, i);
    var t1 := Replay(map[], pre);
    RegionHead(sm[i], k);
    ReplayLastAssign(t1, mid, k, 0);
    var t2 := Replay(t1, mid);
    var later := sm[i + 1..];
    forall j | 0 <= j < |later| ensures MakeToken(later[j].0) != k {
      assert later[j] == sm[i + 1 + j];
    }
    MapNoAssign(later, k);
    ReplayKeeps(t2, post, k);
    ReplayAppend(map[], pre, mid);
    ReplayAppend(map[], pre + mid, post);
  }

  /** A region's key token belongs to the last region with that key token,
      as stamped: a later region overwrites whatever an earlier region,
      district, site or synonym put there. */
  lemma RegionKeyWins(m: LocationMap, sm: LocationMap, i: nat)
    requires StampMap(m) == Some(sm)
    requires i < |m|
    requires forall j :: i < j < |m| ==> MakeToken(m[j].0) != MakeToken(m[i].0)
    ensures GetLocationLookupTable(m) == Some(Replay(map[], MapWrites(sm)))
    ensures StampRegion(m[i].1) == Some(sm[i].1)
    ensures MakeToken(m[i].0) in Replay(map[], MapWrites(sm))
    ensures Replay(map[], MapWrites(sm))[MakeToken(m[i].0)] == sm[i].1
  {
    LastRegionHolds(sm, i);
  }

  /** Any other token belongs to the first entry, in traversal order, that
      wrote it: districts, sites and synonyms never overwrite. Stated on the
      stamped map `sm`, whose table `GetLocationLookupTable` returns (see
      `RegionKeyWins`); stamping keeps every region key. */
  lemma FirstWriterWins(sm: LocationMap, k: string, i: nat)
    requires forall j :: 0 <= j < |sm| ==> MakeToken(sm[j].0) != k
    requires i < |MapWrites(sm)| && MapWrites(sm)[i].token == k
    requires forall j :: 0 <= j < i ==> MapWrites(sm)[j].token != k
    ensures k in Replay(map[], MapWrites(sm))
    ensures Replay(map[], MapWrites(sm))[k] == MapWrites(sm)[i].value
  {
    MapNoAssign(sm, k);
    ReplayFirstWriter(map[], MapWrites(sm), k, i);
  }

  // ---------------------------------------------------------------------------
  // Stamped ancestor names
  // ---------------------------------------------------------------------------

  /** Every district carries its region's name as `admin1`; every site
      carries its region's and its district's names as `admin1` and
      `admin2`. */
  ghost predicate Stamped(sm: LocationMap) {
    forall i, j :: 0 <= i < |sm| && 0 <= j < |sm[i].1.children| ==>
      && sm[i].1.children[j].1.admin1 == sm[i].1.name
      && forall l :: 0 <= l < |sm[i].1.children[j].1.children| ==>
           && sm[i].1.children[j].1.children[l].1.admin1 == sm[i].1.name
           && sm[i].1.children[j].1.children[l].1.admin2 == sm[i].1.children[j].1.name
  }

  /** A successful build stamps every district and site with its ancestors'
      names, and changes nothing else: same keys, same order, same names and
      synonyms at every level. A corollary of the contracts of `StampMap`,
      `StampRegion` and `StampDistrict`, gathered over the whole map. */
  lemma StampMapStamped(m: LocationMap, sm: LocationMap)
    requires StampMap(m) == Some(sm)
    ensures Stamped(sm)
    ensures forall i :: 0 <= i < |m| ==>
      && sm[i].1.name == m[i].1.name && sm[i].1.synonyms == m[i].1.synonyms
      && |sm[i].1.children| == |m[i].1.children|
  {
  }

  // ---------------------------------------------------------------------------
  // Which tokens the table holds
  // ---------------------------------------------------------------------------

  /** A site files itself under `k`: through its key or a synonym. */
  predicate SiteMentions(e: (string, Place), k: string) {
    MakeToken(e.0) == k || k in NameTokens(e.1.synonyms)
  }

  /** A district files itself or one of its sites under `k`. */
  predicate DistrictMentions(e: (string, Place), k: string) {
    || MakeToken(e.0) == k
    || k in NameTokens(e.1.synonyms)
    || exists l :: 0 <= l < |e.1.children| && SiteMentions(e.1.children[l], k)
  }

  /** A region files itself, one of its districts or one of their sites
      under `k`. */
  predicate RegionMentions(e: (string, Place), k: string) {
    || MakeToken(e.0) == k
    || k in NameTokens(e.1.synonyms)
    || exists j :: 0 <= j < |e.1.children| && DistrictMentions(e.1.children[j], k)
  }

  /** Some key or synonym, at some level of the map, has token `k`. */
  predicate Mentioned(m: LocationMap, k: string) {
    exists i :: 0 <= i < |m| && RegionMentions(m[i], k)
  }

  lemma SiteTokens(e: (string, Place), k: string)
    ensures k in Tokens(SiteWrites(e)) <==> SiteMentions(e, k)
  {
    var a := [InsertIfAbsent(MakeToken(e.0), e.1)];
    TokensOne(a[0]);
    InsertNamesFacts(e.1.synonyms, e.1);
    TokensAppend(a, InsertNames(e.1.synonyms, e.1));
  }

  lemma {:induction false} SitesTokens(ss: seq<(string, Place)>, k: string)
    ensures k in Tokens(SitesWrites(ss)) <==> exists l :: 0 <= l < |ss| && SiteMentions(ss[l], k)
    decreases |ss|
  {
    if ss != [] {
      SitesTokens(ss[1..], k);
      SiteTokens(ss[0], k);
      TokensAppend(SiteWrites(ss[0]), SitesWrites(ss[1..]));
      assert forall l :: 0 <= l < |ss[1..]| ==> ss[1..][l] == ss[l + 1];
      if exists l :: 0 <= l < |ss| && SiteMentions(ss[l], k) {
        var l :| 0 <= l < |ss| && SiteMentions(ss[l], k);
        if l > 0 {
          assert SiteMentions(ss[1..][l - 1], k);
        }
      }
    }
  }

  lemma DistrictTokens(e: (string, Place), k: string)
    ensures k in Tokens(DistrictWrites(e)) <==> DistrictMentions(e, k)
  {
    var a := [InsertIfAbsent(MakeToken(e.0), e.1)];
    var b := SitesWrites(e.1.children);
    var c := InsertNames(e.1.synonyms, e.1);
    TokensOne(a[0]);
    InsertNamesFacts(e.1.synonyms, e.1);
    SitesTokens(e.1.children, k);
    TokensAppend(a, b);
    TokensAppend(a + b, c);
  }

  lemma {:induction false} DistrictsTokens(ds: seq<(string, Place)>, k: string)
    ensures k in Tokens(DistrictsWrites(ds)) <==> exists j :: 0 <= j < |ds| && DistrictMentions(ds[j], k)
    decreases |ds|
  {
    if ds != [] {
      DistrictsTokens(ds[1..], k);
      DistrictTokens(ds[0], k);
      TokensAppend(DistrictWrites(ds[0]), DistrictsWrites(ds[1..]));
      assert forall j :: 0 <= j < |ds[1..]| ==> ds[1..][j] == ds[j + 1];
      if exists j :: 0 <= j < |ds| && DistrictMentions(ds[j], k) {
        var j :| 0 <= j < |ds| && DistrictMentions(ds[j], k);
        if j > 0 {
          assert DistrictMentions(ds[1..][j - 1], k);
        }
      }
    }
  }

  lemma RegionTokens(e: (string, Place), k: string)
    ensures k in Tokens(RegionWrites(e)) <==> RegionMentions(e, k)
  {
    var a := [Assign(MakeToken(e.0), e.1)];
    var b := DistrictsWrites(e.1.children);
    var c := InsertNames(e.1.synonyms, e.1);
    TokensOne(a[0]);
    InsertNamesFacts(e.1.synonyms, e.1);
    DistrictsTokens(e.1.children, k);
    TokensAppend(a, b);
    TokensAppend(a + b, c);
  }

  lemma {:induction false} MapTokens(m: LocationMap, k: string)
    ensures k in Tokens(MapWrites(m)) <==> Mentioned(m, k)
    decreases |m|
  {
    if m != [] {
      MapTokens(m[1..], k);
      RegionTokens(m[0], k);
      TokensAppend(RegionWrites(m[0]), MapWrites(m[1..]));
      assert forall i :: 0 <= i < |m[1..]| ==> m[1..][i] == m[i + 1];
      if Mentioned(m, k) {
        var i :| 0 <= i < |m| && RegionMentions(m[i], k);
        if i > 0 {
          assert RegionMentions(m[1..][i - 1], k);
        }
      }
    }
  }

  /** Stamping keeps every key and synonym at every level, so it keeps the
      tokens the map mentions. A corollary of the contracts of `StampMap`,
      `StampRegion` and `StampDistrict`. */
  lemma StampMapMentions(m: LocationMap, sm: LocationMap, k: string)
    requires StampMap(m) == Some(sm)
    ensures Mentioned(sm, k) <==> Mentioned(m, k)
  {
  }

  /** The table replayed from a stamped map holds exactly the tokens that
      map mentions. */
  lemma StampedTableKeys(sm: LocationMap, k: string)
    ensures k in Replay(map[], MapWrites(sm)) <==> Mentioned(sm, k)
  {
    ReplayKeys(map[], MapWrites(sm));
    MapTokens(sm, k);
  }

  /** The table's tokens are exactly the tokens of the keys and synonyms at
      every level of the map. */
  lemma LocationTableKeys(m: LocationMap, k: string)
    requires GetLocationLookupTable(m).Some?
    ensures k in GetLocationLookupTable(m).value <==> Mentioned(m, k)
  {
    var sm := StampMap(m).value;
    StampedTableKeys(sm, k);
    StampMapMentions(m, sm, k);
  }

  // ---------------------------------------------------------------------------
  // Lookups
  // ---------------------------------------------------------------------------

  /** Looking up a name whose token is the key token of the last region with
      that key token gives that region, stamped. */
  lemma LookupLocationFindsRegion(m: LocationMap, i: nat, name: string, loctype: string)
    requires GetLocationLookupTable(m).Some?
    requires i < |m| && !IsBlank(name) && MakeToken(name) == MakeToken(m[i].0)
    requires forall j :: i < j < |m| ==> MakeToken(m[j].0) != MakeToken(m[i].0)
    ensures StampRegion(m[i].1).Some?
    ensures LookupLocation(Some(name), GetLocationLookupTable(m).value, loctype) == StampRegion(m[i].1)
  {
    RegionKeyWins(m, StampMap(m).value, i);
  }

  /** A name the table does not know comes back as itself, normalised, at
      the requested level, or at level "unclassified" when none is given. */
  lemma LookupLocationMiss(name: string, table: map<string, Place>)
    requires !IsBlank(name) && MakeToken(name) !in table
    ensures LookupLocation(Some(name), table).value.level == Some(Keys.DefaultLevel)
    ensures LookupLocation(Some(name), table).value.name == NormaliseString(name)
    ensures LookupLocation(Some(name), table).value.name.value == JoinWords(Words(name))
  {
  }

  /** Lookup sees only the token: two non-blank names with the same token
      get the same table entry. */
  lemma LookupLocationByToken(a: string, b: string, table: map<string, Place>, loctype: string)
    requires !IsBlank(a) && !IsBlank(b) && MakeToken(a) == MakeToken(b)
    requires MakeToken(a) in table
    ensures LookupLocation(Some(a), table, loctype) == LookupLocation(Some(b), table, loctype)
  {
  }

  /** Letter case never changes whether, or to what, a name resolves. */
  lemma LookupLocationIgnoresCase(name: string, table: map<string, Place>, loctype: string)
    ensures LookupLocation(Some(LowerAll(name)), table, loctype).None?
        == LookupLocation(Some(name), table, loctype).None?
    ensures MakeToken(name) in table ==>
      LookupLocation(Some(LowerAll(name)), table, loctype) == LookupLocation(Some(name), table, loctype)
  {
    LowerAllBlank(name);
    MakeTokenIgnoresCase(name);
  }
}
