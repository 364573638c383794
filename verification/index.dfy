/** The location index of index-locations.py (lines 32-88): for every
    activity, every location it names at each sub-national level gets an
    entry listing the activity, counting the activity's organisations and
    counting its sectors per vocabulary. */
module LocationIndex {
  import opened Text
  import opened Tallies
  import Keys

  /** The fields of an activity record that the index reads. */
  datatype Activity = Activity(
    identifier: string,
    title: string,
    source: string,
    locations: map<string, seq<string>>,
    orgs: map<string, seq<string>>,
    sectors: map<string, seq<string>>)

  /** What an index entry keeps of an activity. */
  datatype ActivityRef = ActivityRef(identifier: string, title: string, source: string)

  /** One location's entry. */
  datatype Entry = Entry(activities: seq<ActivityRef>, orgs: Counts, sectors: SectorCounts)

  /** Location name to entry, for one level. */
  type LevelIndex = map<string, Entry>

  /** Level to its locations. */
  type Index = map<string, LevelIndex>

  function RefOf(a: Activity): ActivityRef {
    ActivityRef(a.identifier, a.title, a.source)
  }

  /** The record a location gets the first time it is seen. */
  const NewEntry: Entry := Entry([], map[], map[])

  function EntryOr(idx: LevelIndex, k: string): Entry {
    if k in idx then idx[k] else NewEntry
  }

  function LevelOr(index: Index, t: string): LevelIndex {
    if t in index then index[t] else map[]
  }

  /** `n` copies of `x`. */
  function Repeat<T>(x: T, n: nat): (r: seq<T>)
    ensures |r| == n && forall i :: 0 <= i < n ==> r[i] == x
  {
    seq(n, _ => x)
  }

  /** `n` times `x`, as repeated addition. */
  function Times(n: nat, x: nat): nat
    decreases n
  {
    if n == 0 then 0 else x + Times(n - 1, x)
  }

  /** Counters and sector maps never hold a counter at zero. */
  predicate Wellformed(e: Entry) {
    Positive(e.orgs) && AllPositive(e.sectors)
  }

  /** How many times `a` counts organisation `o` over all roles. */
  function OrgHits(a: Activity, o: string): nat {
    RoleHits(a.orgs, Keys.Roles, o)
  }

  // ---------------------------------------------------------------------------
  // One mention of a location
  // ---------------------------------------------------------------------------

  /** Append the activity, count its organisations over every role, and
      count its sectors per vocabulary. */
  function AddActivity(e: Entry, a: Activity): Entry {
    Entry(
      e.activities + [RefOf(a)],
      TallyRoles(e.orgs, a.orgs, Keys.Roles),
      TallySectors(e.sectors, a.sectors, Keys.SectorTypes))
  }

  /** `AddActivity` applied `n` times: a location named `n` times by one
      activity. */
  function AddTimes(e: Entry, a: Activity, n: nat): Entry
    decreases n
  {
    if n == 0 then e else AddTimes(AddActivity(e, a), a, n - 1)
  }

  /** The activity is listed once per mention. */
  lemma {:induction false} AddTimesActivities(e: Entry, a: Activity, n: nat)
    ensures AddTimes(e, a, n).activities == e.activities + Repeat(RefOf(a), n)
    decreases n
  {
    if n > 0 {
      AddTimesActivities(AddActivity(e, a), a, n - 1);
      assert e.activities + [RefOf(a)] + Repeat(RefOf(a), n - 1) == e.activities + Repeat(RefOf(a), n);
    } else {
      assert e.activities + Repeat(RefOf(a), 0) == e.activities;
    }
  }

  /** Each organisation counter grows by its hits over all roles, once per
      mention. */
  lemma {:induction false} AddTimesOrgs(e: Entry, a: Activity, n: nat, o: string)
    ensures Count(AddTimes(e, a, n).orgs, o) == Count(e.orgs, o) + Times(n, OrgHits(a, o))
    decreases n
  {
    if n > 0 {
      TallyRolesCounts(e.orgs, a.orgs, Keys.Roles, o);
      AddTimesOrgs(AddActivity(e, a), a, n - 1, o);
    }
  }

  /** Each sector counter of each vocabulary grows by its hits, once per
      mention. */
  lemma {:induction false} AddTimesSectors(e: Entry, a: Activity, n: nat, st: string, s: string)
    requires st in Keys.SectorTypes
    ensures Count(CountsOf(AddTimes(e, a, n).sectors, st), s)
      == Count(CountsOf(e.sectors, st), s) + Times(n, Hits(Listed(a.sectors, st), s))
    decreases n
  {
    if n > 0 {
      TallySectorsFacts(e.sectors, a.sectors, Keys.SectorTypes, st, s);
      AddTimesSectors(AddActivity(e, a), a, n - 1, st, s);
    }
  }

  lemma AddActivityVocabularies(e: Entry, a: Activity)
    ensures AddActivity(e, a).sectors.Keys == e.sectors.Keys + KeySet(Keys.SectorTypes)
  {
    TallySectorsFacts(e.sectors, a.sectors, Keys.SectorTypes, "", "");
  }

  /** Both vocabularies get counters on the first mention. */
  lemma {:induction false} AddTimesVocabularies(e: Entry, a: Activity, n: nat)
    ensures AddTimes(e, a, n).sectors.Keys
      == (if n == 0 then e.sectors.Keys else e.sectors.Keys + KeySet(Keys.SectorTypes))
    decreases n
  {
    if n > 0 {
      var e' := AddActivity(e, a);
      AddActivityVocabularies(e, a);
      AddTimesVocabularies(e', a, n - 1);
      assert e'.sectors.Keys + KeySet(Keys.SectorTypes) == e'.sectors.Keys;
    }
  }

  /** No counter is ever at zero. */
  lemma {:induction false} AddTimesWellformed(e: Entry, a: Activity, n: nat)
    requires Wellformed(e)
    ensures Wellformed(AddTimes(e, a, n))
    decreases n
  {
    if n > 0 {
      TallyRolesCounts(e.orgs, a.orgs, Keys.Roles, "");
      TallySectorsPositive(e.sectors, a.sectors, Keys.SectorTypes);
      AddTimesWellformed(AddActivity(e, a), a, n - 1);
    }
  }

  // ---------------------------------------------------------------------------
  // One level of one activity
  // ---------------------------------------------------------------------------

  /** Each non-empty location name, stripped, gets an entry if it has none
      and the activity added to its entry. */
  function IndexLocations(idx: LevelIndex, a: Activity, locs: seq<string>): LevelIndex
    decreases |locs|
  {
    if locs == [] then idx
    else if locs[0] == [] then IndexLocations(idx, a, locs[1..])
    else
      var k := Strip(locs[0]);
      IndexLocations(idx[k := AddActivity(EntryOr(idx, k), a)], a, locs[1..])
  }

  /** A location's entry afterwards is its entry before (or a new one) with
      the activity added once per mention; no other location is touched. */
  lemma {:induction false} IndexLocationsAt(idx: LevelIndex, a: Activity, locs: seq<string>, k: string)
    ensures k in IndexLocations(idx, a, locs) <==> k in idx || Hits(locs, k) > 0
    ensures k in IndexLocations(idx, a, locs) ==>
      IndexLocations(idx, a, locs)[k] == AddTimes(EntryOr(idx, k), a, Hits(locs, k))
    decreases |locs|
  {
    if locs != [] {
      if locs[0] == [] {
        IndexLocationsAt(idx, a, locs[1..], k);
      } else {
        var k0 := Strip(locs[0]);
        var idx' := idx[k0 := AddActivity(EntryOr(idx, k0), a)];
        IndexLocationsAt(idx', a, locs[1..], k);
      }
    }
  }

  // ---------------------------------------------------------------------------
  // One activity
  // ---------------------------------------------------------------------------

  /** Index the locations of each level in `types`, creating the level if
      it is missing. */
  function IndexLevels(index: Index, a: Activity, types: seq<string>): Index
    decreases |types|
  {
    if types == [] then index
    else
      var t := types[0];
      IndexLevels(index[t := IndexLocations(LevelOr(index, t), a, Listed(a.locations, t))], a, types[1..])
  }

  /** The loop body of lines 37-88 for one activity. */
  function Step(index: Index, a: Activity): Index {
    IndexLevels(index, a, Keys.LocationTypes)
  }

  lemma {:induction false} IndexLevelsFacts(index: Index, a: Activity, types: seq<string>, t: string)
    requires Keys.Distinct(types)
    ensures IndexLevels(index, a, types).Keys == index.Keys + KeySet(types)
    ensures t in types ==>
      IndexLevels(index, a, types)[t] == IndexLocations(LevelOr(index, t), a, Listed(a.locations, t))
    ensures t !in types ==> LevelOr(IndexLevels(index, a, types), t) == LevelOr(index, t)
    decreases |types|
  {
    if types != [] {
      DistinctTail(types);
      var u := types[0];
      IndexLevelsFacts(index[u := IndexLocations(LevelOr(index, u), a, Listed(a.locations, u))], a, types[1..], t);
      assert KeySet(types) == {u} + KeySet(types[1..]);
    }
  }

  /** Every level is present after a step; each level is indexed once. */
  lemma StepFacts(index: Index, a: Activity, t: string)
    ensures Step(index, a).Keys == index.Keys + KeySet(Keys.LocationTypes)
    ensures t in Keys.LocationTypes ==>
      Step(index, a)[t] == IndexLocations(LevelOr(index, t), a, Listed(a.locations, t))
  {
    IndexLevelsFacts(index, a, Keys.LocationTypes, t);
  }

  /** The index after the activities in order. */
  function Fold(acts: seq<Activity>): Index
    decreases |acts|
  {
    if acts == [] then map[] else Step(Fold(acts[..|acts| - 1]), acts[|acts| - 1])
  }

  // ---------------------------------------------------------------------------
  // Reference definitions: what an entry should hold
  // ---------------------------------------------------------------------------

  /** How many times `a` names location `k` at level `t`. */
  function Mentions(a: Activity, t: string, k: string): nat {
    Hits(Listed(a.locations, t), k)
  }

  /** One reference per mention, in activity order. */
  function Refs(acts: seq<Activity>, t: string, k: string): seq<ActivityRef>
    decreases |acts|
  {
    if acts == [] then []
    else
      var a := acts[|acts| - 1];
      Refs(acts[..|acts| - 1], t, k) + Repeat(RefOf(a), Mentions(a, t, k))
  }

  /** Organisation `o` counted once per mention of the location and per
      listing of `o` under a counted role. */
  function OrgTotal(acts: seq<Activity>, t: string, k: string, o: string): nat
    decreases |acts|
  {
    if acts == [] then 0
    else
      var a := acts[|acts| - 1];
      OrgTotal(acts[..|acts| - 1], t, k, o) + Times(Mentions(a, t, k), OrgHits(a, o))
  }

  /** Sector `s` of vocabulary `st` counted once per mention of the location
      and per listing of `s`. */
  function SectorTotal(acts: seq<Activity>, t: string, k: string, st: string, s: string): nat
    decreases |acts|
  {
    if acts == [] then 0
    else
      var a := acts[|acts| - 1];
      SectorTotal(acts[..|acts| - 1], t, k, st, s) + Times(Mentions(a, t, k), Hits(Listed(a.sectors, st), s))
  }

  /** Entry `e` holds what the activities say about location `k` at level `t`. */
  ghost predicate EntryAgrees(e: Entry, acts: seq<Activity>, t: string, k: string) {
    && e.activities == Refs(acts, t, k)
    && Wellformed(e)
    && (forall o :: Count(e.orgs, o) == OrgTotal(acts, t, k, o))
    && e.sectors.Keys == (if e.activities == [] then {} else KeySet(Keys.SectorTypes))
    && (forall st, s :: st in Keys.SectorTypes ==>
          Count(CountsOf(e.sectors, st), s) == SectorTotal(acts, t, k, st, s))
  }

  lemma RefsSnoc(p: seq<Activity>, a: Activity, t: string, k: string)
    ensures Refs(p + [a], t, k) == Refs(p, t, k) + Repeat(RefOf(a), Mentions(a, t, k))
  {
    assert (p + [a])[..|p|] == p;
  }

  lemma OrgTotalSnoc(p: seq<Activity>, a: Activity, t: string, k: string, o: string)
    ensures OrgTotal(p + [a], t, k, o) == OrgTotal(p, t, k, o) + Times(Mentions(a, t, k), OrgHits(a, o))
  {
    assert (p + [a])[..|p|] == p;
  }

  lemma SectorTotalSnoc(p: seq<Activity>, a: Activity, t: string, k: string, st: string, s: string)
    ensures SectorTotal(p + [a], t, k, st, s)
      == SectorTotal(p, t, k, st, s) + Times(Mentions(a, t, k), Hits(Listed(a.sectors, st), s))
  {
    assert (p + [a])[..|p|] == p;
  }

  /** A location no activity has named has no totals. */
  lemma {:induction false} NoRefsTotals(p: seq<Activity>, t: string, k: string, o: string, st: string, s: string)
    requires Refs(p, t, k) == []
    ensures OrgTotal(p, t, k, o) == 0 && SectorTotal(p, t, k, st, s) == 0
    decreases |p|
  {
    if p != [] {
      var q := p[..|p| - 1];
      var a := p[|p| - 1];
      assert p == q + [a];
      RefsSnoc(q, a, t, k);
      OrgTotalSnoc(q, a, t, k, o);
      SectorTotalSnoc(q, a, t, k, st, s);
      NoRefsTotals(q, t, k, o, st, s);
    }
  }

  /** So a new entry agrees with the activities so far. */
  lemma NoRefsAgrees(p: seq<Activity>, t: string, k: string)
    requires Refs(p, t, k) == []
    ensures EntryAgrees(NewEntry, p, t, k)
  {
    forall o ensures OrgTotal(p, t, k, o) == 0 {
      NoRefsTotals(p, t, k, o, "", "");
    }
    forall st, s ensures SectorTotal(p, t, k, st, s) == 0 {
      NoRefsTotals(p, t, k, "", st, s);
    }
  }

  /** The counters keep agreeing with the totals after one more activity. */
  lemma CountsAfter(e: Entry, p: seq<Activity>, a: Activity, t: string, k: string)
    requires EntryAgrees(e, p, t, k)
    ensures var r := AddTimes(e, a, Mentions(a, t, k));
      && (forall o :: Count(r.orgs, o) == OrgTotal(p + [a], t, k, o))
      && (forall st, s :: st in Keys.SectorTypes ==>
            Count(CountsOf(r.sectors, st), s) == SectorTotal(p + [a], t, k, st, s))
  {
    var n := Mentions(a, t, k);
    var r := AddTimes(e, a, n);
    forall o ensures Count(r.orgs, o) == OrgTotal(p + [a], t, k, o) {
      AddTimesOrgs(e, a, n, o);
      OrgTotalSnoc(p, a, t, k, o);
    }
    forall st, s | st in Keys.SectorTypes
      ensures Count(CountsOf(r.sectors, st), s) == SectorTotal(p + [a], t, k, st, s)
    {
      AddTimesSectors(e, a, n, st, s);
      SectorTotalSnoc(p, a, t, k, st, s);
    }
  }

  /** Agreement survives one more activity. */
  lemma AgreesAfter(e: Entry, p: seq<Activity>, a: Activity, t: string, k: string)
    requires EntryAgrees(e, p, t, k)
    ensures EntryAgrees(AddTimes(e, a, Mentions(a, t, k)), p + [a], t, k)
  {
    var n := Mentions(a, t, k);
    RefsSnoc(p, a, t, k);
    AddTimesActivities(e, a, n);
    AddTimesVocabularies(e, a, n);
    AddTimesWellformed(e, a, n);
    CountsAfter(e, p, a, t, k);
  }

  // ---------------------------------------------------------------------------
  // Theorems about the whole index
  // ---------------------------------------------------------------------------

  /** With no activities the index is empty; otherwise it has exactly the
      three levels. */
  lemma {:induction false} FoldLevels(acts: seq<Activity>)
    ensures Fold(acts).Keys == if acts == [] then {} else KeySet(Keys.LocationTypes)
    decreases |acts|
  {
    if acts != [] {
      var p := acts[..|acts| - 1];
      FoldLevels(p);
      StepFacts(Fold(p), acts[|acts| - 1], "");
    }
  }

  /** A location has an entry exactly when some activity names it, and its
      entry holds one reference per mention and the counts the activities
      give. */
  lemma {:induction false} FoldEntry(acts: seq<Activity>, t: string, k: string)
    requires t in Keys.LocationTypes
    ensures k in LevelOr(Fold(acts), t) <==> Refs(acts, t, k) != []
    ensures k in LevelOr(Fold(acts), t) ==> EntryAgrees(LevelOr(Fold(acts), t)[k], acts, t, k)
    decreases |acts|
  {
    if acts != [] {
      var p := acts[..|acts| - 1];
      var a := acts[|acts| - 1];
      assert acts == p + [a];
      FoldEntry(p, t, k);
      var lvl := LevelOr(Fold(p), t);
      StepFacts(Fold(p), a, t);
      assert LevelOr(Fold(acts), t) == IndexLocations(lvl, a, Listed(a.locations, t));
      IndexLocationsAt(lvl, a, Listed(a.locations, t), k);
      RefsSnoc(p, a, t, k);
      if k in lvl {
        AgreesAfter(lvl[k], p, a, t, k);
      } else {
        NoRefsAgrees(p, t, k);
        AgreesAfter(NewEntry, p, a, t, k);
      }
    }
  }

  /** Some reference exists exactly when some activity names the location. */
  lemma {:induction false} RefsFromMention(acts: seq<Activity>, t: string, k: string, i: nat)
    requires i < |acts| && Mentions(acts[i], t, k) > 0
    ensures Refs(acts, t, k) != []
    decreases |acts|
  {
    var p := acts[..|acts| - 1];
    var a := acts[|acts| - 1];
    assert acts == p + [a];
    RefsSnoc(p, a, t, k);
    if i < |p| {
      assert p[i] == acts[i];
      RefsFromMention(p, t, k, i);
    }
  }

  lemma {:induction false} MentionFromRefs(acts: seq<Activity>, t: string, k: string) returns (i: nat)
    requires Refs(acts, t, k) != []
    ensures i < |acts| && Mentions(acts[i], t, k) > 0
    decreases |acts|
  {
    var p := acts[..|acts| - 1];
    var a := acts[|acts| - 1];
    assert acts == p + [a];
    RefsSnoc(p, a, t, k);
    if Mentions(a, t, k) > 0 {
      i := |p|;
    } else {
      assert Refs(p, t, k) + Repeat(RefOf(a), 0) == Refs(p, t, k);
      i := MentionFromRefs(p, t, k);
      assert p[i] == acts[i];
    }
  }

  /** Some reference exists exactly when some activity names the location. */
  lemma RefsNonEmpty(acts: seq<Activity>, t: string, k: string)
    ensures Refs(acts, t, k) != [] <==> exists i :: 0 <= i < |acts| && Mentions(acts[i], t, k) > 0
  {
    if Refs(acts, t, k) != [] {
      var i := MentionFromRefs(acts, t, k);
    }
    if exists i :: 0 <= i < |acts| && Mentions(acts[i], t, k) > 0 {
      var i :| 0 <= i < |acts| && Mentions(acts[i], t, k) > 0;
      RefsFromMention(acts, t, k, i);
    }
  }

  lemma SectorTypeSet()
    ensures KeySet(Keys.SectorTypes) == {"dac", "humanitarian"}
  {
  }

  /** What agreement means for an entry with at least one reference. */
  lemma AgreesMeans(e: Entry, acts: seq<Activity>, t: string, k: string)
    requires EntryAgrees(e, acts, t, k) && e.activities != []
    ensures forall o :: o in e.orgs <==> OrgTotal(acts, t, k, o) > 0
    ensures forall o :: o in e.orgs ==> e.orgs[o] == OrgTotal(acts, t, k, o)
    ensures e.sectors.Keys == {"dac", "humanitarian"}
    ensures forall st, s :: st in e.sectors ==> (s in e.sectors[st] <==> SectorTotal(acts, t, k, st, s) > 0)
    ensures forall st, s :: st in e.sectors && s in e.sectors[st] ==> e.sectors[st][s] == SectorTotal(acts, t, k, st, s)
  {
    SectorTypeSet();
    forall o ensures o in e.orgs <==> OrgTotal(acts, t, k, o) > 0 {
      assert Count(e.orgs, o) == OrgTotal(acts, t, k, o);
    }
    forall st, s | st in e.sectors
      ensures s in e.sectors[st] <==> SectorTotal(acts, t, k, st, s) > 0
      ensures s in e.sectors[st] ==> e.sectors[st][s] == SectorTotal(acts, t, k, st, s)
    {
      assert Count(CountsOf(e.sectors, st), s) == SectorTotal(acts, t, k, st, s);
    }
  }

  /** The index as the source promises it: for a location named by some
      activity at a level, the entry lists the activity once per mention,
      has a counter for exactly the organisations and sectors seen, each
      counter holding its total, and counters for both sector vocabularies. */
  lemma IndexedLocation(acts: seq<Activity>, t: string, k: string)
    requires t in Keys.LocationTypes
    requires exists i :: 0 <= i < |acts| && Mentions(acts[i], t, k) > 0
    ensures t in Fold(acts) && k in Fold(acts)[t]
    ensures var e := Fold(acts)[t][k];
      && e.activities == Refs(acts, t, k)
      && (forall o :: o in e.orgs <==> OrgTotal(acts, t, k, o) > 0)
      && (forall o :: o in e.orgs ==> e.orgs[o] == OrgTotal(acts, t, k, o))
      && e.sectors.Keys == {"dac", "humanitarian"}
      && (forall st, s :: st in e.sectors ==>
            (s in e.sectors[st] <==> SectorTotal(acts, t, k, st, s) > 0))
      && (forall st, s :: st in e.sectors && s in e.sectors[st] ==>
            e.sectors[st][s] == SectorTotal(acts, t, k, st, s))
  {
    RefsNonEmpty(acts, t, k);
    FoldLevels(acts);
    assert t in Fold(acts);
    FoldEntry(acts, t, k);
    AgreesMeans(Fold(acts)[t][k], acts, t, k);
  }

  /** A location no activity names at a level has no entry there. */
  lemma UnnamedLocation(acts: seq<Activity>, t: string, k: string)
    requires t in Keys.LocationTypes
    requires forall i :: 0 <= i < |acts| ==> Mentions(acts[i], t, k) == 0
    ensures k !in LevelOr(Fold(acts), t)
  {
    RefsNonEmpty(acts, t, k);
    FoldEntry(acts, t, k);
  }

  /** A location that is not empty but only whitespace is filed under the
      empty name, whatever activities came before. */
  lemma BlankLocationKey(p: seq<Activity>, a: Activity, t: string, name: string)
    requires t in Keys.LocationTypes && t in a.locations && name in a.locations[t]
    requires name != [] && IsBlank(name)
    ensures t in Fold(p + [a]) && "" in Fold(p + [a])[t]
  {
    StripFacts(name);
    var i :| 0 <= i < |a.locations[t]| && a.locations[t][i] == name;
    HitsPositive(Listed(a.locations, t), "");
    RepeatedMention(p, a, t, "");
  }

  /** Each activity's mentions of a location append that many references to
      the location's entry, after those of the earlier activities. */
  lemma RepeatedMention(p: seq<Activity>, a: Activity, t: string, k: string)
    requires t in Keys.LocationTypes && Mentions(a, t, k) > 0
    ensures t in Fold(p + [a]) && k in Fold(p + [a])[t]
    ensures Fold(p + [a])[t][k].activities
      == Refs(p, t, k) + Repeat(RefOf(a), Mentions(a, t, k))
  {
    FoldLevels(p + [a]);
    RefsSnoc(p, a, t, k);
    FoldEntry(p + [a], t, k);
  }

  /** An activity that names a location twice at one level is listed twice
      in its entry. */
  lemma RepeatedMentionTwice(a: Activity, t: string, name: string)
    requires t in Keys.LocationTypes && name != []
    requires a.locations == map[t := [name, name]]
    ensures t in Fold([a]) && Strip(name) in Fold([a])[t]
    ensures Fold([a])[t][Strip(name)].activities == [RefOf(a), RefOf(a)]
  {
    var k := Strip(name);
    assert Hits([name, name], k) == 2 by {
      assert [name, name][1..] == [name];
      assert [name][1..] == [];
      assert Hits([name], k) == 1;
    }
    assert [] + [a] == [a];
    RepeatedMention([], a, t, k);
  }

  /** One more activity never takes anything away: no level or location
      disappears, no reference list is shortened, and no count goes down. */
  lemma FoldGrows(p: seq<Activity>, a: Activity, t: string, k: string, o: string, st: string, s: string)
    ensures Fold(p).Keys <= Fold(p + [a]).Keys
    ensures k in LevelOr(Fold(p), t) ==>
      && k in LevelOr(Fold(p + [a]), t)
      && LevelOr(Fold(p), t)[k].activities <= LevelOr(Fold(p + [a]), t)[k].activities
      && Count(LevelOr(Fold(p), t)[k].orgs, o) <= Count(LevelOr(Fold(p + [a]), t)[k].orgs, o)
      && Count(CountsOf(LevelOr(Fold(p), t)[k].sectors, st), s)
         <= Count(CountsOf(LevelOr(Fold(p + [a]), t)[k].sectors, st), s)
  {
    FoldLevels(p);
    FoldLevels(p + [a]);
    if k in LevelOr(Fold(p), t) {
      assert t in Keys.LocationTypes;
      FoldEntry(p, t, k);
      FoldEntry(p + [a], t, k);
      RefsSnoc(p, a, t, k);
      OrgTotalSnoc(p, a, t, k, o);
      SectorTotalSnoc(p, a, t, k, st, s);
    }
  }
}
