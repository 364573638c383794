/** The counters of the location index (index-locations.py, lines 71-88):
    every non-empty name is stripped and its counter is raised by one, the
    counter being created at zero on first sight. */
module Tallies {
  import opened Text
  import Keys

  /** Name to number of times seen. */
  type Counts = map<string, nat>

  /** Counters per sector vocabulary. */
  type SectorCounts = map<string, Counts>

  /** A counter's value, zero when it has not been created. */
  function Count(c: Counts, k: string): nat {
    if k in c then c[k] else 0
  }

  /** Every counter that exists has been raised at least once. */
  predicate Positive(c: Counts) {
    forall k :: k in c ==> c[k] >= 1
  }

  predicate AllPositive(s: SectorCounts) {
    forall st :: st in s ==> Positive(s[st])
  }

  /** `m.get(key, [])`. */
  function Listed(m: map<string, seq<string>>, key: string): seq<string> {
    if key in m then m[key] else []
  }

  /** The counters of one vocabulary, empty when not yet created. */
  function CountsOf(s: SectorCounts, st: string): Counts {
    if st in s then s[st] else map[]
  }

  /** The elements of a key list, as a set. */
  function KeySet(keys: seq<string>): set<string> {
    set k | k in keys
  }

  // ---------------------------------------------------------------------------
  // Counting one list
  // ---------------------------------------------------------------------------

  /** How many names in `names` are non-empty and strip to `k`: the
      reference count. */
  function Hits(names: seq<string>, k: string): nat
    decreases |names|
  {
    if names == [] then 0
    else (if names[0] != [] && Strip(names[0]) == k then 1 else 0) + Hits(names[1..], k)
  }

  /** A name is counted exactly when some non-empty name strips to it. */
  lemma {:induction false} HitsPositive(names: seq<string>, k: string)
    ensures Hits(names, k) > 0 <==> exists i :: 0 <= i < |names| && names[i] != [] && Strip(names[i]) == k
    decreases |names|
  {
    if names != [] {
      HitsPositive(names[1..], k);
      if exists i :: 0 <= i < |names| && names[i] != [] && Strip(names[i]) == k {
        var i :| 0 <= i < |names| && names[i] != [] && Strip(names[i]) == k;
        if i > 0 {
          assert names[1..][i - 1] == names[i];
        }
      } else {
        assert !(names[0] != [] && Strip(names[0]) == k);
        forall i | 0 <= i < |names[1..]| ensures !(names[1..][i] != [] && Strip(names[1..][i]) == k) {
          assert names[1..][i] == names[i + 1];
        }
      }
    }
  }

  /** One name: skipped when empty, else its stripped counter goes up by one. */
  function Bump(c: Counts, name: string): Counts {
    if name == [] then c
    else
      var k := Strip(name);
      c[k := Count(c, k) + 1]
  }

  /** Bump every name of a list, in order. */
  function Tally(c: Counts, names: seq<string>): Counts
    decreases |names|
  {
    if names == [] then c else Tally(Bump(c, names[0]), names[1..])
  }

  /** After tallying, each counter has grown by exactly its number of hits,
      and no counter at zero is created. */
  lemma {:induction false} TallyCounts(c: Counts, names: seq<string>, k: string)
    ensures Count(Tally(c, names), k) == Count(c, k) + Hits(names, k)
    ensures Positive(c) ==> Positive(Tally(c, names))
    decreases |names|
  {
    if names != [] {
      TallyCounts(Bump(c, names[0]), names[1..], k);
    }
  }

  // ---------------------------------------------------------------------------
  // Organisations, over every role
  // ---------------------------------------------------------------------------

  /** Hits of `k` summed over the lists of every role in `roles`. */
  function RoleHits(m: map<string, seq<string>>, roles: seq<string>, k: string): nat
    decreases |roles|
  {
    if roles == [] then 0 else Hits(Listed(m, roles[0]), k) + RoleHits(m, roles[1..], k)
  }

  /** Tally the organisation list of each role in turn. */
  function TallyRoles(c: Counts, m: map<string, seq<string>>, roles: seq<string>): Counts
    decreases |roles|
  {
    if roles == [] then c else TallyRoles(Tally(c, Listed(m, roles[0])), m, roles[1..])
  }

  lemma {:induction false} TallyRolesCounts(c: Counts, m: map<string, seq<string>>, roles: seq<string>, k: string)
    ensures Count(TallyRoles(c, m, roles), k) == Count(c, k) + RoleHits(m, roles, k)
    ensures Positive(c) ==> Positive(TallyRoles(c, m, roles))
    decreases |roles|
  {
    if roles != [] {
      TallyCounts(c, Listed(m, roles[0]), k);
      TallyRolesCounts(Tally(c, Listed(m, roles[0])), m, roles[1..], k);
    }
  }

  /** Organisations listed under a role outside `roles` are not counted. */
  lemma {:induction false} RoleHitsIgnoresOtherRoles(m: map<string, seq<string>>, roles: seq<string>, role: string, names: seq<string>, k: string)
    requires role !in roles
    ensures RoleHits(m[role := names], roles, k) == RoleHits(m, roles, k)
    decreases |roles|
  {
    if roles != [] {
      RoleHitsIgnoresOtherRoles(m, roles[1..], role, names, k);
    }
  }

  // ---------------------------------------------------------------------------
  // Sectors, per vocabulary
  // ---------------------------------------------------------------------------

  /** For each vocabulary in turn: create its counters if needed, then tally
      its sector list. */
  function TallySectors(s: SectorCounts, m: map<string, seq<string>>, types: seq<string>): SectorCounts
    decreases |types|
  {
    if types == [] then s
    else
      var st := types[0];
      TallySectors(s[st := Tally(CountsOf(s, st), Listed(m, st))], m, types[1..])
  }

  lemma DistinctTail(types: seq<string>)
    requires |types| > 0 && Keys.Distinct(types)
    ensures Keys.Distinct(types[1..]) && types[0] !in types[1..]
  {
  }

  /** Every listed vocabulary gets counters, even with no sectors; each of
      its counters grows by its hits; other vocabularies are left alone. */
  lemma {:induction false} TallySectorsFacts(s: SectorCounts, m: map<string, seq<string>>, types: seq<string>, st: string, k: string)
    requires Keys.Distinct(types)
    ensures TallySectors(s, m, types).Keys == s.Keys + KeySet(types)
    ensures st in types ==>
      Count(CountsOf(TallySectors(s, m, types), st), k) == Count(CountsOf(s, st), k) + Hits(Listed(m, st), k)
    ensures st !in types ==> CountsOf(TallySectors(s, m, types), st) == CountsOf(s, st)
    decreases |types|
  {
    if types != [] {
      DistinctTail(types);
      var s' := s[types[0] := Tally(CountsOf(s, types[0]), Listed(m, types[0]))];
      TallySectorsFacts(s', m, types[1..], st, k);
      TallyCounts(CountsOf(s, types[0]), Listed(m, types[0]), k);
      assert KeySet(types) == {types[0]} + KeySet(types[1..]);
    }
  }

  lemma {:induction false} TallySectorsPositive(s: SectorCounts, m: map<string, seq<string>>, types: seq<string>)
    requires AllPositive(s)
    ensures AllPositive(TallySectors(s, m, types))
    decreases |types|
  {
    if types != [] {
      var st := types[0];
      TallyCounts(CountsOf(s, st), Listed(m, st), "");
      TallySectorsPositive(s[st := Tally(CountsOf(s, st), Listed(m, st))], m, types[1..]);
    }
  }
}
