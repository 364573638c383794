/** The organisation lookup table of iati3w_common.py (`get_lookup_table`,
    lines 97-113) and the organisation lookup built on it (`lookup_org`,
    lines 116-133). */
module Orgs {
  import opened Wrappers
  import opened Text
  import opened Tables
  import Keys

  /** The fields of an organisation-map entry that the code reads or that a
      lookup hands back. An entry without a `synonyms` list has `[]`. */
  datatype OrgInfo = OrgInfo(name: Option<string>, scope: Option<string>, synonyms: seq<string>)

  /** The organisation map as read from its JSON file: keys and entries in
      file order. */
  type OrgMap = seq<(string, OrgInfo)>

  /** The token an entry's own key goes under. */
  function KeyToken(e: (string, OrgInfo)): string {
    MakeToken(e.0)
  }

  /** True when entry `e` writes token `k`: through its key, its name or one
      of its synonyms. */
  predicate Produces(e: (string, OrgInfo), k: string) {
    || KeyToken(e) == k
    || (e.1.name.Some? && MakeToken(e.1.name.value) == k)
    || k in NameTokens(e.1.synonyms)
  }

  /** The writes one entry makes: its key token assigned, then its name and
      synonym tokens set only where still absent. */
  function EntryWrites(e: (string, OrgInfo)): seq<Write<OrgInfo>> {
    [Assign(KeyToken(e), e.1)]
    + (if e.1.name.Some? then [InsertIfAbsent(MakeToken(e.1.name.value), e.1)] else [])
    + InsertNames(e.1.synonyms, e.1)
  }

  /** The writes of the whole map, entry by entry. */
  function MapWrites(m: OrgMap): seq<Write<OrgInfo>> {
    Concat(m, EntryWrites)
  }

  /** `get_lookup_table(path)` on the map read from `path`. */
  function GetLookupTable(m: OrgMap): (table: map<string, OrgInfo>)
    ensures forall i :: 0 <= i < |m| ==> KeyToken(m[i]) in table
  {
    var ws := MapWrites(m);
    ReplayKeys(map[], ws);
    forall i | 0 <= i < |m| ensures KeyToken(m[i]) in Tokens(ws) {
      MapTokens(m, KeyToken(m[i]), i);
    }
    Replay(map[], ws)
  }

  /** The outcome of `lookup_org`: the entry returned, and the line written
      to standard error on a failed lookup. */
  datatype OrgLookup = OrgLookup(org: Option<OrgInfo>, diagnostic: Option<string>)

  /** `lookup_org(name)` against the organisation table. */
  function LookupOrg(name: Option<string>, table: map<string, OrgInfo>): (r: OrgLookup)
    ensures r.org.None? <==> name.None? || IsBlank(name.value)
    ensures r.org.None? ==> r.diagnostic.None?
    ensures r.org.Some? && MakeToken(name.value) in table ==>
      r.org.value == table[MakeToken(name.value)] && r.diagnostic.None?
    ensures r.org.Some? && MakeToken(name.value) !in table ==>
      && r.org.value.scope == Some(Keys.UnknownScope)
      && r.org.value.name == NormaliseString(name.value)
      && r.org.value.name.Some? && r.org.value.name.value != []
      && IsNormal(r.org.value.name.value)
      && r.diagnostic == Some("Failed lookup |" + MakeToken(name.value) + "|")
  {
    if name.None? || IsBlank(name.value) then OrgLookup(None, None)
    else
      var token := MakeToken(name.value);
      if token in table then OrgLookup(Some(table[token]), None)
      else OrgLookup(Some(OrgInfo(NormaliseString(name.value), Some(Keys.UnknownScope), [])),
                     Some("Failed lookup |" + token + "|"))
  }

  // ---------------------------------------------------------------------------
  // The write log of the map
  // ---------------------------------------------------------------------------

  lemma EntryFacts(e: (string, OrgInfo), k: string)
    ensures k in Tokens(EntryWrites(e)) <==> Produces(e, k)
    ensures AllWrite(EntryWrites(e), k, e.1)
    ensures KeyToken(e) != k ==> NoAssign(EntryWrites(e), k)
  {
    var a := [Assign(KeyToken(e), e.1)];
    var b: seq<Write<OrgInfo>> := if e.1.name.Some? then [InsertIfAbsent(MakeToken(e.1.name.value), e.1)] else [];
    var c := InsertNames(e.1.synonyms, e.1);
    InsertNamesFacts(e.1.synonyms, e.1);
    TokensAppend(a, b);
    TokensAppend(a + b, c);
    TokensOne(a[0]);
    if e.1.name.Some? {
      TokensOne(b[0]);
    }
    AllWriteAppend(a, b, k, e.1);
    AllWriteAppend(a + b, c, k, e.1);
    NoAssignAppend(a, b, k);
    NoAssignAppend(a + b, c, k);
  }

  /** Token `k` is written by the map exactly when some entry produces it;
      `i` names one that does, when there is one. */
  lemma {:induction false} MapTokens(m: OrgMap, k: string, i: nat)
    ensures k in Tokens(MapWrites(m)) <==> exists j :: 0 <= j < |m| && Produces(m[j], k)
    ensures i < |m| && Produces(m[i], k) ==> k in Tokens(MapWrites(m))
    decreases |m|
  {
    if m != [] {
      MapTokens(m[1..], k, if i == 0 then 0 else i - 1);
      EntryFacts(m[0], k);
      TokensAppend(EntryWrites(m[0]), MapWrites(m[1..]));
      if exists j :: 0 <= j < |m| && Produces(m[j], k) {
        var j :| 0 <= j < |m| && Produces(m[j], k);
        if j > 0 {
          assert m[1..][j - 1] == m[j];
        }
      }
      if exists j :: 0 <= j < |m[1..]| && Produces(m[1..][j], k) {
        var j :| 0 <= j < |m[1..]| && Produces(m[1..][j], k);
        assert m[j + 1] == m[1..][j];
      }
      if i > 0 && i < |m| {
        assert m[1..][i - 1] == m[i];
      }
    }
  }

  /** Only entry keys are assigned. */
  lemma {:induction false} MapNoAssign(m: OrgMap, k: string)
    requires forall j :: 0 <= j < |m| ==> KeyToken(m[j]) != k
    ensures NoAssign(MapWrites(m), k)
    decreases |m|
  {
    if m != [] {
      EntryFacts(m[0], k);
      assert forall j :: 0 <= j < |m[1..]| ==> m[1..][j] == m[j + 1];
      MapNoAssign(m[1..], k);
      NoAssignAppend(EntryWrites(m[0]), MapWrites(m[1..]), k);
    }
  }

  // ---------------------------------------------------------------------------
  // What the table holds
  // ---------------------------------------------------------------------------

  /** The table's tokens are exactly the tokens of the map's keys, names and
      synonyms. */
  lemma LookupTableKeys(m: OrgMap, k: string)
    ensures k in GetLookupTable(m) <==> exists i :: 0 <= i < |m| && Produces(m[i], k)
  {
    ReplayKeys(map[], MapWrites(m));
    MapTokens(m, k, 0);
  }

  /** An entry's writes start with its key's assignment, and assign nothing
      else. */
  lemma EntryHead(e: (string, OrgInfo), k: string)
    ensures EntryWrites(e)[0] == Assign(KeyToken(e), e.1)
    ensures NoAssign(EntryWrites(e)[1..], k)
  {
    var b: seq<Write<OrgInfo>> := if e.1.name.Some? then [InsertIfAbsent(MakeToken(e.1.name.value), e.1)] else [];
    var c := InsertNames(e.1.synonyms, e.1);
    InsertNamesFacts(e.1.synonyms, e.1);
    ConsParts(Assign(KeyToken(e), e.1), b, c);
    NoAssignAppend(b, c, k);
  }

  /** A key's token belongs to the last entry whose key has that token: a
      later key overwrites whatever an earlier key, name or synonym put
      there. */
  lemma LastKeyWins(m: OrgMap, i: nat)
    requires i < |m|
    requires forall j :: i < j < |m| ==> KeyToken(m[j]) != KeyToken(m[i])
    ensures GetLookupTable(m)[KeyToken(m[i])] == m[i].1
  {
    var k := KeyToken(m[i]);
    var pre := MapWrites(m[..i]);
    var mid := EntryWrites(m[i]);
    var post := MapWrites(m[i + 1..]);
    ConcatSplit(m, EntryWrites, i);
    var t1 := Replay(map[], pre);
    EntryHead(m[i], k);
    ReplayLastAssign(t1, mid, k, 0);
    var t2 := Replay(t1, mid);
    var later := m[i + 1..];
    forall j | 0 <= j < |later| ensures KeyToken(later[j]) != k {
      assert later[j] == m[i + 1 + j];
    }
    MapNoAssign(later, k);
    ReplayKeeps(t2, post, k);
    ReplayAppend(map[], pre, mid);
    ReplayAppend(map[], pre + mid, post);
  }

  /** A token that is no entry's key token belongs to the first entry, in map
      order, whose name or synonyms produce it: names and synonyms never
      overwrite. */
  lemma FirstProducerWins(m: OrgMap, k: string, i: nat)
    requires forall j :: 0 <= j < |m| ==> KeyToken(m[j]) != k
    requires i < |m| && Produces(m[i], k)
    requires forall j :: 0 <= j < i ==> !Produces(m[j], k)
    ensures k in GetLookupTable(m) && GetLookupTable(m)[k] == m[i].1
  {
    var pre := MapWrites(m[..i]);
    var mid := EntryWrites(m[i]);
    var post := MapWrites(m[i + 1..]);
    ConcatSplit(m, EntryWrites, i);
    MapTokens(m[..i], k, 0);
    ReplayUntouched(map[], pre, k);
    var t1 := Replay(map[], pre);
    EntryFacts(m[i], k);
    ReplayUniform(t1, mid, k, m[i].1);
    var t2 := Replay(t1, mid);
    var later := m[i + 1..];
    forall j | 0 <= j < |later| ensures KeyToken(later[j]) != k {
      assert later[j] == m[i + 1 + j];
    }
    MapNoAssign(later, k);
    ReplayKeeps(t2, post, k);
    ReplayAppend(map[], pre, mid);
    ReplayAppend(map[], pre + mid, post);
  }

  // ---------------------------------------------------------------------------
  // Lookups
  // ---------------------------------------------------------------------------

  /** Looking up a name whose token is the last key with that token returns
      that key's entry, with no diagnostic. */
  lemma LookupOrgFindsKey(m: OrgMap, i: nat, name: string)
    requires i < |m| && !IsBlank(name) && MakeToken(name) == KeyToken(m[i])
    requires forall j :: i < j < |m| ==> KeyToken(m[j]) != KeyToken(m[i])
    ensures LookupOrg(Some(name), GetLookupTable(m)) == OrgLookup(Some(m[i].1), None)
  {
    LastKeyWins(m, i);
  }

  /** Lookup sees only the token: two non-blank names with the same token
      get the same hit or the same diagnostic. */
  lemma LookupOrgByToken(a: string, b: string, table: map<string, OrgInfo>)
    requires !IsBlank(a) && !IsBlank(b) && MakeToken(a) == MakeToken(b)
    ensures LookupOrg(Some(a), table).diagnostic == LookupOrg(Some(b), table).diagnostic
    ensures MakeToken(a) in table ==> LookupOrg(Some(a), table) == LookupOrg(Some(b), table)
  {
  }

  /** Letter case never changes which entry a name resolves to. */
  lemma LookupOrgIgnoresCase(name: string, table: map<string, OrgInfo>)
    ensures LookupOrg(Some(LowerAll(name)), table).org.None? == LookupOrg(Some(name), table).org.None?
    ensures LookupOrg(Some(LowerAll(name)), table).diagnostic == LookupOrg(Some(name), table).diagnostic
    ensures MakeToken(name) in table ==> LookupOrg(Some(LowerAll(name)), table) == LookupOrg(Some(name), table)
  {
    LowerAllBlank(name);
    MakeTokenIgnoresCase(name);
  }
}
