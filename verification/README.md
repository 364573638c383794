# iati3w-data core, modelled in Dafny

This project models the core of the iati3w-data scripts, which turn humanitarian-activity records into lookup tables and a location index.

- **Text normalisers.** These are `normalise_string`, `make_token` and `fix_location`.
- **List utilities.** These are `add_unique` (with and without a uniqueness key) and `flatten`.
- **Organisation lookup table and lookup.** These are `get_lookup_table` and `lookup_org`.
  - Every key is filed under its token.
  - A name and each synonym are filed too, but only where the token is still free.
  - An unknown name falls back to an `unknown`-scope record and a `Failed lookup |token|` diagnostic.
- **Hierarchical location table and lookup.** These are `get_location_lookup_table` and `lookup_location`.
  - Regions contain districts, and districts contain unclassified sites.
  - Every district and site is stamped with its ancestors' names.
  - Every entry is filed under its key token and its synonym tokens, in a fixed order:
    1. the region, by assignment;
    2. each district, where its token is free;
    3. each site of that district, then the site's synonyms;
    4. the district's synonyms;
    5. last, the region's synonyms.
- **Location index.** This is the main loop of `index-locations.py`.
  - Each activity adds a reference to the entry of every location it names at each level (`admin1`, `admin2`, `unclassified`).
  - Each activity also counts its organisations over the roles `implementing`, `programming` and `funding`.
  - It counts its sectors in the `dac` and `humanitarian` vocabularies.

## Modules

The modules are `Wrappers`, `Keys`, `Text`, `Lists`, `Tables`, `Orgs`, `Locations`, `Tallies` and `LocationIndex`. Each is described below.

- **`Wrappers`**: `Option`, for Python's `None`.
- **`Keys`**: the fixed vocabularies, iati3w_common.py lines 12-15.
- **`Text`**: character classes, `str.strip`, `str.split`, `re.sub` run collapsing, the three normalisers, and their properties.
  - `normalise_string` gives the input's words joined by single spaces, and is idempotent.
  - `make_token` always gives a token: lower-case word characters and single spaces, with no space at either end.
  - `make_token` fixes every token, so it is idempotent, and it ignores letter case.
  - `fix_location` gives the input's words, each capitalised, and is idempotent.
- **`Lists`**: `add_unique` and `flatten`.
  - `flatten` is a method with loops.
  - It is proved against `Dedup(Included(...))`, a reference definition: no repeats, exactly the included elements, in order of first occurrence.
- **`Tables`**: a lookup table as the replay of a log of writes.
  - A write is either an assignment (`table[k] = v`) or a `setdefault`.
  - A builder's log is the concatenation, in file order, of each entry's writes (`Concat`).
  - This module proves, for any log: last assignment wins; with no assignment, the first writer wins; the keys are exactly the written tokens.
- **`Orgs`**:
  - the organisation table, as the replay of each entry's writes in file order;
  - `lookup_org`.
- **`Locations`**:
  - stamping, modelled as a pure pass that returns `None` exactly when a region or district with children has no name (missing, or null);
  - the write log of the hierarchy walk;
  - the table's key set;
  - `lookup_location`.
- **`Tallies`**: the `setdefault(..., 0); += 1` counters, with `Hits` as the reference count.
- **`LocationIndex`**: one activity as `Step`, all activities as `Fold`.
  - Reference definitions: `Refs` (one reference per mention), `OrgTotal` and `SectorTotal`.
  - Theorem: every entry of the folded index equals the reference definitions.

## Precedence in the lookup tables

Both table builders file a key's token by plain assignment, and every other token by `setdefault`:

- an organisation's key token is assigned in `get_lookup_table`, and its name and synonym tokens are set only where still absent;
- a region's key token is assigned in `get_location_lookup_table`, and district, site and synonym tokens are set only where still absent.

So a later organisation key, or a later region key, replaces whatever an earlier entry filed under the same token. This holds even when that earlier entry was a name, a synonym, a district or a site. `Orgs.LastKeyWins` and `Locations.RegionKeyWins` state this. For a token that no key has, the first entry to write it keeps it: `Orgs.FirstProducerWins` and `Locations.FirstWriterWins`.

## Model

| member | source | states |
|---|---|---|
| Text.NormaliseString | iati3w_common.py:42-50 | `None` exactly for the empty string. Otherwise the input's whitespace-separated words joined by single spaces: no whitespace at either end, and never two whitespace characters in a row. `Some("")` exactly for a blank string. |
| Text.NormaliseIdempotent | iati3w_common.py:42-50 | Normalising a normalised (non-empty) string changes nothing. |
| Text.MakeTokenIsToken | iati3w_common.py:52-57 | Every token consists of lower-case word characters and single spaces, with no space at either end. |
| Text.TokenFixed | iati3w_common.py:52-57 | A string that already has the shape of a token is its own token. |
| Text.MakeTokenIdempotent | iati3w_common.py:52-57 | Tokenising a token changes nothing. |
| Text.MakeTokenIgnoresCase | iati3w_common.py:52-57 | Lower-casing a string first does not change its token. |
| Text.MakeToken | iati3w_common.py:52-57 | Collapse each run of non-word characters to one space, lower-case, then strip. Its contract is stated by `Text.MakeTokenIsToken`, `Text.MakeTokenIdempotent`, `Text.MakeTokenIgnoresCase` and `Text.MakeTokenRunsAgree`. |
| Text.MakeTokenRunsAgree | iati3w_common.py:57 | Any two non-empty runs of non-word characters between the same two parts give the same token. |
| Text.MakeTokenExample | iati3w_common.py:52-57 | "New  York" and "new-york" both have the token "new york". |
| Text.FixLocation | iati3w_common.py:59-63 | "" for the empty string. Otherwise the input's words, each capitalised, joined by single spaces. |
| Text.FixLocationIdempotent | iati3w_common.py:59-63 | Fixing a fixed location changes nothing. |
| Text.StripFacts | index-locations.py:52 | The stripped string is the slice of the input that starts after its leading whitespace. Everything before and after that slice is whitespace. The result has no whitespace at either end, and it is empty exactly when the input was blank. |
| Text.Strip | index-locations.py:52 | `str.strip()`. Its contract is stated by `Text.StripFacts`. |
| Lists.AddUnique | iati3w_common.py:27-34 | The list comes back unchanged or with the element appended. It is appended exactly when the element is not blank and not listed. Afterwards the element is listed exactly when it was already listed or is not blank. |
| Lists.AddUniqueKeepsDistinct | iati3w_common.py:22-40 | A list without repeats stays without repeats. |
| Lists.AddUniqueIdempotent | iati3w_common.py:22-40 | Adding the same element twice is the same as adding it once. |
| Lists.AddAllFacts | iati3w_common.py:22-40 | Adding a list of elements in turn keeps the old list as a prefix. It adds exactly the non-blank elements not already present, and never creates a repeat. |
| Lists.AddUniqueBy | iati3w_common.py:35-38 | The keyed variant never removes or reorders records. It appends at most the given record. |
| Lists.AddUniqueByAppends | iati3w_common.py:35-38 | A record is appended exactly when it has a non-blank value for the key that no listed record holds. If that value is the text "None", every listed record must also have the key. |
| Lists.AddUniqueByKeepsDistinct | iati3w_common.py:35-38 | A list whose records all hold distinct values for the key keeps that property. |
| Lists.AddUniqueByOnKeyedList | iati3w_common.py:35-38 | On such a list, a record is appended exactly when its key value is non-blank and new. |
| Lists.AddUniqueByNoneText | iati3w_common.py:36-37 | A record holding the text "None" for the key leaves the list unchanged whenever some listed record lacks the key. |
| Lists.Flatten | iati3w_common.py:65-74 | The result holds, without repeats, exactly the elements listed under keys not excluded. They appear in the order of their first occurrence, taking keys in order. |
| Lists.DedupFacts | iati3w_common.py:65-74 | The reference deduplication keeps every element once, in order of first occurrence. |
| Lists.IncludedMembers | iati3w_common.py:65-74 | An element is included exactly when some key outside the exclusions lists it. |
| Tables.Perform | iati3w_common.py:107-111 | An assignment always stores its value. A setdefault stores only where the token is absent. No other key changes. |
| Tables.ReplayKeys | iati3w_common.py:106-111 | The table's keys are the starting keys plus every written token. |
| Tables.ReplayLastAssign | iati3w_common.py:106-111 | The last assignment to a token decides its value when only setdefaults follow it. |
| Tables.ReplayFirstWriter | iati3w_common.py:106-111 | A token that is never assigned and starts absent holds the value of its first write. |
| Tables.ReplayValues | iati3w_common.py:106-111 | Every value in the table was already there or was written to that token. |
| Tables.InsertNamesFacts | iati3w_common.py:110-111 | Filing a synonym list touches exactly the synonyms' tokens, never assigns, and writes only the entry. |
| Tables.ConcatSplit | iati3w_common.py:106-111 | The writes of a list of entries are those of the entries before entry `i`, then entry `i`'s own, then those of the entries after it. |
| Orgs.EntryFacts | iati3w_common.py:106-111 | One entry writes exactly its key, name and synonym tokens. It writes only itself. It assigns only its key token. |
| Orgs.EntryWrites | iati3w_common.py:107-111 | One entry's writes: the key token by assignment, then the name token and each synonym token by setdefault. Its contract is stated by `Orgs.EntryFacts` and `Orgs.EntryHead`. |
| Orgs.EntryHead | iati3w_common.py:107-111 | An entry's first write assigns its key token. None of its later writes is an assignment. |
| Orgs.MapWrites | iati3w_common.py:106-111 | The entries' writes in file order. Its contract is stated by `Orgs.MapTokens`, `Orgs.LastKeyWins` and `Orgs.FirstProducerWins`. |
| Orgs.MapTokens | iati3w_common.py:106-111 | The writes touch a token exactly when some entry's key, name or synonym has that token. |
| Orgs.GetLookupTable | iati3w_common.py:97-113 | Every key's token is in the table. |
| Orgs.LookupTableKeys | iati3w_common.py:106-111 | A token is in the table exactly when some entry's key, name or synonym has that token. |
| Orgs.LastKeyWins | iati3w_common.py:106-107 | An entry whose key token no later key shares is what the table holds under that token. |
| Orgs.FirstProducerWins | iati3w_common.py:106-111 | A token that no key has goes to the first entry whose name or synonym has it. |
| Orgs.LookupOrg | iati3w_common.py:116-133 | No result exactly for a missing or blank name. On a hit, the table entry without a diagnostic. On a miss, a record whose name is the normalised name and whose scope is "unknown", with a diagnostic naming the token that failed. |
| Orgs.LookupOrgFindsKey | iati3w_common.py:116-126 | A name with the token of the last entry using that key token resolves to that entry. |
| Orgs.LookupOrgByToken | iati3w_common.py:123-126 | Two names with the same token get the same diagnostic, and the same entry on a hit. |
| Orgs.LookupOrgIgnoresCase | iati3w_common.py:116-133 | Letter case changes neither whether nor to what a name resolves. |
| Locations.StampDistrict | iati3w_common.py:158-168 | Fails exactly when the district has sites but no name (missing, or null). Otherwise its `admin1` becomes the region's name. Each site gets the region's and the district's names as `admin1`/`admin2`. |
| Locations.StampRegion | iati3w_common.py:151-168 | Fails exactly when the region, or one of its districts, has children but no name (missing, or null). Otherwise only the children change, each stamped. |
| Locations.StampMap | iati3w_common.py:151-168 | Fails exactly when some region fails. Otherwise keys and order are kept and every region is stamped. |
| Locations.StampMapStamped | iati3w_common.py:158-168 | After a successful build, every district carries its region's name, and every site its region's and district's names. Names and synonyms are unchanged. |
| Locations.SiteWrites | iati3w_common.py:164-172 | A site's writes: its key token, then each synonym token, all by setdefault. Its contract is stated by `Locations.SiteTokens`. |
| Locations.SiteTokens | iati3w_common.py:164-172 | A site's writes touch exactly its key token and its synonym tokens. |
| Locations.DistrictWrites | iati3w_common.py:158-176 | A district's writes: its key token, then each of its sites' writes, then its synonym tokens, all by setdefault. Its contract is stated by `Locations.DistrictTokens`. |
| Locations.DistrictTokens | iati3w_common.py:158-176 | A district's writes touch exactly its key token, its synonym tokens and its sites' tokens. |
| Locations.RegionWrites | iati3w_common.py:151-180 | A region's writes: its key token by assignment, then its districts' writes, then its synonym tokens by setdefault. Its contract is stated by `Locations.RegionTokens` and `Locations.RegionHead`. |
| Locations.RegionTokens | iati3w_common.py:151-180 | A region's writes touch exactly the tokens of its key, its synonyms, and its districts and sites. |
| Locations.RegionHead | iati3w_common.py:154-155 | A region's first write assigns its key token. None of its later writes is an assignment. |
| Locations.MapTokens | iati3w_common.py:151-180 | The walk touches a token exactly when some key or synonym, at some level, has that token. |
| Locations.GetLocationLookupTable | iati3w_common.py:142-182 | The build fails exactly when some region or district has children but no name (missing, or null). |
| Locations.RegionKeyWins | iati3w_common.py:151-155 | A region whose key token no later region shares is what the table holds under that token, stamped. |
| Locations.LastRegionHolds | iati3w_common.py:151-180 | In the table replayed from a stamped map, a region's key token holds that region unless a later region has the same key token. |
| Locations.FirstWriterWins | iati3w_common.py:151-180 | In the table built from the stamped map, a token that no region key has goes to its first writer in walk order. |
| Locations.StampMapMentions | iati3w_common.py:158-168 | Stamping keeps every key and synonym at every level, so the map mentions the same tokens before and after. |
| Locations.StampedTableKeys | iati3w_common.py:151-180 | The table replayed from a stamped map holds exactly the tokens of its keys and synonyms, at every level. |
| Locations.LocationTableKeys | iati3w_common.py:151-180 | A token is in the table exactly when some key or synonym, at some level, has that token. |
| Locations.LookupLocation | iati3w_common.py:185-196 | No result exactly for a missing or blank name. On a hit, the table entry. On a miss, a record at the requested level whose name is the normalised name. |
| Locations.LookupLocationFindsRegion | iati3w_common.py:185-196 | A name with the token of the last region using that key token resolves to that region, stamped. |
| Locations.LookupLocationMiss | iati3w_common.py:193-196 | Without a level, an unknown name comes back at level "unclassified", with its words joined by single spaces. |
| Locations.LookupLocationByToken | iati3w_common.py:193 | Two names with the same known token resolve to the same entry. |
| Locations.LookupLocationIgnoresCase | iati3w_common.py:185-196 | Letter case changes neither whether nor to what a name resolves. |
| Tallies.TallyCounts | index-locations.py:73-78 | Each counter grows by exactly the number of non-empty names that strip to it. No counter sits at zero. |
| Tallies.Bump | index-locations.py:74-78 | One name: skipped when empty; otherwise its stripped form's counter is created at zero if absent and raised by one. Its contract is stated through `Tallies.TallyCounts`. |
| Tallies.Tally | index-locations.py:73-78 | `Bump` over a list, in order. Its contract is stated by `Tallies.TallyCounts`. |
| Tallies.HitsPositive | index-locations.py:73-78 | A name is counted exactly when some non-empty listed name strips to it. |
| Tallies.TallyRolesCounts | index-locations.py:72-78 | Over all roles, each organisation counter grows by its hits summed over the roles' lists. |
| Tallies.RoleHitsIgnoresOtherRoles | index-locations.py:72-73 | Organisations listed under any other role are not counted. |
| Tallies.TallySectorsFacts | index-locations.py:81-88 | Every vocabulary gets counters, even with no sectors. Each counter grows by its hits. Other vocabularies are untouched. |
| LocationIndex.IndexLocationsAt | index-locations.py:45-62 | Only non-empty stripped names get entries. Each entry is the old one, or a fresh one, with the activity added once per mention. |
| LocationIndex.AddActivity | index-locations.py:64-88 | One mention: the activity's reference appended, its organisations counted over the roles, its sectors counted per vocabulary. Its contract is stated, for any number of mentions, by the `AddTimes` lemmas below. |
| LocationIndex.AddTimesActivities | index-locations.py:64-69 | `n` mentions append `n` references to the activity, after the old ones. |
| LocationIndex.AddTimesOrgs | index-locations.py:71-78 | `n` mentions raise each organisation counter by `n` times the activity's hits for it. |
| LocationIndex.AddTimesSectors | index-locations.py:80-88 | `n` mentions raise each sector counter of a vocabulary by `n` times the activity's hits for it. |
| LocationIndex.AddTimesVocabularies | index-locations.py:81-82 | At least one mention gives the entry counters for every vocabulary. |
| LocationIndex.AddTimesWellformed | index-locations.py:77-88 | Mentions never leave a counter at zero. |
| LocationIndex.Step | index-locations.py:37-88 | One activity over all three levels. Its contract is stated by `LocationIndex.StepFacts` and `LocationIndex.IndexLocationsAt`. |
| LocationIndex.StepFacts | index-locations.py:37-40 | After one activity, all three levels exist. Each level is indexed once, from that level's location list. |
| LocationIndex.FoldLevels | index-locations.py:32-40 | The index is empty with no activities. Otherwise it has exactly the three levels. |
| LocationIndex.Fold | index-locations.py:32-88 | The activities in file order. Its contract is stated by `LocationIndex.FoldLevels`, `LocationIndex.FoldEntry` and `LocationIndex.FoldGrows`. |
| LocationIndex.FoldGrows | index-locations.py:32-88 | One more activity removes no level and no location, shortens no reference list, and lowers no organisation or sector count. |
| LocationIndex.FoldEntry | index-locations.py:32-88 | A location has an entry exactly when some activity names it. The entry agrees with the reference references and totals. |
| LocationIndex.IndexedLocation | index-locations.py:32-88 | A named location's entry lists one reference per mention, in activity order. It has counters for exactly the organisations and sectors with a positive total, each holding that total, and counters for exactly `dac` and `humanitarian`. |
| LocationIndex.UnnamedLocation | index-locations.py:45-59 | A location that no activity names has no entry. |
| LocationIndex.BlankLocationKey | index-locations.py:47-55 | A non-empty all-whitespace location is filed under the empty name, whatever activities came before. |
| LocationIndex.RepeatedMention | index-locations.py:45-69 | An activity that names a location `n` times at a level, `n` > 0, leaves it with an entry whose references end with `n` references to that activity, after those of the earlier activities. |
| LocationIndex.RepeatedMentionTwice | index-locations.py:45-69 | An activity that names a location twice is listed twice in its entry. |

## A note on the verifier

Dafny 4.11 with its bundled Z3 can derive `false` from a context that holds both `StampMap(m) == Some(sm)` and a write-log term over `sm`, such as `MapWrites(sm)`. Such contexts are satisfiable; a map with one childless region is an instance. So the verifier's acceptance of a member whose contract holds both is no evidence on its own. Four members are in that position:

- `Locations.GetLocationLookupTable` (its postcondition);
- `Locations.RegionKeyWins`;
- `Locations.LocationTableKeys`;
- `Locations.LookupLocationFindsRegion`.

Their content is carried by lemmas stated on the stamped map alone, or on stamping alone, which do not combine the two:

- `Locations.LastRegionHolds` and `Locations.FirstWriterWins` for the values;
- `Locations.MapTokens` and `Locations.StampedTableKeys` for the key set;
- `Locations.StampMap`, `Locations.StampMapStamped` and `Locations.StampMapMentions` for stamping.

Each of the four members only puts those facts together.

## Left out

- **I/O.** Reading JSON files (`get_dataset`), writing the index as JSON, and the command line are not modelled.
- **Caches and partial tables.** `get_lookup_table` and `get_location_lookup_table` cache their result. Only the computation is modelled; the caches themselves are not. If `KeyError` interrupts a location build, the source keeps the partial table in its cache. The model returns `None` for the whole build instead.
- **Stderr.** The `Failed lookup` line that `lookup_org` writes to stderr is returned as a diagnostic string.
- **Table order.** Dict ordering of the built tables is not observable through lookups. The tables are Dafny maps.
- **Index key order.** The index is written as JSON whose key order follows insertion: the levels in their fixed order, locations in the order first seen, organisations and sectors in the order first counted. The index is a Dafny map, so that order is not modelled.
- **ASCII character classes.** `\w`, `str.lower`, `str.upper` and `capwords` are modelled on ASCII only. Whitespace is the ASCII set (tab to carriage return, the separators 0x1C-0x1F and space). Unicode letters and Unicode spaces are treated as non-word characters and as non-space.
- **`is_empty`.** hxl's `is_empty` on a string is modelled as "empty or only whitespace".
- **Non-string values.** Organisation and location names are strings. A null org name would crash at `make_token`; a null region or district name is covered by the next line. The `str()` of non-string values in `add_unique` and `lookup_org` is not modelled: `add_unique` elements are strings, or records with string values.
- **Null region and district names.** The source reads a null `name` as `None`, stamps the children with a null `admin1` or `admin2`, and completes the build. The model treats a null name like a missing one: `Locations.StampDistrict`, `Locations.StampRegion`, `Locations.StampMap` and `Locations.GetLocationLookupTable` report a failed build, where the source builds a table whose records carry null ancestor names.
- **Nulls in activity lists.** A null in an activity's location, organisation or sector list is represented as the empty string. Both are falsy and skipped.
- **Malformed activities.** Activities are assumed to carry `identifier`, `title`, `source`, `locations`, `orgs` and `sectors`. A missing field raises `KeyError` in the source.
- **Absent synonyms.** An entry without `synonyms` has `[]`.
- **Stamping by mutation.** Stamping mutates the shared dataset records in place. It is modelled as a pure pass over the hierarchy before the walk. This gives the same final records, because every table value is read after the build.
- Lists.AddUniqueBy: the function's own ensures only says that the list is kept or the record appended. The exact condition is stated by `Lists.AddUniqueByAppends`.
- Orgs.GetLookupTable: the function's own ensures only says that key tokens are present. The full key set is `Orgs.LookupTableKeys`, and the values are `Orgs.LastKeyWins` and `Orgs.FirstProducerWins`.
