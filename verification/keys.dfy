/** The fixed vocabularies shared by every script (iati3w_common.py, lines 9-15). */
module Keys {

  /** Organisation roles that are counted; any other role is ignored. */
  const Roles: seq<string> := ["implementing", "programming", "funding"]

  /** Organisation scopes; an organisation that cannot be resolved gets the
      last one, `UnknownScope`. */
  const Scopes: seq<string> := ["local", "regional", "international", "unknown"]
  const UnknownScope: string := Scopes[3]

  /** Sector vocabularies that every location index entry carries. */
  const SectorTypes: seq<string> := ["dac", "humanitarian"]

  /** Sub-national location levels, in the order the index is built. */
  const LocationTypes: seq<string> := ["admin1", "admin2", "unclassified"]

  /** The level given to a location name that the lookup table does not know. */
  const DefaultLevel: string := "unclassified"

  /** No vocabulary lists the same key twice. */
  predicate Distinct(keys: seq<string>) {
    forall i, j :: 0 <= i < j < |keys| ==> keys[i] != keys[j]
  }
}
