/** The list utilities of iati3w_common.py: `add_unique`, with and without a
    uniqueness key, and `flatten`. Python's in-place list mutation is
    modelled by returning the new list. */
module Lists {
  import opened Text

  // ---------------------------------------------------------------------------
  // Sequences without repeats
  // ---------------------------------------------------------------------------

  /** No element occurs twice. */
  predicate NoDups<T(==)>(s: seq<T>) {
    forall i, j :: 0 <= i < j < |s| ==> s[i] != s[j]
  }

  lemma NoDupsSnoc<T>(s: seq<T>, x: T)
    requires NoDups(s) && x !in s
    ensures NoDups(s + [x])
  {
    forall i, j | 0 <= i < j < |s + [x]| ensures (s + [x])[i] != (s + [x])[j] {
      if j == |s| {
        assert (s + [x])[i] == s[i];
      }
    }
  }

  // ---------------------------------------------------------------------------
  // add_unique without a key
  // ---------------------------------------------------------------------------

  /** `add_unique(element, l)` for a string element: the element is appended
      unless it is empty, blank or already listed. */
  function AddUnique(element: string, l: seq<string>): (r: seq<string>)
    ensures r == l || r == l + [element]
    ensures r == l + [element] <==> !IsBlank(element) && element !in l
    ensures element in r <==> element in l || !IsBlank(element)
  {
    if element == [] then l
    else if !IsBlank(element) && element !in l then l + [element]
    else l
  }

  /** A list built only through `AddUnique` never repeats an element. */
  lemma AddUniqueKeepsDistinct(element: string, l: seq<string>)
    requires NoDups(l)
    ensures NoDups(AddUnique(element, l))
  {
    if AddUnique(element, l) != l {
      NoDupsSnoc(l, element);
    }
  }

  /** Adding the same element twice is the same as adding it once. */
  lemma AddUniqueIdempotent(element: string, l: seq<string>)
    ensures AddUnique(element, AddUnique(element, l)) == AddUnique(element, l)
  {
  }

  /** `AddUnique` applied to each element of `xs` in turn. */
  function AddAll(xs: seq<string>, l: seq<string>): seq<string>
    decreases |xs|
  {
    if xs == [] then l else AddAll(xs[1..], AddUnique(xs[0], l))
  }

  /** Folding `AddUnique` over a list keeps the old elements first, adds
      every non-blank element of the list, and adds nothing else; a list
      without repeats stays without repeats. */
  lemma {:induction false} AddAllFacts(xs: seq<string>, l: seq<string>)
    ensures |l| <= |AddAll(xs, l)| && AddAll(xs, l)[..|l|] == l
    ensures forall x :: x in AddAll(xs, l) <==> x in l || (x in xs && !IsBlank(x))
    ensures NoDups(l) ==> NoDups(AddAll(xs, l))
    decreases |xs|
  {
    if xs != [] {
      var l' := AddUnique(xs[0], l);
      AddAllFacts(xs[1..], l');
      assert l'[..|l|] == l;
      assert forall x :: x in xs <==> x == xs[0] || x in xs[1..];
      if NoDups(l) {
        AddUniqueKeepsDistinct(xs[0], l);
      }
    }
  }

  // ---------------------------------------------------------------------------
  // add_unique with a key
  // ---------------------------------------------------------------------------

  /** A JSON-like object with string values. */
  type Record = map<string, string>

  /** `str(v.get(key, missing))` for a record with string values. */
  function KeyText(v: Record, key: string, missing: string): string {
    if key in v then v[key] else missing
  }

  /** What each listed record shows for `key`: a record without the key
      shows the text "None", as `str(None)` does. */
  function ListedKeys(l: seq<Record>, key: string): (r: seq<string>)
    ensures |r| == |l|
    ensures forall i :: 0 <= i < |l| ==> r[i] == KeyText(l[i], key, "None")
  {
    seq(|l|, i requires 0 <= i < |l| => KeyText(l[i], key, "None"))
  }

  /** `add_unique(element, l, key)`: the record is appended unless it is
      empty, its key is missing or blank, or some listed record already
      shows the same text for the key. */
  function AddUniqueBy(element: Record, l: seq<Record>, key: string): (r: seq<Record>)
    ensures r == l || r == l + [element]
  {
    if element == map[] then l
    else
      var s := KeyText(element, key, "");
      if !IsBlank(s) && s !in ListedKeys(l, key) then l + [element] else l
  }

  /** When a record is appended, stated without `ListedKeys`: it has a
      non-blank value for the key that no listed record holds, and, when
      that value is the text "None", every listed record has the key. */
  lemma AddUniqueByAppends(element: Record, l: seq<Record>, key: string)
    ensures AddUniqueBy(element, l, key) == l + [element] <==>
      && key in element
      && !IsBlank(element[key])
      && (forall i :: 0 <= i < |l| && key in l[i] ==> l[i][key] != element[key])
      && (element[key] == "None" ==> forall i :: 0 <= i < |l| ==> key in l[i])
  {
    var lk := ListedKeys(l, key);
    if key in element && !IsBlank(element[key]) {
      assert element != map[];
      if element[key] in lk {
        var i :| 0 <= i < |l| && lk[i] == element[key];
        assert KeyText(l[i], key, "None") == element[key];
      }
    }
  }

  /** Every record added through `AddUniqueBy` has the key, and no two
      records in the list hold the same value for it. */
  predicate KeyedDistinct(l: seq<Record>, key: string) {
    && (forall i :: 0 <= i < |l| ==> key in l[i])
    && (forall i, j :: 0 <= i < j < |l| ==> l[i][key] != l[j][key])
  }

  lemma AddUniqueByKeepsDistinct(element: Record, l: seq<Record>, key: string)
    requires KeyedDistinct(l, key)
    ensures KeyedDistinct(AddUniqueBy(element, l, key), key)
  {
    AddUniqueByAppends(element, l, key);
    var r := AddUniqueBy(element, l, key);
    if r != l {
      forall i, j | 0 <= i < j < |r| ensures r[i][key] != r[j][key] {
        if j == |l| {
          assert r[i] == l[i];
        }
      }
    }
  }

  /** On a list built by `AddUniqueBy` itself, the "None" text never
      matters: a record is appended exactly when it has a non-blank value
      for the key that no listed record holds. */
  lemma AddUniqueByOnKeyedList(element: Record, l: seq<Record>, key: string)
    requires KeyedDistinct(l, key)
    ensures AddUniqueBy(element, l, key) == l + [element] <==>
      key in element && !IsBlank(element[key]) && forall i :: 0 <= i < |l| ==> l[i][key] != element[key]
  {
    AddUniqueByAppends(element, l, key);
  }

  /** A record whose key holds the text "None" is taken to be already present
      whenever some listed record lacks the key altogether, because that
      record shows `str(None)`. */
  lemma AddUniqueByNoneText(element: Record, l: seq<Record>, key: string, i: nat)
    requires key in element && element[key] == "None"
    requires i < |l| && key !in l[i]
    ensures AddUniqueBy(element, l, key) == l
  {
    AddUniqueByAppends(element, l, key);
  }

  // ---------------------------------------------------------------------------
  // flatten
  // ---------------------------------------------------------------------------

  /** The lists of the keys not in `excludes`, concatenated in key order. */
  function Included<K(==), T>(m: seq<(K, seq<T>)>, excludes: seq<K>): seq<T>
    decreases |m|
  {
    if m == [] then []
    else
      var last := m[|m| - 1];
      Included(m[..|m| - 1], excludes) + (if last.0 in excludes then [] else last.1)
  }

  /** Each element at its first occurrence only. */
  function Dedup<T(==)>(s: seq<T>): seq<T>
    decreases |s|
  {
    if s == [] then []
    else
      var d := Dedup(s[..|s| - 1]);
      if s[|s| - 1] in d then d else d + [s[|s| - 1]]
  }

  /** The position of the first occurrence of `x` in `s`. */
  function FirstIndex<T(==)>(s: seq<T>, x: T): (r: nat)
    requires x in s
    ensures r < |s| && s[r] == x
    ensures forall k :: 0 <= k < r ==> s[k] != x
  {
    if s[0] == x then 0 else 1 + FirstIndex(s[1..], x)
  }

  lemma FirstIndexSnoc<T>(s: seq<T>, y: T, x: T)
    requires x in s
    ensures FirstIndex(s + [y], x) == FirstIndex(s, x)
  {
    var a := FirstIndex(s + [y], x);
    var b := FirstIndex(s, x);
    assert (s + [y])[b] == x;
  }

  /** `Dedup` keeps exactly the elements of its input, once each, in the
      order of their first occurrences. */
  lemma {:induction false} DedupFacts<T>(s: seq<T>)
    ensures NoDups(Dedup(s))
    ensures forall x :: x in Dedup(s) ==> x in s
    ensures forall x :: x in s ==> x in Dedup(s)
    ensures forall a, b :: 0 <= a < b < |Dedup(s)| ==>
      FirstIndex(s, Dedup(s)[a]) < FirstIndex(s, Dedup(s)[b])
    decreases |s|
  {
    if s != [] {
      var p := s[..|s| - 1];
      var y := s[|s| - 1];
      assert s == p + [y];
      DedupFacts(p);
      var d := Dedup(p);
      assert Dedup(s) == if y in d then d else d + [y];
      forall x | x in d ensures x in p && FirstIndex(s, x) == FirstIndex(p, x) {
        FirstIndexSnoc(p, y, x);
      }
      if y !in d {
        NoDupsSnoc(d, y);
        var r := d + [y];
        forall a, b | 0 <= a < b < |r| ensures FirstIndex(s, r[a]) < FirstIndex(s, r[b]) {
          assert r[a] == d[a] && r[a] in d;
          if b == |d| {
            assert FirstIndex(s, y) == |p|;
          } else {
            assert r[b] == d[b] && r[b] in d;
          }
        }
      }
    }
  }

  lemma {:induction false} IncludedFromList<K, T>(m: seq<(K, seq<T>)>, excludes: seq<K>, x: T, i: nat)
    requires i < |m| && m[i].0 !in excludes && x in m[i].1
    ensures x in Included(m, excludes)
    decreases |m|
  {
    var p := m[..|m| - 1];
    if i < |p| {
      assert p[i] == m[i];
      IncludedFromList(p, excludes, x, i);
    }
  }

  lemma {:induction false} ListFromIncluded<K, T>(m: seq<(K, seq<T>)>, excludes: seq<K>, x: T) returns (i: nat)
    requires x in Included(m, excludes)
    ensures i < |m| && m[i].0 !in excludes && x in m[i].1
    decreases |m|
  {
    var p := m[..|m| - 1];
    var last := m[|m| - 1];
    if x in Included(p, excludes) {
      i := ListFromIncluded(p, excludes, x);
      assert p[i] == m[i];
    } else {
      i := |m| - 1;
    }
  }

  /** An element is included exactly when some key not in `excludes` lists it. */
  lemma IncludedMembers<K, T>(m: seq<(K, seq<T>)>, excludes: seq<K>, x: T)
    ensures x in Included(m, excludes) <==>
      exists i :: 0 <= i < |m| && m[i].0 !in excludes && x in m[i].1
  {
    if x in Included(m, excludes) {
      var i := ListFromIncluded(m, excludes, x);
    }
    if exists i :: 0 <= i < |m| && m[i].0 !in excludes && x in m[i].1 {
      var i :| 0 <= i < |m| && m[i].0 !in excludes && x in m[i].1;
      IncludedFromList(m, excludes, x, i);
    }
  }

  lemma IncludedSnoc<K, T>(m: seq<(K, seq<T>)>, excludes: seq<K>, i: nat)
    requires i < |m|
    ensures m[i].0 in excludes ==> Included(m[..i + 1], excludes) == Included(m[..i], excludes)
    ensures m[i].0 !in excludes ==> Included(m[..i + 1], excludes) == Included(m[..i], excludes) + m[i].1
  {
    assert m[..i + 1][..i] == m[..i];
    if m[i].0 in excludes {
      assert Included(m[..i], excludes) + [] == Included(m[..i], excludes);
    }
  }

  lemma DedupSnoc<T>(s: seq<T>, y: T)
    ensures Dedup(s + [y]) == if y in Dedup(s) then Dedup(s) else Dedup(s) + [y]
  {
    assert (s + [y])[..|s|] == s;
  }

  /** Everything `Flatten` promises about its result, proved once about the
      reference definition. */
  lemma FlattenFacts<K, T>(m: seq<(K, seq<T>)>, excludes: seq<K>)
    ensures var inc := Included(m, excludes);
      && NoDups(Dedup(inc))
      && (forall x :: x in Dedup(inc) <==> x in inc)
      && (forall x :: x in Dedup(inc) <==> exists i :: 0 <= i < |m| && m[i].0 !in excludes && x in m[i].1)
      && (forall a, b :: 0 <= a < b < |Dedup(inc)| ==>
            FirstIndex(inc, Dedup(inc)[a]) < FirstIndex(inc, Dedup(inc)[b]))
  {
    var inc := Included(m, excludes);
    DedupFacts(inc);
    forall x ensures x in inc <==> exists i :: 0 <= i < |m| && m[i].0 !in excludes && x in m[i].1 {
      IncludedMembers(m, excludes, x);
    }
  }

  /** The inner loop of `flatten`: append each element of `xs` not yet in
      `result`. */
  method AppendNew<T(==)>(ghost done: seq<T>, result: seq<T>, xs: seq<T>) returns (r: seq<T>)
    requires result == Dedup(done)
    ensures r == Dedup(done + xs)
  {
    r := result;
    var j := 0;
    assert done + xs[..0] == done;
    while j < |xs|
      invariant 0 <= j <= |xs|
      invariant r == Dedup(done + xs[..j])
    {
      DedupSnoc(done + xs[..j], xs[j]);
      assert done + xs[..j + 1] == (done + xs[..j]) + [xs[j]];
      if !(xs[j] in r) {
        r := r + [xs[j]];
      }
      j := j + 1;
    }
    assert xs[..j] == xs;
  }

  /** `flatten(map, excludes)`: the lists of the keys not excluded, in key
      order, with every element kept at its first occurrence only. */
  method Flatten<K(==), T(==)>(m: seq<(K, seq<T>)>, excludes: seq<K>) returns (result: seq<T>)
    ensures result == Dedup(Included(m, excludes))
    ensures NoDups(result)
    ensures forall x :: x in result <==> x in Included(m, excludes)
    ensures forall x :: x in result <==>
      exists i :: 0 <= i < |m| && m[i].0 !in excludes && x in m[i].1
    ensures forall a, b :: 0 <= a < b < |result| ==>
      FirstIndex(Included(m, excludes), result[a]) < FirstIndex(Included(m, excludes), result[b])
  {
    result := [];
    var i := 0;
    while i < |m|
      invariant 0 <= i <= |m|
      invariant result == Dedup(Included(m[..i], excludes))
    {
      IncludedSnoc(m, excludes, i);
      if m[i].0 !in excludes {
        result := AppendNew(Included(m[..i], excludes), result, m[i].1);
      }
      i := i + 1;
    }
    assert m[..i] == m;
    FlattenFacts(m, excludes);
  }
}
