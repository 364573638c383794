/** Token-keyed lookup tables as the builders fill them: a log of writes,
    each either a plain assignment `table[token] = value` or a
    `table.setdefault(token, value)`, replayed in order from a starting
    table. Both lookup-table builders are instances of this: the precedence
    rules they promise (a later key overwrites; a name or synonym only fills
    a gap) are the two general laws proved here. */
module Tables {
  import opened Text

  /** One write to a table. */
  datatype Write<V> =
    | Assign(token: string, value: V)          // `table[token] = value`
    | InsertIfAbsent(token: string, value: V)  // `table.setdefault(token, value)`

  /** The table after one write. */
  function Perform<V>(t: map<string, V>, w: Write<V>): (r: map<string, V>)
    ensures r.Keys == t.Keys + {w.token}
    ensures forall k :: k in t && k != w.token ==> r[k] == t[k]
    ensures w.Assign? || w.token !in t ==> r[w.token] == w.value
    ensures w.InsertIfAbsent? && w.token in t ==> r == t
  {
    match w
    case Assign(k, v) => t[k := v]
    case InsertIfAbsent(k, v) => if k in t then t else t[k := v]
  }

  /** The table after the writes `ws`, in order. */
  function Replay<V>(t: map<string, V>, ws: seq<Write<V>>): map<string, V>
    decreases |ws|
  {
    if ws == [] then t else Replay(Perform(t, ws[0]), ws[1..])
  }

  /** The tokens the writes touch. */
  function Tokens<V>(ws: seq<Write<V>>): set<string> {
    set i | 0 <= i < |ws| :: ws[i].token
  }

  /** No write to `k` is a plain assignment. */
  predicate NoAssign<V>(ws: seq<Write<V>>, k: string) {
    forall i :: 0 <= i < |ws| && ws[i].token == k ==> ws[i].InsertIfAbsent?
  }

  /** Every write to `k` writes `v`. */
  ghost predicate AllWrite<V>(ws: seq<Write<V>>, k: string, v: V) {
    forall i :: 0 <= i < |ws| && ws[i].token == k ==> ws[i].value == v
  }

  /** `for n in names: table.setdefault(make_token(n), v)`. */
  function InsertNames<V>(names: seq<string>, v: V): (ws: seq<Write<V>>)
    ensures |ws| == |names|
    ensures forall i :: 0 <= i < |names| ==> ws[i] == InsertIfAbsent(MakeToken(names[i]), v)
  {
    if names == [] then [] else [InsertIfAbsent(MakeToken(names[0]), v)] + InsertNames(names[1..], v)
  }

  /** The tokens of a list of names. */
  function NameTokens(names: seq<string>): set<string> {
    set n | n in names :: MakeToken(n)
  }

  /** `InsertNames` touches exactly the names' tokens, never assigns, and
      writes only `v`. */
  lemma InsertNamesFacts<V>(names: seq<string>, v: V)
    ensures Tokens(InsertNames(names, v)) == NameTokens(names)
    ensures forall k :: NoAssign(InsertNames(names, v), k)
    ensures forall k :: AllWrite(InsertNames(names, v), k, v)
  {
    var ws := InsertNames(names, v);
    forall x | x in NameTokens(names) ensures x in Tokens(ws) {
      var n :| n in names && MakeToken(n) == x;
      var i :| 0 <= i < |names| && names[i] == n;
      assert ws[i].token == x;
    }
  }

  lemma NoAssignAppend<V>(a: seq<Write<V>>, b: seq<Write<V>>, k: string)
    ensures NoAssign(a + b, k) <==> NoAssign(a, k) && NoAssign(b, k)
  {
    if NoAssign(a, k) && NoAssign(b, k) {
      forall i | 0 <= i < |a + b| && (a + b)[i].token == k ensures (a + b)[i].InsertIfAbsent? {
        if i >= |a| {
          assert (a + b)[i] == b[i - |a|];
        }
      }
    }
    if NoAssign(a + b, k) {
      forall i | 0 <= i < |b| && b[i].token == k ensures b[i].InsertIfAbsent? {
        assert (a + b)[|a| + i] == b[i];
      }
      forall i | 0 <= i < |a| && a[i].token == k ensures a[i].InsertIfAbsent? {
        assert (a + b)[i] == a[i];
      }
    }
  }

  lemma AllWriteAppend<V>(a: seq<Write<V>>, b: seq<Write<V>>, k: string, v: V)
    requires AllWrite(a, k, v) && AllWrite(b, k, v)
    ensures AllWrite(a + b, k, v)
  {
    forall i | 0 <= i < |a + b| && (a + b)[i].token == k ensures (a + b)[i].value == v {
      if i >= |a| {
        assert (a + b)[i] == b[i - |a|];
      }
    }
  }

  // ---------------------------------------------------------------------------
  // Sequence algebra used to cut logs apart
  // ---------------------------------------------------------------------------

  /** A sequence is its part before `i`, its element `i`, and its part after. */
  lemma SplitAround<T>(s: seq<T>, i: nat)
    requires i < |s|
    ensures s == s[..i] + ([s[i]] + s[i + 1..])
    ensures ([s[i]] + s[i + 1..])[0] == s[i]
    ensures ([s[i]] + s[i + 1..])[1..] == s[i + 1..]
  {
  }

  /** The head and tail of a sequence built by prepending one element to
      two parts. */
  lemma ConsParts<T>(x: T, b: seq<T>, c: seq<T>)
    ensures ([x] + b + c)[0] == x
    ensures ([x] + b + c)[1..] == b + c
  {
  }

  lemma AppendAssoc<T>(a: seq<T>, b: seq<T>, c: seq<T>)
    ensures a + (b + c) == a + b + c
  {
  }

  // ---------------------------------------------------------------------------
  // Logs of a list of items
  // ---------------------------------------------------------------------------

  /** The writes of a list of items, item by item in list order: how both
      builders walk their maps, `f` giving the writes of one item. */
  function Concat<E, V>(items: seq<E>, f: E -> seq<Write<V>>): seq<Write<V>>
    decreases |items|
  {
    if items == [] then [] else f(items[0]) + Concat(items[1..], f)
  }

  /** The log of two lists one after the other is the two logs one after
      the other. */
  lemma {:induction false} ConcatAppend<E, V>(a: seq<E>, b: seq<E>, f: E -> seq<Write<V>>)
    ensures Concat(a + b, f) == Concat(a, f) + Concat(b, f)
    decreases |a|
  {
    if a == [] {
      assert a + b == b;
    } else {
      assert (a + b)[0] == a[0];
      assert (a + b)[1..] == a[1..] + b;
      ConcatAppend(a[1..], b, f);
    }
  }

  /** The log around item `i`: the items before it, its own writes, then
      the items after it. */
  lemma ConcatSplit<E, V>(items: seq<E>, f: E -> seq<Write<V>>, i: nat)
    requires i < |items|
    ensures Concat(items, f) == Concat(items[..i], f) + f(items[i]) + Concat(items[i + 1..], f)
  {
    var b := [items[i]] + items[i + 1..];
    SplitAround(items, i);
    ConcatAppend(items[..i], b, f);
    assert Concat(b, f) == f(items[i]) + Concat(items[i + 1..], f);
    AppendAssoc(Concat(items[..i], f), f(items[i]), Concat(items[i + 1..], f));
  }

  lemma TokensOne<V>(w: Write<V>)
    ensures Tokens([w]) == {w.token}
  {
    assert [w][0].token == w.token;
  }

  lemma TokensCons<V>(ws: seq<Write<V>>)
    requires ws != []
    ensures Tokens(ws) == {ws[0].token} + Tokens(ws[1..])
  {
    forall x | x in Tokens(ws) ensures x in {ws[0].token} + Tokens(ws[1..]) {
      var i :| 0 <= i < |ws| && ws[i].token == x;
      if i > 0 {
        assert ws[1..][i - 1].token == x;
      }
    }
    forall x | x in Tokens(ws[1..]) ensures x in Tokens(ws) {
      var i :| 0 <= i < |ws[1..]| && ws[1..][i].token == x;
      assert ws[i + 1].token == x;
    }
  }

  lemma TokensAppend<V>(a: seq<Write<V>>, b: seq<Write<V>>)
    ensures Tokens(a + b) == Tokens(a) + Tokens(b)
  {
    forall x | x in Tokens(a + b) ensures x in Tokens(a) + Tokens(b) {
      var i :| 0 <= i < |a + b| && (a + b)[i].token == x;
      if i >= |a| {
        assert b[i - |a|].token == x;
      }
    }
    forall x | x in Tokens(b) ensures x in Tokens(a + b) {
      var i :| 0 <= i < |b| && b[i].token == x;
      assert (a + b)[|a| + i].token == x;
    }
    forall x | x in Tokens(a) ensures x in Tokens(a + b) {
      var i :| 0 <= i < |a| && a[i].token == x;
      assert (a + b)[i].token == x;
    }
  }

  /** Replaying two logs one after the other is replaying their
      concatenation. */
  lemma {:induction false} ReplayAppend<V>(t: map<string, V>, a: seq<Write<V>>, b: seq<Write<V>>)
    ensures Replay(t, a + b) == Replay(Replay(t, a), b)
    decreases |a|
  {
    if a == [] {
      assert a + b == b;
    } else {
      assert (a + b)[0] == a[0];
      assert (a + b)[1..] == a[1..] + b;
      ReplayAppend(Perform(t, a[0]), a[1..], b);
    }
  }

  /** The keys after a replay are the keys before it plus every token
      written: no write ever removes a key. */
  lemma {:induction false} ReplayKeys<V>(t: map<string, V>, ws: seq<Write<V>>)
    ensures Replay(t, ws).Keys == t.Keys + Tokens(ws)
    decreases |ws|
  {
    if ws != [] {
      ReplayKeys(Perform(t, ws[0]), ws[1..]);
      TokensCons(ws);
    }
  }

  /** A token no write touches keeps its entry, or its absence. */
  lemma {:induction false} ReplayUntouched<V>(t: map<string, V>, ws: seq<Write<V>>, k: string)
    requires k !in Tokens(ws)
    ensures k in Replay(t, ws) <==> k in t
    ensures k in t ==> Replay(t, ws)[k] == t[k]
    decreases |ws|
  {
    if ws != [] {
      TokensCons(ws);
      ReplayUntouched(Perform(t, ws[0]), ws[1..], k);
    }
  }

  /** A token already present that is written only by `setdefault` keeps
      its first value. */
  lemma {:induction false} ReplayKeeps<V>(t: map<string, V>, ws: seq<Write<V>>, k: string)
    requires k in t && NoAssign(ws, k)
    ensures k in Replay(t, ws) && Replay(t, ws)[k] == t[k]
    decreases |ws|
  {
    if ws != [] {
      var t' := Perform(t, ws[0]);
      assert t'[k] == t[k];
      assert NoAssign(ws[1..], k) by {
        forall i | 0 <= i < |ws[1..]| && ws[1..][i].token == k ensures ws[1..][i].InsertIfAbsent? {
          assert ws[1..][i] == ws[i + 1];
        }
      }
      ReplayKeeps(t', ws[1..], k);
    }
  }

  /** If every write to `k` writes the same `v`, and `k` is either written or
      already holds `v`, the replay leaves `v` under `k`. */
  lemma {:induction false} ReplayUniform<V>(t: map<string, V>, ws: seq<Write<V>>, k: string, v: V)
    requires k in t ==> t[k] == v
    requires k in t || k in Tokens(ws)
    requires AllWrite(ws, k, v)
    ensures k in Replay(t, ws) && Replay(t, ws)[k] == v
    decreases |ws|
  {
    if ws != [] {
      var t' := Perform(t, ws[0]);
      TokensCons(ws);
      assert AllWrite(ws[1..], k, v) by {
        forall i | 0 <= i < |ws[1..]| && ws[1..][i].token == k ensures ws[1..][i].value == v {
          assert ws[1..][i] == ws[i + 1];
        }
      }
      ReplayUniform(t', ws[1..], k, v);
    }
  }

  /** Last assignment wins: when write `i` assigns `k` and no later write
      assigns it, the replay leaves write `i`'s value under `k`, whatever the
      starting table and whatever came before. */
  lemma {:induction false} ReplayLastAssign<V>(t: map<string, V>, ws: seq<Write<V>>, k: string, i: nat)
    requires i < |ws| && ws[i].Assign? && ws[i].token == k
    requires NoAssign(ws[i + 1..], k)
    ensures k in Replay(t, ws) && Replay(t, ws)[k] == ws[i].value
    decreases |ws|
  {
    var t' := Perform(t, ws[0]);
    if i == 0 {
      ReplayKeeps(t', ws[1..], k);
    } else {
      assert ws[1..][i - 1] == ws[i];
      assert ws[1..][i..] == ws[i + 1..];
      ReplayLastAssign(t', ws[1..], k, i - 1);
    }
  }

  /** First writer wins: when no write assigns `k` and `k` starts absent, the
      replay leaves the value of the first write to `k`. */
  lemma {:induction false} ReplayFirstWriter<V>(t: map<string, V>, ws: seq<Write<V>>, k: string, i: nat)
    requires k !in t && NoAssign(ws, k)
    requires i < |ws| && ws[i].token == k
    requires forall j :: 0 <= j < i ==> ws[j].token != k
    ensures k in Replay(t, ws) && Replay(t, ws)[k] == ws[i].value
    decreases |ws|
  {
    var t' := Perform(t, ws[0]);
    assert NoAssign(ws[1..], k) by {
      forall j | 0 <= j < |ws[1..]| && ws[1..][j].token == k ensures ws[1..][j].InsertIfAbsent? {
        assert ws[1..][j] == ws[j + 1];
      }
    }
    if i == 0 {
      ReplayKeeps(t', ws[1..], k);
    } else {
      assert ws[1..][i - 1] == ws[i];
      forall j | 0 <= j < i - 1 ensures ws[1..][j].token != k {
        assert ws[1..][j] == ws[j + 1];
      }
      ReplayFirstWriter(t', ws[1..], k, i - 1);
    }
  }

  /** Every value in a replayed table was already in the table or was
      written by some write. */
  lemma {:induction false} ReplayValues<V>(t: map<string, V>, ws: seq<Write<V>>, k: string)
    requires k in Replay(t, ws)
    ensures (k in t && Replay(t, ws)[k] == t[k])
         || exists i :: 0 <= i < |ws| && ws[i].token == k && ws[i].value == Replay(t, ws)[k]
    decreases |ws|
  {
    if ws != [] {
      var t' := Perform(t, ws[0]);
      ReplayValues(t', ws[1..], k);
      if k in t' && Replay(t, ws)[k] == t'[k] {
        if k in t && t'[k] == t[k] {
        } else {
          assert ws[0].token == k && ws[0].value == t'[k];
        }
      } else {
        var i :| 0 <= i < |ws[1..]| && ws[1..][i].token == k && ws[1..][i].value == Replay(t, ws)[k];
        assert ws[i + 1] == ws[1..][i];
      }
    }
  }
}
