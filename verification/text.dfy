/** The text normaliser of iati3w_common.py: `normalise_string`, `make_token`,
    `fix_location`, and the Python string primitives they rest on (`str.strip`,
    `str.split`, `str.lower`, `str.capitalize`, `re.sub` over `\s+` and `\W+`). */
module Text {
  import opened Wrappers

  // ---------------------------------------------------------------------------
  // Character classes
  // ---------------------------------------------------------------------------

  /** Python's `str.isspace` on ASCII, which is also what `\s` and
      `str.strip()` match: tab, line feed, vertical tab, form feed, carriage
      return, the four separators U+001C..U+001F, and space. */
  predicate IsSpace(c: char) {
    ('\t' <= c <= '\r') || ('\U{1C}' <= c <= ' ')
  }

  /** The word characters of `\w`, restricted to ASCII: letters, digits and `_`. */
  predicate IsWord(c: char) {
    ('a' <= c <= 'z') || ('A' <= c <= 'Z') || ('0' <= c <= '9') || c == '_'
  }

  /** The characters `\W` matches. */
  predicate NonWord(c: char) {
    !IsWord(c)
  }

  /** `str.lower` on one (ASCII) character. */
  function Lower(c: char): char {
    if 'A' <= c <= 'Z' then (c as int + 32) as char else c
  }

  /** `str.upper` on one (ASCII) character. */
  function Upper(c: char): char {
    if 'a' <= c <= 'z' then (c as int - 32) as char else c
  }

  /** The two character classes whose runs the Python code collapses with
      `re.sub`: `\s` (whitespace) and `\W` (non-word characters). */
  datatype Class = SpaceClass | NonWordClass

  predicate InClass(c: char, k: Class) {
    match k
    case SpaceClass => IsSpace(c)
    case NonWordClass => NonWord(c)
  }

  /** `str.lower` on a string: each character lower-cased in place. */
  function LowerAll(s: string): (r: string)
    ensures |r| == |s|
  {
    if s == [] then [] else [Lower(s[0])] + LowerAll(s[1..])
  }

  /** True of "" and of strings made only of whitespace: the strings that
      `hxl.datatypes.is_empty` treats as empty. */
  predicate IsBlank(s: string) {
    forall i :: 0 <= i < |s| ==> IsSpace(s[i])
  }

  // ---------------------------------------------------------------------------
  // Stripping and run collapsing
  // ---------------------------------------------------------------------------

  /** Drops the leading run of characters of class `k`. */
  function SkipRun(s: string, k: Class): (r: string)
    ensures |r| <= |s|
  {
    if s != [] && InClass(s[0], k) then SkipRun(s[1..], k) else s
  }

  /** Drops the trailing run of whitespace. */
  function TrimRight(s: string): (r: string)
    ensures |r| <= |s|
  {
    if s != [] && IsSpace(s[|s| - 1]) then TrimRight(s[..|s| - 1]) else s
  }

  /** How many whitespace characters `str.strip()` removes from the front. */
  function LeadingSpaces(s: string): nat {
    |s| - |SkipRun(s, SpaceClass)|
  }

  /** `str.strip()`: the string without its leading and trailing whitespace. */
  function Strip(s: string): string {
    TrimRight(SkipRun(s, SpaceClass))
  }

  /** `re.sub(P, ' ', s)` where `P` matches one or more characters of class
      `k`: every maximal run of such characters becomes one space. */
  function CollapseRuns(s: string, k: Class): string
    decreases |s|
  {
    if s == [] then []
    else if InClass(s[0], k) then [' '] + CollapseRuns(SkipRun(s[1..], k), k)
    else [s[0]] + CollapseRuns(s[1..], k)
  }

  // ---------------------------------------------------------------------------
  // Words: `str.split()` with no separator, and `' '.join`
  // ---------------------------------------------------------------------------

  /** The leading run of non-whitespace characters. */
  function TakeWord(s: string): (r: string)
    ensures |r| <= |s| && r == s[..|r|]
    ensures forall i :: 0 <= i < |r| ==> !IsSpace(r[i])
    ensures |r| == |s| || IsSpace(s[|r|])
  {
    if s == [] || IsSpace(s[0]) then [] else [s[0]] + TakeWord(s[1..])
  }

  predicate HasSpace(w: string) {
    exists i :: 0 <= i < |w| && IsSpace(w[i])
  }

  /** A list of words as `str.split()` produces them: none empty, none
      containing whitespace. */
  predicate ValidWords(ws: seq<string>) {
    forall i :: 0 <= i < |ws| ==> ws[i] != [] && !HasSpace(ws[i])
  }

  /** `s.split()`: the maximal runs of non-whitespace characters, in order. */
  function Words(s: string): (ws: seq<string>)
    ensures ValidWords(ws)
    decreases |s|
  {
    if s == [] then []
    else if IsSpace(s[0]) then Words(s[1..])
    else
      var w := TakeWord(s);
      [w] + Words(s[|w|..])
  }

  /** `' '.join(ws)`. */
  function JoinWords(ws: seq<string>): string {
    if |ws| == 0 then []
    else if |ws| == 1 then ws[0]
    else ws[0] + [' '] + JoinWords(ws[1..])
  }

  // ---------------------------------------------------------------------------
  // The three normalisers
  // ---------------------------------------------------------------------------

  /** A display string as `normalise_string` leaves it: no whitespace at
      either end, and every whitespace character a single space between two
      other characters. */
  ghost predicate IsNormal(t: string) {
    && (t == [] || (!IsSpace(t[0]) && !IsSpace(t[|t| - 1])))
    && (forall i :: 0 <= i < |t| && IsSpace(t[i]) ==> t[i] == ' ')
    && (forall i, j :: 0 <= i < j < |t| && j == i + 1 ==> !IsSpace(t[i]) || !IsSpace(t[j]))
  }

  /** `normalise_string(s)` (iati3w_common.py:42-50): `None` for the falsy
      string, otherwise the stripped string with every whitespace run
      collapsed to one space. */
  function NormaliseString(s: string): (r: Option<string>)
    ensures r.None? <==> s == []
    ensures r.Some? ==> IsNormal(r.value)
    ensures r == Some([]) <==> s != [] && IsBlank(s)
    ensures s != [] ==> r == Some(JoinWords(Words(s)))
  {
    if s == [] then None
    else
      var t := Strip(s);
      StripFacts(s);
      CollapseShape(t, SpaceClass);
      NormaliseIsJoinOfWords(s);
      Some(CollapseRuns(t, SpaceClass))
  }

  /** A character that may appear in a token: a space or a lower-case word character. */
  predicate TokenChar(c: char) {
    c == ' ' || (IsWord(c) && Lower(c) == c)
  }

  /** A lookup token as `make_token` produces it: lower-case word characters
      and single spaces, with no space at either end. */
  predicate IsToken(t: string) {
    && TokenChars(t)
    && SingleSpaced(t)
    && (t == [] || (t[0] != ' ' && t[|t| - 1] != ' '))
  }

  predicate TokenChars(t: string) {
    forall i :: 0 <= i < |t| ==> TokenChar(t[i])
  }

  /** No two spaces in a row. */
  predicate SingleSpaced(t: string) {
    forall i :: 0 <= i < |t| - 1 ==> t[i] != ' ' || t[i + 1] != ' '
  }

  /** `make_token(s)` (iati3w_common.py:52-57): non-word runs become one
      space, then the string is lower-cased and stripped. */
  function MakeToken(s: string): string {
    Strip(LowerAll(CollapseRuns(s, NonWordClass)))
  }

  /** `str.capitalize` on one word: first character upper-case, rest lower-case. */
  function Capitalize(w: string): string {
    if w == [] then [] else [Upper(w[0])] + LowerAll(w[1..])
  }

  function CapitalizeAll(ws: seq<string>): (r: seq<string>)
    ensures |r| == |ws|
    ensures forall i :: 0 <= i < |ws| ==> r[i] == Capitalize(ws[i])
  {
    if ws == [] then [] else [Capitalize(ws[0])] + CapitalizeAll(ws[1..])
  }

  /** `string.capwords(s)`: split on whitespace, capitalise each word, join
      with single spaces. */
  function Capwords(s: string): string {
    JoinWords(CapitalizeAll(Words(s)))
  }

  /** `fix_location(s)` (iati3w_common.py:59-63): "" for the falsy string,
      otherwise `capwords` of the normalised string, which is the input's own
      words, each capitalised, joined by single spaces. */
  function FixLocation(s: string): (r: string)
    ensures s == [] ==> r == []
    ensures s != [] ==> r == JoinWords(CapitalizeAll(Words(s)))
  {
    if s != [] then
      var n := NormaliseString(s).value;
      WordsOfJoin(Words(s));
      Capwords(n)
    else []
  }

  // ---------------------------------------------------------------------------
  // Lemmas: stripping and collapsing
  // ---------------------------------------------------------------------------

  /** `LowerAll` lower-cases each character in place. */
  lemma {:induction false} LowerAllAt(s: string)
    ensures forall i :: 0 <= i < |s| ==> LowerAll(s)[i] == Lower(s[i])
    decreases |s|
  {
    if s != [] {
      LowerAllAt(s[1..]);
      assert forall i :: 1 <= i < |s| ==> LowerAll(s)[i] == LowerAll(s[1..])[i - 1];
    }
  }

  /** `SkipRun` drops a prefix of class-`k` characters, and stops at the
      first character outside the class. */
  lemma {:induction false} SkipRunFacts(s: string, k: Class)
    ensures var r := SkipRun(s, k);
      && r == s[|s| - |r|..]
      && (forall i :: 0 <= i < |s| - |r| ==> InClass(s[i], k))
      && (r == [] || !InClass(r[0], k))
    decreases |s|
  {
    if s != [] && InClass(s[0], k) {
      SkipRunFacts(s[1..], k);
      var r := SkipRun(s, k);
      forall i | 0 <= i < |s| - |r| ensures InClass(s[i], k) {
        if i > 0 {
          assert s[i] == s[1..][i - 1];
        }
      }
    }
  }

  /** `TrimRight` drops a suffix of whitespace, and stops at the last
      character that is not whitespace. */
  lemma {:induction false} TrimRightFacts(s: string)
    ensures var r := TrimRight(s);
      && r == s[..|r|]
      && (forall i :: |r| <= i < |s| ==> IsSpace(s[i]))
      && (r == [] || !IsSpace(r[|r| - 1]))
    decreases |s|
  {
    if s != [] && IsSpace(s[|s| - 1]) {
      TrimRightFacts(s[..|s| - 1]);
      var r := TrimRight(s);
      forall i | |r| <= i < |s| ensures IsSpace(s[i]) {
        if i < |s| - 1 {
          assert s[i] == s[..|s| - 1][i];
        }
      }
    }
  }

  /** `str.strip()` removes only whitespace: the result is the contiguous
      middle of `s` that starts after the leading whitespace, everything
      before and after it is whitespace, the result has no whitespace at
      either end, and it is empty exactly for the blank strings. */
  lemma StripFacts(s: string)
    ensures var r := Strip(s);
      && LeadingSpaces(s) + |r| <= |s|
      && r == s[LeadingSpaces(s)..LeadingSpaces(s) + |r|]
      && (forall i :: 0 <= i < LeadingSpaces(s) ==> IsSpace(s[i]))
      && (forall i :: LeadingSpaces(s) + |r| <= i < |s| ==> IsSpace(s[i]))
      && (r == [] || (!IsSpace(r[0]) && !IsSpace(r[|r| - 1])))
      && (r == [] <==> IsBlank(s))
  {
    var l := SkipRun(s, SpaceClass);
    SkipRunFacts(s, SpaceClass);
    TrimRightFacts(l);
    var r := Strip(s);
    var n := LeadingSpaces(s);
    assert l == s[n..];
    forall i | n + |r| <= i < |s| ensures IsSpace(s[i]) {
      assert s[i] == l[i - n];
    }
    if r != [] {
      assert r[0] == l[0];
      assert !IsSpace(s[|s| - |l|]);
    }
  }

  /** A string already without whitespace at either end is its own strip. */
  lemma StripFixed(t: string)
    requires t == [] || (!IsSpace(t[0]) && !IsSpace(t[|t| - 1]))
    ensures Strip(t) == t
  {
    assert SkipRun(t, SpaceClass) == t;
    assert TrimRight(t) == t;
  }

  /** One step of `CollapseRuns`: a head character followed by the collapse
      of the rest. */
  function CollapseTail(s: string, k: Class): string
    requires s != []
  {
    if InClass(s[0], k) then SkipRun(s[1..], k) else s[1..]
  }

  lemma CollapseStep(s: string, k: Class)
    requires s != []
    ensures CollapseRuns(s, k)
         == [if InClass(s[0], k) then ' ' else s[0]] + CollapseRuns(CollapseTail(s, k), k)
    ensures |CollapseTail(s, k)| < |s|
  {
  }

  /** Collapsing empties only the empty string, and keeps the class of the
      first and last characters. */
  lemma {:induction false} CollapseEnds(s: string, k: Class)
    ensures var r := CollapseRuns(s, k);
      && (r == [] <==> s == [])
      && (r != [] ==> InClass(r[0], k) == InClass(s[0], k))
      && (r != [] ==> InClass(r[|r| - 1], k) == InClass(s[|s| - 1], k))
    decreases |s|
  {
    if s != [] {
      var tail := CollapseTail(s, k);
      CollapseStep(s, k);
      CollapseEnds(tail, k);
      var rt := CollapseRuns(tail, k);
      if InClass(s[0], k) {
        SkipRunFacts(s[1..], k);
      }
      if rt != [] {
        assert tail[|tail| - 1] == s[|s| - 1];
      }
    }
  }

  /** After collapsing, every class-`k` character is a space. */
  lemma {:induction false} CollapseSpaces(s: string, k: Class)
    ensures var r := CollapseRuns(s, k);
      forall i :: 0 <= i < |r| && InClass(r[i], k) ==> r[i] == ' '
    decreases |s|
  {
    if s != [] {
      var tail := CollapseTail(s, k);
      CollapseStep(s, k);
      CollapseSpaces(tail, k);
      var r := CollapseRuns(s, k);
      var rt := CollapseRuns(tail, k);
      forall i | 0 <= i < |r| && InClass(r[i], k) ensures r[i] == ' ' {
        if i > 0 {
          assert r[i] == rt[i - 1];
        }
      }
    }
  }

  /** After collapsing, no two class-`k` characters are adjacent. */
  lemma {:induction false} CollapseNoAdjacent(s: string, k: Class)
    ensures var r := CollapseRuns(s, k);
      forall i, j :: 0 <= i < j < |r| && j == i + 1 ==> !InClass(r[i], k) || !InClass(r[j], k)
    decreases |s|
  {
    if s != [] {
      var tail := CollapseTail(s, k);
      CollapseStep(s, k);
      CollapseNoAdjacent(tail, k);
      CollapseEnds(tail, k);
      if InClass(s[0], k) {
        SkipRunFacts(s[1..], k);
      }
      var r := CollapseRuns(s, k);
      var rt := CollapseRuns(tail, k);
      forall i, j | 0 <= i < j < |r| && j == i + 1
        ensures !InClass(r[i], k) || !InClass(r[j], k)
      {
        assert r[j] == rt[j - 1];
        if i > 0 {
          assert r[i] == rt[i - 1];
        }
      }
    }
  }

  /** After collapsing, class-`k` characters are single spaces, never two in
      a row, and the ends keep their class. */
  lemma CollapseShape(s: string, k: Class)
    ensures var r := CollapseRuns(s, k);
      && (forall i :: 0 <= i < |r| && InClass(r[i], k) ==> r[i] == ' ')
      && (forall i, j :: 0 <= i < j < |r| && j == i + 1 ==> !InClass(r[i], k) || !InClass(r[j], k))
      && (r == [] <==> s == [])
      && (r != [] ==> InClass(r[0], k) == InClass(s[0], k))
      && (r != [] ==> InClass(r[|r| - 1], k) == InClass(s[|s| - 1], k))
  {
    CollapseEnds(s, k);
    CollapseSpaces(s, k);
    CollapseNoAdjacent(s, k);
  }

  /** Collapsing runs changes nothing in a string whose class-`k` characters
      are already single spaces. */
  lemma {:induction false} CollapseFixed(t: string, k: Class)
    requires forall i :: 0 <= i < |t| && InClass(t[i], k) ==> t[i] == ' '
    requires forall i, j :: 0 <= i < j < |t| && j == i + 1 ==> !InClass(t[i], k) || !InClass(t[j], k)
    ensures CollapseRuns(t, k) == t
    decreases |t|
  {
    if t != [] {
      var u := t[1..];
      forall i | 0 <= i < |u| && InClass(u[i], k) ensures u[i] == ' ' {
        assert u[i] == t[i + 1];
      }
      forall i, j | 0 <= i < j < |u| && j == i + 1 ensures !InClass(u[i], k) || !InClass(u[j], k) {
        assert u[i] == t[i + 1] && u[j] == t[j + 1];
      }
      if InClass(t[0], k) {
        assert u == [] || !InClass(u[0], k);
        assert SkipRun(u, k) == u;
      }
      CollapseFixed(u, k);
      assert t == [t[0]] + u;
    }
  }

  /** A leading character outside class `k` is copied unchanged. */
  lemma CollapseCons(c: char, x: string, k: Class)
    requires !InClass(c, k)
    ensures CollapseRuns([c] + x, k) == [c] + CollapseRuns(x, k)
  {
    var s := [c] + x;
    assert s[0] == c && s[1..] == x;
  }

  /** A prefix with no class-`k` character is copied unchanged. */
  lemma {:induction false} CollapseNonSepPrefix(u: string, v: string, k: Class)
    requires forall i :: 0 <= i < |u| ==> !InClass(u[i], k)
    ensures CollapseRuns(u + v, k) == u + CollapseRuns(v, k)
    decreases |u|
  {
    if u == [] {
      assert u + v == v;
    } else {
      var u' := u[1..];
      forall i | 0 <= i < |u'| ensures !InClass(u'[i], k) {
        assert u'[i] == u[i + 1];
      }
      var rv := CollapseRuns(v, k);
      calc {
        CollapseRuns(u + v, k);
        { assert u + v == [u[0]] + (u' + v); }
        CollapseRuns([u[0]] + (u' + v), k);
        { CollapseCons(u[0], u' + v, k); }
        [u[0]] + CollapseRuns(u' + v, k);
        { CollapseNonSepPrefix(u', v, k); }
        [u[0]] + (u' + rv);
        { assert [u[0]] + (u' + rv) == ([u[0]] + u') + rv; assert [u[0]] + u' == u; }
        u + rv;
      }
    }
  }

  // ---------------------------------------------------------------------------
  // Lemmas: tokens
  // ---------------------------------------------------------------------------

  /** `Lower` keeps a character's class and is idempotent. */
  lemma LowerChar(c: char)
    ensures IsWord(Lower(c)) == IsWord(c)
    ensures Lower(Lower(c)) == Lower(c)
    ensures Lower(c) == ' ' <==> c == ' '
    ensures IsSpace(Lower(c)) == IsSpace(c)
  {
  }

  /** A lower-cased collapse of non-word runs is a token once stripped. */
  lemma MakeTokenShape(s: string)
    ensures IsToken(Strip(LowerAll(CollapseRuns(s, NonWordClass))))
  {
    var c := CollapseRuns(s, NonWordClass);
    CollapseShape(s, NonWordClass);
    var l := LowerAll(c);
    LowerAllAt(c);
    forall i | 0 <= i < |l| ensures TokenChar(l[i]) {
      LowerChar(c[i]);
      assert NonWord(c[i]) ==> c[i] == ' ';
    }
    forall i | 0 <= i < |l| - 1 ensures l[i] != ' ' || l[i + 1] != ' ' {
      LowerChar(c[i]);
      LowerChar(c[i + 1]);
      assert !NonWord(c[i]) || !NonWord(c[i + 1]);
    }
    TokenSlice(l);
  }

  /** Any slice of a string of token characters without two spaces in a row
      keeps both properties. */
  lemma TokenCharsSlice(l: string, a: nat, b: nat, r: string)
    requires a <= b <= |l| && r == l[a..b]
    requires TokenChars(l) && SingleSpaced(l)
    ensures TokenChars(r) && SingleSpaced(r)
  {
    forall i | 0 <= i < |r| ensures TokenChar(r[i]) {
      assert r[i] == l[a + i];
    }
    forall i | 0 <= i < |r| - 1 ensures r[i] != ' ' || r[i + 1] != ' ' {
      assert r[i] == l[a + i] && r[i + 1] == l[a + i + 1];
    }
  }

  lemma {:induction false} TokenSkipRun(l: string)
    requires TokenChars(l) && SingleSpaced(l)
    ensures var u := SkipRun(l, SpaceClass); TokenChars(u) && SingleSpaced(u)
    decreases |l|
  {
    if l != [] && IsSpace(l[0]) {
      TokenCharsSlice(l, 1, |l|, l[1..]);
      TokenSkipRun(l[1..]);
    }
  }

  lemma {:induction false} TokenTrimRight(l: string)
    requires TokenChars(l) && SingleSpaced(l)
    ensures var u := TrimRight(l); TokenChars(u) && SingleSpaced(u)
    decreases |l|
  {
    if l != [] && IsSpace(l[|l| - 1]) {
      TokenCharsSlice(l, 0, |l| - 1, l[..|l| - 1]);
      TokenTrimRight(l[..|l| - 1]);
    }
  }

  lemma TokenSlice(l: string)
    requires TokenChars(l) && SingleSpaced(l)
    ensures IsToken(Strip(l))
  {
    TokenSkipRun(l);
    TokenTrimRight(SkipRun(l, SpaceClass));
  }

  /** `make_token` yields a token: lower-case word characters and single
      spaces, trimmed. */
  lemma MakeTokenIsToken(s: string)
    ensures IsToken(MakeToken(s))
  {
    MakeTokenShape(s);
  }

  /** A token is its own token. */
  lemma TokenFixed(t: string)
    requires IsToken(t)
    ensures MakeToken(t) == t
  {
    forall i | 0 <= i < |t| && NonWord(t[i]) ensures t[i] == ' ' {
      assert TokenChar(t[i]);
    }
    CollapseFixed(t, NonWordClass);
    var l := LowerAll(t);
    LowerAllAt(t);
    forall i | 0 <= i < |t| ensures l[i] == t[i] {
      assert TokenChar(t[i]);
    }
    assert l == t;
    if t != [] {
      assert TokenChar(t[0]) && TokenChar(t[|t| - 1]);
    }
    StripFixed(t);
  }

  /** `make_token` is idempotent. */
  lemma MakeTokenIdempotent(s: string)
    ensures MakeToken(MakeToken(s)) == MakeToken(s)
  {
    MakeTokenIsToken(s);
    TokenFixed(MakeToken(s));
  }

  lemma {:induction false} SkipRunLower(s: string)
    ensures SkipRun(LowerAll(s), NonWordClass) == LowerAll(SkipRun(s, NonWordClass))
    decreases |s|
  {
    if s != [] {
      var ls := LowerAll(s);
      assert ls == [Lower(s[0])] + LowerAll(s[1..]);
      LowerChar(s[0]);
      if NonWord(s[0]) {
        assert ls[1..] == LowerAll(s[1..]);
        SkipRunLower(s[1..]);
      }
    }
  }

  lemma {:induction false} CollapseLower(s: string)
    ensures CollapseRuns(LowerAll(s), NonWordClass) == LowerAll(CollapseRuns(s, NonWordClass))
    decreases |s|
  {
    if s != [] {
      var ls := LowerAll(s);
      assert ls[1..] == LowerAll(s[1..]);
      LowerChar(s[0]);
      if NonWord(s[0]) {
        var rest := SkipRun(s[1..], NonWordClass);
        SkipRunLower(s[1..]);
        CollapseLower(rest);
        assert LowerAll([' '] + CollapseRuns(rest, NonWordClass))
            == [' '] + LowerAll(CollapseRuns(rest, NonWordClass));
      } else {
        CollapseLower(s[1..]);
        assert LowerAll([s[0]] + CollapseRuns(s[1..], NonWordClass))
            == [Lower(s[0])] + LowerAll(CollapseRuns(s[1..], NonWordClass));
      }
    }
  }

  lemma LowerAllIdempotent(s: string)
    ensures LowerAll(LowerAll(s)) == LowerAll(s)
  {
    var l := LowerAll(s);
    LowerAllAt(s);
    LowerAllAt(l);
    forall i | 0 <= i < |l| ensures Lower(l[i]) == l[i] {
      LowerChar(s[i]);
    }
  }

  /** Lower-casing keeps a string blank or non-blank. */
  lemma LowerAllBlank(s: string)
    ensures IsBlank(LowerAll(s)) == IsBlank(s)
  {
    LowerAllAt(s);
    forall i | 0 <= i < |s| ensures IsSpace(LowerAll(s)[i]) == IsSpace(s[i]) {
      LowerChar(s[i]);
    }
  }

  /** Tokens ignore letter case: lower-casing the input first changes nothing. */
  lemma MakeTokenIgnoresCase(s: string)
    ensures MakeToken(LowerAll(s)) == MakeToken(s)
  {
    var c := CollapseRuns(s, NonWordClass);
    calc {
      MakeToken(LowerAll(s));
      Strip(LowerAll(CollapseRuns(LowerAll(s), NonWordClass)));
      { CollapseLower(s); }
      Strip(LowerAll(LowerAll(c)));
      { LowerAllIdempotent(c); }
      Strip(LowerAll(c));
      MakeToken(s);
    }
  }

  /** A prefix made only of class-`k` characters is skipped entirely. */
  lemma {:induction false} SkipRunAll(a: string, b: string, k: Class)
    requires forall i :: 0 <= i < |a| ==> InClass(a[i], k)
    ensures SkipRun(a + b, k) == SkipRun(b, k)
    decreases |a|
  {
    if a == [] {
      assert a + b == b;
    } else {
      assert (a + b)[1..] == a[1..] + b;
      forall i | 0 <= i < |a[1..]| ensures InClass(a[1..][i], k) {
        assert a[1..][i] == a[i + 1];
      }
      SkipRunAll(a[1..], b, k);
    }
  }

  /** A skip that stops inside `a` leaves the rest of `a` and all of `b`. */
  lemma {:induction false} SkipRunStops(a: string, b: string, k: Class)
    requires SkipRun(a, k) != []
    ensures SkipRun(a + b, k) == SkipRun(a, k) + b
    decreases |a|
  {
    assert a != [];
    assert (a + b)[0] == a[0];
    if InClass(a[0], k) {
      assert (a + b)[1..] == a[1..] + b;
      SkipRunStops(a[1..], b, k);
    }
  }

  /** A leading run of class-`k` characters becomes one space, and the
      collapse goes on after the run. */
  lemma RunThenRest(u: string, y: string, k: Class)
    requires u != [] && forall i :: 0 <= i < |u| ==> InClass(u[i], k)
    ensures CollapseRuns(u + y, k) == [' '] + CollapseRuns(SkipRun(y, k), k)
  {
    assert (u + y)[0] == u[0] && (u + y)[1..] == u[1..] + y;
    forall i | 0 <= i < |u[1..]| ensures InClass(u[1..][i], k) {
      assert u[1..][i] == u[i + 1];
    }
    SkipRunAll(u[1..], y, k);
  }

  /** A skip that runs to the end of `t` also skips a following run `u`. */
  lemma SkipThroughRun(t: string, u: string, y: string, k: Class)
    requires SkipRun(t, k) == []
    requires forall i :: 0 <= i < |u| ==> InClass(u[i], k)
    ensures SkipRun(t + (u + y), k) == SkipRun(y, k)
  {
    SkipRunFacts(t, k);
    SkipRunAll(t, u + y, k);
    SkipRunAll(u, y, k);
  }

  /** One step of the collapse on `x + v` when `x` is not empty. */
  lemma CollapseHead(x: string, v: string, k: Class)
    requires x != []
    ensures InClass(x[0], k) ==> CollapseRuns(x + v, k) == [' '] + CollapseRuns(SkipRun(x[1..] + v, k), k)
    ensures !InClass(x[0], k) ==> CollapseRuns(x + v, k) == [x[0]] + CollapseRuns(x[1..] + v, k)
  {
    assert (x + v)[0] == x[0] && (x + v)[1..] == x[1..] + v;
  }

  /** Whatever non-empty run of class-`k` characters stands between `x` and
      `y`, collapsing gives the same result as a single space would. */
  lemma {:induction false} CollapseRunsAgree(x: string, u: string, y: string, k: Class)
    requires u != [] && forall i :: 0 <= i < |u| ==> InClass(u[i], k)
    ensures CollapseRuns(x + u + y, k) == CollapseRuns(x + [' '] + y, k)
    decreases |x|
  {
    var sp: string := [' '];
    assert InClass(' ', k);
    if x == [] {
      assert x + u + y == u + y && x + sp + y == sp + y;
      RunThenRest(u, y, k);
      RunThenRest(sp, y, k);
    } else {
      var t := x[1..];
      assert x + u + y == x + (u + y) && x + sp + y == x + (sp + y);
      assert t + u + y == t + (u + y) && t + sp + y == t + (sp + y);
      CollapseHead(x, u + y, k);
      CollapseHead(x, sp + y, k);
      if !InClass(x[0], k) {
        CollapseRunsAgree(t, u, y, k);
      } else if SkipRun(t, k) == [] {
        SkipThroughRun(t, u, y, k);
        SkipThroughRun(t, sp, y, k);
      } else {
        var t' := SkipRun(t, k);
        SkipRunStops(t, u + y, k);
        SkipRunStops(t, sp + y, k);
        assert t' + (u + y) == t' + u + y && t' + (sp + y) == t' + sp + y;
        CollapseRunsAgree(t', u, y, k);
      }
    }
  }

  /** Tokens ignore punctuation and spacing: any non-empty run of non-word
      characters between two parts gives the same token as any other. */
  lemma MakeTokenRunsAgree(x: string, u: string, y: string, v: string)
    requires u != [] && forall i :: 0 <= i < |u| ==> NonWord(u[i])
    requires v != [] && forall i :: 0 <= i < |v| ==> NonWord(v[i])
    ensures MakeToken(x + u + y) == MakeToken(x + v + y)
  {
    CollapseRunsAgree(x, u, y, NonWordClass);
    CollapseRunsAgree(x, v, y, NonWordClass);
  }

  /** Two spellings of one place name share a token. */
  lemma MakeTokenExample()
    ensures MakeToken("New  York") == MakeToken("new-york") == "new york"
  {
    CollapseExample();
    LowerExample();
    StripFixed("new york");
  }

  lemma LowerExample()
    ensures LowerAll("New York") == "new york"
  {
    var s, t := "New York", "new york";
    LowerAllAt(s);
    forall i | 0 <= i < |s| ensures LowerAll(s)[i] == t[i] {
      assert Lower(s[i]) == t[i];
    }
  }

  lemma CollapseExample()
    ensures CollapseRuns("New  York", NonWordClass) == "New York"
    ensures CollapseRuns("new-york", NonWordClass) == "new york"
  {
    var upper, lower := "New" + "  " + "York", "new" + "-" + "york";
    assert upper == "New  York" && lower == "new-york";
    assert "New" + " " + "York" == "New York" && "new" + " " + "york" == "new york";
    CollapseRunExample("New", "  ", "York");
    CollapseRunExample("new", "-", "york");
  }

  /** Two words with a run of non-word characters between them collapse to
      the two words with one space between them. */
  lemma CollapseRunExample(x: string, u: string, y: string)
    requires u != [] && forall i :: 0 <= i < |u| ==> NonWord(u[i])
    requires forall i :: 0 <= i < |x| ==> IsWord(x[i])
    requires forall i :: 0 <= i < |y| ==> IsWord(y[i])
    ensures CollapseRuns(x + u + y, NonWordClass) == x + " " + y
  {
    CollapseRunsAgree(x, u, y, NonWordClass);
    TwoWordsFixed(x, y);
  }

  lemma TwoWordsFixed(x: string, y: string)
    requires forall i :: 0 <= i < |x| ==> IsWord(x[i])
    requires forall i :: 0 <= i < |y| ==> IsWord(y[i])
    ensures CollapseRuns(x + " " + y, NonWordClass) == x + " " + y
  {
    var t := x + " " + y;
    forall i | 0 <= i < |t| && InClass(t[i], NonWordClass) ensures t[i] == ' ' {
      TwoWordsAt(x, y, i);
    }
    forall i, j | 0 <= i < j < |t| && j == i + 1
      ensures !InClass(t[i], NonWordClass) || !InClass(t[j], NonWordClass)
    {
      TwoWordsAt(x, y, i);
      TwoWordsAt(x, y, j);
    }
    CollapseFixed(t, NonWordClass);
  }

  /** Every character of two words joined by a space is a word character,
      except the space. */
  lemma TwoWordsAt(x: string, y: string, i: nat)
    requires forall i :: 0 <= i < |x| ==> IsWord(x[i])
    requires forall i :: 0 <= i < |y| ==> IsWord(y[i])
    requires i < |x| + 1 + |y|
    ensures (x + " " + y)[i] == ' ' <==> i == |x|
    ensures i != |x| ==> IsWord((x + " " + y)[i])
  {
    var xs := x + " ";
    if i < |x| {
      assert (xs + y)[i] == xs[i] == x[i];
    } else if i > |x| {
      assert (xs + y)[i] == y[i - |xs|];
    }
  }

  // ---------------------------------------------------------------------------
  // Lemmas: words
  // ---------------------------------------------------------------------------

  lemma {:induction false} TakeWordAppendSpace(u: string, c: char)
    requires IsSpace(c)
    ensures TakeWord(u + [c]) == TakeWord(u)
    decreases |u|
  {
    if u != [] && !IsSpace(u[0]) {
      assert (u + [c])[1..] == u[1..] + [c];
      TakeWordAppendSpace(u[1..], c);
    }
  }

  /** Trailing whitespace does not change the words. */
  lemma {:induction false} WordsAppendSpace(u: string, c: char)
    requires IsSpace(c)
    ensures Words(u + [c]) == Words(u)
    decreases |u|
  {
    if u == [] {
      assert Words([c]) == Words([c][1..]);
    } else if IsSpace(u[0]) {
      assert (u + [c])[1..] == u[1..] + [c];
      WordsAppendSpace(u[1..], c);
    } else {
      TakeWordAppendSpace(u, c);
      var w := TakeWord(u);
      assert (u + [c])[|w|..] == u[|w|..] + [c];
      WordsAppendSpace(u[|w|..], c);
    }
  }

  lemma {:induction false} WordsTrimRight(s: string)
    ensures Words(TrimRight(s)) == Words(s)
    decreases |s|
  {
    if s != [] && IsSpace(s[|s| - 1]) {
      WordsTrimRight(s[..|s| - 1]);
      assert s == s[..|s| - 1] + [s[|s| - 1]];
      WordsAppendSpace(s[..|s| - 1], s[|s| - 1]);
    }
  }

  lemma {:induction false} WordsSkipSpace(s: string)
    ensures Words(SkipRun(s, SpaceClass)) == Words(s)
    decreases |s|
  {
    if s != [] && IsSpace(s[0]) {
      WordsSkipSpace(s[1..]);
    }
  }

  /** Leading and trailing whitespace do not change the words. */
  lemma WordsStrip(s: string)
    ensures Words(Strip(s)) == Words(s)
  {
    WordsTrimRight(SkipRun(s, SpaceClass));
    WordsSkipSpace(s);
  }

  /** Collapsing a string that starts with a word copies the word. */
  lemma CollapseAfterWord(t: string)
    requires t != [] && !IsSpace(t[0])
    ensures var w := TakeWord(t);
      CollapseRuns(t, SpaceClass) == w + CollapseRuns(t[|w|..], SpaceClass)
  {
    var w := TakeWord(t);
    assert t == w + t[|w|..];
    CollapseNonSepPrefix(w, t[|w|..], SpaceClass);
  }

  /** Collapsing a string that starts with whitespace gives a space and the
      collapse of what follows the run. */
  lemma CollapseAfterSpace(rest: string)
    requires rest != [] && IsSpace(rest[0])
    ensures CollapseRuns(rest, SpaceClass)
         == [' '] + CollapseRuns(SkipRun(rest[1..], SpaceClass), SpaceClass)
    ensures Words(rest) == Words(SkipRun(rest[1..], SpaceClass))
  {
    WordsSkipSpace(rest[1..]);
  }

  lemma JoinCons(w: string, ws: seq<string>)
    requires ws != []
    ensures JoinWords([w] + ws) == w + ([' '] + JoinWords(ws))
  {
    assert ([w] + ws)[1..] == ws;
  }

  /** What follows the first word of a string with no whitespace at its end
      also has none at its ends, once the separating run is skipped. */
  lemma AfterWordEnds(t: string)
    requires t != [] && !IsSpace(t[0]) && !IsSpace(t[|t| - 1])
    ensures var rest := t[|TakeWord(t)|..];
      rest != [] ==>
        && IsSpace(rest[0])
        && var t' := SkipRun(rest[1..], SpaceClass);
           t' != [] && !IsSpace(t'[0]) && !IsSpace(t'[|t'| - 1]) && |t'| < |t|
  {
    var rest := t[|TakeWord(t)|..];
    if rest != [] {
      SkipRunFacts(rest[1..], SpaceClass);
      assert rest[|rest| - 1] == t[|t| - 1];
    }
  }

  /** Collapsing the whitespace runs of a string without whitespace at either
      end gives its words joined by single spaces. */
  lemma {:induction false} CollapseIsJoin(t: string)
    requires t == [] || (!IsSpace(t[0]) && !IsSpace(t[|t| - 1]))
    ensures CollapseRuns(t, SpaceClass) == JoinWords(Words(t))
    decreases |t|
  {
    if t != [] {
      var w := TakeWord(t);
      var rest := t[|w|..];
      CollapseAfterWord(t);
      assert Words(t) == [w] + Words(rest);
      AfterWordEnds(t);
      if rest == [] {
        assert Words(t) == [w];
      } else {
        CollapseAfterSpace(rest);
        var t' := SkipRun(rest[1..], SpaceClass);
        CollapseIsJoin(t');
        JoinCons(w, Words(t'));
      }
    }
  }

  lemma NormaliseIsJoinOfWords(s: string)
    ensures CollapseRuns(Strip(s), SpaceClass) == JoinWords(Words(s))
  {
    StripFacts(s);
    CollapseIsJoin(Strip(s));
    WordsStrip(s);
  }

  lemma {:induction false} TakeWordOfWord(w: string, rest: string)
    requires !HasSpace(w)
    requires rest == [] || IsSpace(rest[0])
    ensures TakeWord(w + rest) == w
    decreases |w|
  {
    if w != [] {
      assert (w + rest)[1..] == w[1..] + rest;
      assert !HasSpace(w[1..]) by {
        forall i | 0 <= i < |w[1..]| ensures !IsSpace(w[1..][i]) {
          assert w[1..][i] == w[i + 1];
        }
      }
      TakeWordOfWord(w[1..], rest);
    } else {
      assert w + rest == rest;
    }
  }

  /** Splitting joined words gives the words back: `split` undoes `join`. */
  lemma {:induction false} WordsOfJoin(ws: seq<string>)
    requires ValidWords(ws)
    ensures Words(JoinWords(ws)) == ws
    decreases |ws|
  {
    if |ws| == 1 {
      var w := ws[0];
      TakeWordOfWord(w, []);
      assert w + [] == w;
      assert Words(w) == [w] + Words(w[|w|..]);
    } else if |ws| > 1 {
      var w := ws[0];
      var j := JoinWords(ws[1..]);
      var s := w + [' '] + j;
      assert s == w + ([' '] + j);
      TakeWordOfWord(w, [' '] + j);
      assert s[|w|..] == [' '] + j;
      assert ([' '] + j)[1..] == j;
      assert Words([' '] + j) == Words(j);
      WordsOfJoin(ws[1..]);
      assert ws == [w] + ws[1..];
    }
  }

  /** `normalise_string` is idempotent on the strings it returns. */
  lemma NormaliseIdempotent(s: string)
    requires s != []
    requires NormaliseString(s).value != []
    ensures NormaliseString(NormaliseString(s).value) == NormaliseString(s)
  {
    WordsOfJoin(Words(s));
  }

  lemma CapitalizeValid(ws: seq<string>)
    requires ValidWords(ws)
    ensures ValidWords(CapitalizeAll(ws))
  {
    forall i | 0 <= i < |ws|
      ensures CapitalizeAll(ws)[i] != [] && !HasSpace(CapitalizeAll(ws)[i])
    {
      var w := ws[i];
      var c := Capitalize(w);
      assert |c| == |w|;
      LowerAllAt(w[1..]);
      forall j | 0 <= j < |c| ensures !IsSpace(c[j]) {
        assert !IsSpace(w[j]);
        LowerChar(w[j]);
      }
    }
  }

  lemma CapitalizeTwice(w: string)
    ensures Capitalize(Capitalize(w)) == Capitalize(w)
  {
    if w != [] {
      var t := LowerAll(w[1..]);
      assert Capitalize(w)[1..] == t;
      LowerAllIdempotent(w[1..]);
    }
  }

  /** `fix_location` is idempotent: a fixed location name is already fixed. */
  lemma FixLocationIdempotent(s: string)
    ensures FixLocation(FixLocation(s)) == FixLocation(s)
  {
    if s != [] {
      var ws := Words(s);
      var cs := CapitalizeAll(ws);
      if JoinWords(cs) != [] {
        CapitalizeValid(ws);
        WordsOfJoin(cs);
        forall i | 0 <= i < |ws| ensures CapitalizeAll(cs)[i] == cs[i] {
          CapitalizeTwice(ws[i]);
        }
        assert CapitalizeAll(cs) == cs;
      }
    }
  }
}
