/** The two fixed regular expressions that `SAJApi._load_order` applies to
    param.js, written out as scanners:

      re.search(r"new\s+Array\s*\((.*?)\)", text, re.S)
      re.findall(r'"([^"]+)"', group)

    Each scanner is proved to return what Python's leftmost, backtracking
    matcher returns, stated declaratively by the `...PatternAt` /
    `QuotedAt` predicates. */
module ParamScript {
  import opened Outcomes
  import opened PyText

  /** The first index at or after `j` that holds `c`. */
  function FindFrom(s: string, c: char, j: nat): (r: Option<nat>)
    requires j <= |s|
    ensures r.Some? ==> j <= r.value < |s| && s[r.value] == c
    ensures r.Some? ==> forall k :: j <= k < r.value ==> s[k] != c
    ensures r.None? ==> forall k :: j <= k < |s| ==> s[k] != c
    decreases |s| - j
  {
    if j == |s| then None
    else if s[j] == c then Some(j)
    else FindFrom(s, c, j + 1)
  }

  /** The end of the run of whitespace that starts at `j`. */
  function SkipSpaces(s: string, j: nat): (k: nat)
    requires j <= |s|
    ensures j <= k <= |s|
    ensures forall m :: j <= m < k ==> IsSpace(s[m])
    ensures k < |s| ==> !IsSpace(s[k])
    decreases |s| - j
  {
    if j < |s| && IsSpace(s[j]) then SkipSpaces(s, j + 1) else j
  }

  /** A whitespace run that is followed by a non-space ends where
      `SkipSpaces` says it does. */
  lemma SkipSpacesExact(s: string, j: nat, k: nat)
    requires j <= k < |s|
    requires forall m :: j <= m < k ==> IsSpace(s[m])
    requires !IsSpace(s[k])
    ensures SkipSpaces(s, j) == k
  {
  }

  // ---------------------------------------- new\s+Array\s*\((.*?)\)

  /** Where a match of `new\s+Array\s*\((.*?)\)` lies: it starts at
      `start`, `\s+` ends at `name`, `\s*` ends at `lparen` and the group
      ends at `rparen`. */
  datatype ArrayMatch = ArrayMatch(start: nat, name: nat, lparen: nat, rparen: nat)

  /** The pattern can match `s` starting at `i` with its parts at these
      positions (`.` also matches a newline under `re.S`). */
  ghost predicate ArrayPatternAt(s: string, i: int, name: int, lparen: int, rparen: int) {
    && 0 <= i && i + 3 < name && name + 5 <= lparen && lparen < rparen < |s|
    && s[i..i + 3] == "new"
    && (forall k :: i + 3 <= k < name ==> IsSpace(s[k]))
    && s[name..name + 5] == "Array"
    && (forall k :: name + 5 <= k < lparen ==> IsSpace(s[k]))
    && s[lparen] == '(' && s[rparen] == ')'
  }

  /** The match `re.search` reports: the leftmost start at which the
      pattern can match, greedy whitespace runs, and the first `)` after
      the `(` for the lazy group. */
  ghost predicate IsSearchResult(s: string, m: ArrayMatch) {
    && ArrayPatternAt(s, m.start, m.name, m.lparen, m.rparen)
    && (forall a, b, c :: ArrayPatternAt(s, m.start, a, b, c) ==>
          a == m.name && b == m.lparen && m.rparen <= c)
    && (forall i, a, b, c :: i < m.start ==> !ArrayPatternAt(s, i, a, b, c))
  }

  /** The pattern tried at `i` alone. */
  function ArrayAt(s: string, i: nat): (r: Option<ArrayMatch>)
    requires i <= |s|
    ensures r.Some? ==> r.value.start == i
    ensures r.Some? ==> ArrayPatternAt(s, i, r.value.name, r.value.lparen, r.value.rparen)
    ensures r.Some? ==> forall k :: r.value.lparen < k < r.value.rparen ==> s[k] != ')'
  {
    if !(i + 3 <= |s| && s[i..i + 3] == "new") then None
    else
      var name := SkipSpaces(s, i + 3);
      if name == i + 3 || !(name + 5 <= |s| && s[name..name + 5] == "Array") then None
      else
        var lparen := SkipSpaces(s, name + 5);
        if lparen == |s| || s[lparen] != '(' then None
        else match FindFrom(s, ')', lparen + 1)
          case None => None
          case Some(rparen) => Some(ArrayMatch(i, name, lparen, rparen))
  }

  /** Wherever the pattern can match at `i`, `ArrayAt` finds that match,
      with the positions the matcher picks. */
  lemma ArrayAtComplete(s: string, i: nat, name: nat, lparen: nat, rparen: nat)
    requires ArrayPatternAt(s, i, name, lparen, rparen)
    ensures ArrayAt(s, i).Some?
    ensures ArrayAt(s, i).value.name == name && ArrayAt(s, i).value.lparen == lparen
    ensures ArrayAt(s, i).value.rparen <= rparen
  {
    assert s[name] == "Array"[0];
    SkipSpacesExact(s, i + 3, name);
    SkipSpacesExact(s, name + 5, lparen);
  }

  /** `re.search` from position `i` on. */
  function SearchArrayFrom(s: string, i: nat): Option<ArrayMatch>
    requires i <= |s|
    decreases |s| - i
  {
    if i == |s| then None
    else match ArrayAt(s, i)
      case Some(m) => Some(m)
      case None => SearchArrayFrom(s, i + 1)
  }

  function SearchArray(s: string): (r: Option<ArrayMatch>)
    ensures r.Some? ==> ArrayPatternAt(s, r.value.start, r.value.name, r.value.lparen, r.value.rparen)
  {
    SearchArrayFromCorrect(s, 0);
    SearchArrayFrom(s, 0)
  }

  /** The pattern can match at no start in `[lo, hi)`. */
  ghost predicate NoArrayIn(s: string, lo: int, hi: int) {
    forall j, a, b, c :: lo <= j < hi ==> !ArrayPatternAt(s, j, a, b, c)
  }

  lemma NoArrayAt(s: string, i: nat)
    requires i < |s| && ArrayAt(s, i).None?
    ensures NoArrayIn(s, i, i + 1)
  {
    forall j, a, b, c | i <= j < i + 1 && ArrayPatternAt(s, j, a, b, c) ensures false {
      ArrayAtComplete(s, j, a, b, c);
    }
  }

  lemma NoArrayJoin(s: string, lo: int, mid: int, hi: int)
    requires NoArrayIn(s, lo, mid) && NoArrayIn(s, mid, hi)
    ensures NoArrayIn(s, lo, hi)
  {
  }

  /** A match found from `i` is a match of the pattern, its group ends at
      the first `)`, and no match starts between `i` and it. */
  lemma {:induction false} SearchArrayFromCorrect(s: string, i: nat)
    requires i <= |s|
    ensures SearchArrayFrom(s, i).Some? ==>
      var m := SearchArrayFrom(s, i).value;
      && i <= m.start
      && ArrayPatternAt(s, m.start, m.name, m.lparen, m.rparen)
      && (forall k :: m.lparen < k < m.rparen ==> s[k] != ')')
      && NoArrayIn(s, i, m.start)
    decreases |s| - i
  {
    if i < |s| && ArrayAt(s, i).None? {
      NoArrayAt(s, i);
      SearchArrayFromCorrect(s, i + 1);
      if SearchArrayFrom(s, i + 1).Some? {
        NoArrayJoin(s, i, i + 1, SearchArrayFrom(s, i + 1).value.start);
      }
    }
  }

  /** Nothing found from `i` means the pattern matches at no start from `i`
      on. */
  lemma {:induction false} SearchArrayFromNone(s: string, i: nat)
    requires i <= |s| && SearchArrayFrom(s, i).None?
    ensures NoArrayIn(s, i, |s| + 1)
    decreases |s| - i
  {
    if i == |s| {
      assert NoArrayIn(s, i, |s| + 1);
    } else {
      NoArrayAt(s, i);
      SearchArrayFromNone(s, i + 1);
      NoArrayJoin(s, i, i + 1, |s| + 1);
    }
  }

  /** `SearchArray` finds what `re.search` finds, and finds nothing exactly
      when the pattern matches nowhere. */
  lemma SearchArrayCorrect(s: string)
    ensures SearchArray(s).Some? ==> IsSearchResult(s, SearchArray(s).value)
    ensures SearchArray(s).None? <==>
      forall i, a, b, c :: !ArrayPatternAt(s, i, a, b, c)
  {
    SearchArrayFromCorrect(s, 0);
    if SearchArray(s).None? {
      SearchArrayFromNone(s, 0);
    } else {
      var m := SearchArray(s).value;
      forall a, b, c | ArrayPatternAt(s, m.start, a, b, c)
        ensures a == m.name && b == m.lparen && m.rparen <= c
      {
        ArrayAtComplete(s, m.start, a, b, c);
        ArrayAtComplete(s, m.start, m.name, m.lparen, m.rparen);
        assert m.start < |s|;
        assert SearchArrayFrom(s, m.start) == Some(ArrayAt(s, m.start).value) by {
          SearchArrayAtStart(s, 0, m);
        }
      }
    }
  }

  /** The match found from `i` is the one `ArrayAt` gives at its start. */
  lemma {:induction false} SearchArrayAtStart(s: string, i: nat, m: ArrayMatch)
    requires i <= |s| && SearchArrayFrom(s, i) == Some(m)
    ensures m.start < |s| && ArrayAt(s, m.start) == Some(m)
    ensures SearchArrayFrom(s, m.start) == Some(m)
    decreases |s| - i
  {
    if ArrayAt(s, i).None? {
      SearchArrayAtStart(s, i + 1, m);
    }
  }

  /** The text `(.*?)` captures. */
  function Group(s: string, m: ArrayMatch): string
    requires m.lparen < m.rparen <= |s|
  {
    s[m.lparen + 1..m.rparen]
  }

  // ------------------------------------------------------ "([^"]+)"

  /** `"([^"]+)"` can match `t` at `q`, its closing quote being at `e`. */
  ghost predicate QuotedAt(t: string, q: int, e: int) {
    && 0 <= q && q + 1 < e < |t|
    && t[q] == '"' && t[e] == '"'
    && (forall k :: q < k < e ==> t[k] != '"')
  }

  /** The pattern can match nowhere in `t` before `limit`. */
  ghost predicate NoQuotedBefore(t: string, limit: int) {
    forall q, e :: q < limit ==> !QuotedAt(t, q, e)
  }

  /** What `re.findall(r'"([^"]+)"', t)` returns is `caps`: the leftmost
      match, then the matches in the rest of the text after it. */
  ghost predicate IsFindAll(t: string, caps: seq<string>)
    decreases |t|
  {
    if caps == [] then NoQuotedBefore(t, |t|)
    else exists q, e ::
      && QuotedAt(t, q, e)
      && NoQuotedBefore(t, q)
      && caps[0] == t[q + 1..e]
      && IsFindAll(t[e + 1..], caps[1..])
  }

  /** The closing quote of a match at the start of `t`, if there is one. */
  function QuotedAtStart(t: string): (r: Option<nat>)
    ensures r.Some? ==> QuotedAt(t, 0, r.value)
    ensures r.None? ==> forall e :: !QuotedAt(t, 0, e)
  {
    if t == [] || t[0] != '"' then None
    else match FindFrom(t, '"', 1)
      case Some(e) => if e > 1 then Some(e) else None
      case None => None
  }

  /** The scanner for `re.findall(r'"([^"]+)"', t)`: matches are taken
      left to right, and the search resumes after each one. */
  function Captures(t: string): (r: seq<string>)
    ensures 3 * |r| <= |t|
    decreases |t|
  {
    if t == [] then []
    else match QuotedAtStart(t)
      case Some(e) => [t[1..e]] + Captures(t[e + 1..])
      case None => Captures(t[1..])
  }

  lemma QuotedAtShift(t: string, q: nat, e: nat)
    requires |t| > 0
    ensures QuotedAt(t[1..], q, e) <==> QuotedAt(t, q + 1, e + 1)
  {
    if QuotedAt(t, q + 1, e + 1) {
      forall k | q < k < e ensures t[1..][k] != '"' {
        assert t[1..][k] == t[k + 1];
      }
    }
  }

  /** The scanner returns what `re.findall` returns. */
  lemma {:induction false} CapturesIsFindAll(t: string)
    ensures IsFindAll(t, Captures(t))
    decreases |t|
  {
    if t == [] {
    } else {
      match QuotedAtStart(t)
      case Some(e) =>
        CapturesIsFindAll(t[e + 1..]);
        assert IsFindAll(t, Captures(t)) by {
          assert QuotedAt(t, 0, e) && NoQuotedBefore(t, 0) && Captures(t)[0] == t[1..e];
          assert Captures(t)[1..] == Captures(t[e + 1..]);
        }
      case None =>
        CapturesIsFindAll(t[1..]);
        FindAllShift(t, Captures(t[1..]));
    }
  }

  /** When nothing matches at the first position, `findall` of the whole
      text is `findall` of the text after it. */
  lemma FindAllShift(t: string, caps: seq<string>)
    requires |t| > 0
    requires forall e :: !QuotedAt(t, 0, e)
    requires IsFindAll(t[1..], caps)
    ensures IsFindAll(t, caps)
  {
    var u := t[1..];
    if caps == [] {
      NoQuotedShift(t, |u|);
    } else {
      var q, e := FindAllHead(u, caps);
      QuotedAtShift(t, q, e);
      NoQuotedShift(t, q);
      assert u[q + 1..e] == t[q + 2..e + 1];
      assert u[e + 1..] == t[e + 2..];
      assert QuotedAt(t, q + 1, e + 1) && NoQuotedBefore(t, q + 1);
    }
  }

  /** With no match at the first position, the matches of `t` before
      `limit + 1` are those of `t[1..]` before `limit`, moved by one. */
  lemma NoQuotedShift(t: string, limit: int)
    requires |t| > 0
    requires forall e :: !QuotedAt(t, 0, e)
    requires NoQuotedBefore(t[1..], limit)
    ensures NoQuotedBefore(t, limit + 1)
  {
    forall q, e | q < limit + 1 ensures !QuotedAt(t, q, e) {
      if q > 0 && e > 0 { QuotedAtShift(t, q - 1, e - 1); }
    }
  }

  /** A match that starts at `q` ends at one place only. */
  lemma QuotedAtUnique(t: string, q: nat, e: nat, e': nat)
    requires QuotedAt(t, q, e) && QuotedAt(t, q, e')
    ensures e == e'
  {
  }

  lemma SameHeadTail(x: seq<string>, y: seq<string>)
    requires x != [] && y != [] && x[0] == y[0] && x[1..] == y[1..]
    ensures x == y
  {
    assert x == [x[0]] + x[1..] && y == [y[0]] + y[1..];
  }

  /** There is one leftmost match. */
  lemma LeftmostUnique(t: string, q: int, e: int, q': int, e': int)
    requires QuotedAt(t, q, e) && NoQuotedBefore(t, q)
    requires QuotedAt(t, q', e') && NoQuotedBefore(t, q')
    ensures q == q' && e == e'
  {
    assert !(q' < q) && !(q < q');
    QuotedAtUnique(t, q, e, e');
  }

  /** The leftmost match of a non-empty `findall` result. */
  lemma FindAllHead(t: string, caps: seq<string>) returns (q: int, e: int)
    requires caps != [] && IsFindAll(t, caps)
    ensures QuotedAt(t, q, e) && NoQuotedBefore(t, q)
    ensures caps[0] == t[q + 1..e] && IsFindAll(t[e + 1..], caps[1..])
  {
    q, e :| && QuotedAt(t, q, e) && NoQuotedBefore(t, q)
            && caps[0] == t[q + 1..e] && IsFindAll(t[e + 1..], caps[1..]);
  }

  /** `findall` is empty exactly when nothing matches. */
  lemma FindAllEmpty(t: string, caps: seq<string>)
    requires IsFindAll(t, caps)
    ensures caps == [] <==> NoQuotedBefore(t, |t|)
  {
    if caps != [] {
      var q, e := FindAllHead(t, caps);
      assert q < |t| && QuotedAt(t, q, e);
    }
  }

  /** `re.findall` has one answer: the description `IsFindAll` pins the
      captures down completely. */
  lemma {:induction false} FindAllUnique(t: string, x: seq<string>, y: seq<string>)
    requires IsFindAll(t, x) && IsFindAll(t, y)
    ensures x == y
    decreases |t|
  {
    if x == [] || y == [] {
      FindAllEmpty(t, x);
      FindAllEmpty(t, y);
    } else {
      var q, e := FindAllHead(t, x);
      FindAllHeadAt(t, y, q, e);
      FindAllUnique(t[e + 1..], x[1..], y[1..]);
      SameHeadTail(x, y);
    }
  }

  /** Once the leftmost match is known, a non-empty answer starts with its
      group and goes on with an answer for the text after it. */
  lemma FindAllHeadAt(t: string, caps: seq<string>, q: int, e: int)
    requires caps != [] && IsFindAll(t, caps)
    requires QuotedAt(t, q, e) && NoQuotedBefore(t, q)
    ensures caps[0] == t[q + 1..e] && IsFindAll(t[e + 1..], caps[1..])
  {
    var q', e' := FindAllHead(t, caps);
    LeftmostUnique(t, q, e, q', e');
  }

  /** Every identifier found is non-empty and holds no double quote. */
  lemma {:induction false} CapturesWellFormed(t: string)
    ensures forall i :: 0 <= i < |Captures(t)| ==> |Captures(t)[i]| > 0 && '"' !in Captures(t)[i]
    decreases |t|
  {
    if t != [] {
      match QuotedAtStart(t)
      case Some(e) =>
        CapturesWellFormed(t[e + 1..]);
        var c := t[1..e];
        assert forall k :: 0 <= k < |c| ==> c[k] == t[k + 1];
      case None =>
        CapturesWellFormed(t[1..]);
    }
  }

  // ---------------------------------------------- SAJApi._load_order

  /** The identifier list `_load_order` stores for the text of param.js:
      the empty list (tag mode) when there is no `new Array(...)`, and
      otherwise the quoted strings inside it, in order, duplicates kept. */
  function OrderFromScript(text: string): (r: seq<string>)
    ensures SearchArray(text).None? ==> r == []
    ensures forall i :: 0 <= i < |r| ==> |r[i]| > 0 && '"' !in r[i]
  {
    match SearchArray(text)
    case None => []
    case Some(m) =>
      CapturesWellFormed(Group(text, m));
      Captures(Group(text, m))
  }

  /** `_load_order` stores what the two regular expressions produce. */
  lemma OrderFromScriptCorrect(text: string)
    ensures (forall i, a, b, c :: !ArrayPatternAt(text, i, a, b, c)) ==> OrderFromScript(text) == []
    ensures SearchArray(text).Some? ==>
      && IsSearchResult(text, SearchArray(text).value)
      && IsFindAll(Group(text, SearchArray(text).value), OrderFromScript(text))
    ensures forall i :: 0 <= i < |OrderFromScript(text)| ==>
      |OrderFromScript(text)[i]| > 0 && '"' !in OrderFromScript(text)[i]
  {
    SearchArrayCorrect(text);
    if SearchArray(text).Some? {
      var m := SearchArray(text).value;
      CapturesIsFindAll(Group(text, m));
      CapturesWellFormed(Group(text, m));
    }
  }

  /** `"a","b",...`: identifiers written the way param.js lists them. */
  function QuoteList(ids: seq<string>): string {
    if ids == [] then ""
    else "\"" + ids[0] + "\"" + (if |ids| == 1 then "" else "," + QuoteList(ids[1..]))
  }

  /** Identifiers an inverter can list: non-empty, without `"` or `)`. */
  predicate ListableId(id: string) {
    |id| > 0 && '"' !in id && ')' !in id
  }

  lemma {:induction false} CapturesQuoteList(ids: seq<string>)
    requires forall i :: 0 <= i < |ids| ==> ListableId(ids[i])
    ensures Captures(QuoteList(ids)) == ids
  {
    if ids != [] {
      var x := ids[0];
      var rest := if |ids| == 1 then "" else "," + QuoteList(ids[1..]);
      CapturesQuoteList(ids[1..]);
      CapturesQuoted(x, rest);
      if |ids| > 1 {
        CapturesComma(QuoteList(ids[1..]));
      }
      assert ids == [x] + ids[1..];
    }
  }

  /** The comma between two quoted identifiers is skipped. */
  lemma CapturesComma(t: string)
    ensures Captures("," + t) == Captures(t)
  {
    assert ("," + t)[1..] == t;
  }

  /** A list of identifiers holds no `)`. */
  lemma {:induction false} QuoteListNoParen(ids: seq<string>)
    requires forall i :: 0 <= i < |ids| ==> ListableId(ids[i])
    ensures ')' !in QuoteList(ids)
  {
    if ids != [] {
      QuoteListNoParen(ids[1..]);
    }
  }

  /** A quoted identifier is captured, and the scan goes on after its
      closing quote. */
  lemma CapturesQuoted(x: string, rest: string)
    requires ListableId(x)
    ensures Captures("\"" + x + "\"" + rest) == [x] + Captures(rest)
  {
    var t := "\"" + x + "\"" + rest;
    var e := |x| + 1;
    assert t[e] == '"';
    forall k | 1 <= k < e ensures t[k] != '"' {
      assert t[k] == x[k - 1];
    }
    assert QuotedAtStart(t) == Some(e);
    assert t[1..e] == x;
    assert t[e + 1..] == rest;
  }

  /** `new Array(body)` with no `)` in `body` matches at its start, the
      group being `body`. */
  lemma ArrayAtLiteral(body: string)
    requires ')' !in body
    ensures var s := "new Array(" + body + ")";
      SearchArray(s) == Some(ArrayMatch(0, 4, 9, |s| - 1))
  {
    var s := "new Array(" + body + ")";
    assert s[..3] == "new" && s[3] == ' ' && !IsSpace(s[4]);
    assert s[4..9] == "Array" && s[9] == '(';
    SkipSpacesExact(s, 3, 4);
    SkipSpacesExact(s, 9, 9);
    assert FindFrom(s, ')', 10) == Some(|s| - 1) by {
      assert s[|s| - 1] == ')';
      forall k | 10 <= k < |s| - 1 ensures s[k] != ')' {
        assert s[k] == body[k - 10];
      }
    }
    assert ArrayAt(s, 0) == Some(ArrayMatch(0, 4, 9, |s| - 1));
  }

  /** An identifier list written as `new Array("a","b",...)` is read back
      exactly, in order and with duplicates. */
  lemma OrderRoundTrip(ids: seq<string>)
    requires forall i :: 0 <= i < |ids| ==> ListableId(ids[i])
    ensures OrderFromScript("new Array(" + QuoteList(ids) + ")") == ids
  {
    var body := QuoteList(ids);
    var s := "new Array(" + body + ")";
    CapturesQuoteList(ids);
    QuoteListNoParen(ids);
    ArrayAtLiteral(body);
    assert Group(s, ArrayMatch(0, 4, 9, |s| - 1)) == body;
  }

  /** The example of a list that starts with an empty string: the leftmost
      match of `"([^"]+)"` is the `","` between the first two strings. */
  lemma CapturesEmptyFirst()
    ensures Captures("\"\",\"a\"") == [","]
  {
    var t := "\"\",\"a\"";
    assert QuotedAtStart(t) == None by { assert FindFrom(t, '"', 1) == Some(1); }
    var u := t[1..];
    assert u == "\",\"a\"";
    assert QuotedAtStart(u) == Some(2) by { assert FindFrom(u, '"', 1) == Some(2); }
    assert u[1..2] == ",";
    var v := u[3..];
    assert v == "a\"";
    assert QuotedAtStart(v) == None;
    assert v[1..] == "\"";
    assert QuotedAtStart(v[1..]) == None by { assert FindFrom(v[1..], '"', 1) == None; }
    assert v[1..][1..] == [];
  }
}
