/** The older `SAJApi` at the top of the repository: one GET of
    real_time_data.xml, then every element below the root that carries text
    becomes an entry `tag -> _auto(text)`.

    The GET and `resp.text()` are the parameter `get`; `ET.fromstring` is
    `parse`, None standing for `ET.ParseError`; `float()` is `parseFloat`. */
module LegacySajApi {
  import opened Outcomes
  import opened PyText
  import opened ElementTree
  import opened Dicts
  import opened Comprehensions
  import opened PyNumbers
  import SajApi

  const Realtime := "/real_time_data.xml"
  const Scheme := "http://"

  /** What the GET gives: the body as text, an `aiohttp.ClientError` or
      timeout (an error status included, by `raise_for_status`), or a body
      `resp.text()` cannot decode. */
  datatype Page = Text(text: string) | RequestFailed | DecodeFailed

  /** `RequestFailed` and `ParseFailed` are raised as `SAJApiError`; the
      `UnicodeDecodeError` of `resp.text()` escapes as it is. */
  datatype LegacyError = RequestError | ParseFailed | Undecodable

  predicate IsApiError(e: LegacyError) {
    e.RequestError? || e.ParseFailed?
  }

  /** The client keeps its URL only; it is never changed. */
  datatype LegacyClient = LegacyClient(url: string)

  /** `SAJApi(host, session)`: the URL is `http://<host>/real_time_data.xml`. */
  function NewClient(host: string): (c: LegacyClient)
    ensures |c.url| == |Scheme| + |host| + |Realtime|
    ensures c.url[..|Scheme|] == Scheme
    ensures c.url[|Scheme|..|Scheme| + |host|] == host
    ensures c.url[|Scheme| + |host|..] == Realtime
  {
    LegacyClient(Scheme + host + Realtime)
  }

  /** Different hosts give different URLs. */
  lemma NewClientInjective(h1: string, h2: string)
    requires NewClient(h1) == NewClient(h2)
    ensures h1 == h2
  {
    var u := NewClient(h1).url;
    assert |h1| == |h2|;
    assert h1 == u[|Scheme|..|Scheme| + |h1|];
  }

  /** `SAJApi._auto(value)`: the unstripped text goes to `float()` when it
      holds a `.` and to `int()` otherwise, and a text that the one it goes
      to refuses is returned stripped. `int()` skips surrounding whitespace
      except FS..US, so `"\x1c5"` is returned as the text `"5"`. */
  function LegacyAuto(value: string, parseFloat: string -> Option<real>): (r: TypedValue)
    ensures r.StrVal? ==> r.s == Strip(value)
    ensures r.IntVal? ==> '.' !in value && ParseInt(value) == Some(r.i)
    ensures '.' !in value && ParseInt(value).Some? ==> r == IntVal(ParseInt(value).value)
    ensures r.FloatVal? ==> '.' in value && parseFloat(value) == Some(r.f)
    ensures '.' in value && parseFloat(value).Some? ==> r == FloatVal(parseFloat(value).value)
  {
    if '.' in value then
      match parseFloat(value)
      case Some(f) => FloatVal(f)
      case None => StrVal(Strip(value))
    else
      match ParseInt(value)
      case Some(i) => IntVal(i)
      case None => StrVal(Strip(value))
  }

  /** Whitespace-only text is no number, so it becomes the empty string. */
  lemma LegacyAutoBlank(value: string, parseFloat: string -> Option<real>)
    requires AllSpace(value)
    ensures LegacyAuto(value, parseFloat) == StrVal("")
  {
    StripPadding(value, "", "");
    assert value + "" + "" == value;
    assert Strip("") == "";
    forall i | 0 <= i < |value| ensures value[i] != '.' {
      assert IsSpace(value[i]);
    }
  }

  /** An int literal is read as that int, whatever whitespace other than
      FS..US surrounds it. */
  lemma LegacyAutoPaddedInt(p: string, n: int, q: string, parseFloat: string -> Option<real>)
    requires AllIntSpace(p) && AllIntSpace(q)
    ensures LegacyAuto(p + ShowInt(n) + q, parseFloat) == IntVal(n)
  {
    ParseShowInt(n);
    ParseIntPadded(p, ShowInt(n), q);
    ShowIntNoDot(n);
    var t := ShowInt(n);
    var v := p + t + q;
    forall i | 0 <= i < |v| ensures v[i] != '.' {
      if i < |p| {
        assert v[i] == p[i] && IsSpace(p[i]);
      } else if i < |p| + |t| {
        assert v[i] == t[i - |p|];
      } else {
        assert v[i] == q[i - |p| - |t|] && IsSpace(q[i - |p| - |t|]);
      }
    }
  }

  /** Once `.` is absent, and what `strip()` removes is whitespace `int()`
      skips as well, the two `_auto` helpers agree: stripping first, or only
      on failure, gives the same value. */
  lemma LegacyAutoAgrees(value: string, parseFloat: string -> Option<real>)
    requires '.' !in value && IntMargins(value)
    ensures LegacyAuto(value, parseFloat) == SajApi.Auto(value, parseFloat)
  {
    StripInside(value);
    StripIdempotent(value);
    var pre, post := StripSplit(value);
    var core := Strip(value);
    StripStripped(core);
    if core != [] {
      assert value == [] + pre + core + post;
      ParseIntPadded(pre, core, post);
    }
  }

  /** Where `strip()` removes an FS the two helpers differ: the older one
      returns the text `"5"` for `"\x1c5"`, the custom one the int 5. */
  lemma LegacyAutoSeparator(value: string, parseFloat: string -> Option<real>)
    requires value == [0x1C as char, '5']
    ensures LegacyAuto(value, parseFloat) == StrVal("5")
    ensures SajApi.Auto(value, parseFloat) == IntVal(5)
  {
    ParseIntSeparator(value);
    assert '.' !in value;
    var t := "5";
    StripStripped(t);
    assert IsDigitRun(t) && DigitsValue(t) == 5;
  }

  // ------------------------------------------------------ fetch

  /** The filter of the comprehension: `elem.text and elem.tag != tree.tag`. */
  function ReportedBy(rootTag: string): Element -> bool {
    (e: Element) => HasText(e) && e.tag != rootTag
  }

  /** The entry of the comprehension: `elem.tag: self._auto(elem.text)`. */
  function EntryOf(parseFloat: string -> Option<real>): Element -> (string, TypedValue) {
    (e: Element) => (e.tag, LegacyAuto(TextOrEmpty(e), parseFloat))
  }

  /** The entries in `tree.iter()` order, before they go into the dict. */
  function LegacyEntries(root: Element, parseFloat: string -> Option<real>): seq<(string, TypedValue)> {
    FilterMap(Iter(root), ReportedBy(root.tag), EntryOf(parseFloat))
  }

  /** The dict comprehension of `fetch` over a parsed tree. */
  function LegacySnapshot(root: Element, parseFloat: string -> Option<real>): (d: Dict<TypedValue>)
    ensures Valid(d) && |d.keys| < |Iter(root)|
  {
    FromPairs(LegacyEntries(root, parseFloat))
  }

  /** `SAJApi.fetch()`: a failed request or an unparsable body is an
      `SAJApiError` and yields no dict at all. */
  function LegacyFetch(client: LegacyClient, get: string -> Page, parse: string -> Option<Element>,
                       parseFloat: string -> Option<real>): (r: Result<Dict<TypedValue>, LegacyError>)
    ensures r.Success? <==> get(client.url).Text? && parse(get(client.url).text).Some?
    ensures r.Success? ==> r.value == LegacySnapshot(parse(get(client.url).text).value, parseFloat)
    ensures r.Failure? ==> (IsApiError(r.error) <==> !get(client.url).DecodeFailed?)
    ensures get(client.url).Text? && parse(get(client.url).text).None? ==> r == Failure(ParseFailed)
  {
    match get(client.url)
    case RequestFailed => Failure(RequestError)
    case DecodeFailed => Failure(Undecodable)
    case Text(text) =>
      match parse(text)
      case None => Failure(ParseFailed)
      case Some(root) => Success(LegacySnapshot(root, parseFloat))
  }

  /** The element `x` is reported under its own tag. */
  ghost predicate ReportedElement(root: Element, x: Element) {
    Within(x, root) && HasText(x) && x.tag != root.tag
  }

  /** The keys are exactly the tags of the elements anywhere in the tree
      whose text is non-empty and whose tag is not the root's. */
  lemma LegacyKeys(root: Element, parseFloat: string -> Option<real>, k: string)
    ensures k in LegacySnapshot(root, parseFloat).entries <==>
      exists x :: ReportedElement(root, x) && x.tag == k
  {
    var ps := LegacyEntries(root, parseFloat);
    FromPairsKeys(ps, k);
    if k in Firsts(ps) {
      var x := LegacyKeySource(root, parseFloat, k);
    }
    if exists x :: ReportedElement(root, x) && x.tag == k {
      var x :| ReportedElement(root, x) && x.tag == k;
      LegacyKeyOfElement(root, parseFloat, x);
    }
  }

  /** Each key comes from a reported element. */
  lemma LegacyKeySource(root: Element, parseFloat: string -> Option<real>, k: string) returns (x: Element)
    requires k in Firsts(LegacyEntries(root, parseFloat))
    ensures ReportedElement(root, x) && x.tag == k
  {
    var es, ps := Iter(root), LegacyEntries(root, parseFloat);
    var keep, f := ReportedBy(root.tag), EntryOf(parseFloat);
    var j :| 0 <= j < |ps| && Firsts(ps)[j] == k;
    FilterMapMember(es, keep, f, ps[j]);
    var i :| 0 <= i < |es| && keep(es[i]) && f(es[i]) == ps[j];
    x := es[i];
    IterVisitsSubtree(root, x);
  }

  /** Each reported element gives a key. */
  lemma LegacyKeyOfElement(root: Element, parseFloat: string -> Option<real>, x: Element)
    requires ReportedElement(root, x)
    ensures x.tag in Firsts(LegacyEntries(root, parseFloat))
  {
    var es, ps := Iter(root), LegacyEntries(root, parseFloat);
    var keep, f := ReportedBy(root.tag), EntryOf(parseFloat);
    IterVisitsSubtree(root, x);
    var i :| 0 <= i < |es| && es[i] == x;
    assert keep(es[i]);
    FilterMapMember(es, keep, f, f(x));
    var j :| 0 <= j < |ps| && ps[j] == f(x);
    assert Firsts(ps)[j] == x.tag;
  }

  /** The root's own tag is never a key, even when a nested element has
      it. */
  lemma LegacyRootTagExcluded(root: Element, parseFloat: string -> Option<real>)
    ensures root.tag !in LegacySnapshot(root, parseFloat).entries
  {
    LegacyKeys(root, parseFloat, root.tag);
  }

  /** With repeated tags the element that comes last in document order
      gives the value. */
  lemma LegacyLastWins(root: Element, parseFloat: string -> Option<real>, i: nat)
    requires i < |Iter(root)| && HasText(Iter(root)[i]) && Iter(root)[i].tag != root.tag
    requires forall j :: i < j < |Iter(root)| && HasText(Iter(root)[j]) ==>
      Iter(root)[j].tag != Iter(root)[i].tag
    ensures Get(LegacySnapshot(root, parseFloat), Iter(root)[i].tag) ==
      Some(LegacyAuto(Iter(root)[i].text.value, parseFloat))
  {
    var es := Iter(root);
    var keep, f := ReportedBy(root.tag), EntryOf(parseFloat);
    var ps := LegacyEntries(root, parseFloat);
    FilterMapAt(es, i, keep, f);
    var n := |FilterMap(es[..i], keep, f)|;
    assert ps[n] == f(es[i]);
    forall j | n < j < |ps| ensures ps[j].0 != ps[n].0 {
      var m := FilterMapAfter(es, i, keep, f, j);
    }
    FromPairsLastWins(ps, n);
  }
}
