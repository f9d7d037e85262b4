/** `SAJApi` of the custom integration: the client that learns the order of
    the realtime values from param.js once, and then reads
    real_time_data.xml on every poll, either by tag (each child of the root
    names its value) or by position (the `<value>` elements, zipped with the
    identifiers param.js listed).

    The HTTP GET is the parameter `get`, which maps a URL to the bytes the
    inverter answered or to a transport failure; `ET.fromstring` is the
    parameter `parse`, None standing for `ET.ParseError`; `float()` is the
    parameter `parseFloat`. */
module SajApi {
  import opened Outcomes
  import opened PyText
  import opened Codecs
  import opened ElementTree
  import opened Dicts
  import opened Comprehensions
  import opened PyNumbers
  import opened ParamScript

  const ParamJs := "/param.js"
  const Realtime := "/real_time_data.xml"
  /** The path `_load_realtime` requests: `f"{REALTIME}?t=0"`. */
  const RealtimeQuery := Realtime + "?t=0"

  /** What a GET yields: the body's raw bytes, or an `aiohttp.ClientError` /
      timeout. */
  datatype Response = Body(raw: seq<byte>) | TransportFailure

  /** The ways a call can end without a snapshot. `RequestFailed` and
      `LengthMismatch` are raised as `SAJApiError`; `Undecodable` (the
      `UnicodeDecodeError` of a UTF-16 body) and `XmlError` (`ET.ParseError`)
      escape as they are. */
  datatype FetchError =
    | RequestFailed(url: string)
    | Undecodable(url: string)
    | XmlError
    | LengthMismatch(values: nat, ids: nat)

  /** The error is an `SAJApiError`, the one kind `fetch` catches. */
  predicate IsApiError(e: FetchError) {
    e.RequestFailed? || e.LengthMismatch?
  }

  // ------------------------------------------------------ _get_text

  /** `_get_text` once the GET of `url` has produced `resp`: a transport
      failure is reported for that URL, and a body is decoded. */
  function GetTextOf(url: string, resp: Response): (r: Result<string, FetchError>)
    ensures r.Success? <==> resp.Body? && DecodeBytes(resp.raw).Some?
    ensures r.Success? ==> DecodeBytes(resp.raw) == Some(r.value)
    ensures r.Failure? ==> r.error == RequestFailed(url) || r.error == Undecodable(url)
    ensures r.Failure? && r.error.Undecodable? ==> resp.Body? && HasUtf16Bom(resp.raw)
  {
    match resp
    case TransportFailure => Failure(RequestFailed(url))
    case Body(raw) =>
      match DecodeBytes(raw)
      case None => Failure(Undecodable(url))
      case Some(text) => Success(text)
  }

  /** A body without a byte-order mark is always text, so the only error
      such a GET can give is the transport's. */
  lemma GetTextNoBom(url: string, raw: seq<byte>)
    requires !HasUtf16Bom(raw)
    ensures GetTextOf(url, Body(raw)).Success?
    ensures Utf8Decode(raw).Some? ==> GetTextOf(url, Body(raw)) == Success(Utf8Decode(raw).value)
    ensures Utf8Decode(raw).None? ==> GetTextOf(url, Body(raw)) == Success(Latin1Decode(raw))
  {
    DecodeBytesOrder(raw);
  }

  /** Whatever text the inverter sends as UTF-8 is what `_get_text` reads. */
  lemma GetTextUtf8(url: string, s: string)
    ensures GetTextOf(url, Body(Utf8Encode(s))) == Success(s)
  {
    DecodeUtf8Text(s);
  }

  // ------------------------------------------------------ _load_realtime

  /** `e.tag.lower() == "value"`. Only the ASCII letters `V A L U E` lower
      to `v a l u e`, so an ASCII case-insensitive comparison is exact. */
  predicate IsValueTag(tag: string) {
    |tag| == 5 && forall i :: 0 <= i < 5 ==> ToLower(tag[i]) == "value"[i]
  }

  predicate IsValueElement(e: Element) { IsValueTag(e.tag) }

  /** `[e.text or "" for e in root.iter() if e.tag.lower() == "value"]` */
  function ValueTexts(root: Element): (r: seq<string>)
    ensures |r| <= |Iter(root)|
  {
    FilterMap(Iter(root), IsValueElement, TextOrEmpty)
  }

  /** The texts collected are those of the `value` elements anywhere in the
      tree, root included. */
  lemma ValueTextsMember(root: Element, t: string)
    ensures t in ValueTexts(root) <==>
      exists x :: Within(x, root) && IsValueTag(x.tag) && TextOrEmpty(x) == t
  {
    var es := Iter(root);
    FilterMapMember(es, IsValueElement, TextOrEmpty, t);
    if t in ValueTexts(root) {
      var i :| 0 <= i < |es| && IsValueElement(es[i]) && TextOrEmpty(es[i]) == t;
      IterVisitsSubtree(root, es[i]);
    }
    if exists x :: Within(x, root) && IsValueTag(x.tag) && TextOrEmpty(x) == t {
      var x :| Within(x, root) && IsValueTag(x.tag) && TextOrEmpty(x) == t;
      IterVisitsSubtree(root, x);
      var i :| 0 <= i < |es| && es[i] == x;
      assert IsValueElement(es[i]) && TextOrEmpty(es[i]) == t;
    }
  }

  /** The values come in pre-order: the root's own text first, when the
      root is a `value` element, then those of its children's subtrees one
      after the other. */
  lemma ValueTextsPreOrder(root: Element)
    ensures ValueTexts(root) ==
      (if IsValueTag(root.tag) then [TextOrEmpty(root)] else [])
      + FilterMap(IterAll(root.children), IsValueElement, TextOrEmpty)
  {
    FilterMapAppend([root], IterAll(root.children), IsValueElement, TextOrEmpty);
    assert [root][1..] == [];
  }

  /** The pairs `(child.tag, child.text or "")` of the direct children. */
  function ChildPairs(root: Element): (ps: seq<(string, string)>)
    ensures |ps| == |root.children|
    ensures forall i :: 0 <= i < |ps| ==>
      ps[i] == (root.children[i].tag, TextOrEmpty(root.children[i]))
  {
    seq(|root.children|, i requires 0 <= i < |root.children| =>
      (root.children[i].tag, TextOrEmpty(root.children[i])))
  }

  /** Mode A: `{child.tag: child.text or "" for child in root}`. */
  function TagModeSnapshot(root: Element): (d: Dict<string>)
    ensures Valid(d) && |d.keys| <= |root.children|
  {
    FromPairs(ChildPairs(root))
  }

  /** In tag mode the keys are the tags of the root's direct children,
      nothing deeper and not the root, in the order in which each tag first
      occurs among the children. */
  lemma TagModeKeys(root: Element, k: string)
    ensures k in TagModeSnapshot(root).entries <==>
      exists i :: 0 <= i < |root.children| && root.children[i].tag == k
    ensures FirstOccurrenceOrder(TagModeSnapshot(root).keys, Firsts(ChildPairs(root)))
  {
    var ps := ChildPairs(root);
    FromPairsOrder(ps);
    FromPairsKeys(ps, k);
    if k in Firsts(ps) {
      var i :| 0 <= i < |ps| && Firsts(ps)[i] == k;
      assert root.children[i].tag == k;
    }
    if exists i :: 0 <= i < |root.children| && root.children[i].tag == k {
      var i :| 0 <= i < |root.children| && root.children[i].tag == k;
      assert Firsts(ps)[i] == k;
    }
  }

  /** In tag mode a later child with the same tag overwrites an earlier
      one: a tag maps to the text of its last child. */
  lemma TagModeLastWins(root: Element, i: nat)
    requires i < |root.children|
    requires forall j :: i < j < |root.children| ==> root.children[j].tag != root.children[i].tag
    ensures Get(TagModeSnapshot(root), root.children[i].tag) == Some(TextOrEmpty(root.children[i]))
  {
    FromPairsLastWins(ChildPairs(root), i);
  }

  /** `zip(ids, values, strict=True)` */
  function Zip(ids: seq<string>, values: seq<string>): (ps: seq<(string, string)>)
    requires |ids| == |values|
    ensures |ps| == |ids|
    ensures forall i :: 0 <= i < |ps| ==> ps[i] == (ids[i], values[i])
  {
    seq(|ids|, i requires 0 <= i < |ids| => (ids[i], values[i]))
  }

  /** Mode B: the `value` texts, which must be exactly as many as the
      identifiers, zipped with them into a dict. */
  function ArrayModeSnapshot(ids: seq<string>, root: Element): (r: Result<Dict<string>, FetchError>)
    ensures r.Failure? <==> |ValueTexts(root)| != |ids|
    ensures r.Failure? ==>
      r.error == LengthMismatch(|ValueTexts(root)|, |ids|) && IsApiError(r.error)
  {
    var values := ValueTexts(root);
    if |values| != |ids| then Failure(LengthMismatch(|values|, |ids|))
    else Success(FromPairs(Zip(ids, values)))
  }

  lemma ZipFirsts(ids: seq<string>, values: seq<string>)
    requires |ids| == |values|
    ensures Firsts(Zip(ids, values)) == ids
  {
  }

  /** In array mode the keys are exactly the identifiers, listed in the
      order each first occurs in param.js. */
  lemma ArrayModeKeys(ids: seq<string>, root: Element)
    requires ArrayModeSnapshot(ids, root).Success?
    ensures var d := ArrayModeSnapshot(ids, root).value;
      && (forall k :: k in d.entries <==> k in ids)
      && (forall k :: k in d.keys <==> k in ids)
      && (forall a, b :: 0 <= a < b < |d.keys| ==> FirstIndex(ids, d.keys[a]) < FirstIndex(ids, d.keys[b]))
  {
    var ps := Zip(ids, ValueTexts(root));
    ZipFirsts(ids, ValueTexts(root));
    forall k ensures k in FromPairs(ps).entries <==> k in ids {
      FromPairsKeys(ps, k);
    }
    FromPairsOrder(ps);
  }

  /** In array mode identifier `ids[i]` takes the i-th value, unless the
      same identifier occurs again later, whose value then wins. */
  lemma ArrayModeLastWins(ids: seq<string>, root: Element, i: nat)
    requires ArrayModeSnapshot(ids, root).Success? && i < |ids|
    requires forall j :: i < j < |ids| ==> ids[j] != ids[i]
    ensures Get(ArrayModeSnapshot(ids, root).value, ids[i]) == Some(ValueTexts(root)[i])
  {
    FromPairsLastWins(Zip(ids, ValueTexts(root)), i);
  }

  /** `not self._order` selects tag mode: no order loaded yet, or an empty
      one. */
  predicate TagMode(order: Option<seq<string>>) {
    order.None? || order.value == []
  }

  /** The dict `_load_realtime` builds from the parsed XML. */
  function Snapshot(order: Option<seq<string>>, root: Element): (r: Result<Dict<string>, FetchError>)
    ensures TagMode(order) ==> r == Success(TagModeSnapshot(root))
    ensures !TagMode(order) ==> r == ArrayModeSnapshot(order.value, root)
    ensures r.Failure? ==> r.error.LengthMismatch?
  {
    if TagMode(order) then Success(TagModeSnapshot(root))
    else ArrayModeSnapshot(order.value, root)
  }

  /** `_load_realtime` once `_get_text` has produced `fetched`. */
  function RealtimeOf(order: Option<seq<string>>, fetched: Result<string, FetchError>,
                      parse: string -> Option<Element>): (r: Result<Dict<string>, FetchError>)
    ensures fetched.Failure? ==> r == Failure(fetched.error)
    ensures fetched.Success? && parse(fetched.value).None? ==> r == Failure(XmlError)
    ensures fetched.Success? && parse(fetched.value).Some? ==> r == Snapshot(order, parse(fetched.value).value)
  {
    match fetched
    case Failure(e) => Failure(e)
    case Success(xml) =>
      match parse(xml)
      case None => Failure(XmlError)
      case Some(root) => Snapshot(order, root)
  }

  // ------------------------------------------------------ fetch

  /** One call of `fetch` on a client whose base URL is `base` and whose
      `_order` is `order`: the new `_order` and the outcome. param.js is
      read only while no order is stored; its `SAJApiError` is swallowed
      (the order stays None and tag mode is used), anything else it raises
      ends the call. */
  function FetchStep(order: Option<seq<string>>, base: string, get: string -> Response,
                     parse: string -> Option<Element>): (r: (Option<seq<string>>, Result<Dict<string>, FetchError>))
    ensures order.Some? ==> r.0 == order
    ensures r.0 != order ==> order.None? && r.0.Some?
    ensures r.1.Failure? && r.1.error.RequestFailed? ==> r.1.error.url == base + RealtimeQuery
    ensures r.1.Failure? && r.1.error.Undecodable? ==>
      r.1.error.url == base + ParamJs || r.1.error.url == base + RealtimeQuery
  {
    var rt := base + RealtimeQuery;
    if order.Some? then (order, RealtimeOf(order, GetTextOf(rt, get(rt)), parse))
    else
      var pj := base + ParamJs;
      match GetTextOf(pj, get(pj))
      case Success(text) =>
        var loaded := Some(OrderFromScript(text));
        (loaded, RealtimeOf(loaded, GetTextOf(rt, get(rt)), parse))
      case Failure(e) =>
        if IsApiError(e) then (None, RealtimeOf(None, GetTextOf(rt, get(rt)), parse))
        else (None, Failure(e))
  }

  /** The URLs one call of `fetch` requests, in order. */
  function FetchRequests(order: Option<seq<string>>, base: string, get: string -> Response): (r: seq<string>)
    ensures 1 <= |r| <= 2
    ensures order.Some? <==> r[0] == base + RealtimeQuery && |r| == 1
    ensures order.None? ==> r[0] == base + ParamJs
  {
    var rt := base + RealtimeQuery;
    var pj := base + ParamJs;
    if order.Some? then [rt]
    else match GetTextOf(pj, get(pj))
      case Failure(Undecodable(_)) => [pj]
      case _ => [pj, rt]
  }

  /** A stored order, empty or not, is never replaced, and param.js is not
      requested again. */
  lemma FetchKeepsOrder(order: Option<seq<string>>, base: string, get: string -> Response,
                        parse: string -> Option<Element>)
    requires order.Some?
    ensures FetchStep(order, base, get, parse).0 == order
    ensures FetchRequests(order, base, get) == [base + RealtimeQuery]
  {
  }

  /** When param.js cannot be fetched the order stays unknown, the poll goes
      ahead in tag mode, and the next call tries param.js again. */
  lemma FetchRetriesAfterTransportFailure(base: string, get: string -> Response,
                                          parse: string -> Option<Element>)
    requires get(base + ParamJs) == TransportFailure
    ensures FetchStep(None, base, get, parse).0 == None
    ensures FetchStep(None, base, get, parse).1 ==
      RealtimeOf(None, GetTextOf(base + RealtimeQuery, get(base + RealtimeQuery)), parse)
    ensures FetchRequests(None, base, get) == [base + ParamJs, base + RealtimeQuery]
  {
  }

  /** A readable param.js fixes the order for good: the identifiers of its
      `new Array(...)`, or the empty list (tag mode) when it has none. */
  lemma FetchStoresOrder(base: string, get: string -> Response, parse: string -> Option<Element>)
    requires GetTextOf(base + ParamJs, get(base + ParamJs)).Success?
    ensures var text := GetTextOf(base + ParamJs, get(base + ParamJs)).value;
      FetchStep(None, base, get, parse).0 == Some(OrderFromScript(text))
  {
  }

  /** A UTF-16 param.js that does not decode ends the call before the XML
      is requested: the error is not an `SAJApiError`, so `fetch` does not
      catch it. */
  lemma FetchUndecodableScript(base: string, get: string -> Response,
                               parse: string -> Option<Element>)
    requires GetTextOf(base + ParamJs, get(base + ParamJs)).Failure?
    requires !IsApiError(GetTextOf(base + ParamJs, get(base + ParamJs)).error)
    ensures FetchStep(None, base, get, parse) == (None, Failure(Undecodable(base + ParamJs)))
    ensures FetchRequests(None, base, get) == [base + ParamJs]
  {
  }

  /** The `_order` left after a series of calls, the i-th seeing `gets[i]`. */
  function OrderAfter(order: Option<seq<string>>, base: string, gets: seq<string -> Response>,
                      parse: string -> Option<Element>): Option<seq<string>>
    decreases |gets|
  {
    if gets == [] then order
    else OrderAfter(FetchStep(order, base, gets[0], parse).0, base, gets[1..], parse)
  }

  /** The order is set at most once: after any series of calls it is still
      unknown or it is the first order that was stored. */
  lemma {:induction false} OrderSetOnce(order: Option<seq<string>>, base: string,
                                        gets: seq<string -> Response>, parse: string -> Option<Element>)
    ensures order.Some? ==> OrderAfter(order, base, gets, parse) == order
    ensures OrderAfter(order, base, gets, parse).None? ==> order.None?
    decreases |gets|
  {
    if gets != [] {
      var next := FetchStep(order, base, gets[0], parse).0;
      OrderSetOnce(next, base, gets[1..], parse);
      if order.Some? { FetchKeepsOrder(order, base, gets[0], parse); }
    }
  }

  /** The client. `base` is `f"http://{host}"`; `order` is `_order`;
      `requests` records the URLs requested so far. */
  class SajClient {
    const base: string
    var order: Option<seq<string>>
    ghost var requests: seq<string>

    constructor (host: string)
      ensures base == "http://" + host
      ensures order == None && requests == []
    {
      base := "http://" + host;
      order := None;
      requests := [];
    }

    /** `_get_text(path)` */
    method GetText(path: string, get: string -> Response) returns (r: Result<string, FetchError>)
      modifies this`requests
      ensures requests == old(requests) + [base + path]
      ensures r == GetTextOf(base + path, get(base + path))
    {
      var url := base + path;
      requests := requests + [url];
      r := GetTextOf(url, get(url));
    }

    /** `_load_order()`: on success `_order` is what the two regular
      expressions find in param.js; on failure it is untouched. */
    method LoadOrder(get: string -> Response) returns (r: Result<(), FetchError>)
      modifies this`requests, this`order
      ensures requests == old(requests) + [base + ParamJs]
      ensures var t := GetTextOf(base + ParamJs, get(base + ParamJs));
        && (t.Success? ==> r.Success? && order == Some(OrderFromScript(t.value)))
        && (t.Failure? ==> r == Failure(t.error) && order == old(order))
    {
      var text := GetText(ParamJs, get);
      match text
      case Failure(e) =>
        r := Failure(e);
      case Success(t) =>
        order := Some(OrderFromScript(t));
        r := Success(());
    }

    /** `_load_realtime()` */
    method LoadRealtime(get: string -> Response, parse: string -> Option<Element>)
      returns (r: Result<Dict<string>, FetchError>)
      modifies this`requests
      ensures requests == old(requests) + [base + RealtimeQuery]
      ensures r == RealtimeOf(order, GetTextOf(base + RealtimeQuery, get(base + RealtimeQuery)), parse)
    {
      var xml := GetText(RealtimeQuery, get);
      match xml
      case Failure(e) =>
        r := Failure(e);
      case Success(text) =>
        match parse(text)
        case None =>
          r := Failure(XmlError);
        case Some(root) =>
          if order.None? || order.value == [] {
            r := Success(TagModeSnapshot(root));
          } else {
            r := ArrayModeSnapshot(order.value, root);
          }
    }

    /** `fetch()` */
    method Fetch(get: string -> Response, parse: string -> Option<Element>)
      returns (r: Result<Dict<string>, FetchError>)
      modifies this`requests, this`order
      ensures (order, r) == FetchStep(old(order), base, get, parse)
      ensures requests == old(requests) + FetchRequests(old(order), base, get)
    {
      if order.None? {
        var loaded := LoadOrder(get);
        if loaded.Failure? && !IsApiError(loaded.error) {
          r := Failure(loaded.error);
          return;
        }
      }
      r := LoadRealtime(get, parse);
    }
  }

  /** Two polls of a fresh client whose param.js is readable: param.js is
      requested on the first only (`urls` is the client's request log), and
      both polls use the order it gave. */
  method PollTwice(host: string, first: string -> Response, second: string -> Response,
                   parse: string -> Option<Element>)
    returns (a: Result<Dict<string>, FetchError>, b: Result<Dict<string>, FetchError>, ghost urls: seq<string>)
    requires GetTextOf("http://" + host + ParamJs, first("http://" + host + ParamJs)).Success?
    ensures var base := "http://" + host;
      var order := Some(OrderFromScript(GetTextOf(base + ParamJs, first(base + ParamJs)).value));
      && a == RealtimeOf(order, GetTextOf(base + RealtimeQuery, first(base + RealtimeQuery)), parse)
      && b == RealtimeOf(order, GetTextOf(base + RealtimeQuery, second(base + RealtimeQuery)), parse)
      && urls == [base + ParamJs, base + RealtimeQuery, base + RealtimeQuery]
  {
    var client := new SajClient(host);
    a := client.Fetch(first, parse);
    b := client.Fetch(second, parse);
    urls := client.requests;
  }

  // ------------------------------------------------------ _auto

  /** `SAJApi._auto(value)`: the stripped text becomes a float when it holds
      a `.` and `float()` accepts it, an int when it holds none and `int()`
      accepts it, and otherwise stays the stripped text. */
  function Auto(value: string, parseFloat: string -> Option<real>): (r: TypedValue)
    ensures r.StrVal? ==> r.s == Strip(value)
    ensures r.IntVal? ==> '.' !in Strip(value) && ParseInt(Strip(value)) == Some(r.i)
    ensures '.' !in Strip(value) && ParseInt(Strip(value)).Some? ==>
      r == IntVal(ParseInt(Strip(value)).value)
    ensures r.FloatVal? ==> '.' in Strip(value) && parseFloat(Strip(value)) == Some(r.f)
    ensures '.' in Strip(value) && parseFloat(Strip(value)).Some? ==>
      r == FloatVal(parseFloat(Strip(value)).value)
  {
    var v := Strip(value);
    StripIdempotent(value);
    if '.' in v then
      match parseFloat(v)
      case Some(f) => FloatVal(f)
      case None => StrVal(v)
    else
      match ParseInt(v)
      case Some(i) => IntVal(i)
      case None => StrVal(v)
  }

  /** An int literal without a `.`, padded with any whitespace `strip()`
      removes, is read as that int. */
  lemma AutoInt(value: string, parseFloat: string -> Option<real>)
    requires '.' !in value && ParseInt(Strip(value)).Some?
    ensures Auto(value, parseFloat) == IntVal(ParseInt(Strip(value)).value)
  {
    StripIdempotent(value);
    StripInside(value);
  }

  /** A text without a `.` that is no int literal once stripped is returned
      stripped. */
  lemma AutoText(value: string, parseFloat: string -> Option<real>)
    requires '.' !in value && ParseInt(Strip(value)).None?
    ensures Auto(value, parseFloat) == StrVal(Strip(value))
  {
    StripIdempotent(value);
    StripInside(value);
  }

  /** `_auto(str(n)) == n` */
  lemma AutoShowInt(n: int, parseFloat: string -> Option<real>)
    ensures Auto(ShowInt(n), parseFloat) == IntVal(n)
  {
    ParseShowInt(n);
    ShowIntNoDot(n);
    ShowIntStripped(n);
    AutoInt(ShowInt(n), parseFloat);
  }

  /** Leading zeros are dropped: `_auto("007") == 7`. */
  lemma AutoLeadingZeros(parseFloat: string -> Option<real>)
    ensures Auto("007", parseFloat) == IntVal(7)
  {
    ParseIntLeadingZeros();
    StripStripped("007");
    AutoInt("007", parseFloat);
  }

  /** What `_auto` returns as text it returns again when given that text. */
  lemma AutoTextStable(value: string, parseFloat: string -> Option<real>)
    requires Auto(value, parseFloat).StrVal?
    ensures Auto(Auto(value, parseFloat).s, parseFloat) == Auto(value, parseFloat)
  {
    StripIdempotent(value);
  }
}
