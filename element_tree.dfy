/** The part of `xml.etree.ElementTree` the integration reads: an element's
    tag, its text and its children, and `Element.iter()`. Attributes and
    tail text are not read by the integration and are not modelled. */
module ElementTree {
  import opened Outcomes

  /** An element as `ET.fromstring` builds it: `text` is None when the
      element has no text before its first child. */
  datatype Element = Element(tag: string, text: Option<string>, children: seq<Element>)

  /** `e.text or ""` */
  function TextOrEmpty(e: Element): string {
    match e.text
    case None => ""
    case Some(t) => t
  }

  /** `e.text` is truthy: present and non-empty. */
  predicate HasText(e: Element) {
    e.text.Some? && e.text.value != ""
  }

  /** `e.iter()`: `e` itself, then the elements below it in document order. */
  function Iter(e: Element): (r: seq<Element>)
    ensures |r| >= 1 && r[0] == e
    decreases e, 1
  {
    [e] + IterAll(e.children)
  }

  /** The `iter()` of each element of `es`, one after the other. */
  function IterAll(es: seq<Element>): seq<Element>
    decreases es, 0
  {
    if es == [] then [] else Iter(es[0]) + IterAll(es[1..])
  }

  /** `x` is `e` or lies somewhere below it. */
  ghost predicate Within(x: Element, e: Element)
    decreases e
  {
    x == e || exists i :: 0 <= i < |e.children| && Within(x, e.children[i])
  }

  /** `iter()` visits exactly the element and everything below it. */
  lemma {:induction false} IterVisitsSubtree(e: Element, x: Element)
    ensures x in Iter(e) <==> Within(x, e)
    decreases e, 1
  {
    IterAllVisits(e.children, x);
  }

  lemma {:induction false} IterAllVisits(es: seq<Element>, x: Element)
    ensures x in IterAll(es) <==> exists i :: 0 <= i < |es| && Within(x, es[i])
    decreases es, 0
  {
    if es != [] {
      IterVisitsSubtree(es[0], x);
      IterAllVisits(es[1..], x);
      if x in IterAll(es[1..]) {
        var i :| 0 <= i < |es[1..]| && Within(x, es[1..][i]);
        assert Within(x, es[i + 1]);
      }
      if exists i :: 0 <= i < |es| && Within(x, es[i]) {
        var i :| 0 <= i < |es| && Within(x, es[i]);
        if i > 0 { assert Within(x, es[1..][i - 1]); }
      }
    }
  }
}
