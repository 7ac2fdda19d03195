/**
 * The DOM as the selector helpers of Element and Document see it.  An
 * element is its tag name and its attribute values by name (their order
 * plays no part in matching); a node is one of the kinds wrapNode tells
 * apart, or some other kind.
 */
module Nodes {
  import opened Outcomes
  import opened Strings

  datatype Element = Element(tag: string, attributes: map<string, string>)

  /** getAttribute($name) with the default null. */
  function Attribute(e: Element, name: string): (r: Option<string>)
    ensures r.Some? <==> name in e.attributes
    ensures r.Some? ==> r.value == e.attributes[name]
  {
    if name in e.attributes then Some(e.attributes[name]) else None
  }

  /**
   * The class list strict matching compares: explode(' ', trim(class)), or
   * no classes at all without a class attribute.  An empty class attribute
   * gives the one class "".
   */
  function ClassList(e: Element): (r: seq<string>)
    ensures "class" in e.attributes <==> r != []
    ensures forall i :: 0 <= i < |r| ==> ' ' !in r[i]
  {
    if "class" in e.attributes then Explode(" ", Trim(e.attributes["class"], TrimChars)) else []
  }

  /**
   * What libxml's xmlValidateName accepts first in a name: an ASCII letter,
   * `_` or `:`.  Every non-ASCII character is taken as a letter here.
   */
  predicate IsNameStart(c: char) {
    ('a' <= c <= 'z') || ('A' <= c <= 'Z') || c == '_' || c == ':' || c >= '\U{80}'
  }

  /** What it accepts after the first character: also digits, `-` and `.`. */
  predicate IsNameRest(c: char) {
    IsNameStart(c) || IsDigit(c) || c == '-' || c == '.'
  }

  /**
   * A name DOMDocument::createElement and DOMElement::setAttribute accept;
   * on any other name, the empty one included, they throw a DOMException
   * (invalid character).
   */
  predicate XmlName(s: string) {
    s != [] && IsNameStart(s[0]) && forall i :: 1 <= i < |s| ==> IsNameRest(s[i])
  }

  /**
   * A node, by get_class: DOMElement, DOMText and DOMAttr, and any other
   * class (a comment, a CDATA section, ...) named as it is.
   */
  datatype DomNode =
    | ElementNode(element: Element)
    | TextNode(data: string)
    | AttrNode(name: string, value: string)
    | OtherNode(className: string)
}
