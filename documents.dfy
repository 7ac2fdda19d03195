/**
 * Document: createElementFromSelector, and what has, count, find, first,
 * findIndex, xPath and xPathIndex do around Query::compile.  The XPath
 * engine is a parameter: `evaluate` stands for DOMXPath::evaluate and
 * `query` for DOMXPath::query, the nodes an expression selects from a
 * context node.  The Query object holds the static cache the methods share.
 */
module Documents {
  import opened Outcomes
  import opened Strings
  import opened OrderedMaps
  import opened Segments
  import opened Cache
  import opened Queries
  import opened Nodes

  /** A PHP attribute array: each value a string or null. */
  type Attributes = OrderedMap<Option<string>>

  /** Assigning each listed key its value, in order: the loop inside array_merge. */
  function PutAll(a: Attributes, keys: seq<string>, values: map<string, Option<string>>): (r: Attributes)
    requires a.Valid()
    requires forall i :: 0 <= i < |keys| ==> keys[i] in values
    ensures r.Valid()
    decreases |keys|
  {
    if keys == [] then a
    else PutAll(a.Put(keys[0], values[keys[0]]), keys[1..], values)
  }

  /** After the assignments each listed key has its new value and every other key its old one. */
  lemma {:induction false} PutAllValues(a: Attributes, keys: seq<string>, values: map<string, Option<string>>)
    requires a.Valid()
    requires forall i :: 0 <= i < |keys| ==> keys[i] in values
    ensures var r := PutAll(a, keys, values);
      && (forall k :: k in r.values <==> k in a.values || k in keys)
      && (forall k :: k in keys ==> r.values[k] == values[k])
      && (forall k :: k in a.values && k !in keys ==> r.values[k] == a.values[k])
    decreases |keys|
  {
    if keys != [] {
      var b := a.Put(keys[0], values[keys[0]]);
      PutAllValues(b, keys[1..], values);
      assert forall k :: k in keys <==> k == keys[0] || k in keys[1..];
    }
  }

  /** The keys already there keep their places in front. */
  lemma {:induction false} PutAllKeys(a: Attributes, keys: seq<string>, values: map<string, Option<string>>)
    requires a.Valid()
    requires forall i :: 0 <= i < |keys| ==> keys[i] in values
    ensures var r := PutAll(a, keys, values);
      |r.keys| >= |a.keys| && forall i :: 0 <= i < |a.keys| ==> r.keys[i] == a.keys[i]
    decreases |keys|
  {
    if keys != [] {
      var b := a.Put(keys[0], values[keys[0]]);
      PutAllKeys(b, keys[1..], values);
    }
  }

  /**
   * array_merge($a, $b) for string keys: the keys of a in their order, then
   * the new keys of b; where both have a key, b's value wins.
   */
  function Merge(a: Attributes, b: Attributes): (r: Attributes)
    requires a.Valid() && b.Valid()
    ensures r.Valid()
  {
    PutAll(a, b.keys, b.values)
  }

  /** Where both arrays have a key, the second's value wins. */
  lemma MergeValues(a: Attributes, b: Attributes)
    requires a.Valid() && b.Valid()
    ensures Merge(a, b).values == a.values + b.values
  {
    PutAllValues(a, b.keys, b.values);
    assert forall k :: k in b.values <==> k in b.keys;
    OverrideEntries(PutAll(a, b.keys, b.values).values, a.values, b.values, b.keys);
  }

  /** A map that has the entries of b over those of a, where keys lists b's keys, is a + b. */
  lemma OverrideEntries(r: map<string, Option<string>>, a: map<string, Option<string>>,
                        b: map<string, Option<string>>, keys: seq<string>)
    requires forall k :: k in b <==> k in keys
    requires forall k :: k in r <==> k in a || k in keys
    requires forall k :: k in keys ==> r[k] == b[k]
    requires forall k :: k in a && k !in keys ==> r[k] == a[k]
    ensures r == a + b
  {
  }

  /** The keys of the first array keep their places in front. */
  lemma MergeKeys(a: Attributes, b: Attributes)
    requires a.Valid() && b.Valid()
    ensures |Merge(a, b).keys| >= |a.keys|
    ensures forall i :: 0 <= i < |a.keys| ==> Merge(a, b).keys[i] == a.keys[i]
  {
    PutAllKeys(a, b.keys, b.values);
  }

  /**
   * The attribute array createElementFromSelector passes on: the caller's,
   * merged with the selector's `[...]` attributes when it has any, then `id`
   * set from `#id` and `class` from the classes joined with a space.
   */
  function SelectorArray(seg: Segment, attributes: Attributes): (r: Attributes)
    requires attributes.Valid() && seg.attributes.Valid()
    ensures r.Valid()
  {
    var merged := if seg.attributes.keys != [] then Merge(attributes, seg.attributes) else attributes;
    var withId := if seg.id.Some? then merged.Put("id", seg.id) else merged;
    if seg.classes != [] then withId.Put("class", Some(Join(" ", seg.classes))) else withId
  }

  /** The values of SelectorArray as one map: later assignments win. */
  function SelectorValues(seg: Segment, values: map<string, Option<string>>): map<string, Option<string>> {
    var merged := values + seg.attributes.values;
    var withId := if seg.id.Some? then merged["id" := seg.id] else merged;
    if seg.classes != [] then withId["class" := Some(Join(" ", seg.classes))] else withId
  }

  lemma SelectorArrayValues(seg: Segment, attributes: Attributes)
    requires attributes.Valid() && seg.attributes.Valid()
    ensures SelectorArray(seg, attributes).values == SelectorValues(seg, attributes.values)
  {
    if seg.attributes.keys != [] {
      MergeValues(attributes, seg.attributes);
    } else {
      assert seg.attributes.values == map[];
      assert attributes.values + seg.attributes.values == attributes.values;
    }
  }

  /**
   * What the assignments of createElementFromSelector leave: the selector's
   * `#id` and classes over everything, its attributes over the caller's, and
   * the caller's other attributes kept.
   */
  lemma SelectorArrayEntries(seg: Segment, attributes: Attributes)
    requires attributes.Valid() && seg.attributes.Valid()
    ensures var r := SelectorArray(seg, attributes).values;
      && (forall k :: k in r <==>
           || k in attributes.values || k in seg.attributes.values
           || (k == "id" && seg.id.Some?) || (k == "class" && seg.classes != []))
      && (seg.id.Some? ==> r["id"] == seg.id)
      && (seg.classes != [] ==> r["class"] == Some(Join(" ", seg.classes)))
      && (forall k :: k in seg.attributes.values && (k != "id" || seg.id.None?) && (k != "class" || seg.classes == [])
           ==> r[k] == seg.attributes.values[k])
      && (forall k :: k in attributes.values && k !in seg.attributes.values
           && (k != "id" || seg.id.None?) && (k != "class" || seg.classes == [])
           ==> r[k] == attributes.values[k])
  {
    SelectorArrayValues(seg, attributes);
    SelectorValuesEntries(seg, attributes.values);
  }

  /** SelectorArrayEntries on the values alone. */
  lemma SelectorValuesEntries(seg: Segment, values: map<string, Option<string>>)
    ensures var r, given := SelectorValues(seg, values), seg.attributes.values;
      && (forall k :: k in r <==>
           || k in values || k in given
           || (k == "id" && seg.id.Some?) || (k == "class" && seg.classes != []))
      && (seg.id.Some? ==> r["id"] == seg.id)
      && (seg.classes != [] ==> r["class"] == Some(Join(" ", seg.classes)))
      && (forall k :: k in given && (k != "id" || seg.id.None?) && (k != "class" || seg.classes == [])
           ==> r[k] == given[k])
      && (forall k :: k in values && k !in given
           && (k != "id" || seg.id.None?) && (k != "class" || seg.classes == [])
           ==> r[k] == values[k])
  {
  }

  /** The attributes an element has after setAttribute of each entry; null sets "". */
  function AttributeValues(attributes: Attributes): map<string, string> {
    map k | k in attributes.values :: attributes.values[k].GetOr("")
  }

  /**
   * The element createElementFromSelector makes from a segment, once the DOM
   * has accepted its names: the tag, or `div` without one; the selector's
   * `#id` and classes over everything, its attributes over the caller's,
   * and the caller's other attributes kept.
   */
  function ElementOf(seg: Segment, attributes: Attributes): (e: Element)
    requires attributes.Valid() && seg.attributes.Valid()
    ensures e.tag == seg.tag.GetOr("div")
    ensures forall k :: k in e.attributes <==>
      || k in attributes.values || k in seg.attributes.values
      || (k == "id" && seg.id.Some?) || (k == "class" && seg.classes != [])
    ensures seg.id.Some? ==> e.attributes["id"] == seg.id.value
    ensures seg.classes != [] ==> e.attributes["class"] == Join(" ", seg.classes)
    ensures forall k ::
        (k in seg.attributes.values && (k != "id" || seg.id.None?) && (k != "class" || seg.classes == [])) ==>
        e.attributes[k] == seg.attributes.values[k].GetOr("")
    ensures forall k ::
        (k in attributes.values && k !in seg.attributes.values
         && (k != "id" || seg.id.None?) && (k != "class" || seg.classes == [])) ==>
        e.attributes[k] == attributes.values[k].GetOr("")
  {
    SelectorArrayEntries(seg, attributes);
    Element(seg.tag.GetOr("div"), AttributeValues(SelectorArray(seg, attributes)))
  }

  /** Every listed key is a name setAttribute accepts. */
  predicate AllNames(keys: seq<string>) {
    forall i :: 0 <= i < |keys| ==> XmlName(keys[i])
  }

  /**
   * createElement: DOMDocument::createElement refuses a name that is not an
   * XML name, and setAttribute, called for each entry, refuses such a key;
   * otherwise the element holds each entry's value, null as "".
   */
  function Created(name: string, attributes: Attributes): (r: Result<Element>)
    requires attributes.Valid()
    ensures r.Ok? <==> XmlName(name) && forall k :: k in attributes.values ==> XmlName(k)
    ensures r.Err? ==> r.error == InvalidCharacter
    ensures r.Ok? ==> r.value == Element(name, AttributeValues(attributes))
  {
    if XmlName(name) && AllNames(attributes.keys) then Ok(Element(name, AttributeValues(attributes)))
    else Err(InvalidCharacter)
  }

  /** The DOM accepts every name of the caller's array and of the selector's `[...]` part. */
  predicate NamesAccepted(seg: Segment, attributes: Attributes) {
    && (forall k :: k in attributes.values ==> XmlName(k))
    && (forall k :: k in seg.attributes.values ==> XmlName(k))
  }

  /**
   * createElementFromSelector: getSegments fails, or the segment it returns
   * goes to createElement.
   */
  function CreatedElement(selector: string, attributes: Attributes): (r: Result<Element>)
    requires attributes.Valid()
    ensures ParseSegment(selector).Err? ==> r == Err(ParseSegment(selector).error)
    ensures ParseSegment(selector).Ok? ==> r == SegmentCreated(ParseSegment(selector).value, attributes)
  {
    var parsed := ParseSegment(selector);
    if parsed.Err? then Err(parsed.error) else SegmentCreated(parsed.value, attributes)
  }

  /**
   * The second half of createElementFromSelector: createElement of the
   * segment's tag ("div" without one) with the merged array.
   */
  function SegmentCreated(seg: Segment, attributes: Attributes): (r: Result<Element>)
    requires attributes.Valid() && seg.attributes.Valid()
    ensures r.Ok? <==> XmlName(seg.tag.GetOr("div")) && NamesAccepted(seg, attributes)
    ensures r.Ok? ==> r.value == ElementOf(seg, attributes)
    ensures r.Err? ==> r.error == InvalidCharacter
  {
    SelectorNames(seg, attributes);
    Created(seg.tag.GetOr("div"), SelectorArray(seg, attributes))
  }

  /** The keys of the array createElementFromSelector builds are names exactly when the given ones are. */
  lemma SelectorNames(seg: Segment, attributes: Attributes)
    requires attributes.Valid() && seg.attributes.Valid()
    ensures (forall k :: k in SelectorArray(seg, attributes).values ==> XmlName(k)) <==> NamesAccepted(seg, attributes)
  {
    SelectorArrayEntries(seg, attributes);
    IdClassNames();
  }

  lemma IdClassNames()
    ensures XmlName("id") && XmlName("class")
  {
  }

  /** createElementFromSelector: the attribute array built by successive assignments, then createElement. */
  method CreateElementFromSelector(selector: string, attributes: Attributes) returns (r: Result<Element>)
    requires attributes.Valid()
    ensures r == CreatedElement(selector, attributes)
  {
    var segments := Query.GetSegments(selector);
    if segments.Err? {
      return Err(segments.error);
    }
    var seg := segments.value;
    CreatedFrom(selector, attributes, seg);
    var name := seg.tag.GetOr("div");
    var attrs := AssignSelector(seg, attributes);
    r := CreateElement(name, attrs);
  }

  /** The assignments of createElementFromSelector to the attribute array. */
  method AssignSelector(seg: Segment, attributes: Attributes) returns (attrs: Attributes)
    requires attributes.Valid() && seg.attributes.Valid()
    ensures attrs == SelectorArray(seg, attributes)
  {
    attrs := attributes;
    if seg.attributes.keys != [] {
      attrs := Merge(attrs, seg.attributes);
    }
    if seg.id.Some? {
      attrs := attrs.Put("id", seg.id);
    }
    if seg.classes != [] {
      attrs := attrs.Put("class", Some(Join(" ", seg.classes)));
    }
  }

  /** A selector getSegments accepts, with names the DOM accepts, gives the element of its segment. */
  lemma CreatedOf(selector: string, attributes: Attributes, seg: Segment)
    requires attributes.Valid() && ParseSegment(selector) == Ok(seg)
    requires XmlName(seg.tag.GetOr("div")) && NamesAccepted(seg, attributes)
    ensures seg.attributes.Valid()
    ensures CreatedElement(selector, attributes) == Ok(ElementOf(seg, attributes))
  {
    CreatedFrom(selector, attributes, seg);
    SelectorNames(seg, attributes);
  }

  lemma CreatedFrom(selector: string, attributes: Attributes, seg: Segment)
    requires attributes.Valid() && ParseSegment(selector) == Ok(seg)
    ensures seg.attributes.Valid()
    ensures CreatedElement(selector, attributes) == Created(seg.tag.GetOr("div"), SelectorArray(seg, attributes))
  {
  }

  /**
   * createElement: DOMDocument::createElement of the name, then setAttribute
   * for each entry in order; either raises on a name that is not an XML name.
   */
  method CreateElement(name: string, attributes: Attributes) returns (r: Result<Element>)
    requires attributes.Valid()
    ensures r == Created(name, attributes)
  {
    if !XmlName(name) {
      return Err(InvalidCharacter);
    }
    ghost var all := AttributeValues(attributes);
    var values: map<string, string> := map[];
    for i := 0 to |attributes.keys|
      invariant values == Restrict(all, attributes.keys[..i])
      invariant forall j :: 0 <= j < i ==> XmlName(attributes.keys[j])
    {
      var key := attributes.keys[i];
      if !XmlName(key) {
        return Err(InvalidCharacter);
      }
      RestrictStep(all, attributes.keys, i);
      values := values[key := attributes.values[key].GetOr("")];
    }
    RestrictAll(all, attributes.keys);
    r := Ok(Element(name, values));
  }

  /** The entries of m whose keys are listed. */
  function Restrict(m: map<string, string>, keys: seq<string>): map<string, string> {
    map k | k in keys && k in m :: m[k]
  }

  lemma RestrictStep(m: map<string, string>, keys: seq<string>, i: nat)
    requires i < |keys| && keys[i] in m
    ensures Restrict(m, keys[..i + 1]) == Restrict(m, keys[..i])[keys[i] := m[keys[i]]]
  {
    assert keys[..i + 1] == keys[..i] + [keys[i]];
  }

  lemma RestrictAll(m: map<string, string>, keys: seq<string>)
    requires forall k :: k in m ==> k in keys
    ensures Restrict(m, keys[..|keys|]) == m
  {
    assert keys[..|keys|] == keys;
  }

  /** The expressions has, count and first hand to the engine around the compiled path. */
  function HasExpression(path: string): string {
    "count(" + path + ") > 0"
  }

  function CountExpression(path: string): string {
    "count(" + path + ")"
  }

  function FirstExpression(path: string): string {
    "(" + path + ")[1]"
  }

  /**
   * The expression find queries: the context must be an element, and only
   * a CSS query with a context gets one `.` in front, so that its `//`
   * starts from the context node.
   */
  function QueryExpression(path: string, queryType: string, context: Option<DomNode>): (r: Result<string>)
    ensures r.Err? <==> context.Some? && !context.value.ElementNode?
    ensures r.Err? ==> r.error == InvalidContextNode
    ensures r.Ok? && context.Some? && queryType == CssType ==> r.value == "." + path
    ensures r.Ok? && (context.None? || queryType != CssType) ==> r.value == path
  {
    if context.Some? && !context.value.ElementNode? then Err(InvalidContextNode)
    else if context.Some? && queryType == CssType then Ok("." + path)
    else Ok(path)
  }

  /** An entry of find's result: a wrapper or a string from wrapNode, or the node itself. */
  datatype Found = Wrapped(element: Element) | Value(text: string) | Raw(node: DomNode)

  /** wrapNode: elements are wrapped, texts give their data, attributes their value. */
  function WrapNode(node: DomNode): (r: Result<Found>)
    ensures r.Err? <==> node.OtherNode?
    ensures r.Err? ==> r.error == UnknownNodeType
    ensures node.ElementNode? ==> r == Ok(Wrapped(node.element))
    ensures node.TextNode? ==> r == Ok(Value(node.data))
    ensures node.AttrNode? ==> r == Ok(Value(node.value))
  {
    match node
    case ElementNode(e) => Ok(Wrapped(e))
    case TextNode(data) => Ok(Value(data))
    case AttrNode(_, value) => Ok(Value(value))
    case OtherNode(_) => Err(UnknownNodeType)
  }

  /** The wrapping foreach of find, from the front: the first unknown node raises. */
  function WrapAll(nodes: seq<DomNode>): (r: Result<seq<Found>>)
    ensures r.Ok? <==> forall i :: 0 <= i < |nodes| ==> !nodes[i].OtherNode?
    ensures r.Ok? ==> |r.value| == |nodes| && forall i :: 0 <= i < |nodes| ==> r.value[i] == WrapNode(nodes[i]).value
    ensures r.Err? ==> r.error == UnknownNodeType
    decreases |nodes|
  {
    if nodes == [] then Ok([])
    else
      var init :- WrapAll(nodes[..|nodes| - 1]);
      var last :- WrapNode(nodes[|nodes| - 1]);
      Ok(init + [last])
  }

  /** The other foreach of find: the nodes as they are. */
  function Raws(nodes: seq<DomNode>): (r: seq<Found>)
    ensures |r| == |nodes| && forall i :: 0 <= i < |nodes| ==> r[i] == Raw(nodes[i])
  {
    seq(|nodes|, i requires 0 <= i < |nodes| => Raw(nodes[i]))
  }

  /** find after compile: the context check, the query, then wrapping or not. */
  function FindSpec(path: Result<string>, queryType: string, wrapElement: bool, context: Option<DomNode>,
                    query: (string, Option<DomNode>) -> seq<DomNode>): (r: Result<seq<Found>>)
    ensures path.Err? ==> r == Err(path.error)
    ensures path.Ok? && QueryExpression(path.value, queryType, context).Err? ==>
      r == Err(QueryExpression(path.value, queryType, context).error)
    ensures r.Ok? ==>
      && path.Ok? && QueryExpression(path.value, queryType, context).Ok?
      && |r.value| == |query(QueryExpression(path.value, queryType, context).value, context)|
    ensures !wrapElement && path.Ok? && QueryExpression(path.value, queryType, context).Ok? ==> r.Ok?
  {
    var p :- path;
    var expression :- QueryExpression(p, queryType, context);
    var nodes := query(expression, context);
    if wrapElement then WrapAll(nodes) else Ok(Raws(nodes))
  }

  /**
   * `count($result) <= $index` gives null; so does a negative index, which
   * reads an undefined offset.
   */
  function Index<T>(items: seq<T>, index: int): (r: Option<T>)
    ensures r.Some? <==> 0 <= index < |items|
    ensures r.Some? ==> r.value == items[index]
  {
    if |items| <= index || index < 0 then None else Some(items[index])
  }

  /** findIndex and xPathIndex after find: the entry at the index, or null. */
  function IndexSpec(found: Result<seq<Found>>, index: int): (r: Result<Option<Found>>)
    ensures r.Ok? <==> found.Ok?
    ensures found.Err? ==> r == Err(found.error)
    ensures r.Ok? ==> (r.value.Some? <==> 0 <= index < |found.value|)
    ensures r.Ok? && r.value.Some? ==> r.value.value == found.value[index]
  {
    var items :- found;
    Ok(Index(items, index))
  }

  /**
   * first after compile: `(E)[1]` is found as XPath and without wrapping,
   * then its first node is wrapped if asked.
   */
  function FirstSpec(path: Result<string>, wrapElement: bool, context: Option<DomNode>,
                     query: (string, Option<DomNode>) -> seq<DomNode>): (r: Result<Option<Found>>)
    ensures path.Err? ==> r == Err(path.error)
    ensures r.Ok? ==>
      && path.Ok? && QueryExpression(FirstExpression(path.value), XPathType, context).Ok?
      && (r.value.None? <==> query(QueryExpression(FirstExpression(path.value), XPathType, context).value, context) == [])
    ensures !wrapElement && r.Ok? && r.value.Some? ==>
      r.value.value == Raw(query(QueryExpression(FirstExpression(path.value), XPathType, context).value, context)[0])
  {
    var p :- path;
    var expression :- QueryExpression(FirstExpression(p), XPathType, context);
    var nodes := query(expression, context);
    if nodes == [] then Ok(None)
    else if wrapElement then
      var w :- WrapNode(nodes[0]);
      Ok(Some(w))
    else Ok(Some(Raw(nodes[0])))
  }

  /** has: the result of evaluating `count(E) > 0`, and the cache compile leaves. */
  function HasSpec(cache: map<string, string>, expression: string, queryType: string, mb: bool,
                   evaluate: string -> bool): (r: (Result<bool>, map<string, string>))
    ensures queryType == XPathType ==> r == (Ok(evaluate(HasExpression(expression))), cache)
    ensures r.1 == CompileSpec(cache, expression, queryType, ClausePath(mb)).1
    ensures r.0.Ok? <==> CompileSpec(cache, expression, queryType, ClausePath(mb)).0.Ok?
  {
    var (path, updated) := CompileSpec(cache, expression, queryType, ClausePath(mb));
    (if path.Ok? then Ok(evaluate(HasExpression(path.value))) else Err(path.error), updated)
  }

  /** has. */
  method Has(q: Query, expression: string, queryType: string, mb: bool, evaluate: string -> bool) returns (r: Result<bool>)
    modifies q
    ensures (r, q.compiled) == HasSpec(old(q.compiled), expression, queryType, mb, evaluate)
  {
    var path := q.Compile(expression, queryType, mb);
    if path.Err? {
      return Err(path.error);
    }
    r := Ok(evaluate(HasExpression(path.value)));
  }

  /** count: the result of evaluating `count(E)`. */
  method Count(q: Query, expression: string, queryType: string, mb: bool, evaluate: string -> nat) returns (r: Result<nat>)
    modifies q
    ensures var (path, updated) := CompileSpec(old(q.compiled), expression, queryType, ClausePath(mb));
      && q.compiled == updated
      && r == if path.Ok? then Ok(evaluate(CountExpression(path.value))) else Err(path.error)
  {
    var path := q.Compile(expression, queryType, mb);
    if path.Err? {
      return Err(path.error);
    }
    r := Ok(evaluate(CountExpression(path.value)));
  }

  /** find. */
  method Find(q: Query, expression: string, queryType: string, wrapElement: bool, context: Option<DomNode>, mb: bool,
              query: (string, Option<DomNode>) -> seq<DomNode>) returns (r: Result<seq<Found>>)
    modifies q
    ensures var (path, updated) := CompileSpec(old(q.compiled), expression, queryType, ClausePath(mb));
      q.compiled == updated && r == FindSpec(path, queryType, wrapElement, context, query)
  {
    var path := q.Compile(expression, queryType, mb);
    if path.Err? {
      return Err(path.error);
    }
    var e := QueryExpression(path.value, queryType, context);
    if e.Err? {
      return Err(e.error);
    }
    var nodes := query(e.value, context);
    if wrapElement {
      r := WrapNodes(nodes);
    } else {
      var raw := RawNodes(nodes);
      r := Ok(raw);
    }
  }

  /** The foreach of find that wraps each node. */
  method WrapNodes(nodes: seq<DomNode>) returns (r: Result<seq<Found>>)
    ensures r == WrapAll(nodes)
  {
    var result: seq<Found> := [];
    for i := 0 to |nodes|
      invariant WrapAll(nodes[..i]) == Ok(result)
    {
      assert nodes[..i + 1][..i] == nodes[..i];
      var w := WrapNode(nodes[i]);
      if w.Err? {
        assert WrapAll(nodes[..i + 1]).Err?;
        WrapPrefixFails(nodes, i + 1);
        return Err(w.error);
      }
      result := result + [w.value];
    }
    assert nodes[..|nodes|] == nodes;
    r := Ok(result);
  }

  /** Once a prefix of the nodes fails to wrap, all of them do, with the same error. */
  lemma {:induction false} WrapPrefixFails(nodes: seq<DomNode>, n: nat)
    requires n <= |nodes| && WrapAll(nodes[..n]).Err?
    ensures WrapAll(nodes) == WrapAll(nodes[..n])
    decreases |nodes| - n
  {
    if n < |nodes| {
      assert nodes[..n + 1][..n] == nodes[..n];
      WrapPrefixFails(nodes, n + 1);
    } else {
      assert nodes[..n] == nodes;
    }
  }

  /** The foreach of find that keeps each node. */
  method RawNodes(nodes: seq<DomNode>) returns (result: seq<Found>)
    ensures result == Raws(nodes)
  {
    result := [];
    for i := 0 to |nodes|
      invariant |result| == i && forall j :: 0 <= j < i ==> result[j] == Raw(nodes[j])
    {
      result := result + [Raw(nodes[i])];
    }
  }

  /** findIndex: find, then the entry at the index or null. */
  method FindIndex(q: Query, expression: string, index: int, queryType: string, wrapElement: bool,
                   context: Option<DomNode>, mb: bool, query: (string, Option<DomNode>) -> seq<DomNode>)
    returns (r: Result<Option<Found>>)
    modifies q
    ensures var (path, updated) := CompileSpec(old(q.compiled), expression, queryType, ClausePath(mb));
      q.compiled == updated && r == IndexSpec(FindSpec(path, queryType, wrapElement, context, query), index)
  {
    var result := Find(q, expression, queryType, wrapElement, context, mb, query);
    if result.Err? {
      return Err(result.error);
    }
    r := Ok(Index(result.value, index));
  }

  /** xPath: find with the XPath type, so nothing is compiled and the cache is left alone. */
  method XPath(q: Query, expression: string, wrapElement: bool, context: Option<DomNode>, mb: bool,
               query: (string, Option<DomNode>) -> seq<DomNode>) returns (r: Result<seq<Found>>)
    modifies q
    ensures q.compiled == old(q.compiled)
    ensures r == FindSpec(Ok(expression), XPathType, wrapElement, context, query)
  {
    r := Find(q, expression, XPathType, wrapElement, context, mb, query);
  }

  /** xPathIndex. */
  method XPathIndex(q: Query, expression: string, index: int, wrapElement: bool, context: Option<DomNode>, mb: bool,
                    query: (string, Option<DomNode>) -> seq<DomNode>) returns (r: Result<Option<Found>>)
    modifies q
    ensures q.compiled == old(q.compiled)
    ensures r == IndexSpec(FindSpec(Ok(expression), XPathType, wrapElement, context, query), index)
  {
    var result := XPath(q, expression, wrapElement, context, mb, query);
    if result.Err? {
      return Err(result.error);
    }
    r := Ok(Index(result.value, index));
  }

  /** first: one compile, then `(E)[1]` through find as XPath, which compiles nothing more. */
  method First(q: Query, expression: string, queryType: string, wrapElement: bool, context: Option<DomNode>, mb: bool,
               query: (string, Option<DomNode>) -> seq<DomNode>) returns (r: Result<Option<Found>>)
    modifies q
    ensures var (path, updated) := CompileSpec(old(q.compiled), expression, queryType, ClausePath(mb));
      q.compiled == updated && r == FirstSpec(path, wrapElement, context, query)
  {
    var path := q.Compile(expression, queryType, mb);
    if path.Err? {
      return Err(path.error);
    }
    var nodes := Find(q, FirstExpression(path.value), XPathType, false, context, mb, query);
    if nodes.Err? {
      return Err(nodes.error);
    }
    if |nodes.value| == 0 {
      return Ok(None);
    }
    if wrapElement {
      var w := WrapNode(nodes.value[0].node);
      if w.Err? {
        return Err(w.error);
      }
      return Ok(Some(w.value));
    }
    return Ok(Some(nodes.value[0]));
  }

  /**
   * When the engine's `(E)[1]` is the first node of E, first is
   * xPathIndex(E, 0) on the compiled E: with a context element it queries
   * `(E)[1]` from the context, without the `.` that find and findIndex put
   * in front of a compiled CSS expression.
   */
  lemma FirstIsXPathIndexZero(p: string, wrapElement: bool, context: Option<DomNode>,
                              query: (string, Option<DomNode>) -> seq<DomNode>)
    requires query(FirstExpression(p), context) == query(p, context)[..if query(p, context) == [] then 0 else 1]
    requires wrapElement ==> WrapAll(query(p, context)).Ok?
    ensures FirstSpec(Ok(p), wrapElement, context, query) == IndexSpec(FindSpec(Ok(p), XPathType, wrapElement, context, query), 0)
  {
    var all := query(p, context);
    if context.None? || context.value.ElementNode? {
      assert QueryExpression(FirstExpression(p), XPathType, context) == Ok(FirstExpression(p));
      assert QueryExpression(p, XPathType, context) == Ok(p);
      if all != [] && wrapElement {
        assert WrapAll(all).value[0] == WrapNode(all[0]).value;
      }
    }
  }

  /**
   * With a context element, find of a CSS expression queries `.E` while
   * first queries `(E)[1]`: the first node first returns is looked for in
   * the whole document.
   */
  lemma FirstDropsContextDot(p: string, e: Element, query: (string, Option<DomNode>) -> seq<DomNode>)
    ensures var context := Some(ElementNode(e));
      && FindSpec(Ok(p), CssType, false, context, query) == Ok(Raws(query("." + p, context)))
      && FirstSpec(Ok(p), false, context, query)
         == if query(FirstExpression(p), context) == [] then Ok(None) else Ok(Some(Raw(query(FirstExpression(p), context)[0])))
  {
  }
}
