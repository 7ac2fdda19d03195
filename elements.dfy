/**
 * Element: matches, in its strict form (one scanned segment compared with
 * the element's tag, id, classes and other attributes) and in its default
 * form (the element wrapped in a `<root>` document and tested with has),
 * and closest, which walks up the parent chain testing each ancestor.
 */
module Elements {
  import opened Outcomes
  import opened Strings
  import opened OrderedMaps
  import opened Segments
  import opened Cache
  import opened Queries
  import opened Nodes
  import opened Documents
  import opened Axes
  import opened Selectors
  import opened Translate

  /** array_diff($a, $b): the entries of a whose value is not among b's, in a's order. */
  function Diff(a: seq<string>, b: seq<string>): (r: seq<string>)
    ensures forall x :: x in r <==> x in a && x !in b
    decreases |a|
  {
    if a == [] then []
    else
      var rest := Diff(a[1..], b);
      assert forall x :: x in a <==> x == a[0] || x in a[1..];
      (if a[0] in b then [] else [a[0]]) + rest
  }

  /** count(array_diff($a, $b)) is zero exactly when every value of a is among b's. */
  lemma DiffEmpty(a: seq<string>, b: seq<string>)
    ensures |Diff(a, b)| == 0 <==> forall x :: x in a ==> x in b
  {
    if |Diff(a, b)| > 0 {
      assert Diff(a, b)[0] in Diff(a, b);
    }
  }

  /** array_diff_assoc($a, $b): the entries of a that b lacks or holds with another value. */
  function DiffAssoc(a: map<string, string>, b: map<string, string>): map<string, string> {
    map k | k in a && (k !in b || b[k] != a[k]) :: a[k]
  }

  /** Both associative differences are empty exactly when the two arrays are equal. */
  lemma DiffAssocBothEmpty(a: map<string, string>, b: map<string, string>)
    ensures DiffAssoc(a, b) == map[] && DiffAssoc(b, a) == map[] <==> a == b
  {
    if DiffAssoc(a, b) == map[] && DiffAssoc(b, a) == map[] {
      forall k | k in a ensures k in b && b[k] == a[k] {
        assert k !in DiffAssoc(a, b);
      }
      forall k | k in b ensures k in a {
        assert k !in DiffAssoc(b, a);
      }
    }
  }

  /** `$this->attributes()` with `id` and `class` unset. */
  function OtherAttributes(e: Element): (r: map<string, string>)
    ensures "id" !in r && "class" !in r
    ensures forall k :: k != "id" && k != "class" ==> (k in r <==> k in e.attributes)
    ensures forall k :: k in r ==> r[k] == e.attributes[k]
  {
    e.attributes - {"id", "class"}
  }

  /**
   * What a strict match asks of the element: the selector's tag or `*`,
   * the same id or none on both sides, the same class set, and exactly the
   * selector's attributes besides id and class (a valueless `[name]`
   * standing for the empty value, as array_diff_assoc compares strings).
   */
  ghost predicate Agrees(seg: Segment, e: Element) {
    && seg.tag.Some?
    && (seg.tag.value == e.tag || seg.tag.value == "*")
    && seg.id == Attribute(e, "id")
    && (forall c :: c in seg.classes <==> c in ClassList(e))
    && AttributeValues(seg.attributes) == OtherAttributes(e)
  }

  /** The comparisons of the strict branch once the segment has a tag, in their order. */
  function Compare(seg: Segment, e: Element): (r: bool)
    requires seg.tag.Some?
    ensures r <==> Agrees(seg, e)
  {
    if seg.tag.value != e.tag && seg.tag.value != "*" then false
    else if seg.id != Attribute(e, "id") then false
    else
      var classes := ClassList(e);
      DiffEmpty(seg.classes, classes);
      DiffEmpty(classes, seg.classes);
      if |Diff(seg.classes, classes)| > 0 || |Diff(classes, seg.classes)| > 0 then false
      else
        var wanted, present := AttributeValues(seg.attributes), OtherAttributes(e);
        DiffAssocBothEmpty(wanted, present);
        DiffAssoc(wanted, present) == map[] && DiffAssoc(present, wanted) == map[]
  }

  /**
   * matches($selector, true): only the first segment getSegments scans is
   * compared; a selector without a tag is an error.
   */
  function MatchesStrict(e: Element, selector: string): (r: Result<bool>)
    ensures r.Err? <==> ParseSegment(selector).Err? || ParseSegment(selector).value.tag.None?
    ensures ParseSegment(selector).Err? ==> r == Err(ParseSegment(selector).error)
    ensures ParseSegment(selector).Ok? && ParseSegment(selector).value.tag.None? ==> r == Err(MissingTagName(selector))
    ensures r == Ok(true) <==> ParseSegment(selector).Ok? && Agrees(ParseSegment(selector).value, e)
  {
    var seg :- ParseSegment(selector);
    if seg.tag.None? then Err(MissingTagName(selector)) else Ok(Compare(seg, e))
  }

  /**
   * An element whose class attribute is empty or blank has the one class
   * "", which no selector names: it never matches strictly.
   */
  lemma BlankClassNeverMatches(e: Element, selector: string)
    requires "class" in e.attributes && Trim(e.attributes["class"], TrimChars) == ""
    ensures MatchesStrict(e, selector) != Ok(true)
  {
    ExplodeWithoutSeparator(" ", "");
    assert "" in ClassList(e);
    match ParseSegment(selector)
    case Err(_) =>
    case Ok(seg) =>
      assert "" !in seg.classes;
  }

  /** A bare tag matches strictly an element with that name (or any, for `*`) and no attributes at all. */
  lemma BareTagMatches(e: Element, t: string)
    requires TagName(t)
    ensures MatchesStrict(e, t) == Ok((t == e.tag || t == "*") && e.attributes == map[])
  {
    ParseTag(t);
    OnlyTagAgrees(TagSegment(t, t, false), e);
  }

  /** A segment with a tag and nothing else agrees with exactly the elements of its name without attributes. */
  lemma OnlyTagAgrees(seg: Segment, e: Element)
    requires seg.tag.Some? && seg.id.None? && seg.classes == [] && seg.attributes.values == map[]
    ensures Agrees(seg, e) <==> (seg.tag.value == e.tag || seg.tag.value == "*") && e.attributes == map[]
  {
    assert AttributeValues(seg.attributes) == map[];
    if e.attributes == map[] {
      assert OtherAttributes(e) == map[];
    }
    if "class" in e.attributes {
      assert ClassList(e)[0] in ClassList(e);
    }
    if "id" !in e.attributes && "class" !in e.attributes && OtherAttributes(e) == map[] {
      forall k | k in e.attributes ensures k in OtherAttributes(e) {
      }
    }
  }

  /**
   * Only the first segment counts: `t u` matches strictly what `t` does,
   * whatever u is, since the rest of the selector is never read.
   */
  lemma StrictReadsFirstSegment(e: Element, t: string, u: string)
    requires TagName(t) && TagName(u)
    ensures MatchesStrict(e, t + [' '] + u) == MatchesStrict(e, t)
  {
    ParseDescendantPair(t, u);
    ParseTag(t);
  }

  /** A name with no white space in it. */
  predicate Plain(name: string) {
    forall k :: 0 <= k < |name| ==> name[k] !in TrimChars
  }

  /** Class names are plain. */
  lemma ClassNamePlain(name: string)
    requires AllChars(name, IsClassChar)
    ensures Plain(name)
  {
    forall k | 0 <= k < |name| ensures name[k] !in TrimChars {
      assert IsClassChar(name[k]);
    }
  }

  /** trim leaves joined names alone when the first starts and the last ends outside its list. */
  lemma JoinedClassesTrimmed(classes: seq<string>)
    requires classes != []
    requires forall i :: 0 <= i < |classes| ==> classes[i] != []
    requires classes[0][0] !in TrimChars
    requires classes[|classes| - 1][|classes[|classes| - 1]| - 1] !in TrimChars
    ensures Trim(Join(" ", classes), TrimChars) == Join(" ", classes)
  {
    JoinEnds(" ", classes);
    TrimUnchanged(Join(" ", classes), TrimChars);
  }

  /** The class attribute createElementFromSelector writes splits back into the selector's classes. */
  lemma ClassesRoundTrip(classes: seq<string>)
    requires classes != []
    requires forall i :: 0 <= i < |classes| ==> classes[i] != [] && Plain(classes[i])
    ensures Explode(" ", Trim(Join(" ", classes), TrimChars)) == classes
  {
    var first, last := classes[0], classes[|classes| - 1];
    assert Plain(first) && Plain(last);
    assert first[0] !in TrimChars;
    assert last[|last| - 1] !in TrimChars;
    JoinedClassesTrimmed(classes);
    forall i | 0 <= i < |classes| ensures ' ' !in classes[i] {
      assert Plain(classes[i]);
    }
    ExplodeJoin(" ", classes);
  }

  /**
   * createElementFromSelector and strict matching agree: the element made
   * from a tagged selector, with no attributes from the caller, matches
   * that selector, provided the DOM accepts its tag and attribute names
   * and its `[...]` part names neither id nor class (those would be
   * overwritten, and matching never compares them).
   */
  lemma CreatedElementMatches(selector: string, seg: Segment)
    requires ParseSegment(selector) == Ok(seg) && seg.tag.Some?
    requires XmlName(seg.tag.value) && forall k :: k in seg.attributes.values ==> XmlName(k)
    requires "id" !in seg.attributes.values && "class" !in seg.attributes.values
    requires forall i :: 0 <= i < |seg.classes| ==> AllChars(seg.classes[i], IsClassChar)
    ensures CreatedElement(selector, Empty()).Ok?
    ensures MatchesStrict(CreatedElement(selector, Empty()).value, selector) == Ok(true)
  {
    CreatedOf(selector, Empty(), seg);
    CreatedAgrees(seg, ElementOf(seg, Empty()));
  }

  /**
   * The tags the selector pattern admits that the DOM takes as element
   * names: those that start with neither a digit nor `-` and hold neither
   * `*` nor a bar.
   */
  lemma TagAccepted(t: string)
    requires TagName(t)
    ensures XmlName(t) <==> !IsDigit(t[0]) && t[0] != '-' && '*' !in t && '|' !in t
  {
    assert IsTagChar(t[0]);
    if !IsDigit(t[0]) && t[0] != '-' && '*' !in t && '|' !in t {
      forall i | 1 <= i < |t| ensures IsNameRest(t[i]) {
        assert IsTagChar(t[i]) && t[i] != '*' && t[i] != '|';
      }
    }
  }

  /** createElementFromSelector of a bare tag the DOM refuses, such as `*`, raises DOMException. */
  lemma TagRefused(t: string, attributes: Attributes)
    requires TagName(t) && !XmlName(t) && attributes.Valid()
    ensures CreatedElement(t, attributes) == Err(InvalidCharacter)
  {
    ParseTag(t);
    CreatedFrom(t, attributes, TagSegment(t, t, false));
  }

  /**
   * createElementFromSelector of `t[a^=v]` and the other comparison forms
   * raises DOMException: setAttribute refuses the name `a^`, operator
   * included, whatever the tag.
   */
  lemma OperatorAttributeRefused(t: string, a: string, op: char, v: string, attributes: Attributes)
    requires TagName(t) && OperandName(a) && op in Operators && PlainValue(v) && attributes.Valid()
    ensures CreatedElement(t + Bracketed(a + [op] + "=" + v), attributes) == Err(InvalidCharacter)
  {
    var piece := a + [op] + "=" + v;
    OperatorPiece(a, op, v);
    ParseAttrSelector(t, piece);
    OperatorName(a, op);
    AttributeRefused(t + Bracketed(piece), attributes, AttrSegment(t, piece), a + [op]);
  }

  /** A name that ends in a comparison operator is not an XML name. */
  lemma OperatorName(a: string, op: char)
    requires a != [] && op in Operators
    ensures !XmlName(a + [op])
  {
    var name := a + [op];
    assert name[|name| - 1] == op && |name| >= 2;
    assert !IsNameRest(op);
  }

  /** One attribute name of the segment that setAttribute refuses makes createElementFromSelector raise. */
  lemma AttributeRefused(selector: string, attributes: Attributes, seg: Segment, name: string)
    requires attributes.Valid() && ParseSegment(selector) == Ok(seg)
    requires name in seg.attributes.values && !XmlName(name)
    ensures CreatedElement(selector, attributes) == Err(InvalidCharacter)
  {
    CreatedFrom(selector, attributes, seg);
    SelectorNames(seg, attributes);
  }

  lemma CreatedAgrees(seg: Segment, e: Element)
    requires WellFormed(seg) && seg.tag.Some? && e == ElementOf(seg, Empty())
    requires "id" !in seg.attributes.values && "class" !in seg.attributes.values
    requires forall i :: 0 <= i < |seg.classes| ==> AllChars(seg.classes[i], IsClassChar)
    ensures Agrees(seg, e)
  {
    CreatedId(seg, e);
    CreatedClasses(seg, e);
    CreatedAttributes(seg, e);
  }

  lemma CreatedId(seg: Segment, e: Element)
    requires seg.attributes.Valid() && e == ElementOf(seg, Empty())
    requires "id" !in seg.attributes.values
    ensures seg.id == Attribute(e, "id")
  {
  }

  lemma CreatedClasses(seg: Segment, e: Element)
    requires WellFormed(seg) && e == ElementOf(seg, Empty())
    requires "class" !in seg.attributes.values
    requires forall i :: 0 <= i < |seg.classes| ==> AllChars(seg.classes[i], IsClassChar)
    ensures ClassList(e) == seg.classes
  {
    if seg.classes != [] {
      assert e.attributes["class"] == Join(" ", seg.classes);
      forall i | 0 <= i < |seg.classes| ensures Plain(seg.classes[i]) {
        ClassNamePlain(seg.classes[i]);
      }
      ClassesRoundTrip(seg.classes);
    } else {
      assert "class" !in e.attributes;
    }
  }

  lemma CreatedAttributes(seg: Segment, e: Element)
    requires seg.attributes.Valid() && e == ElementOf(seg, Empty())
    requires "id" !in seg.attributes.values && "class" !in seg.attributes.values
    ensures AttributeValues(seg.attributes) == OtherAttributes(e)
  {
    assert Empty<Option<string>>().values == map[];
    SameOthers(seg.attributes, e.attributes);
  }

  /** An attribute map holding the array's entries, and besides them at most id and class. */
  lemma SameOthers(a: Attributes, attrs: map<string, string>)
    requires "id" !in a.values && "class" !in a.values
    requires forall k :: k != "id" && k != "class" ==> (k in attrs <==> k in a.values)
    requires forall k :: k in a.values ==> k in attrs && attrs[k] == a.values[k].GetOr("")
    ensures AttributeValues(a) == attrs - {"id", "class"}
  {
  }

  /** The selector the default matches hands to has: the element is the child of a `<root>` wrapper. */
  function NonStrictSelector(selector: string): string {
    "root > " + Trim(selector, TrimChars)
  }

  /** The engine run on the wrapper document `<root>E</root>` of an element. */
  function Evaluator(evaluate: (Element, string) -> bool, e: Element): string -> bool {
    expression => evaluate(e, expression)
  }

  /**
   * matches($selector, $strict), with the cache has compiles through:
   * strictly, the segment comparison; otherwise has on the wrapper
   * document with the rewritten selector.
   */
  function MatchSpec(cache: map<string, string>, e: Element, selector: string, strict: bool, mb: bool,
                     evaluate: (Element, string) -> bool): (r: (Result<bool>, map<string, string>))
    ensures strict ==> r == (MatchesStrict(e, selector), cache)
    ensures !strict ==>
      var (path, updated) := CompileSpec(cache, NonStrictSelector(selector), CssType, ClausePath(mb));
      && r.1 == updated
      && (r.0.Ok? <==> path.Ok?)
      && (path.Ok? ==> r.0.value == evaluate(e, HasExpression(path.value)))
  {
    if strict then (MatchesStrict(e, selector), cache)
    else HasSpec(cache, NonStrictSelector(selector), CssType, mb, Evaluator(evaluate, e))
  }

  /** matches. */
  method Matches(q: Query, e: Element, selector: string, strict: bool, mb: bool,
                 evaluate: (Element, string) -> bool) returns (r: Result<bool>)
    modifies q
    ensures (r, q.compiled) == MatchSpec(old(q.compiled), e, selector, strict, mb, evaluate)
  {
    if !strict {
      r := Has(q, NonStrictSelector(selector), CssType, mb, Evaluator(evaluate, e));
      return;
    }
    r := MatchesStrict(e, selector);
  }

  /** The rewritten selector of a bare tag u compiles to `//root/u`: u as a child of the wrapper. */
  lemma NonStrictTag(selector: string, u: string, mb: bool)
    requires TagName(u) && Trim(selector, TrimChars) == u
    ensures PureCompile(NonStrictSelector(selector), CssType, ClausePath(mb)) == Ok("//root/" + u)
  {
    RootIsTag();
    RootChild(Trim(selector, TrimChars));
    ChildClause("root", u, mb);
    RootPath(u);
  }

  /**
   * Only the first clause of a list gets the wrapper: `t,u` becomes
   * `//root/t|//u`, whose second half may select the wrapper itself (when
   * u is `root`) or anything else in the wrapper document.
   */
  lemma NonStrictUnion(t: string, u: string, mb: bool)
    requires TagName(t) && TagName(u)
    ensures PureCompile(NonStrictSelector(t + "," + u), CssType, ClausePath(mb)) == Ok("//root/" + t + "|//" + u)
  {
    var a := "root" + [' ', '>', ' '] + t;
    UnionRewrite(t, u);
    RootIsTag();
    ChildClausePath("root", t, mb);
    TagClause(u, mb);
    FirstClauseOfUnion(a, u, mb, "//" + "root" + "/" + t, "//" + u);
    RootUnionPath(t, u);
  }

  lemma RootPath(u: string)
    ensures "//" + "root" + "/" + u == "//root/" + u
  {
    assert "//" + "root" + "/" == "//root/";
  }

  lemma RootUnionPath(t: string, u: string)
    ensures ("//" + "root" + "/" + t) + "|" + ("//" + u) == "//root/" + t + "|//" + u
  {
    RootPath(t);
  }

  lemma UnionRewrite(t: string, u: string)
    requires TagName(t) && TagName(u)
    ensures NonStrictSelector(t + "," + u) == ("root" + [' ', '>', ' '] + t) + "," + u
  {
    UnionTrimmed(t, u);
    RootChildThenUnion(t, u);
  }

  lemma RootChild(u: string)
    ensures "root > " + u == "root" + [' ', '>', ' '] + u
  {
  }

  lemma RootChildThenUnion(t: string, u: string)
    ensures "root > " + (t + "," + u) == ("root" + [' ', '>', ' '] + t) + "," + u
  {
  }

  /** The union of a comma-free first clause and a second: the paths of both. */
  lemma FirstClauseOfUnion(a: string, u: string, mb: bool, first: string, rest: string)
    requires ',' !in a && Trim(a, TrimChars) == a
    requires ClausePath(mb)(a) == Ok(first) && PureCompile(u, CssType, ClausePath(mb)) == Ok(rest)
    ensures PureCompile(a + "," + u, CssType, ClausePath(mb)) == Ok(first + "|" + rest)
  {
    CommaUnion(a, u, ClausePath(mb));
  }

  /** A child pair on its own: one clause, compiled from the document root. */
  lemma ChildClause(t: string, u: string, mb: bool)
    requires TagName(t) && TagName(u)
    ensures PureCompile(t + [' ', '>', ' '] + u, CssType, ClausePath(mb)) == Ok("//" + t + "/" + u)
  {
    NoCommaInChild(t, u);
    ChildTrimmed(t, u);
    SingleClause(t + [' ', '>', ' '] + u, ClausePath(mb));
    ChildClausePath(t, u, mb);
  }

  lemma ChildClausePath(t: string, u: string, mb: bool)
    requires TagName(t) && TagName(u)
    ensures ','  !in t + [' ', '>', ' '] + u && Trim(t + [' ', '>', ' '] + u, TrimChars) == t + [' ', '>', ' '] + u
    ensures ClausePath(mb)(t + [' ', '>', ' '] + u) == Ok("//" + t + "/" + u)
  {
    NoCommaInChild(t, u);
    ChildTrimmed(t, u);
    SelectorChild(t, u, "//", mb);
  }

  /** A bare tag on its own: one clause, compiled from the document root. */
  lemma TagClause(u: string, mb: bool)
    requires TagName(u)
    ensures PureCompile(u, CssType, ClausePath(mb)) == Ok("//" + u)
  {
    TagHasNoComma(u);
    TagTrimmed(u);
    SingleClause(u, ClausePath(mb));
    SelectorTag(u, "//", mb);
  }

  lemma RootIsTag()
    ensures TagName("root")
  {
  }

  lemma TagHasNoComma(t: string)
    requires TagName(t)
    ensures ',' !in t
  {
    forall i | 0 <= i < |t| ensures t[i] != ',' {
      assert IsTagChar(t[i]);
    }
  }

  lemma NoCommaInChild(t: string, u: string)
    requires TagName(t) && TagName(u)
    ensures ',' !in t + [' ', '>', ' '] + u
  {
    TagHasNoComma(t);
    TagHasNoComma(u);
  }

  lemma ChildTrimmed(t: string, u: string)
    requires TagName(t) && TagName(u)
    ensures Trim(t + [' ', '>', ' '] + u, TrimChars) == t + [' ', '>', ' '] + u
  {
    var s := t + [' ', '>', ' '] + u;
    TagCharIsPlain(t[0]);
    TagCharIsPlain(u[|u| - 1]);
    assert s[0] == t[0] && s[|s| - 1] == u[|u| - 1];
    TrimUnchanged(s, TrimChars);
  }

  lemma UnionTrimmed(t: string, u: string)
    requires TagName(t) && TagName(u)
    ensures Trim(t + "," + u, TrimChars) == t + "," + u
  {
    var s := t + "," + u;
    TagCharIsPlain(t[0]);
    TagCharIsPlain(u[|u| - 1]);
    assert s[0] == t[0] && s[|s| - 1] == u[|u| - 1];
    TrimUnchanged(s, TrimChars);
  }

  /**
   * An element in its tree: parent() is null for a detached node, the
   * Document for the document element, and otherwise the parent element.
   */
  datatype Node = Node(element: Element, parent: Parent)
  datatype Parent = Detached | DocumentRoot | ParentElement(node: Node)

  /** The proper ancestors that are elements, nearest first. */
  function Ancestors(p: Parent): (r: seq<Node>)
    ensures p.ParentElement? <==> r != []
    ensures p.ParentElement? ==> r[0] == p.node
    decreases p
  {
    if p.ParentElement? then [p.node] + Ancestors(p.node.parent) else []
  }

  /** How far a node is from the top of its tree. */
  function Depth(n: Node): nat
    decreases n
  {
    if n.parent.ParentElement? then 1 + Depth(n.parent.node) else 0
  }

  /**
   * closest on values: the nearest ancestor the test accepts, none once the
   * chain ends, and the first error of the test otherwise.
   */
  function Nearest(p: Parent, test: Element -> Result<bool>): (r: Result<Option<Node>>)
    ensures r.Ok? && r.value.Some? ==> r.value.value in Ancestors(p) && test(r.value.value.element) == Ok(true)
    ensures !p.ParentElement? ==> r == Ok(None)
    decreases p
  {
    if !p.ParentElement? then Ok(None)
    else
      var m :- test(p.node.element);
      if m then Ok(Some(p.node)) else Nearest(p.node.parent, test)
  }

  /** One step of Nearest: the parent's test, then the rest of the chain. */
  lemma NearestStep(p: Parent, test: Element -> Result<bool>)
    requires p.ParentElement?
    ensures var m := test(p.node.element);
      Nearest(p, test)
      == if m.Err? then Err(m.error) else if m.value then Ok(Some(p.node)) else Nearest(p.node.parent, test)
  {
  }

  /** An ancestor is found exactly when it is the first accepted one, all those before it rejected. */
  lemma {:induction false} NearestFound(p: Parent, test: Element -> Result<bool>, i: nat)
    requires i < |Ancestors(p)|
    requires test(Ancestors(p)[i].element) == Ok(true)
    requires forall j :: 0 <= j < i ==> test(Ancestors(p)[j].element) == Ok(false)
    ensures Nearest(p, test) == Ok(Some(Ancestors(p)[i]))
    decreases p
  {
    if i > 0 {
      var rest := Ancestors(p.node.parent);
      assert Ancestors(p) == [p.node] + rest;
      forall j | 0 <= j < i - 1 ensures test(rest[j].element) == Ok(false) {
        assert rest[j] == Ancestors(p)[j + 1];
      }
      assert test(p.node.element) == Ok(false) by { assert Ancestors(p)[0] == p.node; }
      NearestFound(p.node.parent, test, i - 1);
    }
  }

  /** Nothing is found exactly when every ancestor is rejected. */
  lemma {:induction false} NearestNone(p: Parent, test: Element -> Result<bool>)
    ensures Nearest(p, test) == Ok(None)
            <==> forall j :: 0 <= j < |Ancestors(p)| ==> test(Ancestors(p)[j].element) == Ok(false)
    decreases p
  {
    if p.ParentElement? {
      var rest := Ancestors(p.node.parent);
      assert Ancestors(p) == [p.node] + rest;
      NearestNone(p.node.parent, test);
      if forall j :: 0 <= j < |rest| ==> test(rest[j].element) == Ok(false) {
        if test(p.node.element) == Ok(false) {
          forall j | 0 <= j < |Ancestors(p)| ensures test(Ancestors(p)[j].element) == Ok(false) {
            if j > 0 { assert Ancestors(p)[j] == rest[j - 1]; }
          }
        }
      }
      if forall j :: 0 <= j < |Ancestors(p)| ==> test(Ancestors(p)[j].element) == Ok(false) {
        forall j | 0 <= j < |rest| ensures test(rest[j].element) == Ok(false) {
          assert rest[j] == Ancestors(p)[j + 1];
        }
      }
    }
  }

  /** An error of the test on an ancestor is the result when every nearer one is rejected. */
  lemma {:induction false} NearestError(p: Parent, test: Element -> Result<bool>, i: nat)
    requires i < |Ancestors(p)|
    requires test(Ancestors(p)[i].element).Err?
    requires forall j :: 0 <= j < i ==> test(Ancestors(p)[j].element) == Ok(false)
    ensures Nearest(p, test) == Err(test(Ancestors(p)[i].element).error)
    decreases p
  {
    if i > 0 {
      var rest := Ancestors(p.node.parent);
      assert Ancestors(p) == [p.node] + rest;
      forall j | 0 <= j < i - 1 ensures test(rest[j].element) == Ok(false) {
        assert rest[j] == Ancestors(p)[j + 1];
      }
      assert test(p.node.element) == Ok(false) by { assert Ancestors(p)[0] == p.node; }
      NearestError(p.node.parent, test, i - 1);
    }
  }

  /** What is found is an accepted ancestor, never the node itself. */
  lemma {:induction false} NearestIsProperAncestor(n: Node, test: Element -> Result<bool>)
    requires Nearest(n.parent, test).Ok? && Nearest(n.parent, test).value.Some?
    ensures var a := Nearest(n.parent, test).value.value;
      a in Ancestors(n.parent) && test(a.element) == Ok(true) && Depth(a) < Depth(n)
    decreases n
  {
    var p := n.parent;
    if test(p.node.element) != Ok(true) {
      NearestIsProperAncestor(p.node, test);
      assert Ancestors(p) == [p.node] + Ancestors(p.node.parent);
    }
  }

  /** matches without the cache: what it returns whatever the cache held, as long as it is consistent. */
  function PureMatch(e: Element, selector: string, strict: bool, mb: bool, evaluate: (Element, string) -> bool): Result<bool> {
    if strict then MatchesStrict(e, selector)
    else
      var path :- PureCompile(NonStrictSelector(selector), CssType, ClausePath(mb));
      Ok(evaluate(e, HasExpression(path)))
  }

  /** The test closest applies to each ancestor. */
  function MatchTest(selector: string, strict: bool, mb: bool, evaluate: (Element, string) -> bool): Element -> Result<bool> {
    e => PureMatch(e, selector, strict, mb, evaluate)
  }

  /** A consistent cache does not change what matches returns, and stays consistent. */
  lemma MatchTransparent(cache: map<string, string>, e: Element, selector: string, strict: bool, mb: bool,
                         evaluate: (Element, string) -> bool)
    requires Consistent(cache, ClausePath(mb))
    ensures MatchSpec(cache, e, selector, strict, mb, evaluate).0 == PureMatch(e, selector, strict, mb, evaluate)
    ensures Consistent(MatchSpec(cache, e, selector, strict, mb, evaluate).1, ClausePath(mb))
  {
    if !strict {
      CompileTransparent(cache, NonStrictSelector(selector), CssType, ClausePath(mb));
    }
  }

  /** closest with the cache each matches call compiles through. */
  function NearestSpec(cache: map<string, string>, p: Parent, selector: string, strict: bool, mb: bool,
                       evaluate: (Element, string) -> bool): (Result<Option<Node>>, map<string, string>)
    decreases p
  {
    if !p.ParentElement? then (Ok(None), cache)
    else
      var (m, after) := MatchSpec(cache, p.node.element, selector, strict, mb, evaluate);
      if m.Err? then (Err(m.error), after)
      else if m.value then (Ok(Some(p.node)), after)
      else NearestSpec(after, p.node.parent, selector, strict, mb, evaluate)
  }

  /** One step of NearestSpec: the parent's match, then the rest of the chain. */
  lemma NearestSpecStep(cache: map<string, string>, p: Parent, selector: string, strict: bool, mb: bool,
                        evaluate: (Element, string) -> bool)
    requires p.ParentElement?
    ensures var (m, after) := MatchSpec(cache, p.node.element, selector, strict, mb, evaluate);
      NearestSpec(cache, p, selector, strict, mb, evaluate)
      == if m.Err? then (Err(m.error), after)
         else if m.value then (Ok(Some(p.node)), after)
         else NearestSpec(after, p.node.parent, selector, strict, mb, evaluate)
  {
  }

  /** What closest finds is an ancestor of the element, never the element itself. */
  lemma {:induction false} NearestSpecAncestor(cache: map<string, string>, p: Parent, selector: string, strict: bool,
                                               mb: bool, evaluate: (Element, string) -> bool)
    ensures var (r, _) := NearestSpec(cache, p, selector, strict, mb, evaluate);
      r.Ok? && r.value.Some? ==> r.value.value in Ancestors(p)
    decreases p
  {
    if p.ParentElement? {
      NearestSpecStep(cache, p, selector, strict, mb, evaluate);
      var (m, after) := MatchSpec(cache, p.node.element, selector, strict, mb, evaluate);
      if m.Ok? && !m.value {
        NearestSpecAncestor(after, p.node.parent, selector, strict, mb, evaluate);
        assert Ancestors(p) == [p.node] + Ancestors(p.node.parent);
      }
    }
  }

  /** closest: up the parent chain until a match, a null parent or the Document. */
  method Closest(q: Query, node: Node, selector: string, strict: bool, mb: bool,
                 evaluate: (Element, string) -> bool) returns (r: Result<Option<Node>>)
    modifies q
    ensures (r, q.compiled) == NearestSpec(old(q.compiled), node.parent, selector, strict, mb, evaluate)
  {
    var current := node;
    while true
      invariant NearestSpec(old(q.compiled), node.parent, selector, strict, mb, evaluate)
                == NearestSpec(q.compiled, current.parent, selector, strict, mb, evaluate)
      decreases current
    {
      var parent := current.parent;
      if !parent.ParentElement? {
        return Ok(None);
      }
      var m := Matches(q, parent.node.element, selector, strict, mb, evaluate);
      if m.Err? {
        return Err(m.error);
      }
      if m.value {
        return Ok(Some(parent.node));
      }
      current := parent.node;
    }
  }

  /** With a consistent cache, closest finds what Nearest does with the cache-free test. */
  lemma {:induction false} ClosestTransparent(cache: map<string, string>, p: Parent, selector: string, strict: bool,
                                              mb: bool, evaluate: (Element, string) -> bool)
    requires Consistent(cache, ClausePath(mb))
    ensures NearestSpec(cache, p, selector, strict, mb, evaluate).0 == Nearest(p, MatchTest(selector, strict, mb, evaluate))
    ensures Consistent(NearestSpec(cache, p, selector, strict, mb, evaluate).1, ClausePath(mb))
    decreases p
  {
    if p.ParentElement? {
      var test := MatchTest(selector, strict, mb, evaluate);
      MatchTransparent(cache, p.node.element, selector, strict, mb, evaluate);
      var (m, after) := MatchSpec(cache, p.node.element, selector, strict, mb, evaluate);
      assert test(p.node.element) == m;
      ClosestTransparent(after, p.node.parent, selector, strict, mb, evaluate);
      NearestStep(p, test);
      NearestSpecStep(cache, p, selector, strict, mb, evaluate);
    }
  }

  /** Strict closest never touches the cache, whatever it holds. */
  lemma {:induction false} ClosestStrict(cache: map<string, string>, p: Parent, selector: string, mb: bool,
                                         evaluate: (Element, string) -> bool)
    ensures NearestSpec(cache, p, selector, true, mb, evaluate) == (Nearest(p, MatchTest(selector, true, mb, evaluate)), cache)
    decreases p
  {
    if p.ParentElement? {
      ClosestStrict(cache, p.node.parent, selector, mb, evaluate);
    }
  }
}
