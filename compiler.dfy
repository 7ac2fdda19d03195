/**
 * Query::cssToXPath, buildXPath and convertPseudo as functions.  They call
 * each other: a segment's `:has(...)` and `:not(...)` argument is compiled as
 * a selector of its own.  The static methods of Queries.Query follow the source's
 * loops and are proved equal to these functions.
 *
 * Termination: every call goes to a strictly shorter text, or to the same
 * text one level down (selector, start, chain, segment, pseudo-class):
 * a segment's pseudo argument is shorter than the segment, and the text left
 * after a segment is shorter than the text it was scanned from.
 */
module Compiler {
  import opened Outcomes
  import opened Strings
  import opened OrderedMaps
  import opened Segments
  import opened Translate
  import opened Nth

  /** `@id="x"` when the segment has an id. */
  function IdPredicates(seg: Segment): seq<string> {
    if seg.id.Some? then ["@id=" + Quote(seg.id.value)] else []
  }

  /** The text of a class test before the class name. */
  const ClassTestOpen: string := "contains(concat(\" \", normalize-space(@class), \" \"), \" "

  /** The class test of one class name. */
  function ClassPredicate(name: string): string {
    ClassTestOpen + name + " \")"
  }

  /** The class tests, one per class, in order. */
  function ClassPredicates(classes: seq<string>): (r: seq<string>)
    ensures |r| == |classes|
    ensures forall i :: 0 <= i < |classes| ==> r[i] == ClassPredicate(classes[i])
    decreases |classes|
  {
    if classes == [] then []
    else
      var n := |classes| - 1;
      assert forall i :: 0 <= i < n ==> classes[..n][i] == classes[i];
      ClassPredicates(classes[..n]) + [ClassPredicate(classes[n])]
  }

  /** The attribute tests for the given keys, in that order. */
  function AttributePredicates(attrs: OrderedMap<Option<string>>, keys: seq<string>): (r: seq<string>)
    requires forall i :: 0 <= i < |keys| ==> keys[i] in attrs.values
    ensures |r| == |keys|
    decreases |keys|
  {
    if keys == [] then []
    else
      var n := |keys| - 1;
      assert forall i :: 0 <= i < n ==> keys[..n][i] == keys[i];
      AttributePredicates(attrs, keys[..n]) + [ConvertAttribute(keys[n], attrs.values[keys[n]])]
  }

  /** The i-th attribute test is the conversion of the i-th key and its value. */
  lemma {:induction false} AttributePredicateAt(attrs: OrderedMap<Option<string>>, keys: seq<string>, i: nat)
    requires forall k :: 0 <= k < |keys| ==> keys[k] in attrs.values
    requires i < |keys|
    ensures AttributePredicates(attrs, keys)[i] == ConvertAttribute(keys[i], attrs.values[keys[i]])
    decreases |keys|
  {
    var n := |keys| - 1;
    var front := AttributePredicates(attrs, keys[..n]);
    assert AttributePredicates(attrs, keys) == front + [ConvertAttribute(keys[n], attrs.values[keys[n]])];
    if i < n {
      assert keys[..n][i] == keys[i];
      AttributePredicateAt(attrs, keys[..n], i);
    }
  }

  /** The predicates buildXPath collects before the pseudo-class: id, classes, attributes. */
  function BasePredicates(seg: Segment): (r: seq<string>)
    requires seg.attributes.Valid()
  {
    IdPredicates(seg) + ClassPredicates(seg.classes) + AttributePredicates(seg.attributes, seg.attributes.keys)
  }

  /** One test for the id, one per class and one per attribute, the id test first. */
  lemma BasePredicatesShape(seg: Segment)
    requires seg.attributes.Valid()
    ensures |IdPredicates(seg)| == if seg.id.Some? then 1 else 0
    ensures |BasePredicates(seg)| == |IdPredicates(seg)| + |seg.classes| + |seg.attributes.keys|
    ensures seg.id.Some? ==> BasePredicates(seg)[0] == "@id=" + Quote(seg.id.value)
  {
  }

  /** The class tests follow the id test, one per class in the order of the classes. */
  lemma BaseClassTests(seg: Segment)
    requires seg.attributes.Valid()
    ensures forall i :: 0 <= i < |seg.classes| ==>
      BasePredicates(seg)[|IdPredicates(seg)| + i] == ClassPredicate(seg.classes[i])
  {
    var ids, cls := IdPredicates(seg), ClassPredicates(seg.classes);
    var atts := AttributePredicates(seg.attributes, seg.attributes.keys);
    assert BasePredicates(seg) == ids + cls + atts;
    forall i | 0 <= i < |cls| ensures (ids + cls + atts)[|ids| + i] == ClassPredicate(seg.classes[i]) {
      Concat3At(ids, cls, atts, i);
    }
  }

  /** The attribute tests come last, one per key in the order of the attribute array. */
  lemma BaseAttributeTests(seg: Segment)
    requires seg.attributes.Valid()
    ensures forall i :: 0 <= i < |seg.attributes.keys| ==>
      BasePredicates(seg)[|IdPredicates(seg)| + |seg.classes| + i]
      == ConvertAttribute(seg.attributes.keys[i], seg.attributes.values[seg.attributes.keys[i]])
  {
    var front := IdPredicates(seg) + ClassPredicates(seg.classes);
    var keys := seg.attributes.keys;
    assert BasePredicates(seg) == front + AttributePredicates(seg.attributes, keys);
    forall i | 0 <= i < |keys|
      ensures (front + AttributePredicates(seg.attributes, keys))[|front| + i]
           == ConvertAttribute(keys[i], seg.attributes.values[keys[i]])
    {
      KeyAt(front, seg.attributes, keys, i);
    }
  }

  /** The test of the i-th key sits i places after the tests before the attribute tests. */
  lemma KeyAt(front: seq<string>, attrs: OrderedMap<Option<string>>, keys: seq<string>, i: nat)
    requires forall k :: 0 <= k < |keys| ==> keys[k] in attrs.values
    requires i < |keys|
    ensures (front + AttributePredicates(attrs, keys))[|front| + i] == ConvertAttribute(keys[i], attrs.values[keys[i]])
  {
    AttributePredicateAt(attrs, keys, i);
  }

  /** The element at position i of b + c, seen in a + b + c. */
  lemma Concat3At(a: seq<string>, b: seq<string>, c: seq<string>, i: nat)
    requires i < |b| + |c|
    ensures (a + b + c)[|a| + i] == (b + c)[i]
  {
  }

  /** No predicate, one `[p]`, or several `[(p1) and (p2) ...]`. */
  function Bracket(preds: seq<string>): (r: string)
    ensures r == "" <==> preds == []
    ensures preds != [] ==> r[0] == '[' && r[|r| - 1] == ']'
    ensures |preds| == 1 ==> r == "[" + preds[0] + "]"
  {
    if preds == [] then ""
    else if |preds| == 1 then "[" + preds[0] + "]"
    else "[(" + Join(") and (", preds) + ")]"
  }

  /** The pseudo-class argument, split as buildXPath does: trimmed, then exploded on `,`. */
  function PseudoParameters(seg: Segment): (params: seq<string>)
    ensures |params| >= 1
    ensures seg.expr.Some? ==> |params[0]| <= |seg.expr.value|
    ensures seg.expr.None? ==> params == [""]
  {
    var e := Trim(seg.expr.GetOr(""), TrimChars);
    var params := Explode(",", e);
    assert seg.expr.None? ==> params == [""] by {
      if seg.expr.None? { ExplodeWithoutSeparator(",", ""); }
    }
    params
  }

  /** What the pseudo argument allows a recursive call to have as its measure. */
  function ExprSize(seg: Segment): nat {
    if seg.expr.Some? then |seg.expr.value| else 0
  }

  /** The fixed predicates of `:first-child`, `:last-child`, `:empty` and `:not-empty`. */
  const FirstChildTest: string := "position() = 1"
  const LastChildTest: string := "position() = last()"
  const EmptyTest: string := "count(descendant::*) = 0"
  const NotEmptyTest: string := "count(descendant::*) > 0"

  /** The pseudo-classes convertPseudo knows. */
  predicate KnownPseudo(name: string) {
    name in {"first-child", "last-child", "nth-child", "contains", "has", "not", "nth-of-type", "empty", "not-empty"}
  }

  /**
   * The exceptions cssToXPath can raise: those of getSegments, buildXPath
   * and the converters.  An unknown pseudo-class is reported by its own
   * name, which is never one convertPseudo knows.
   */
  predicate SelectorError(e: Error) {
    || e.EmptySelector? || e.InvalidSelector? || e.EmptyAttributeName? || e.NoConstraint? || e.UnknownProperty?
    || (e.UnknownPseudoClass? && !KnownPseudo(e.name))
    || e.EmptyNthExpression? || e.InvalidNthExpression?
  }

  /**
   * convertPseudo: the predicate for the pseudo-class, and the tag buildXPath
   * continues with (`nth-child` writes `*` through the reference).
   */
  function PseudoPredicate(name: string, params: seq<string>, tag: string, mb: bool): (r: Result<(string, string)>)
    requires |params| >= 1
    ensures r.Err? ==> SelectorError(r.error)
    decreases |params[0]|, 5
  {
    if name == "first-child" then Ok((FirstChildTest, tag))
    else if name == "last-child" then Ok((LastChildTest, tag))
    else if name == "nth-child" then
      var nth :- ConvertNthExpression(params[0]);
      Ok(("(name()=" + Quote(tag) + ") and (" + nth + ")", "*"))
    else if name == "contains" then
      var text := Trim(params[0], {' ', '\'', '"'});
      var caseSensitive := |params| >= 2 && Trim(params[1], TrimChars) == "true";
      Ok((ConvertContains(text, caseSensitive, mb), tag))
    else if name == "has" then
      var path :- SelectorPath(params[0], ".//", mb);
      Ok((path, tag))
    else if name == "not" then
      var path :- SelectorPath(params[0], "", mb);
      Ok(("not(self::" + path + ")", tag))
    else if name == "nth-of-type" then
      var nth :- ConvertNthExpression(params[0]);
      Ok((nth, tag))
    else if name == "empty" then Ok((EmptyTest, tag))
    else if name == "not-empty" then Ok((NotEmptyTest, tag))
    else Err(UnknownPseudoClass(name))
  }

  /**
   * convertPseudo knows exactly its nine names: any other name is reported
   * as unknown, and a known one never is.  Only `nth-child` changes the tag.
   */
  lemma PseudoPredicateNames(name: string, params: seq<string>, tag: string, mb: bool)
    requires |params| >= 1
    ensures !KnownPseudo(name) <==> PseudoPredicate(name, params, tag, mb) == Err(UnknownPseudoClass(name))
    ensures PseudoPredicate(name, params, tag, mb).Ok? ==>
      PseudoPredicate(name, params, tag, mb).value.1 == if name == "nth-child" then "*" else tag
  {
  }

  /** buildXPath: prefix, tag, then the bracketed predicates. */
  function SegmentPath(seg: Segment, prefix: string, mb: bool): (r: Result<string>)
    requires WellFormed(seg)
    ensures r.Err? ==> SelectorError(r.error)
    decreases ExprSize(seg) + 1, 0
  {
    var tag := seg.tag.GetOr("*");
    var preds := BasePredicates(seg);
    if seg.pseudo.Some? then
      var pseudo :- PseudoPredicate(seg.pseudo.value, PseudoParameters(seg), tag, mb);
      Ok(prefix + pseudo.1 + Bracket(preds + [pseudo.0]))
    else if preds == [] && seg.tag.None? then Err(NoConstraint)
    else Ok(prefix + tag + Bracket(preds))
  }

  /** Without a pseudo-class, buildXPath fails exactly when there is neither a tag nor a predicate. */
  lemma PlainSegmentError(seg: Segment, prefix: string, mb: bool)
    requires WellFormed(seg) && seg.pseudo.None?
    ensures SegmentPath(seg, prefix, mb).Err? <==> seg.tag.None? && BasePredicates(seg) == []
    ensures SegmentPath(seg, prefix, mb).Err? ==> SegmentPath(seg, prefix, mb).error == NoConstraint
  {
  }

  /** `x` put in front of a successful result; an error stays as it is. */
  function Prepend(x: string, r: Result<string>): (p: Result<string>)
    ensures p.Ok? <==> r.Ok?
    ensures r.Ok? ==> p.value == x + r.value
    ensures r.Err? ==> p == r
  {
    if r.Ok? then Ok(x + r.value) else r
  }

  /** `x` put after a successful result; an error stays as it is. */
  function Append(r: Result<string>, x: string): (a: Result<string>)
    ensures a.Ok? <==> r.Ok?
    ensures r.Ok? ==> a.value == r.value + x
    ensures r.Err? ==> a == r
  {
    if r.Ok? then Ok(r.value + x) else r
  }

  lemma PrependNothing(r: Result<string>)
    ensures Prepend("", r) == r
  {
    if r.Ok? {
      assert "" + r.value == r.value;
    }
  }

  lemma PrependTwice(x: string, y: string, r: Result<string>)
    ensures Prepend(x, Prepend(y, r)) == Prepend(x + y, r)
  {
    if r.Ok? {
      assert x + (y + r.value) == x + y + r.value;
    }
  }

  lemma PrependAppend(x: string, r: Result<string>, y: string)
    ensures Prepend(x, Append(r, y)) == Append(Prepend(x, r), y)
  {
    if r.Ok? {
      assert x + (r.value + y) == x + r.value + y;
    }
  }

  /** The axis before the next segment: `/` after a `>`, `//` otherwise. */
  function NextPrefix(seg: Segment): (r: string)
    ensures r == "/" <==> seg.rel
    ensures r == "//" <==> !seg.rel
  {
    if seg.rel then "/" else "//"
  }

  /**
   * The while loop of cssToXPath, from the text still to compile: scan a
   * segment, build it, cut its text off the front and continue with the
   * trimmed rest until nothing is left.
   */
  function Chain(sel: string, prefix: string, mb: bool): (r: Result<string>)
    ensures r.Err? ==> SelectorError(r.error)
    decreases |sel|, 2
  {
    var seg :- ParseSegment(sel);
    var path :- SegmentPath(seg, prefix, mb);
    var rest := Trim(sel[|seg.selector|..], TrimChars);
    if rest == "" then Ok(path)
    else Prepend(path, Chain(rest, NextPrefix(seg), mb))
  }

  /** One round of the chain: the segment scanned from `sel`, then the chain of the rest. */
  lemma ChainStep(sel: string, prefix: string, mb: bool, seg: Segment)
    requires ParseSegment(sel) == Ok(seg)
    ensures SegmentPath(seg, prefix, mb).Err? ==> Chain(sel, prefix, mb) == Err(SegmentPath(seg, prefix, mb).error)
    ensures SegmentPath(seg, prefix, mb).Ok? ==>
      var rest := Trim(sel[|seg.selector|..], TrimChars);
      Chain(sel, prefix, mb)
      == if rest == "" then SegmentPath(seg, prefix, mb)
         else Prepend(SegmentPath(seg, prefix, mb).value, Chain(rest, NextPrefix(seg), mb))
  {
  }

  /** The `>` check of cssToXPath: a leading `>` means the first step is a child step. */
  function Start(sel: string, prefix: string, mb: bool): (r: Result<string>)
    ensures r.Err? ==> SelectorError(r.error)
    decreases |sel|, 3
  {
    if sel != [] && sel[0] == '>' then Chain(TrimLeft(sel, {'>', ' '}), "/", mb)
    else Chain(sel, prefix, mb)
  }

  /** cssToXPath: the property after the last `::` first, then the chain. */
  function SelectorPath(sel: string, prefix: string, mb: bool): (r: Result<string>)
    ensures r.Err? ==> SelectorError(r.error)
    decreases |sel|, 4
  {
    match LastPair(sel, ':')
    case Some(pos) =>
      var property :- ConvertProperty(ParseProperty(sel[pos + 2..]));
      Append(Start(sel[..pos], prefix, mb), "/" + property)
    case None => Start(sel, prefix, mb)
  }

  /** The prefix goes in front of the segment's path and nowhere else. */
  lemma SegmentPrefix(seg: Segment, prefix: string, mb: bool)
    requires WellFormed(seg)
    ensures SegmentPath(seg, prefix, mb) == Prepend(prefix, SegmentPath(seg, "", mb))
  {
    if seg.pseudo.Some? {
      PseudoSegmentPrefix(seg, prefix, mb);
    } else {
      PlainSegmentPrefix(seg, prefix, mb);
    }
  }

  lemma PlainSegmentPrefix(seg: Segment, prefix: string, mb: bool)
    requires WellFormed(seg) && seg.pseudo.None?
    ensures SegmentPath(seg, prefix, mb) == Prepend(prefix, SegmentPath(seg, "", mb))
  {
    var tag := seg.tag.GetOr("*");
    var preds := BasePredicates(seg);
    Regroup(prefix, tag, Bracket(preds));
  }

  /** buildXPath of a segment whose pseudo-class converts: the step it names, with its test after the others. */
  lemma PseudoPath(seg: Segment, prefix: string, mb: bool, pred: string, tag: string)
    requires WellFormed(seg) && seg.pseudo.Some?
    requires PseudoPredicate(seg.pseudo.value, PseudoParameters(seg), seg.tag.GetOr("*"), mb) == Ok((pred, tag))
    ensures SegmentPath(seg, prefix, mb) == Ok(prefix + tag + Bracket(BasePredicates(seg) + [pred]))
  {
  }

  lemma PseudoSegmentPrefix(seg: Segment, prefix: string, mb: bool)
    requires WellFormed(seg) && seg.pseudo.Some?
    ensures SegmentPath(seg, prefix, mb) == Prepend(prefix, SegmentPath(seg, "", mb))
  {
    var tag := seg.tag.GetOr("*");
    var preds := BasePredicates(seg);
    var pseudo := PseudoPredicate(seg.pseudo.value, PseudoParameters(seg), tag, mb);
    if pseudo.Ok? {
      Regroup(prefix, pseudo.value.1, Bracket(preds + [pseudo.value.0]));
    }
  }

  /**
   * The chain's prefix only goes in front of its first step: later steps
   * take `/` or `//` from the segment before them, whatever the prefix.
   */
  lemma ChainPrefix(sel: string, prefix: string, mb: bool)
    ensures Chain(sel, prefix, mb) == Prepend(prefix, Chain(sel, "", mb))
  {
    var seg := ParseSegment(sel);
    if seg.Ok? {
      ChainStep(sel, prefix, mb, seg.value);
      ChainStep(sel, "", mb, seg.value);
      SegmentPrefix(seg.value, prefix, mb);
      var first := SegmentPath(seg.value, "", mb);
      var rest := Trim(sel[|seg.value.selector|..], TrimChars);
      if first.Ok? && rest != "" {
        PrependTwice(prefix, first.value, Chain(rest, NextPrefix(seg.value), mb));
      }
    }
  }

  /** Without a leading `>`, the given prefix is put once in front of the chain. */
  lemma StartPrefix(sel: string, prefix: string, mb: bool)
    requires sel == [] || sel[0] != '>'
    ensures Start(sel, prefix, mb) == Prepend(prefix, Start(sel, "", mb))
  {
    ChainPrefix(sel, prefix, mb);
  }

  /**
   * A leading `>` makes the first step a child step: the given prefix is
   * ignored, `/` is put in front, and the `>` and spaces after it are dropped.
   */
  lemma ChildStart(sel: string, prefix: string, mb: bool)
    requires sel != [] && sel[0] == '>'
    ensures Start(sel, prefix, mb) == Prepend("/", Chain(TrimLeft(sel, {'>', ' '}), "", mb))
  {
    ChainPrefix(TrimLeft(sel, {'>', ' '}), "/", mb);
  }

  /**
   * cssToXPath puts its prefix once in front of the whole path, before the
   * property suffix too: `:has` compiles its argument with `.//` and `:not`
   * with nothing in front.
   */
  lemma SelectorPrefix(sel: string, prefix: string, mb: bool)
    requires sel == [] || sel[0] != '>'
    ensures SelectorPath(sel, prefix, mb) == Prepend(prefix, SelectorPath(sel, "", mb))
  {
    match LastPair(sel, ':')
    case Some(pos) => PropertySelectorPrefix(sel, pos, prefix, mb);
    case None => StartPrefix(sel, prefix, mb);
  }

  lemma PropertySelectorPrefix(sel: string, pos: nat, prefix: string, mb: bool)
    requires sel == [] || sel[0] != '>'
    requires LastPair(sel, ':') == Some(pos)
    ensures SelectorPath(sel, prefix, mb) == Prepend(prefix, SelectorPath(sel, "", mb))
  {
    var chain := sel[..pos];
    assert chain == [] || chain[0] == sel[0];
    StartPrefix(chain, prefix, mb);
    var property := ConvertProperty(ParseProperty(sel[pos + 2..]));
    if property.Ok? {
      PrependAppend(prefix, Start(chain, "", mb), "/" + property.value);
    }
  }

  /** The last `::` of `sel + "::" + suffix` is the one before the suffix when the suffix has no `:`. */
  lemma LastPairBeforeSuffix(sel: string, suffix: string)
    requires ':' !in suffix
    ensures LastPair(sel + "::" + suffix, ':') == Some(|sel|)
    ensures (sel + "::" + suffix)[..|sel|] == sel
    ensures (sel + "::" + suffix)[|sel| + 2..] == suffix
  {
    var s := sel + "::" + suffix;
    assert PairAt(s, |sel|, ':');
    forall j | |sel| < j ensures !PairAt(s, j, ':') {
      if j == |sel| + 1 && j + 1 < |s| {
        assert s[j + 1] == suffix[0];
      } else if |sel| + 1 < j < |s| {
        assert s[j] == suffix[j - |sel| - 2];
      }
    }
  }

  /** With a known property after the last `::`, the chain before it is compiled and the property appended. */
  lemma PropertySplit(sel: string, pos: nat, property: string, prefix: string, mb: bool)
    requires LastPair(sel, ':') == Some(pos)
    requires ConvertProperty(ParseProperty(sel[pos + 2..])) == Ok(property)
    ensures SelectorPath(sel, prefix, mb) == Append(Start(sel[..pos], prefix, mb), "/" + property)
  {
  }

  /** `::text` appends `/text()` after the whole chain. */
  lemma TextSuffix(sel: string, prefix: string, mb: bool)
    ensures SelectorPath(sel + "::text", prefix, mb) == Append(Start(sel, prefix, mb), "/text()")
  {
    LastPairBeforeSuffix(sel, "text");
    TextProperty();
    Regroup(sel, "::", "text");
    PropertySplit(sel + "::text", |sel|, "text()", prefix, mb);
  }

  lemma TextProperty()
    ensures ConvertProperty(ParseProperty("text")) == Ok("text()")
    ensures "/" + "text()" == "/text()"
    ensures "::" + "text" == "::text"
  {
    ParseTextProperty("");
    assert "text" + "" == "text";
  }

  /**
   * `::attr(a|b|...)` appends an attribute step that selects the attributes
   * named, in the order given, after the whole chain.
   */
  lemma AttrSuffix(sel: string, names: seq<string>, prefix: string, mb: bool)
    requires |names| >= 1 && Join("|", names) != []
    requires forall i :: 0 <= i < |names| ==> '|' !in names[i] && ')' !in names[i] && ':' !in names[i]
    ensures SelectorPath(sel + "::" + AttrPropertyText(names), prefix, mb)
      == Append(Start(sel, prefix, mb), "/" + ("@*[" + Join(" or ", NameTests(names)) + "]"))
  {
    var suffix := AttrPropertyText(names);
    JoinAvoids(names, ':');
    assert ':' !in suffix;
    LastPairBeforeSuffix(sel, suffix);
    ParseAttrProperty(names);
    PropertySplit(sel + "::" + suffix, |sel|, "@*[" + Join(" or ", NameTests(names)) + "]", prefix, mb);
  }

  /** Any other property name is an error, whatever the chain before it. */
  lemma UnknownSuffix(sel: string, name: string, prefix: string, mb: bool)
    requires ':' !in name
    requires ParseProperty(name).name != "text" && ParseProperty(name).name != "attr"
    ensures SelectorPath(sel + "::" + name, prefix, mb) == Err(UnknownProperty)
  {
    LastPairBeforeSuffix(sel, name);
  }
}
