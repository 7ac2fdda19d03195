/**
 * What cssToXPath makes of a tag with one attribute test, `t[...]`, and of a
 * tag with a pseudo-class, `t:name` or `t:name(arg)`: the scanner,
 * buildXPath and convertAttribute or convertPseudo taken together, for every
 * tag, name and argument of the shapes stated.
 */
module Selectors {
  import opened Outcomes
  import opened Strings
  import opened OrderedMaps
  import opened Segments
  import opened Translate
  import opened Nth
  import opened Compiler
  import opened Axes

  /** `[` + s + `]`: an attribute test as a selector author writes it, or a predicate as buildXPath prints it. */
  function Bracketed(s: string): string {
    "[" + s + "]"
  }

  /** The quotes getSegments trims off an attribute value. */
  const Quotes: set<char> := {'\'', '"'}

  /**
   * The text inside one `[...]` that the scanner takes whole: no `]` to end
   * it early, no `[` at either end for the bracket trim to eat, no `:` to
   * start a property, and a name before any `=`.
   */
  predicate AttrPiece(piece: string) {
    && piece != [] && piece[0] != '[' && piece[|piece| - 1] != '[' && ']' !in piece && ':' !in piece
    && SplitAttribute(piece).0 != ""
  }

  /** The lazy `\[.+?\]` group takes `[piece]` whole when the piece has no `]`. */
  lemma AttrGroup(piece: string)
    requires piece != [] && ']' !in piece
    ensures AttrText(Bracketed(piece)) == Bracketed(piece)
  {
    var s := Bracketed(piece);
    assert |s| == |piece| + 2 && s[|s| - 1] == ']';
    forall k | 1 <= k < |s| - 1 ensures s[k] != ']' {
      assert s[k] == piece[k - 1];
    }
    assert IndexFrom(s, 2, ']') == Some(|s| - 1);
    assert s[|s|..] == "";
    assert s[..|s|] == s;
  }

  /** The bracket trim of `[piece]` gives the piece back. */
  lemma TrimBrackets(piece: string)
    requires piece != [] && piece[0] != '[' && piece[|piece| - 1] != '[' && ']' !in piece
    ensures Trim(Bracketed(piece), {'[', ']'}) == piece
  {
    var s := Bracketed(piece);
    assert s[0] == '[' && s[1..] == piece + "]";
    assert (piece + "]")[0] == piece[0] && piece[0] != ']';
    assert TrimLeft(piece + "]", {'[', ']'}) == piece + "]";
    assert piece[|piece| - 1] != ']';
    assert TrimLeft(s, {'[', ']'}) == piece + "]";
    assert (piece + "]")[..|piece|] == piece;
    assert TrimRight(piece + "]", {'[', ']'}) == piece;
  }

  /** The scan of a tag and one attribute test: the tag group, then the attribute group, then nothing. */
  lemma ScanAttrSelector(t: string, piece: string)
    requires TagName(t) && piece != [] && ']' !in piece
    ensures Scan(t + Bracketed(piece)) == Match(t, "", "", Bracketed(piece), Tail("", "", "", false))
  {
    var rest := Bracketed(piece);
    var s := t + rest;
    SpanOf(t, rest, IsTagChar);
    assert s[..|t|] == t && s[|t|..] == rest;
    assert rest[0..] == rest;
    AttrGroup(piece);
    assert rest[|rest|..] == "";
    EmptyTail();
  }

  /** The array holding one attribute. */
  function Single(name: string, value: Option<string>): OrderedMap<Option<string>> {
    OrderedMap([name], map[name := value])
  }

  /** The attribute array of the one test `[piece]`: its name before the first `=`, and the value after it. */
  lemma DecodeAttrPiece(piece: string)
    requires AttrPiece(piece)
    ensures AddAttributes(Empty(), Explode("][", Trim(Bracketed(piece), {'[', ']'})))
         == Ok(Single(SplitAttribute(piece).0, SplitAttribute(piece).1))
  {
    TrimBrackets(piece);
    ExplodeWithoutSeparator("][", piece);
    var name, value := SplitAttribute(piece).0, SplitAttribute(piece).1;
    PutSingle(name, value);
    assert [piece][1..] == [];
    assert AddAttributes(Empty(), [piece]) == AddAttributes(Single(name, value), []);
  }

  lemma PutSingle(name: string, value: Option<string>)
    ensures Empty().Put(name, value) == Single(name, value)
  {
    assert [] + [name] == [name];
  }

  /** The segment getSegments returns for `t[piece]`. */
  function AttrSegment(t: string, piece: string): Segment {
    Segment(t + Bracketed(piece), Some(t), None, [], Single(SplitAttribute(piece).0, SplitAttribute(piece).1),
            None, None, false)
  }

  /** getSegments of a text trim keeps and the pattern matches is the decoding of that match. */
  lemma ParseScanned(s: string)
    requires s != [] && Trim(s, TrimChars) == s && Scan(s).Text() != []
    ensures ParseSegment(s) == Decode(Scan(s))
  {
  }

  /** The groups of a tag and one attribute test decode to that tag and that attribute. */
  lemma DecodeAttr(t: string, piece: string)
    requires TagName(t) && AttrPiece(piece)
    ensures var m := Match(t, "", "", Bracketed(piece), Tail("", "", "", false));
      m.Text() == t + Bracketed(piece) && Shaped(m) && Decode(m) == Ok(AttrSegment(t, piece))
  {
    var m := Match(t, "", "", Bracketed(piece), Tail("", "", "", false));
    assert m.Text() == t + Bracketed(piece) by {
      assert Tail("", "", "", false).Text() == "" by {
        assert "" + ("" + "") == "";
      }
      assert "" + ("" + (Bracketed(piece) + "")) == Bracketed(piece);
    }
    DecodeAttrPiece(piece);
    DecodeTests(m, Single(SplitAttribute(piece).0, SplitAttribute(piece).1));
  }

  /** A match of a tag and attribute tests decodes to the tag and the attribute array they build. */
  lemma DecodeTests(m: Match, attrs: OrderedMap<Option<string>>)
    requires m.id == "" && m.classes == "" && m.tail == Tail("", "", "", false) && m.tag != []
    requires m.Text() != [] && Shaped(m)
    requires AddAttributes(Empty(), Explode("][", Trim(m.attrs, {'[', ']'}))) == Ok(attrs)
    ensures Decode(m) == Ok(Segment(m.Text(), Some(m.tag), None, [], attrs, None, None, false))
  {
    NoClasses();
  }

  /** getSegments of a tag with one attribute test. */
  lemma ParseAttrSelector(t: string, piece: string)
    requires TagName(t) && AttrPiece(piece)
    ensures ParseSegment(t + Bracketed(piece)) == Ok(AttrSegment(t, piece))
  {
    var s := t + Bracketed(piece);
    TagCharIsPlain(t[0]);
    assert s[0] == t[0] && s[|s| - 1] == ']';
    TrimUnchanged(s, TrimChars);
    ScanAttrSelector(t, piece);
    DecodeAttr(t, piece);
    ParseScanned(s);
  }

  /** The predicates of that segment: the one converted attribute test. */
  lemma AttrPredicates(t: string, piece: string)
    ensures AttrSegment(t, piece).attributes.Valid()
    ensures BasePredicates(AttrSegment(t, piece)) == [ConvertAttribute(SplitAttribute(piece).0, SplitAttribute(piece).1)]
  {
    var name := SplitAttribute(piece).0;
    var attrs := Single(name, SplitAttribute(piece).1);
    assert [name][..0] == [];
    assert AttributePredicates(attrs, [name]) == [ConvertAttribute(name, attrs.values[name])];
  }

  /** buildXPath of a segment with a tag, no pseudo-class and one predicate. */
  lemma PlainStep(seg: Segment, prefix: string, mb: bool)
    requires WellFormed(seg) && seg.pseudo.None? && seg.tag.Some? && |BasePredicates(seg)| == 1
    ensures SegmentPath(seg, prefix, mb) == Ok(prefix + seg.tag.value + Bracketed(BasePredicates(seg)[0]))
  {
  }

  /** A selector that getSegments consumes in one segment compiles to that segment's step. */
  lemma OneStep(s: string, prefix: string, mb: bool, seg: Segment)
    requires ParseSegment(s) == Ok(seg) && |seg.selector| == |s|
    ensures Chain(s, prefix, mb) == SegmentPath(seg, prefix, mb)
  {
    ChainStep(s, prefix, mb, seg);
    EmptyRest(s, seg.selector);
  }

  lemma EmptyRest(s: string, consumed: string)
    requires |consumed| == |s|
    ensures Trim(s[|consumed|..], TrimChars) == ""
  {
  }

  /** A selector without `::` and without a leading `>` is one chain from the prefix. */
  lemma WholeSelector(s: string, prefix: string, mb: bool)
    requires s != [] && s[0] != '>' && LastPair(s, ':') == None
    ensures SelectorPath(s, prefix, mb) == Chain(s, prefix, mb)
  {
  }

  /** The chain of `t[piece]`: one step, the tag and the converted test. */
  lemma ChainAttr(t: string, piece: string, prefix: string, mb: bool)
    requires TagName(t) && AttrPiece(piece)
    ensures Chain(t + Bracketed(piece), prefix, mb)
         == Ok(prefix + t + Bracketed(ConvertAttribute(SplitAttribute(piece).0, SplitAttribute(piece).1)))
  {
    var s := t + Bracketed(piece);
    ParseAttrSelector(t, piece);
    var seg := AttrSegment(t, piece);
    AttrPredicates(t, piece);
    PlainStep(seg, prefix, mb);
    OneStep(s, prefix, mb, seg);
  }

  /**
   * cssToXPath of `t[piece]`: one step, the tag with the test convertAttribute
   * makes of the name before the first `=` and the quote-trimmed value after
   * it (or null without `=`).
   */
  lemma AttributeSelector(t: string, piece: string, prefix: string, mb: bool)
    requires TagName(t) && AttrPiece(piece)
    ensures SelectorPath(t + Bracketed(piece), prefix, mb)
         == Ok(prefix + t + Bracketed(ConvertAttribute(SplitAttribute(piece).0, SplitAttribute(piece).1)))
  {
    var s := t + Bracketed(piece);
    TagHasNoColon(t);
    assert ':' !in s;
    NoProperty(s, prefix, mb);
    ChainAttr(t, piece, prefix, mb);
  }

  /** `name=v` splits at the `=` after the name, with the quotes trimmed off the value. */
  lemma SplitAssign(name: string, v: string)
    requires '=' !in name
    ensures SplitAttribute(name + "=" + v) == (name, Some(Trim(v, Quotes)))
  {
    var piece := name + "=" + v;
    forall k | 0 <= k < |name| ensures piece[k] != '=' {
      assert piece[k] == name[k];
    }
    assert piece[|name|] == '=';
    assert IndexFrom(piece, 0, '=') == Some(|name|);
    assert piece[..|name|] == name;
    assert piece[|name| + 1..] == v;
  }

  /** A name getSegments and convertAttribute take as it stands. */
  predicate PlainName(a: string) {
    PlainAttribute(a) && '=' !in a && '[' !in a && ']' !in a && ':' !in a
  }

  /** A value free of brackets, which would end the test or be trimmed, and of `:`, which would start a property. */
  predicate PlainValue(v: string) {
    '[' !in v && ']' !in v && ':' !in v
  }

  /** `t[a]` tests that the attribute exists: `t[@a]`. */
  lemma PresenceSelector(t: string, a: string, prefix: string, mb: bool)
    requires TagName(t) && PlainName(a)
    ensures SelectorPath(t + Bracketed(a), prefix, mb) == Ok(prefix + t + Bracketed("@" + a))
  {
    AttributeSelector(t, a, prefix, mb);
  }

  /** `t[a=v]` tests the attribute's value: `t[@a="v"]`, quotes around v dropped. */
  lemma EqualsSelector(t: string, a: string, v: string, prefix: string, mb: bool)
    requires TagName(t) && PlainName(a) && PlainValue(v)
    ensures SelectorPath(t + Bracketed(a + "=" + v), prefix, mb)
      == Ok(prefix + t + Bracketed("@" + a + "=" + Quote(Trim(v, Quotes))))
  {
    SplitAssign(a, v);
    AssignPiece(a, v);
    AttributeSelector(t, a + "=" + v, prefix, mb);
    PlainConvert(a, Trim(v, Quotes));
  }

  lemma PlainConvert(a: string, w: string)
    requires PlainAttribute(a)
    ensures ConvertAttribute(a, Some(w)) == "@" + a + "=" + Quote(w)
  {
  }

  /** What follows the marker of a marked name: a text free of `=`, brackets and `:`. */
  predicate MarkedName(a: string) {
    '=' !in a && '[' !in a && ']' !in a && ':' !in a
  }

  /**
   * `t[^a]` tests for an attribute whose name starts with a, and `t[^a=v]`
   * compares that attribute with v.
   */
  lemma NamePrefixSelector(t: string, a: string, v: string, prefix: string, mb: bool)
    requires TagName(t) && MarkedName(a) && PlainValue(v)
    ensures var test := "@*[starts-with(name(), " + Quote(a) + ")]";
      && SelectorPath(t + Bracketed("^" + a), prefix, mb) == Ok(prefix + t + Bracketed(test))
      && SelectorPath(t + Bracketed("^" + a + "=" + v), prefix, mb)
         == Ok(prefix + t + Bracketed(test + "=" + Quote(Trim(v, Quotes))))
  {
    var name := "^" + a;
    assert name[1..] == a;
    assert '=' !in name;
    AttributeSelector(t, name, prefix, mb);
    SplitAssign(name, v);
    AssignPiece(name, v);
    AttributeSelector(t, name + "=" + v, prefix, mb);
  }

  /** `t[!a]` tests that the attribute is absent, and `t[!a=v]` does the same: the value is ignored. */
  lemma AbsenceSelector(t: string, a: string, v: string, prefix: string, mb: bool)
    requires TagName(t) && MarkedName(a) && PlainValue(v)
    ensures SelectorPath(t + Bracketed("!" + a), prefix, mb) == Ok(prefix + t + Bracketed("not(@" + a + ")"))
    ensures SelectorPath(t + Bracketed("!" + a + "=" + v), prefix, mb) == Ok(prefix + t + Bracketed("not(@" + a + ")"))
  {
    var name := "!" + a;
    assert name[1..] == a;
    assert '=' !in name;
    AttributeSelector(t, name, prefix, mb);
    SplitAssign(name, v);
    AssignPiece(name, v);
    AttributeSelector(t, name + "=" + v, prefix, mb);
  }

  /** A name before a comparison operator: not empty, no marker in front, free of `=`, brackets and `:`. */
  predicate OperandName(a: string) {
    a != [] && a[0] != '^' && a[0] != '!' && '=' !in a && '[' !in a && ']' !in a && ':' !in a
  }

  /**
   * `t[a^=v]`, `t[a$=v]`, `t[a*=v]`, `t[a!=v]` and `t[a~=v]`: prefix, suffix,
   * substring, inequality and word tests of the attribute against v.
   */
  lemma OperatorSelector(t: string, a: string, op: char, v: string, prefix: string, mb: bool)
    requires TagName(t) && OperandName(a) && op in Operators && PlainValue(v)
    ensures var path, w := SelectorPath(t + Bracketed(a + [op] + "=" + v), prefix, mb), Trim(v, Quotes);
      && (op == '^' ==> path == Ok(prefix + t + Bracketed("starts-with(@" + a + ", " + Quote(w) + ")")))
      && (op == '$' ==> path == Ok(prefix + t + Bracketed("ends-with(@" + a + ", " + Quote(w) + ")")))
      && (op == '*' ==> path == Ok(prefix + t + Bracketed("contains(@" + a + ", " + Quote(w) + ")")))
      && (op == '!' ==> path == Ok(prefix + t + Bracketed("not(@" + a + "=" + Quote(w) + ")")))
      && (op == '~' ==> path == Ok(prefix + t + Bracketed(
            "contains(concat(\" \", normalize-space(@" + a + "), \" \"), \" " + w + " \")")))
  {
    var name := a + [op];
    var piece := name + "=" + v;
    OperatorPiece(a, op, v);
    AttributeSelector(t, piece, prefix, mb);
    OperatorConvert(a, op, Trim(v, Quotes));
  }

  /** `a` + op + `=v` is one attribute test, named `a` + op, with v as its value. */
  lemma OperatorPiece(a: string, op: char, v: string)
    requires OperandName(a) && op in Operators && PlainValue(v)
    ensures AttrPiece(a + [op] + "=" + v)
    ensures SplitAttribute(a + [op] + "=" + v) == (a + [op], Some(Trim(v, Quotes)))
  {
    assert op != '=' && op != '[' && op != ']' && op != ':';
    var name := a + [op];
    assert forall c :: c in name <==> c in a || c == op;
    SplitAssign(name, v);
    AssignPiece(name, v);
  }

  /** `name=v` is one attribute test when both parts are free of brackets and `:`. */
  lemma AssignPiece(name: string, v: string)
    requires name != [] && '=' !in name && '[' !in name && ']' !in name && ':' !in name && PlainValue(v)
    ensures AttrPiece(name + "=" + v)
  {
    var piece := name + "=" + v;
    AssignShape(name, v);
    assert piece[0] != '[' && piece[|piece| - 1] != '[';
    assert ']' !in piece && ':' !in piece;
    SplitAssign(name, v);
  }

  /** `name=v` has the ends and the characters of its parts. */
  lemma AssignShape(name: string, v: string)
    requires name != []
    ensures var piece := name + "=" + v;
      && piece[0] == name[0] && piece[|piece| - 1] == (if v == [] then '=' else v[|v| - 1])
      && (forall c :: c in piece <==> c in name || c == '=' || c in v)
  {
  }
  /** convertAttribute of a name ending in an operator compares the name before it. */
  lemma OperatorConvert(a: string, op: char, w: string)
    requires OperandName(a) && op in Operators
    ensures var r := ConvertAttribute(a + [op], Some(w));
      && (op == '^' ==> r == "starts-with(@" + a + ", " + Quote(w) + ")")
      && (op == '$' ==> r == "ends-with(@" + a + ", " + Quote(w) + ")")
      && (op == '*' ==> r == "contains(@" + a + ", " + Quote(w) + ")")
      && (op == '!' ==> r == "not(@" + a + "=" + Quote(w) + ")")
      && (op == '~' ==> r == "contains(concat(\" \", normalize-space(@" + a + "), \" \"), \" " + w + " \")")
  {
    var name := a + [op];
    assert name[0] == a[0] && name[|name| - 1] == op && name[..|name| - 1] == a;
  }

  /** `:name(arg)` after a tag. */
  function PseudoSuffix(name: string, arg: string): string {
    ":" + name + Parenthesized(arg)
  }

  /** A pseudo-class name the pattern's `[\w\-]+` takes whole. */
  predicate PseudoClassName(name: string) {
    name != [] && AllChars(name, IsNameChar)
  }

  /** An argument the `[^\)]+` group takes whole and no property starts in. */
  predicate PseudoArgument(arg: string) {
    arg != [] && ')' !in arg && ':' !in arg
  }

  /** The tail groups take `:name(arg)` as the pseudo-class and its argument. */
  lemma ScanPseudoTail(name: string, arg: string)
    requires PseudoClassName(name) && arg != [] && ')' !in arg
    ensures ScanTail(PseudoSuffix(name, arg)) == Tail(name, arg, "", false)
  {
    var rest := PseudoSuffix(name, arg);
    var paren := Parenthesized(arg);
    assert rest[1..] == name + paren;
    SpanOf(name, paren, IsNameChar);
    assert rest[1..][..|name|] == name;
    assert rest[1 + |name|..] == paren;
    ParenTextOf(arg);
    assert Tail(name, arg, "", false).PseudoText() == rest;
    assert rest[|rest|..] == [];
  }

  /** The tail groups take `:name` as a pseudo-class without argument. */
  lemma ScanBarePseudoTail(name: string)
    requires PseudoClassName(name)
    ensures ScanTail(":" + name) == Tail(name, "", "", false)
  {
    var rest := ":" + name;
    assert rest[1..] == name + "";
    SpanOf(name, "", IsNameChar);
    assert rest[1..][..|name|] == name;
    assert rest[1 + |name|..] == "";
    assert Tail(name, "", "", false).PseudoText() == rest;
  }

  /** The segment getSegments returns for `t:name(arg)`, or for `t:name` when the argument is empty. */
  function PseudoSegment(text: string, t: string, name: string, arg: string): Segment {
    Segment(text, Some(t), None, [], Empty(), Some(name), if arg == "" then None else Some(arg), false)
  }

  /** getSegments of `t:name(arg)`. */
  lemma ParsePseudoSelector(t: string, name: string, arg: string)
    requires TagName(t) && PseudoClassName(name) && arg != [] && ')' !in arg
    ensures ParseSegment(t + PseudoSuffix(name, arg)) == Ok(PseudoSegment(t + PseudoSuffix(name, arg), t, name, arg))
  {
    var rest := PseudoSuffix(name, arg);
    var s := t + rest;
    TagCharIsPlain(t[0]);
    assert s[0] == t[0] && s[|s| - 1] == ')';
    TrimUnchanged(s, TrimChars);
    assert rest[0] == ':';
    ScanAfterTag(t, rest);
    ScanPseudoTail(name, arg);
    var m := Match(t, "", "", "", Tail(name, arg, "", false));
    assert m.Text() == s;
    DecodePseudo(m);
    ParseScanned(s);
  }

  /** getSegments of `t:name`. */
  lemma ParseBarePseudoSelector(t: string, name: string)
    requires TagName(t) && PseudoClassName(name)
    ensures ParseSegment(t + (":" + name)) == Ok(PseudoSegment(t + (":" + name), t, name, ""))
  {
    var rest := ":" + name;
    var s := t + rest;
    TagCharIsPlain(t[0]);
    assert s[0] == t[0] && s[|s| - 1] == name[|name| - 1];
    assert IsNameChar(name[|name| - 1]);
    TrimUnchanged(s, TrimChars);
    ScanAfterTag(t, rest);
    ScanBarePseudoTail(name);
    var m := Match(t, "", "", "", Tail(name, "", "", false));
    assert m.Text() == s;
    DecodePseudo(m);
    ParseScanned(s);
  }

  /** A match of a tag and a pseudo-class only decodes to a segment with just those. */
  lemma DecodePseudo(m: Match)
    requires m.id == "" && m.classes == "" && m.attrs == "" && m.tail.space == "" && !m.tail.rel
    requires m.tag != [] && m.tail.pseudo != [] && m.Text() != [] && Shaped(m)
    ensures Decode(m) == Ok(PseudoSegment(m.Text(), m.tag, m.tail.pseudo, m.tail.expr))
  {
    NoAttributes();
    NoClasses();
  }

  /** What buildXPath makes of convertPseudo's answer: the tag it leaves, with the predicate. */
  function PseudoStep(prefix: string, r: Result<(string, string)>): Result<string> {
    if r.Ok? then Ok(prefix + r.value.1 + Bracketed(r.value.0)) else Err(r.error)
  }

  /** The parameters buildXPath hands to convertPseudo: the trimmed argument, exploded on `,`. */
  function Parameters(arg: string): (params: seq<string>)
    ensures |params| >= 1
  {
    Explode(",", Trim(arg, TrimChars))
  }

  /** buildXPath of a segment with a tag, a pseudo-class and nothing else: convertPseudo's predicate in brackets. */
  lemma PseudoOnly(seg: Segment, prefix: string, mb: bool)
    requires WellFormed(seg) && seg.pseudo.Some? && seg.tag.Some? && BasePredicates(seg) == []
    ensures SegmentPath(seg, prefix, mb)
         == PseudoStep(prefix, PseudoPredicate(seg.pseudo.value, PseudoParameters(seg), seg.tag.value, mb))
  {
    var tag := seg.tag.GetOr("*");
    var preds := BasePredicates(seg);
    var r := PseudoPredicate(seg.pseudo.value, PseudoParameters(seg), tag, mb);
    if r.Ok? {
      assert preds + [r.value.0] == [r.value.0];
    }
  }

  /** The segment of `t:name(arg)` has no other predicate, and its parameters are the argument's. */
  lemma PseudoSegmentParts(text: string, t: string, name: string, arg: string)
    ensures BasePredicates(PseudoSegment(text, t, name, arg)) == []
    ensures PseudoParameters(PseudoSegment(text, t, name, arg)) == Parameters(arg)
  {
    var seg := PseudoSegment(text, t, name, arg);
    assert seg.expr.GetOr("") == arg;
  }

  /** The chain of `t:name(arg)`: one step, convertPseudo's tag and predicate. */
  lemma ChainPseudo(t: string, name: string, arg: string, prefix: string, mb: bool)
    requires TagName(t) && PseudoClassName(name) && arg != [] && ')' !in arg
    ensures Chain(t + PseudoSuffix(name, arg), prefix, mb)
         == PseudoStep(prefix, PseudoPredicate(name, Parameters(arg), t, mb))
  {
    var s := t + PseudoSuffix(name, arg);
    ParsePseudoSelector(t, name, arg);
    var seg := PseudoSegment(s, t, name, arg);
    PseudoSegmentParts(s, t, name, arg);
    PseudoOnly(seg, prefix, mb);
    OneStep(s, prefix, mb, seg);
  }

  /** The chain of `t:name`. */
  lemma ChainBarePseudo(t: string, name: string, prefix: string, mb: bool)
    requires TagName(t) && PseudoClassName(name)
    ensures Chain(t + (":" + name), prefix, mb) == PseudoStep(prefix, PseudoPredicate(name, [""], t, mb))
  {
    var s := t + (":" + name);
    ParseBarePseudoSelector(t, name);
    var seg := PseudoSegment(s, t, name, "");
    PseudoSegmentParts(s, t, name, "");
    NoParameter();
    PseudoOnly(seg, prefix, mb);
    OneStep(s, prefix, mb, seg);
  }

  /** No argument is the one empty parameter. */
  lemma NoParameter()
    ensures Parameters("") == [""]
  {
    assert Trim("", TrimChars) == "";
    ExplodeWithoutSeparator(",", "");
  }

  /** The only `:` of `t:name(arg)` is not doubled, so there is no `::` property. */
  lemma OneColon(t: string, name: string, arg: string)
    requires TagName(t) && PseudoClassName(name) && ':' !in arg
    ensures LastPair(t + PseudoSuffix(name, arg), ':') == None
  {
    TagHasNoColon(t);
    var s := t + PseudoSuffix(name, arg);
    forall j | 0 <= j < |s| - 1 ensures !PairAt(s, j, ':') {
      if j < |t| {
        assert s[j] == t[j];
      } else if j == |t| {
        assert s[j + 1] == name[0] && IsNameChar(name[0]);
      } else if j < |t| + 1 + |name| {
        assert s[j] == name[j - |t| - 1] && IsNameChar(name[j - |t| - 1]);
      } else if j == |t| + 1 + |name| {
        assert s[j] == '(';
      } else {
        assert s[j] == arg[j - |t| - 2 - |name|];
      }
    }
  }

  /** The only `:` of `t:name` is not doubled. */
  lemma OneBareColon(t: string, name: string)
    requires TagName(t) && PseudoClassName(name)
    ensures LastPair(t + (":" + name), ':') == None
  {
    TagHasNoColon(t);
    var s := t + (":" + name);
    forall j | 0 <= j < |s| - 1 ensures !PairAt(s, j, ':') {
      if j < |t| {
        assert s[j] == t[j];
      } else if j == |t| {
        assert s[j + 1] == name[0] && IsNameChar(name[0]);
      } else {
        assert s[j] == name[j - |t| - 1] && IsNameChar(name[j - |t| - 1]);
      }
    }
  }

  /**
   * cssToXPath of `t:name(arg)`: one step, the tag convertPseudo leaves with
   * its predicate, or convertPseudo's error; the parameters it receives are
   * the trimmed argument exploded on `,`.
   */
  lemma PseudoSelector(t: string, name: string, arg: string, prefix: string, mb: bool)
    requires TagName(t) && PseudoClassName(name) && PseudoArgument(arg)
    ensures SelectorPath(t + PseudoSuffix(name, arg), prefix, mb)
         == PseudoStep(prefix, PseudoPredicate(name, Parameters(arg), t, mb))
  {
    var s := t + PseudoSuffix(name, arg);
    OneColon(t, name, arg);
    TagHasNoColon(t);
    assert s[0] == t[0];
    WholeSelector(s, prefix, mb);
    ChainPseudo(t, name, arg, prefix, mb);
  }

  /** cssToXPath of `t:name`: convertPseudo with the one parameter "". */
  lemma BarePseudoSelector(t: string, name: string, prefix: string, mb: bool)
    requires TagName(t) && PseudoClassName(name)
    ensures SelectorPath(t + (":" + name), prefix, mb) == PseudoStep(prefix, PseudoPredicate(name, [""], t, mb))
  {
    var s := t + (":" + name);
    OneBareColon(t, name);
    TagHasNoColon(t);
    assert s[0] == t[0];
    WholeSelector(s, prefix, mb);
    ChainBarePseudo(t, name, prefix, mb);
  }

  /** trim keeps inside its argument. */
  lemma TrimAvoids(s: string, cs: set<char>, c: char)
    requires c !in s
    ensures c !in Trim(s, cs)
  {
    var l := TrimLeft(s, cs);
    assert c !in l by {
      forall i | 0 <= i < |l| ensures l[i] != c { assert l[i] == s[|s| - |l| + i]; }
    }
    var r := TrimRight(l, cs);
    assert c !in r by {
      forall i | 0 <= i < |r| ensures r[i] != c { assert r[i] == l[i]; }
    }
  }

  /** An argument without `,` is the one parameter, trimmed. */
  lemma OneParameter(arg: string)
    requires ',' !in arg
    ensures Parameters(arg) == [Trim(arg, TrimChars)]
  {
    TrimAvoids(arg, TrimChars, ',');
    ExplodeWithoutSeparator(",", Trim(arg, TrimChars));
  }

  /** The predicate of a pseudo-class that takes no argument. */
  function FixedTest(name: string): string {
    if name == "first-child" then FirstChildTest
    else if name == "last-child" then LastChildTest
    else if name == "empty" then EmptyTest
    else NotEmptyTest
  }

  /** `t:first-child`, `t:last-child`, `t:empty` and `t:not-empty`: the tag with a fixed predicate. */
  lemma FixedPseudo(t: string, name: string, prefix: string, mb: bool)
    requires TagName(t)
    requires name == "first-child" || name == "last-child" || name == "empty" || name == "not-empty"
    ensures SelectorPath(t + (":" + name), prefix, mb) == Ok(prefix + t + Bracketed(FixedTest(name)))
  {
    assert PseudoClassName(name) by {
      forall i | 0 <= i < |name| ensures IsNameChar(name[i]) { }
    }
    BarePseudoSelector(t, name, prefix, mb);
  }

  /**
   * `t:nth-child(e)`: any element at the positions convertNthExpression
   * prints, whose name is t; the step's own tag becomes `*`.  An invalid
   * expression is convertNthExpression's error.
   */
  lemma NthChildSelector(t: string, e: string, prefix: string, mb: bool)
    requires TagName(t) && PseudoArgument(e) && ',' !in e
    ensures var nth := ConvertNthExpression(Trim(e, TrimChars));
      SelectorPath(t + PseudoSuffix("nth-child", e), prefix, mb)
      == if nth.Ok? then Ok(prefix + "*" + Bracketed("(name()=" + Quote(t) + ") and (" + nth.value + ")"))
         else Err(nth.error)
  {
    NthName("nth-child");
    PseudoSelector(t, "nth-child", e, prefix, mb);
    OneParameter(e);
  }

  /** `t:nth-of-type(e)`: t at the positions convertNthExpression prints. */
  lemma NthOfTypeSelector(t: string, e: string, prefix: string, mb: bool)
    requires TagName(t) && PseudoArgument(e) && ',' !in e
    ensures var nth := ConvertNthExpression(Trim(e, TrimChars));
      SelectorPath(t + PseudoSuffix("nth-of-type", e), prefix, mb)
      == if nth.Ok? then Ok(prefix + t + Bracketed(nth.value)) else Err(nth.error)
  {
    NthName("nth-of-type");
    PseudoSelector(t, "nth-of-type", e, prefix, mb);
    OneParameter(e);
  }

  lemma NthName(name: string)
    requires name == "nth-child" || name == "nth-of-type" || name == "has" || name == "not" || name == "contains"
    ensures PseudoClassName(name)
  {
    forall i | 0 <= i < |name| ensures IsNameChar(name[i]) { }
  }

  /** A bare tag is a pseudo-class argument of one parameter that needs no trimming. */
  lemma TagArgument(u: string)
    requires TagName(u)
    ensures PseudoArgument(u) && Parameters(u) == [u]
  {
    TagHasNoColon(u);
    forall i | 0 <= i < |u| ensures u[i] != ')' && u[i] != ',' {
      assert IsTagChar(u[i]);
    }
    TagTrimmed(u);
    OneParameter(u);
  }

  /** `t:has(u)`: t with a descendant u, the argument compiled with the prefix `.//`. */
  lemma HasSelector(t: string, u: string, prefix: string, mb: bool)
    requires TagName(t) && TagName(u)
    ensures SelectorPath(t + PseudoSuffix("has", u), prefix, mb) == Ok(prefix + t + Bracketed(".//" + u))
  {
    NthName("has");
    TagArgument(u);
    PseudoSelector(t, "has", u, prefix, mb);
    SelectorTag(u, ".//", mb);
  }

  /** `t:not(u)`: t that is not itself u, the argument compiled with no prefix. */
  lemma NotSelector(t: string, u: string, prefix: string, mb: bool)
    requires TagName(t) && TagName(u)
    ensures SelectorPath(t + PseudoSuffix("not", u), prefix, mb) == Ok(prefix + t + Bracketed("not(self::" + u + ")"))
  {
    NthName("not");
    TagArgument(u);
    PseudoSelector(t, "not", u, prefix, mb);
    SelectorTag(u, "", mb);
    assert "" + u == u;
  }

  /** Any other pseudo-class raises, whatever its argument. */
  lemma UnknownPseudoSelector(t: string, name: string, arg: string, prefix: string, mb: bool)
    requires TagName(t) && PseudoClassName(name) && PseudoArgument(arg) && !KnownPseudo(name)
    ensures SelectorPath(t + PseudoSuffix(name, arg), prefix, mb) == Err(UnknownPseudoClass(name))
  {
    PseudoSelector(t, name, arg, prefix, mb);
  }

  /** A text the contains argument keeps as it is: neither trim touches its ends. */
  predicate PlainText(x: string) {
    && PseudoArgument(x) && ',' !in x
    && x[0] !in TrimChars && x[0] !in {' ', '\'', '"'}
    && x[|x| - 1] !in TrimChars && x[|x| - 1] !in {' ', '\'', '"'}
  }

  /** `t:contains(x)` compares the lowered text with the lowered x. */
  lemma ContainsSelector(t: string, x: string, prefix: string, mb: bool)
    requires TagName(t) && PlainText(x)
    ensures SelectorPath(t + PseudoSuffix("contains", x), prefix, mb)
         == Ok(prefix + t + Bracketed(ConvertContains(x, false, mb)))
  {
    NthName("contains");
    TrimUnchanged(x, TrimChars);
    OneParameter(x);
    PseudoSelector(t, "contains", x, prefix, mb);
    ContainsOf(x, t, mb);
  }

  lemma ContainsOf(x: string, t: string, mb: bool)
    requires PlainText(x)
    ensures PseudoPredicate("contains", [x], t, mb) == Ok((ConvertContains(x, false, mb), t))
  {
    TrimUnchanged(x, {' ', '\'', '"'});
    ContainsPredicate([x], t, mb);
  }

  /** convertPseudo of `contains`: the first parameter, quotes and spaces trimmed, and whether the second is `true`. */
  lemma ContainsPredicate(params: seq<string>, t: string, mb: bool)
    requires |params| >= 1
    ensures PseudoPredicate("contains", params, t, mb)
         == Ok((ConvertContains(Trim(params[0], {' ', '\'', '"'}), |params| >= 2 && Trim(params[1], TrimChars) == "true", mb), t))
  {
  }

  /** `t:contains(x,true)` compares the text with x as it is. */
  lemma ContainsCaseSelector(t: string, x: string, prefix: string, mb: bool)
    requires TagName(t) && PlainText(x)
    ensures SelectorPath(t + PseudoSuffix("contains", x + ",true"), prefix, mb)
         == Ok(prefix + t + Bracketed(ConvertContains(x, true, mb)))
  {
    NthName("contains");
    CaseParameters(x);
    PseudoSelector(t, "contains", x + ",true", prefix, mb);
    ContainsCaseOf(x, t, mb);
  }

  lemma ContainsCaseOf(x: string, t: string, mb: bool)
    requires PlainText(x)
    ensures PseudoPredicate("contains", [x, "true"], t, mb) == Ok((ConvertContains(x, true, mb), t))
  {
    var params := [x, "true"];
    assert params[0] == x && params[1] == "true";
    TrimUnchanged(x, {' ', '\'', '"'});
    TrueTrimmed();
    ContainsPredicate(params, t, mb);
  }

  lemma TrueTrimmed()
    ensures Trim("true", TrimChars) == "true"
  {
    TrimUnchanged("true", TrimChars);
  }

  /** The argument `x,true` is a pseudo-class argument of the two parameters x and `true`. */
  lemma CaseParameters(x: string)
    requires PlainText(x)
    ensures PseudoArgument(x + ",true") && Parameters(x + ",true") == [x, "true"]
  {
    var both := x + ",true";
    assert both == x + "," + "true";
    assert both[0] == x[0] && both[|both| - 1] == 'e';
    assert ')' !in both && ':' !in both by {
      assert forall c :: c in both <==> c in x || c in ",true";
    }
    TrimUnchanged(both, TrimChars);
    ExplodeAtSeparator(",", x, "true");
    ExplodeWithoutSeparator(",", "true");
  }
}
