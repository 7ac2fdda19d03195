/**
 * The class Query: the static `$compiled` cache as the field `compiled` of
 * one Query object, `compile` over it, and the static methods getSegments,
 * buildXPath, convertPseudo and cssToXPath written as the source writes
 * them, with their loops, each proved equal to the function in Segments or
 * Compiler that specifies it.
 */
module Queries {
  import opened Outcomes
  import opened Strings
  import opened OrderedMaps
  import opened Segments
  import opened Translate
  import opened Nth
  import opened Compiler
  import opened Cache

  /**
   * How compile turns one trimmed clause into XPath: cssToXPath with the
   * prefix `//`.  The cache functions below take this as a parameter, so
   * what they say about the cache holds whatever the compiler does.
   */
  function ClausePath(mb: bool): string -> Result<string> {
    clause => SelectorPath(clause, "//", mb)
  }

  class Query {
    /** static::$compiled: trimmed CSS clause to its XPath. */
    var compiled: map<string, string>

    constructor()
      ensures compiled == map[]
    {
      compiled := map[];
    }

    /**
     * compile: an XPath expression is returned as it is; a CSS expression is
     * split on every `,`, each trimmed clause is looked up in the cache or
     * compiled and stored, and the paths are joined with `|`.
     */
    method Compile(expression: string, queryType: string, mb: bool) returns (r: Result<string>)
      modifies this
      ensures (r, compiled) == CompileSpec(old(compiled), expression, queryType, ClausePath(mb))
    {
      if queryType == XPathType {
        return Ok(expression);
      }
      var selectors := Explode(",", expression);
      var paths := CompileAll(selectors, mb);
      if paths.Err? {
        return Err(paths.error);
      }
      r := Ok(Join("|", paths.value));
    }

    /** The foreach of compile over the exploded selectors, each trimmed before it is looked up. */
    method CompileAll(selectors: seq<string>, mb: bool) returns (r: Result<seq<string>>)
      modifies this
      ensures (r, compiled) == CompileClauses(old(compiled), Trimmed(selectors), ClausePath(mb))
    {
      var paths: seq<string> := [];
      ghost var start := compiled;
      assert selectors[0..] == selectors;
      ExtendNothing(CompileClauses(compiled, Trimmed(selectors), ClausePath(mb)));
      for i := 0 to |selectors|
        invariant CompileClauses(start, Trimmed(selectors), ClausePath(mb))
          == Extend(paths, CompileClauses(compiled, Trimmed(selectors[i..]), ClausePath(mb)))
      {
        TrimmedFrom(selectors, i);
        ClauseStep(compiled, Trimmed(selectors[i..]), ClausePath(mb));
        var path := CompileClause(Trim(selectors[i], TrimChars), mb);
        if path.Err? {
          return Err(path.error);
        }
        ExtendTwice(paths, [path.value], CompileClauses(compiled, Trimmed(selectors[i + 1..]), ClausePath(mb)));
        paths := paths + [path.value];
      }
      assert paths + [] == paths;
      r := Ok(paths);
    }

    /** The body of compile's foreach for one trimmed clause: look it up, or compile and store it. */
    method CompileClause(selector: string, mb: bool) returns (r: Result<string>)
      modifies this
      ensures (r, compiled) == Lookup(old(compiled), selector, ClausePath(mb))
    {
      if selector in compiled {
        return Ok(compiled[selector]);
      }
      var path := CssToXPath(selector, "//", mb);
      if path.Err? {
        return path;
      }
      compiled := compiled[selector := path.value];
      r := Ok(compiled[selector]);
    }

    /** getCompiled. */
    function GetCompiled(): (m: map<string, string>)
      reads this
      ensures m == compiled
    {
      compiled
    }

    /** setCompiled: the whole cache is replaced. */
    method SetCompiled(m: map<string, string>)
      modifies this
      ensures compiled == m
    {
      compiled := m;
    }

    /** getSegments: trim, match, then the foreach loops over attributes and classes. */
    static method GetSegments(selector: string) returns (r: Result<Segment>)
      ensures r == ParseSegment(selector)
    {
      var s := Trim(selector, TrimChars);
      if s == "" {
        return Err(EmptySelector);
      }
      var m := Scan(s);
      if m.Text() == "" {
        return Err(InvalidSelector);
      }
      assert ParseSegment(selector) == Decode(m);
      var attributes := ReadAttributes(Explode("][", Trim(m.attrs, {'[', ']'})));
      if attributes.Err? {
        return Err(attributes.error);
      }
      var classes := ReadClasses(Explode(".", Trim(m.classes, {'.'})));
      TailLength(m.tail);
      r := Ok(Segment(
             selector := m.Text(),
             tag := if m.tag == "" then None else Some(m.tag),
             id := if m.id == "" then None else Some(m.id[1..]),
             classes := classes,
             attributes := attributes.value,
             pseudo := if m.tail.pseudo == "" then None else Some(m.tail.pseudo),
             expr := if m.tail.expr == "" then None else Some(m.tail.expr),
             rel := m.tail.rel));
    }

    /** The foreach of getSegments that fills `$result['attributes']`. */
    static method ReadAttributes(pieces: seq<string>) returns (r: Result<OrderedMap<Option<string>>>)
      ensures r == AddAttributes(Empty(), pieces)
    {
      var attributes: OrderedMap<Option<string>> := Empty();
      var i := 0;
      while i < |pieces|
        invariant i <= |pieces| && NamesOk(attributes)
        invariant AddAttributes(attributes, pieces[i..]) == AddAttributes(Empty(), pieces)
      {
        assert pieces[i..][1..] == pieces[i + 1..];
        if pieces[i] != "" {
          var (name, value) := SplitAttribute(pieces[i]);
          if name == "" {
            return Err(EmptyAttributeName);
          }
          attributes := attributes.Put(name, value);
        }
        i := i + 1;
      }
      r := Ok(attributes);
    }

    /** The foreach of getSegments that fills `$result['classes']`. */
    static method ReadClasses(pieces: seq<string>) returns (classes: seq<string>)
      ensures classes == NonEmpty(pieces)
    {
      classes := [];
      for j := 0 to |pieces|
        invariant classes == NonEmpty(pieces[..j])
      {
        assert pieces[..j + 1][..j] == pieces[..j];
        if pieces[j] != "" {
          classes := classes + [pieces[j]];
        }
      }
      assert pieces[..|pieces|] == pieces;
    }

    /**
     * convertPseudo: the predicate, and in `tag` the value `$tagName` holds
     * afterwards (the by-reference write of `nth-child`).
     */
    static method ConvertPseudo(pseudo: string, parameters: seq<string>, tagName: string, mb: bool)
      returns (r: Result<string>, tag: string)
      requires |parameters| >= 1
      ensures r.Ok? <==> PseudoPredicate(pseudo, parameters, tagName, mb).Ok?
      ensures r.Ok? ==> (r.value, tag) == PseudoPredicate(pseudo, parameters, tagName, mb).value
      ensures r.Err? ==> r.error == PseudoPredicate(pseudo, parameters, tagName, mb).error
      decreases |parameters[0]|, 4
    {
      tag := tagName;
      if pseudo == "first-child" {
        r := Ok(FirstChildTest);
      } else if pseudo == "last-child" {
        r := Ok(LastChildTest);
      } else if pseudo == "nth-child" {
        var nth := ConvertNthExpression(parameters[0]);
        if nth.Err? {
          return Err(nth.error), tag;
        }
        r := Ok("(name()=" + Quote(tagName) + ") and (" + nth.value + ")");
        tag := "*";
      } else if pseudo == "contains" {
        var text := Trim(parameters[0], {' ', '\'', '"'});
        var caseSensitive := |parameters| >= 2 && Trim(parameters[1], TrimChars) == "true";
        r := Ok(ConvertContains(text, caseSensitive, mb));
      } else if pseudo == "has" {
        r := CssToXPath(parameters[0], ".//", mb);
      } else if pseudo == "not" {
        var path := CssToXPath(parameters[0], "", mb);
        if path.Err? {
          return path, tag;
        }
        r := Ok("not(self::" + path.value + ")");
      } else if pseudo == "nth-of-type" {
        r := ConvertNthExpression(parameters[0]);
      } else if pseudo == "empty" {
        r := Ok(EmptyTest);
      } else if pseudo == "not-empty" {
        r := Ok(NotEmptyTest);
      } else {
        r := Err(UnknownPseudoClass(pseudo));
      }
    }

    /** buildXPath: collect the predicates in a list, then print prefix, tag and brackets. */
    static method BuildXPath(segments: Segment, prefix: string, mb: bool) returns (r: Result<string>)
      requires WellFormed(segments)
      ensures r == SegmentPath(segments, prefix, mb)
      decreases ExprSize(segments) + 1, 0
    {
      if segments.pseudo.Some? {
        r := BuildPseudoXPath(segments, prefix, mb);
      } else {
        r := BuildPlainXPath(segments, prefix);
      }
    }

    /** buildXPath for a segment with a pseudo-class: its predicate comes last and may replace the tag. */
    static method BuildPseudoXPath(segments: Segment, prefix: string, mb: bool) returns (r: Result<string>)
      requires WellFormed(segments) && segments.pseudo.Some?
      ensures r == SegmentPath(segments, prefix, mb)
      decreases ExprSize(segments), 6
    {
      var attributes := CollectPredicates(segments);
      var pred, tag := PseudoStep(segments, segments.tag.GetOr("*"), mb);
      if pred.Err? {
        return Err(pred.error);
      }
      PseudoPath(segments, prefix, mb, pred.value, tag);
      var xPath := AppendPredicates(prefix + tag, attributes + [pred.value]);
      r := Ok(xPath);
    }

    /** buildXPath for a segment without a pseudo-class: no tag and no predicate is an error. */
    static method BuildPlainXPath(segments: Segment, prefix: string) returns (r: Result<string>)
      requires WellFormed(segments) && segments.pseudo.None?
      ensures forall mb :: r == SegmentPath(segments, prefix, mb)
    {
      var attributes := CollectPredicates(segments);
      if |attributes| == 0 && segments.tag.None? {
        return Err(NoConstraint);
      }
      var xPath := AppendPredicates(prefix + segments.tag.GetOr("*"), attributes);
      r := Ok(xPath);
    }

    /** The pseudo-class part of buildXPath: the argument split on `,`, then convertPseudo. */
    static method PseudoStep(segments: Segment, tagName: string, mb: bool) returns (r: Result<string>, tag: string)
      requires WellFormed(segments) && segments.pseudo.Some?
      ensures var spec := PseudoPredicate(segments.pseudo.value, PseudoParameters(segments), tagName, mb);
        && (r.Ok? <==> spec.Ok?)
        && (r.Ok? ==> (r.value, tag) == spec.value)
        && (r.Err? ==> r.error == spec.error)
      decreases ExprSize(segments), 5
    {
      var expression := Trim(segments.expr.GetOr(""), TrimChars);
      var parameters := Explode(",", expression);
      assert parameters == PseudoParameters(segments);
      r, tag := ConvertPseudo(segments.pseudo.value, parameters, tagName, mb);
    }

    /** The end of buildXPath: the predicates in brackets after the step. */
    static method AppendPredicates(step: string, attributes: seq<string>) returns (xPath: string)
      ensures xPath == step + Bracket(attributes)
    {
      xPath := step;
      if |attributes| > 1 {
        xPath := xPath + ("[(" + Join(") and (", attributes) + ")]");
      } else if |attributes| == 1 {
        xPath := xPath + ("[" + attributes[0] + "]");
      }
    }

    /** The part of buildXPath that lists the id, class and attribute tests, in that order. */
    static method CollectPredicates(segments: Segment) returns (attributes: seq<string>)
      requires segments.attributes.Valid()
      ensures attributes == BasePredicates(segments)
    {
      attributes := [];
      if segments.id.Some? {
        attributes := attributes + ["@id=" + Quote(segments.id.value)];
      }
      assert attributes == IdPredicates(segments);
      var classTests := ClassTests(segments.classes);
      var attributeTests := AttributeTests(segments.attributes);
      attributes := attributes + classTests + attributeTests;
    }

    /** The foreach of buildXPath over `$segments['classes']`. */
    static method ClassTests(classes: seq<string>) returns (tests: seq<string>)
      ensures tests == ClassPredicates(classes)
    {
      tests := [];
      for i := 0 to |classes|
        invariant tests == ClassPredicates(classes[..i])
      {
        assert classes[..i + 1][..i] == classes[..i];
        tests := tests + [ClassPredicate(classes[i])];
      }
      assert classes[..|classes|] == classes;
    }

    /** The foreach of buildXPath over `$segments['attributes']`, in key order. */
    static method AttributeTests(attrs: OrderedMap<Option<string>>) returns (tests: seq<string>)
      requires attrs.Valid()
      ensures tests == AttributePredicates(attrs, attrs.keys)
    {
      tests := [];
      var names := attrs.keys;
      for j := 0 to |names|
        invariant tests == AttributePredicates(attrs, names[..j])
      {
        assert names[..j + 1][..j] == names[..j];
        tests := tests + [ConvertAttribute(names[j], attrs.values[names[j]])];
      }
      assert names[..|names|] == names;
    }

    /**
     * cssToXPath: split off the property, handle a leading `>`, run the
     * segment loop, then append the property.
     */
    static method CssToXPath(selector: string, prefix: string, mb: bool) returns (r: Result<string>)
      ensures r == SelectorPath(selector, prefix, mb)
      decreases |selector|, 3
    {
      var position := LastPair(selector, ':');
      if position.Some? {
        r := PropertyXPath(selector, position.value, prefix, mb);
      } else {
        r := StartSegments(selector, prefix, mb);
      }
    }

    /** cssToXPath with a `::` property at `position`: convert it, compile what precedes it, append it. */
    static method PropertyXPath(selector: string, position: nat, prefix: string, mb: bool) returns (r: Result<string>)
      requires LastPair(selector, ':') == Some(position)
      ensures r == SelectorPath(selector, prefix, mb)
      decreases |selector|, 2
    {
      var converted := ConvertProperty(ParseProperty(selector[position + 2..]));
      if converted.Err? {
        return Err(converted.error);
      }
      var xPath := StartSegments(selector[..position], prefix, mb);
      if xPath.Err? {
        return xPath;
      }
      Regroup(xPath.value, "/", converted.value);
      r := Ok(xPath.value + "/" + converted.value);
    }

    /** The `>` check of cssToXPath before the segment loop. */
    static method StartSegments(selector: string, prefix: string, mb: bool) returns (r: Result<string>)
      ensures r == Start(selector, prefix, mb)
      decreases |selector|, 2
    {
      var sel, pre := selector, prefix;
      if sel != [] && sel[0] == '>' {
        pre := "/";
        sel := TrimLeft(sel, {'>', ' '});
      }
      r := CompileSegments(sel, pre, mb);
    }

    /** The while loop of cssToXPath: one segment per round, until no text is left. */
    static method CompileSegments(selector: string, prefix: string, mb: bool) returns (r: Result<string>)
      ensures r == Chain(selector, prefix, mb)
      decreases |selector|, 1
    {
      var sel, pre := selector, prefix;
      var segments := GetSegments(sel);
      if segments.Err? {
        return Err(segments.error);
      }
      var xPath := "";
      PrependNothing(Chain(sel, pre, mb));
      while true
        invariant |sel| <= |selector|
        invariant ParseSegment(sel) == segments && segments.Ok?
        invariant Chain(selector, prefix, mb) == Prepend(xPath, Chain(sel, pre, mb))
        decreases |sel|
      {
        var path := BuildXPath(segments.value, pre, mb);
        ChainStep(sel, pre, mb, segments.value);
        if path.Err? {
          return Err(path.error);
        }
        ghost var done := xPath;
        xPath := xPath + path.value;
        sel := Trim(sel[|segments.value.selector|..], TrimChars);
        pre := NextPrefix(segments.value);
        if sel == "" {
          break;
        }
        PrependTwice(done, path.value, Chain(sel, pre, mb));
        segments := GetSegments(sel);
        if segments.Err? {
          return Err(segments.error);
        }
      }
      r := Ok(xPath);
    }
  }
}
