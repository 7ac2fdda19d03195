/**
 * What cssToXPath makes of chains of bare tag names: the axis between two
 * steps is `/` after a `>` and `//` after white space, and a leading `>`
 * starts from the child axis.  Also how the cut of the consumed text goes
 * wrong after `>` followed by a tab.
 */
module Axes {
  import opened Outcomes
  import opened Strings
  import opened OrderedMaps
  import opened Segments
  import opened Compiler

  /** A non-empty run of tag characters: a bare tag selector. */
  predicate TagName(t: string) {
    t != [] && AllChars(t, IsTagChar)
  }

  /** The segment getSegments returns for a bare tag, with the text it consumed. */
  function TagSegment(text: string, t: string, rel: bool): Segment {
    Segment(text, Some(t), None, [], Empty(), None, None, rel)
  }

  /** No tag character is white space or starts another group of the pattern. */
  lemma TagCharIsPlain(c: char)
    requires IsTagChar(c)
    ensures c !in TrimChars && !IsRegexSpace(c) && c != '>'
  {
  }

  /** A bare tag is left alone by trim. */
  lemma TagTrimmed(t: string)
    requires TagName(t)
    ensures Trim(t, TrimChars) == t
  {
    TagCharIsPlain(t[0]);
    TagCharIsPlain(t[|t| - 1]);
    TrimUnchanged(t, TrimChars);
  }

  /** The scan of a text that starts with a tag and then a character only the tail groups can take. */
  lemma ScanAfterTag(t: string, rest: string)
    requires AllChars(t, IsTagChar)
    requires rest == [] || rest[0] == ' ' || rest[0] == '>' || rest[0] == '\t' || rest[0] == ':'
    ensures Scan(t + rest) == Match(t, "", "", "", ScanTail(rest))
  {
    var s := t + rest;
    SpanOf(t, rest, IsTagChar);
    assert s[..|t|] == t && s[|t|..] == rest;
    assert TagText(s) == t;
    NoGroupsBefore(rest);
  }

  /** None of the `#id`, `.class` and `[attr]` groups can start at a space, a tab, a `>` or a `:`. */
  lemma NoGroupsBefore(rest: string)
    requires rest == [] || rest[0] == ' ' || rest[0] == '>' || rest[0] == '\t' || rest[0] == ':'
    ensures IdText(rest) == "" && ClassText(rest) == "" && AttrText(rest) == "" && rest[0..] == rest
  {
  }

  /** The tail ` > ` before a tag: one space, then the `>`. */
  lemma ChildTail(u: string)
    ensures ScanTail([' ', '>', ' '] + u) == Tail("", "", " ", true)
  {
    var s := [' ', '>', ' '] + u;
    assert s[0..] == s;
    assert s == " " + ([ '>', ' '] + u);
    SpanOf(" ", ['>', ' '] + u, IsRegexSpace);
    assert s[..1] == " " && s[1..][0] == '>';
  }

  /** The tail `>` directly before a tag. */
  lemma TightChildTail(u: string)
    ensures ScanTail(['>'] + u) == Tail("", "", "", true)
  {
    var s := ['>'] + u;
    assert s[0..] == s;
    SpanOf("", s, IsRegexSpace);
    assert s[..0] == "";
  }

  /** The tail ` ` before a tag. */
  lemma DescendantTail(u: string)
    requires TagName(u)
    ensures ScanTail([' '] + u) == Tail("", "", " ", false)
  {
    var s := [' '] + u;
    assert s[0..] == s;
    TagCharIsPlain(u[0]);
    SpanOf(" ", u, IsRegexSpace);
    assert s[..1] == " " && s[1..] == u;
  }

  /** Nothing after the tag. */
  lemma EmptyTail()
    ensures ScanTail("") == Tail("", "", "", false)
  {
    assert ""[0..] == "";
  }

  /** No attribute text gives no attributes. */
  lemma NoAttributes()
    ensures AddAttributes(Empty(), Explode("][", Trim("", {'[', ']'}))) == Ok(Empty())
  {
    assert Trim("", {'[', ']'}) == "";
    ExplodeWithoutSeparator("][", "");
    assert [""][1..] == [];
  }

  /** No class text gives no classes. */
  lemma NoClasses()
    ensures ClassNames("") == []
  {
    assert Trim("", {'.'}) == "";
    ExplodeWithoutSeparator(".", "");
    assert [""][..0] == [];
  }

  /** The groups of a bare tag decode to a segment with that tag and nothing else. */
  lemma DecodeTag(t: string, tail: Tail)
    requires AllChars(t, IsTagChar) && tail.pseudo == "" && tail.expr == ""
    requires t + tail.Text() != []
    ensures Decode(Match(t, "", "", "", tail))
      == Ok(Segment(t + tail.Text(), if t == "" then None else Some(t), None, [], Empty(), None, None, tail.rel))
  {
    var m := Match(t, "", "", "", tail);
    assert m.Text() == t + tail.Text();
    DecodeBare(m);
  }

  /** A match with only the tag and the space or `>` groups decodes to its tag and `rel`. */
  lemma DecodeBare(m: Match)
    requires m.id == "" && m.classes == "" && m.attrs == "" && m.tail.pseudo == "" && m.tail.expr == ""
    requires m.Text() != [] && Shaped(m)
    ensures Decode(m) == Ok(Segment(m.Text(), if m.tag == "" then None else Some(m.tag), None, [], Empty(), None, None, m.tail.rel))
  {
    NoAttributes();
    NoClasses();
  }

  /**
   * getSegments of a tag followed by a text that only the `\s*` and `>`
   * groups can take: the tag, and the `rel` marker of the tail.
   */
  lemma ParseTagThen(t: string, rest: string, tail: Tail)
    requires AllChars(t, IsTagChar)
    requires rest == [] || rest[0] == ' ' || rest[0] == '>' || rest[0] == '\t'
    requires ScanTail(rest) == tail && tail.pseudo == "" && tail.expr == ""
    requires Trim(t + rest, TrimChars) == t + rest && t + tail.Text() != []
    ensures ParseSegment(t + rest)
      == Ok(Segment(t + tail.Text(), if t == "" then None else Some(t), None, [], Empty(), None, None, tail.rel))
  {
    ParseTrimmedTagThen(t + rest, t, rest, tail);
  }

  /** As ParseTagThen, for a text that trims to the tag and its tail. */
  lemma ParseTrimmedTagThen(x: string, t: string, rest: string, tail: Tail)
    requires AllChars(t, IsTagChar)
    requires rest == [] || rest[0] == ' ' || rest[0] == '>' || rest[0] == '\t'
    requires ScanTail(rest) == tail && tail.pseudo == "" && tail.expr == ""
    requires Trim(x, TrimChars) == t + rest && t + tail.Text() != []
    ensures ParseSegment(x)
      == Ok(Segment(t + tail.Text(), if t == "" then None else Some(t), None, [], Empty(), None, None, tail.rel))
  {
    ScanAfterTag(t, rest);
    DecodeTag(t, tail);
  }

  /** getSegments of a bare tag. */
  lemma ParseTag(u: string)
    requires TagName(u)
    ensures ParseSegment(u) == Ok(TagSegment(u, u, false))
  {
    TagTrimmed(u);
    assert u + "" == u;
    EmptyTail();
    ParseTagThen(u, "", Tail("", "", "", false));
  }

  /** getSegments of `t > u`: the text `t >` is consumed and the segment carries `rel`. */
  lemma ParseChildPair(t: string, u: string)
    requires TagName(t) && TagName(u)
    ensures ParseSegment(t + [' ', '>', ' '] + u) == Ok(TagSegment(t + [' ', '>'], t, true))
  {
    var rest := [' ', '>', ' '] + u;
    TagCharIsPlain(t[0]);
    TagCharIsPlain(u[|u| - 1]);
    assert (t + rest)[0] == t[0] && (t + rest)[|t + rest| - 1] == u[|u| - 1];
    TrimUnchanged(t + rest, TrimChars);
    assert t + [' ', '>', ' '] + u == t + rest;
    ChildTail(u);
    assert Tail("", "", " ", true).Text() == [' ', '>'];
    ParseTagThen(t, rest, Tail("", "", " ", true));
  }

  /** getSegments of `t u`: the text `t ` is consumed and the segment has no `rel`. */
  lemma ParseDescendantPair(t: string, u: string)
    requires TagName(t) && TagName(u)
    ensures ParseSegment(t + [' '] + u) == Ok(TagSegment(t + [' '], t, false))
  {
    var rest := [' '] + u;
    TagCharIsPlain(t[0]);
    TagCharIsPlain(u[|u| - 1]);
    assert (t + rest)[0] == t[0] && (t + rest)[|t + rest| - 1] == u[|u| - 1];
    TrimUnchanged(t + rest, TrimChars);
    assert t + [' '] + u == t + rest;
    DescendantTail(u);
    assert Tail("", "", " ", false).Text() == [' '];
    ParseTagThen(t, rest, Tail("", "", " ", false));
  }

  /** getSegments of `t>u`: the text `t>` is consumed and the segment carries `rel`. */
  lemma ParseTightPair(t: string, u: string)
    requires TagName(t) && TagName(u)
    ensures ParseSegment(t + ['>'] + u) == Ok(TagSegment(t + ['>'], t, true))
  {
    var rest := ['>'] + u;
    TagCharIsPlain(t[0]);
    TagCharIsPlain(u[|u| - 1]);
    assert (t + rest)[0] == t[0] && (t + rest)[|t + rest| - 1] == u[|u| - 1];
    TrimUnchanged(t + rest, TrimChars);
    assert t + ['>'] + u == t + rest;
    TightChildTail(u);
    assert Tail("", "", "", true).Text() == ['>'];
    ParseTagThen(t, rest, Tail("", "", "", true));
  }

  /** getSegments of `>u`: only the `>` is consumed, and the segment has neither tag nor predicate. */
  lemma ParseBareChild(u: string)
    requires TagName(u)
    ensures ParseSegment(['>'] + u) == Ok(Segment(['>'], None, None, [], Empty(), None, None, true))
  {
    var rest := ['>'] + u;
    TagCharIsPlain(u[|u| - 1]);
    assert rest[|rest| - 1] == u[|u| - 1];
    TrimUnchanged(rest, TrimChars);
    TightChildTail(u);
    assert "" + rest == rest;
    assert "" + Tail("", "", "", true).Text() == ['>'];
    ParseTagThen("", rest, Tail("", "", "", true));
  }

  /** A bare tag step is the prefix and the tag. */
  lemma TagStep(text: string, t: string, rel: bool, prefix: string, mb: bool)
    requires TagName(t) && text != []
    ensures WellFormed(TagSegment(text, t, rel))
    ensures SegmentPath(TagSegment(text, t, rel), prefix, mb) == Ok(prefix + t)
  {
    var seg := TagSegment(text, t, rel);
    assert BasePredicates(seg) == [];
    assert prefix + t + "" == prefix + t;
  }

  /** A lone tag compiles to the prefix and the tag. */
  lemma ChainTag(u: string, prefix: string, mb: bool)
    requires TagName(u)
    ensures Chain(u, prefix, mb) == Ok(prefix + u)
  {
    ParseTag(u);
    TagStep(u, u, false, prefix, mb);
    ChainStep(u, prefix, mb, TagSegment(u, u, false));
    assert u[|u|..] == "";
  }

  /** One trimmed character in front of a text whose ends trim keeps is trimmed away. */
  lemma TrimFront(c: char, y: string)
    requires c in TrimChars && y != [] && y[0] !in TrimChars && y[|y| - 1] !in TrimChars
    ensures Trim([c] + y, TrimChars) == y
  {
    TrimUnchanged(y, TrimChars);
    assert ([c] + y)[1..] == y;
  }

  /**
   * A bare tag segment followed by more text: the tag, then the rest on the
   * axis of the segment.  The consumed text is cut off by its length only.
   */
  lemma TagThenRest(head: string, rest: string, text: string, t: string, rel: bool, prefix: string, mb: bool)
    requires TagName(t) && text != [] && |text| == |head|
    requires ParseSegment(head + rest) == Ok(TagSegment(text, t, rel))
    requires Trim(rest, TrimChars) != ""
    ensures Chain(head + rest, prefix, mb)
      == Prepend(prefix + t, Chain(Trim(rest, TrimChars), if rel then "/" else "//", mb))
  {
    TagStep(text, t, rel, prefix, mb);
    ChainStep(head + rest, prefix, mb, TagSegment(text, t, rel));
    assert (head + rest)[|head|..] == rest;
  }

  /** The first step of `t > u` is `t`, and the rest `u` follows on the child axis. */
  lemma ChildThenRest(t: string, u: string, prefix: string, mb: bool)
    requires TagName(t) && TagName(u)
    ensures Chain(t + [' ', '>', ' '] + u, prefix, mb) == Prepend(prefix + t, Chain(u, "/", mb))
  {
    var head := t + [' ', '>'];
    assert t + [' ', '>', ' '] + u == head + ([' '] + u);
    ParseChildPair(t, u);
    TagCharIsPlain(u[0]);
    TagCharIsPlain(u[|u| - 1]);
    TrimFront(' ', u);
    TagThenRest(head, [' '] + u, head, t, true, prefix, mb);
  }

  /** `t > u`: the second step is a child step `/u`. */
  lemma ChainChild(t: string, u: string, prefix: string, mb: bool)
    requires TagName(t) && TagName(u)
    ensures Chain(t + [' ', '>', ' '] + u, prefix, mb) == Ok(prefix + t + "/" + u)
  {
    ChildThenRest(t, u, prefix, mb);
    ChainTag(u, "/", mb);
    Regroup(prefix + t, "/", u);
  }

  /** `t u`: the second step is a descendant step `//u`. */
  lemma ChainDescendant(t: string, u: string, prefix: string, mb: bool)
    requires TagName(t) && TagName(u)
    ensures Chain(t + [' '] + u, prefix, mb) == Ok(prefix + t + "//" + u)
  {
    var s := t + [' '] + u;
    var seg := TagSegment(t + [' '], t, false);
    ParseDescendantPair(t, u);
    TagStep(seg.selector, t, false, prefix, mb);
    ChainStep(s, prefix, mb, seg);
    assert s[|seg.selector|..] == u;
    TagTrimmed(u);
    ChainTag(u, "//", mb);
    Regroup(prefix + t, "//", u);
  }

  /** `t>u`: the second step is a child step `/u`, as with spaces around the `>`. */
  lemma ChainTightChild(t: string, u: string, prefix: string, mb: bool)
    requires TagName(t) && TagName(u)
    ensures Chain(t + ['>'] + u, prefix, mb) == Ok(prefix + t + "/" + u)
  {
    var s := t + ['>'] + u;
    var seg := TagSegment(t + ['>'], t, true);
    ParseTightPair(t, u);
    TagStep(seg.selector, t, true, prefix, mb);
    ChainStep(s, prefix, mb, seg);
    assert s[|seg.selector|..] == u;
    TagTrimmed(u);
    ChainTag(u, "/", mb);
    Regroup(prefix + t, "/", u);
  }

  /** The segment of a lone `>` constrains nothing. */
  lemma BareStep(prefix: string, mb: bool)
    ensures SegmentPath(Segment(['>'], None, None, [], Empty(), None, None, true), prefix, mb) == Err(NoConstraint)
  {
    assert BasePredicates(Segment(['>'], None, None, [], Empty(), None, None, true)) == [];
  }

  /** A chain that starts with `>u` has a first segment with neither tag nor predicate. */
  lemma ChainBareChild(u: string, prefix: string, mb: bool)
    requires TagName(u)
    ensures Chain(['>'] + u, prefix, mb) == Err(NoConstraint)
  {
    ParseBareChild(u);
    BareStep(prefix, mb);
    ChainStep(['>'] + u, prefix, mb, Segment(['>'], None, None, [], Empty(), None, None, true));
  }

  /** ltrim($s, $cs) drops a leading run of characters of cs and stops at the first other one. */
  lemma {:induction false} TrimLeftDrop(pre: string, s: string, cs: set<char>)
    requires forall i :: 0 <= i < |pre| ==> pre[i] in cs
    requires s == [] || s[0] !in cs
    ensures TrimLeft(pre + s, cs) == s
    decreases |pre|
  {
    if pre == [] {
      assert pre + s == s;
    } else {
      assert (pre + s)[1..] == pre[1..] + s;
      TrimLeftDrop(pre[1..], s, cs);
    }
  }

  /** ltrim of `>` and spaces takes `> ` off the front of a text that starts with a tag. */
  lemma LeadingGap(t: string, rest: string)
    requires TagName(t)
    ensures TrimLeft(['>', ' '] + (t + rest), {'>', ' '}) == t + rest
  {
    TagCharIsPlain(t[0]);
    assert (t + rest)[0] == t[0];
    TrimLeftDrop(['>', ' '], t + rest, {'>', ' '});
  }

  /** ltrim of `>` and spaces takes only the `>` off `>\t...`. */
  lemma LeadingTab(y: string)
    ensures TrimLeft(['>', '\t'] + y, {'>', ' '}) == ['\t'] + y
  {
    assert ['>', '\t'] + y == ['>'] + (['\t'] + y);
    TrimLeftDrop(['>'], ['\t'] + y, {'>', ' '});
  }

  /** `>u` is left alone by trim. */
  lemma BareChildTrimmed(u: string)
    requires TagName(u)
    ensures Trim(['>'] + u, TrimChars) == ['>'] + u
  {
    TagCharIsPlain(u[|u| - 1]);
    assert (['>'] + u)[|['>'] + u| - 1] == u[|u| - 1];
    TrimUnchanged(['>'] + u, TrimChars);
  }

  /**
   * getSegments of `\tt>u`: the leading tab is trimmed away, so the consumed
   * text `t>` is shorter than the text it is cut from by one character.
   */
  lemma ParseTabbedPair(t: string, u: string)
    requires TagName(t) && TagName(u)
    ensures ParseSegment((['\t'] + t) + (['>'] + u)) == Ok(TagSegment(t + ['>'], t, true))
  {
    TabbedTrim(t, u);
    TightChildTail(u);
    assert Tail("", "", "", true).Text() == ['>'];
    ParseTrimmedTagThen((['\t'] + t) + (['>'] + u), t, ['>'] + u, Tail("", "", "", true));
  }

  /** trim takes the tab off `\tt>u`. */
  lemma TabbedTrim(t: string, u: string)
    requires TagName(t) && TagName(u)
    ensures Trim((['\t'] + t) + (['>'] + u), TrimChars) == t + (['>'] + u)
  {
    var y := t + ['>'] + u;
    assert (['\t'] + t) + (['>'] + u) == ['\t'] + y;
    assert y == t + (['>'] + u);
    TagCharIsPlain(t[0]);
    TagCharIsPlain(u[|u| - 1]);
    assert y[0] == t[0] && y[|y| - 1] == u[|u| - 1];
    TrimFront('\t', y);
  }

  /**
   * The loop cuts the consumed length off the untrimmed text: after `\tt>u`
   * the text left is `>u`, not `u`, and its first segment constrains nothing.
   */
  lemma ChainTabbedPair(t: string, u: string, prefix: string, mb: bool)
    requires TagName(t) && TagName(u)
    ensures Chain((['\t'] + t) + (['>'] + u), prefix, mb) == Err(NoConstraint)
  {
    TabbedThenRest(t, u, prefix, mb);
    ChainBareChild(u, "/", mb);
  }

  /** The first step of `\tt>u` is `t`, and what is left to compile is `>u`. */
  lemma TabbedThenRest(t: string, u: string, prefix: string, mb: bool)
    requires TagName(t) && TagName(u)
    ensures Chain((['\t'] + t) + (['>'] + u), prefix, mb) == Prepend(prefix + t, Chain(['>'] + u, "/", mb))
  {
    ParseTabbedPair(t, u);
    TabbedLengths(t, u);
    TagThenRest(['\t'] + t, ['>'] + u, t + ['>'], t, true, prefix, mb);
  }

  lemma TabbedLengths(t: string, u: string)
    requires TagName(t) && TagName(u)
    ensures |t + ['>']| == |['\t'] + t| && t + ['>'] != []
    ensures Trim(['>'] + u, TrimChars) == ['>'] + u
    ensures Trim(['>'] + u, TrimChars) != ""
  {
    OneMore(t, '>', '\t');
    BareChildTrimmed(u);
  }

  /** A character added at either end makes the same length. */
  lemma OneMore(t: string, a: char, b: char)
    ensures |t + [a]| == |[b] + t| && t + [a] != []
  {
  }

  /** No tag character is a colon, so a chain of tags has no `::` property. */
  lemma NoProperty(sel: string, prefix: string, mb: bool)
    requires ':' !in sel
    ensures SelectorPath(sel, prefix, mb) == Start(sel, prefix, mb)
  {
    forall j ensures !PairAt(sel, j, ':') {
      if 0 <= j < |sel| {
        assert sel[j] != ':';
      }
    }
  }

  lemma TagHasNoColon(t: string)
    requires TagName(t)
    ensures ':' !in t && t[0] != '>'
  {
    forall i | 0 <= i < |t| ensures t[i] != ':' {
      assert IsTagChar(t[i]);
    }
  }

  /** A bare tag compiles to one step from the prefix. */
  lemma SelectorTag(u: string, prefix: string, mb: bool)
    requires TagName(u)
    ensures SelectorPath(u, prefix, mb) == Ok(prefix + u)
  {
    TagHasNoColon(u);
    NoProperty(u, prefix, mb);
    ChainTag(u, prefix, mb);
  }

  /** A leading `> ` before a tag replaces the prefix by the child axis. */
  lemma LeadingStart(t: string, rest: string, prefix: string, mb: bool)
    requires TagName(t)
    ensures Start(['>', ' '] + (t + rest), prefix, mb) == Chain(t + rest, "/", mb)
  {
    LeadingGap(t, rest);
  }

  /** A leading `>` followed by a tab keeps the tab after ltrim. */
  lemma LeadingTabStart(t: string, u: string, prefix: string, mb: bool)
    ensures Start(['>', '\t'] + (t + ['>'] + u), prefix, mb) == Chain((['\t'] + t) + (['>'] + u), "/", mb)
  {
    LeadingTab(t + ['>'] + u);
    assert ['\t'] + (t + ['>'] + u) == (['\t'] + t) + (['>'] + u);
  }

  /** cssToXPath of `t > u` after the prefix: `t/u`. */
  lemma SelectorChild(t: string, u: string, prefix: string, mb: bool)
    requires TagName(t) && TagName(u)
    ensures SelectorPath(t + [' ', '>', ' '] + u, prefix, mb) == Ok(prefix + t + "/" + u)
  {
    TagHasNoColon(t);
    TagHasNoColon(u);
    NoProperty(t + [' ', '>', ' '] + u, prefix, mb);
    ChainChild(t, u, prefix, mb);
  }

  /** cssToXPath of `t u` after the prefix: `t//u`. */
  lemma SelectorDescendant(t: string, u: string, prefix: string, mb: bool)
    requires TagName(t) && TagName(u)
    ensures SelectorPath(t + [' '] + u, prefix, mb) == Ok(prefix + t + "//" + u)
  {
    TagHasNoColon(t);
    TagHasNoColon(u);
    NoProperty(t + [' '] + u, prefix, mb);
    ChainDescendant(t, u, prefix, mb);
  }

  /** cssToXPath of `> u`: the leading `>` replaces the prefix by the child axis. */
  lemma SelectorLeadingChild(u: string, prefix: string, mb: bool)
    requires TagName(u)
    ensures SelectorPath(['>', ' '] + u, prefix, mb) == Ok("/" + u)
  {
    LeadingNoProperty(u, [], prefix, mb);
    assert u + [] == u;
    StartLeadingChild(u, prefix, mb);
  }

  lemma StartLeadingChild(u: string, prefix: string, mb: bool)
    requires TagName(u)
    ensures Start(['>', ' '] + u, prefix, mb) == Ok("/" + u)
  {
    assert u + [] == u;
    LeadingStart(u, [], prefix, mb);
    ChainTag(u, "/", mb);
  }

  /** A leading `> ` followed by a chain of tags has no `::` property. */
  lemma LeadingNoProperty(t: string, u: string, prefix: string, mb: bool)
    requires TagName(t) && (u == [] || TagName(u))
    ensures SelectorPath(['>', ' '] + (t + u), prefix, mb) == Start(['>', ' '] + (t + u), prefix, mb)
    ensures SelectorPath(['>', '\t'] + (t + u), prefix, mb) == Start(['>', '\t'] + (t + u), prefix, mb)
  {
    TagHasNoColon(t);
    if u != [] {
      TagHasNoColon(u);
    }
    NoProperty(['>', ' '] + (t + u), prefix, mb);
    NoProperty(['>', '\t'] + (t + u), prefix, mb);
  }

  /** cssToXPath of `> t>u`: `/t/u`. */
  lemma SelectorLeadingPair(t: string, u: string, prefix: string, mb: bool)
    requires TagName(t) && TagName(u)
    ensures SelectorPath(['>', ' '] + (t + ['>'] + u), prefix, mb) == Ok("/" + t + "/" + u)
  {
    TightHasNoColon(t, u);
    NoProperty(['>', ' '] + (t + ['>'] + u), prefix, mb);
    StartLeadingPair(t, u, prefix, mb);
  }

  lemma StartLeadingPair(t: string, u: string, prefix: string, mb: bool)
    requires TagName(t) && TagName(u)
    ensures Start(['>', ' '] + (t + ['>'] + u), prefix, mb) == Ok("/" + t + "/" + u)
  {
    assert t + ['>'] + u == t + (['>'] + u);
    LeadingStart(t, ['>'] + u, prefix, mb);
    ChainTightChild(t, u, "/", mb);
  }

  /** `t>u` has no colon, so nothing in front of it without one adds a `::` property. */
  lemma TightHasNoColon(t: string, u: string)
    requires TagName(t) && TagName(u)
    ensures ':' !in ['>', ' '] + (t + ['>'] + u) && ':' !in ['>', '\t'] + (t + ['>'] + u)
  {
    TagHasNoColon(t);
    TagHasNoColon(u);
  }

  /**
   * cssToXPath of `>\tt>u` is rejected although `> t>u` compiles: ltrim
   * keeps the tab, and the segment's consumed text is then cut from a text
   * one character longer than the one it was matched in.
   */
  lemma SelectorLeadingTab(t: string, u: string, prefix: string, mb: bool)
    requires TagName(t) && TagName(u)
    ensures SelectorPath(['>', '\t'] + (t + ['>'] + u), prefix, mb) == Err(NoConstraint)
    ensures SelectorPath(['>', ' '] + (t + ['>'] + u), prefix, mb) == Ok("/" + t + "/" + u)
  {
    TightHasNoColon(t, u);
    NoProperty(['>', '\t'] + (t + ['>'] + u), prefix, mb);
    StartLeadingTab(t, u, prefix, mb);
    SelectorLeadingPair(t, u, prefix, mb);
  }

  lemma StartLeadingTab(t: string, u: string, prefix: string, mb: bool)
    requires TagName(t) && TagName(u)
    ensures Start(['>', '\t'] + (t + ['>'] + u), prefix, mb) == Err(NoConstraint)
  {
    LeadingTabStart(t, u, prefix, mb);
    ChainTabbedPair(t, u, "/", mb);
  }
}
