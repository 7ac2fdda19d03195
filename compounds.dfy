/**
 * What cssToXPath makes of a compound segment: a tag with an `#id` and
 * `.classes`, and a tag with two attribute tests.  buildXPath puts the id
 * test first, then one class test per class in the order written, then one
 * test per attribute in the order of the attribute array.
 */
module Compounds {
  import opened Outcomes
  import opened Strings
  import opened OrderedMaps
  import opened Segments
  import opened Translate
  import opened Compiler
  import opened Axes
  import opened Selectors

  /** A non-empty run of id characters: an id the `[\w|\-]+` group takes whole. */
  predicate IdName(i: string) {
    i != [] && AllChars(i, IsIdChar)
  }

  /** Class names as written between the dots: non-empty runs of class characters other than the dot. */
  predicate ClassList(cs: seq<string>) {
    && cs != []
    && forall k :: 0 <= k < |cs| ==> cs[k] != [] && '.' !in cs[k] && AllChars(cs[k], IsClassChar)
  }

  /** `.a.b...`: the classes group as a selector author writes it. */
  function ClassesText(cs: seq<string>): string {
    "." + Join(".", cs)
  }

  /** `t#i.a.b...`, where the tag t may be left out. */
  function IdClassText(t: string, i: string, cs: seq<string>): string {
    t + ("#" + i + ClassesText(cs))
  }

  /** The segment getSegments returns for `t#i.a.b...`. */
  function IdClassSegment(t: string, i: string, cs: seq<string>): Segment {
    Segment(IdClassText(t, i, cs), if t == "" then None else Some(t), Some(i), cs, Empty(), None, None, false)
  }

  /** The id test, then the class tests: the predicates of `t#i.a.b...`. */
  function IdClassTests(i: string, cs: seq<string>): (r: seq<string>)
    ensures |r| == 1 + |cs| && r[0] == "@id=" + Quote(i)
    ensures forall k :: 0 <= k < |cs| ==> r[k + 1] == ClassPredicate(cs[k])
  {
    ["@id=" + Quote(i)] + ClassPredicates(cs)
  }

  /** A text made of characters that satisfy p has no colon when the colon does not satisfy p. */
  lemma ColonFree(s: string, p: char -> bool)
    requires AllChars(s, p) && !p(':')
    ensures ':' !in s
  {
    forall k | 0 <= k < |s| ensures s[k] != ':' {
      assert p(s[k]);
    }
  }

  lemma AllCharsConcat(a: string, b: string, p: char -> bool)
    requires AllChars(a, p) && AllChars(b, p)
    ensures AllChars(a + b, p)
  {
    forall k | 0 <= k < |a + b| ensures p((a + b)[k]) {
      if k >= |a| {
        assert (a + b)[k] == b[k - |a|];
      }
    }
  }

  /** The class names joined with dots are class characters throughout. */
  lemma {:induction false} JoinClassChars(cs: seq<string>)
    requires forall k :: 0 <= k < |cs| ==> AllChars(cs[k], IsClassChar)
    ensures AllChars(Join(".", cs), IsClassChar)
    decreases |cs|
  {
    if |cs| > 1 {
      JoinClassChars(cs[1..]);
      AllCharsConcat(cs[0], ".", IsClassChar);
      AllCharsConcat(cs[0] + ".", Join(".", cs[1..]), IsClassChar);
    }
  }

  /** The classes group takes `.a.b...` whole. */
  lemma ClassGroup(cs: seq<string>)
    requires ClassList(cs)
    ensures ClassText(ClassesText(cs)) == ClassesText(cs)
  {
    var j := Join(".", cs);
    var s := ClassesText(cs);
    JoinEnds(".", cs);
    JoinClassChars(cs);
    assert cs[0][0] in cs[0];
    assert s[1..] == j + "";
    SpanOf(j, "", IsClassChar);
    assert s[..1 + |j|] == s;
  }

  /** The id group takes `#i` and stops at the dot of the classes. */
  lemma IdGroup(i: string, rest: string)
    requires IdName(i) && rest != [] && rest[0] == '.'
    ensures IdText("#" + i + rest) == "#" + i
  {
    var s := "#" + i + rest;
    assert s[1..] == i + rest;
    SpanOf(i, rest, IsIdChar);
    assert s[..1 + |i|] == "#" + i;
  }

  /** The scan of `t#i.a.b...`: the tag, id and classes groups, and nothing after them. */
  lemma ScanIdClass(t: string, i: string, cs: seq<string>)
    requires AllChars(t, IsTagChar) && IdName(i) && ClassList(cs)
    ensures Scan(IdClassText(t, i, cs)) == Match(t, "#" + i, ClassesText(cs), "", Tail("", "", "", false))
  {
    var c := ClassesText(cs);
    var rest := "#" + i + c;
    var s := t + rest;
    assert TagText(s) == t && s[|t|..] == rest by {
      SpanOf(t, rest, IsTagChar);
      assert s[..|t|] == t;
    }
    assert IdText(rest) == "#" + i && rest[|"#" + i|..] == c by {
      IdGroup(i, c);
    }
    assert ClassText(c) == c && c[|c|..] == "" by {
      ClassGroup(cs);
    }
    assert AttrText("") == "" && ""[0..] == "";
    assert ScanTail("") == Tail("", "", "", false) by {
      EmptyTail();
    }
  }

  /** The groups of `t#i.a.b...` decode to the tag, the id and the class names, in order. */
  lemma DecodeIdClass(t: string, i: string, cs: seq<string>)
    requires AllChars(t, IsTagChar) && IdName(i) && ClassList(cs)
    ensures var m := Match(t, "#" + i, ClassesText(cs), "", Tail("", "", "", false));
      m.Text() == IdClassText(t, i, cs) && Shaped(m) && Decode(m) == Ok(IdClassSegment(t, i, cs))
  {
    var m := Match(t, "#" + i, ClassesText(cs), "", Tail("", "", "", false));
    assert Tail("", "", "", false).Text() == "";
    assert m.Text() == IdClassText(t, i, cs);
    assert m.id[1..] == i;
    NoAttributes();
    ClassNamesOfJoin(cs);
  }

  /** No character of `t#i.a.b...` is a colon, it does not start with `>`, and trim leaves it alone. */
  lemma IdClassPlain(t: string, i: string, cs: seq<string>)
    requires AllChars(t, IsTagChar) && IdName(i) && ClassList(cs)
    ensures var s := IdClassText(t, i, cs);
      s != [] && s[0] != '>' && ':' !in s && Trim(s, TrimChars) == s
  {
    var s := IdClassText(t, i, cs);
    var j := Join(".", cs);
    assert s == t + "#" + i + "." + j;
    assert j != [] && IsClassChar(j[|j| - 1]) && ':' !in j by {
      JoinEnds(".", cs);
      JoinClassChars(cs);
      ColonFree(j, IsClassChar);
    }
    assert s[|s| - 1] == j[|j| - 1];
    assert s[0] == if t == "" then '#' else t[0];
    assert ':' !in t && ':' !in i by {
      ColonFree(t, IsTagChar);
      ColonFree(i, IsIdChar);
    }
    TrimUnchanged(s, TrimChars);
  }

  /** getSegments of `t#i.a.b...`: the tag (if any), the id, and the class names in the order written. */
  lemma ParseIdClass(t: string, i: string, cs: seq<string>)
    requires AllChars(t, IsTagChar) && IdName(i) && ClassList(cs)
    ensures ParseSegment(IdClassText(t, i, cs)) == Ok(IdClassSegment(t, i, cs))
  {
    var s := IdClassText(t, i, cs);
    IdClassPlain(t, i, cs);
    ScanIdClass(t, i, cs);
    DecodeIdClass(t, i, cs);
    ParseScanned(s);
  }

  /** buildXPath of a segment without a pseudo-class and with several predicates: they are joined with `and`. */
  lemma PlainSteps(seg: Segment, prefix: string, mb: bool)
    requires WellFormed(seg) && seg.pseudo.None? && |BasePredicates(seg)| >= 2
    ensures SegmentPath(seg, prefix, mb)
         == Ok(prefix + seg.tag.GetOr("*") + "[(" + Join(") and (", BasePredicates(seg)) + ")]")
  {
    var head, body := prefix + seg.tag.GetOr("*"), Join(") and (", BasePredicates(seg));
    assert head + ("[(" + body + ")]") == head + "[(" + body + ")]";
  }

  /** buildXPath of that segment: the tag or `*`, then the id test and the class tests joined with `and`. */
  lemma IdClassStep(t: string, i: string, cs: seq<string>, prefix: string, mb: bool)
    requires AllChars(t, IsTagChar) && IdName(i) && ClassList(cs)
    ensures WellFormed(IdClassSegment(t, i, cs))
    ensures SegmentPath(IdClassSegment(t, i, cs), prefix, mb)
         == Ok(prefix + (if t == "" then "*" else t) + "[(" + Join(") and (", IdClassTests(i, cs)) + ")]")
  {
    var seg := IdClassSegment(t, i, cs);
    assert WellFormed(seg) by {
      ParseIdClass(t, i, cs);
    }
    assert BasePredicates(seg) == IdClassTests(i, cs) by {
      assert AttributePredicates(seg.attributes, []) == [];
    }
    assert seg.tag.GetOr("*") == if t == "" then "*" else t;
    PlainSteps(seg, prefix, mb);
  }

  /**
   * cssToXPath of `t#i.a.b...`: one step, the tag (or `*` without one) with
   * the id test first and then one class test per class, in the order written.
   */
  lemma IdClassSelector(t: string, i: string, cs: seq<string>, prefix: string, mb: bool)
    requires AllChars(t, IsTagChar) && IdName(i) && ClassList(cs)
    ensures SelectorPath(IdClassText(t, i, cs), prefix, mb)
         == Ok(prefix + (if t == "" then "*" else t) + "[(" + Join(") and (", IdClassTests(i, cs)) + ")]")
  {
    var s := IdClassText(t, i, cs);
    var seg := IdClassSegment(t, i, cs);
    assert s != [] && s[0] != '>' && ':' !in s by {
      IdClassPlain(t, i, cs);
    }
    assert SelectorPath(s, prefix, mb) == Start(s, prefix, mb) by {
      NoProperty(s, prefix, mb);
    }
    assert Start(s, prefix, mb) == Chain(s, prefix, mb);
    assert Chain(s, prefix, mb) == SegmentPath(seg, prefix, mb) by {
      ParseIdClass(t, i, cs);
      OneStep(s, prefix, mb, seg);
    }
    IdClassStep(t, i, cs, prefix, mb);
  }

  /** `t#i.a.b` with two classes, spelled out. */
  lemma TwoClassSelector(t: string, i: string, a: string, b: string, prefix: string, mb: bool)
    requires TagName(t) && IdName(i) && ClassList([a, b])
    ensures SelectorPath(t + "#" + i + "." + a + "." + b, prefix, mb)
         == Ok(prefix + t + "[(@id=" + Quote(i) + ") and (" + ClassPredicate(a) + ") and (" + ClassPredicate(b) + ")]")
  {
    TwoClassText(t, i, a, b);
    IdClassSelector(t, i, [a, b], prefix, mb);
    TwoClassTests(i, a, b);
    Spelled(prefix + t, Quote(i), ClassPredicate(a), ClassPredicate(b));
  }

  /** `t#i.a.b` written out is the text of t, i and the classes [a, b]. */
  lemma TwoClassText(t: string, i: string, a: string, b: string)
    ensures t + "#" + i + "." + a + "." + b == IdClassText(t, i, [a, b])
  {
    var cs := [a, b];
    assert cs[1..] == [b];
    assert Join(".", cs) == a + "." + b;
  }

  /** The id test and the tests of a and b, joined with `and`. */
  lemma TwoClassTests(i: string, a: string, b: string)
    ensures Join(") and (", IdClassTests(i, [a, b]))
         == "@id=" + Quote(i) + ") and (" + ClassPredicate(a) + ") and (" + ClassPredicate(b)
  {
    var tests := IdClassTests(i, [a, b]);
    assert tests == ["@id=" + Quote(i), ClassPredicate(a), ClassPredicate(b)];
    Join3(") and (", "@id=" + Quote(i), ClassPredicate(a), ClassPredicate(b));
  }

  /** implode of two parts. */
  lemma Join2(sep: string, x: string, y: string)
    ensures Join(sep, [x, y]) == x + sep + y
  {
    assert [x, y][1..] == [y];
    assert Join(sep, [y]) == y;
  }

  /** implode of three parts. */
  lemma Join3(sep: string, x: string, y: string, z: string)
    ensures Join(sep, [x, y, z]) == x + sep + y + sep + z
  {
    assert [x, y, z][1..] == [y, z] && [y, z][1..] == [z];
    assert Join(sep, [z]) == z;
    assert Join(sep, [y, z]) == y + sep + z;
    assert Join(sep, [x, y, z]) == x + sep + (y + sep + z);
  }

  /** The bracket of three tests, regrouped as written. */
  lemma Spelled(h: string, q: string, x: string, y: string)
    ensures h + "[(" + ("@id=" + q + ") and (" + x + ") and (" + y) + ")]"
         == h + "[(@id=" + q + ") and (" + x + ") and (" + y + ")]"
  {
  }

  /** `t[p][q]`: a tag with two attribute tests. */
  function TwoAttrText(t: string, p: string, q: string): string {
    t + (Bracketed(p) + Bracketed(q))
  }

  /** The segment of `t[p][q]`: its tag and its attribute array. */
  function TwoAttrSegment(t: string, p: string, q: string): Segment {
    Segment(TwoAttrText(t, p, q), Some(t), None, [], TwoAttrArray(p, q), None, None, false)
  }

  /** The attribute array of `[p][q]`: p's name and value put first, then q's. */
  function TwoAttrArray(p: string, q: string): OrderedMap<Option<string>> {
    Single(SplitAttribute(p).0, SplitAttribute(p).1).Put(SplitAttribute(q).0, SplitAttribute(q).1)
  }

  /** The lazy attribute group takes `[p]` and then `[q]`. */
  lemma AttrPairGroup(p: string, q: string)
    requires p != [] && ']' !in p && q != [] && ']' !in q
    ensures AttrText(Bracketed(p) + Bracketed(q)) == Bracketed(p) + Bracketed(q)
  {
    var s := Bracketed(p) + Bracketed(q);
    var e := |p| + 1;
    assert s[e] == ']';
    forall k | 2 <= k < e ensures s[k] != ']' {
      assert s[k] == p[k - 1];
    }
    assert IndexFrom(s, 2, ']') == Some(e);
    assert s[..e + 1] == Bracketed(p) && s[e + 1..] == Bracketed(q);
    AttrGroup(q);
  }

  /** The bracket trim of `[p][q]` leaves `p][q`. */
  lemma TrimPair(p: string, q: string)
    requires p != [] && p[0] != '[' && ']' !in p
    requires q != [] && q[|q| - 1] != '[' && ']' !in q
    ensures Trim(Bracketed(p) + Bracketed(q), {'[', ']'}) == p + "][" + q
  {
    TrimLeftPair(p, q);
    TrimRightPair(p, q);
  }

  lemma TrimLeftPair(p: string, q: string)
    requires p != [] && p[0] != '[' && ']' !in p
    ensures TrimLeft(Bracketed(p) + Bracketed(q), {'[', ']'}) == p + "][" + q + "]"
  {
    var s := Bracketed(p) + Bracketed(q);
    var y := p + "][" + q + "]";
    assert p[0] in p;
    assert s[0] == '[' && s[1..] == y;
    assert y[0] == p[0];
    assert TrimLeft(y, {'[', ']'}) == y;
  }

  lemma TrimRightPair(p: string, q: string)
    requires q != [] && q[|q| - 1] != '[' && ']' !in q
    ensures TrimRight(p + "][" + q + "]", {'[', ']'}) == p + "][" + q
  {
    var x := p + "][" + q;
    var y := x + "]";
    assert q[|q| - 1] in q;
    assert y[|y| - 1] == ']' && y[..|y| - 1] == x;
    assert x[|x| - 1] == q[|q| - 1];
    assert TrimRight(x, {'[', ']'}) == x;
  }

  /** explode on `][` splits `p][q` into p and q. */
  lemma ExplodePair(p: string, q: string)
    requires ']' !in p && ']' !in q
    ensures Explode("][", p + "][" + q) == [p, q]
  {
    ExplodeAtSeparator("][", p, q);
    ExplodeWithoutSeparator("][", q);
  }

  /** The attribute array getSegments builds from `[p][q]`. */
  lemma AddPair(p: string, q: string)
    requires AttrPiece(p) && AttrPiece(q)
    ensures AddAttributes(Empty(), Explode("][", Trim(Bracketed(p) + Bracketed(q), {'[', ']'}))) == Ok(TwoAttrArray(p, q))
  {
    assert Explode("][", Trim(Bracketed(p) + Bracketed(q), {'[', ']'})) == [p, q] by {
      TrimPair(p, q);
      ExplodePair(p, q);
    }
    AddTwo(p, q);
  }

  /** The foreach over two pieces with names puts the first, then the second. */
  lemma AddTwo(p: string, q: string)
    requires p != "" && q != "" && SplitAttribute(p).0 != "" && SplitAttribute(q).0 != ""
    ensures AddAttributes(Empty(), [p, q]) == Ok(TwoAttrArray(p, q))
  {
    var n1, v1 := SplitAttribute(p).0, SplitAttribute(p).1;
    assert AddAttributes(Empty(), [p, q]) == AddAttributes(Single(n1, v1), [q]) by {
      AddFirst(Empty(), [p, q]);
      assert [p, q][1..] == [q];
      PutSingle(n1, v1);
    }
    assert AddAttributes(Single(n1, v1), [q]) == Ok(TwoAttrArray(p, q)) by {
      AddFirst(Single(n1, v1), [q]);
      assert [q][1..] == [];
    }
  }

  /** One turn of the foreach: a piece with a name is put into the array. */
  lemma AddFirst(acc: OrderedMap<Option<string>>, pieces: seq<string>)
    requires NamesOk(acc) && pieces != [] && pieces[0] != "" && SplitAttribute(pieces[0]).0 != ""
    ensures NamesOk(acc.Put(SplitAttribute(pieces[0]).0, SplitAttribute(pieces[0]).1))
    ensures AddAttributes(acc, pieces)
         == AddAttributes(acc.Put(SplitAttribute(pieces[0]).0, SplitAttribute(pieces[0]).1), pieces[1..])
  {
    PutNamesOk(acc, SplitAttribute(pieces[0]).0, SplitAttribute(pieces[0]).1);
  }

  /** Putting a name that is non-empty and holds no `=` keeps the array's names so. */
  lemma PutNamesOk(acc: OrderedMap<Option<string>>, name: string, value: Option<string>)
    requires NamesOk(acc) && name != "" && '=' !in name
    ensures NamesOk(acc.Put(name, value))
  {
  }

  /** The scan of `t[p][q]`: the tag group, then the attribute group, then nothing. */
  lemma ScanTwoAttr(t: string, p: string, q: string)
    requires TagName(t) && AttrPiece(p) && AttrPiece(q)
    ensures Scan(TwoAttrText(t, p, q)) == Match(t, "", "", Bracketed(p) + Bracketed(q), Tail("", "", "", false))
  {
    var rest := Bracketed(p) + Bracketed(q);
    var s := t + rest;
    assert TagText(s) == t && s[|t|..] == rest by {
      SpanOf(t, rest, IsTagChar);
      assert s[..|t|] == t;
    }
    assert IdText(rest) == "" && ClassText(rest) == "" && rest[0..] == rest;
    assert AttrText(rest) == rest && rest[|rest|..] == "" by {
      AttrPairGroup(p, q);
    }
    assert ScanTail("") == Tail("", "", "", false) by {
      EmptyTail();
    }
  }

  /** The text of `t[p][q]` has no colon, does not start with `>`, and trim leaves it alone. */
  lemma TwoAttrPlain(t: string, p: string, q: string)
    requires TagName(t) && ':' !in p && ':' !in q
    ensures var s := TwoAttrText(t, p, q);
      s != [] && s[0] != '>' && ':' !in s && Trim(s, TrimChars) == s
  {
    var s := TwoAttrText(t, p, q);
    assert ':' !in t && t[0] != '>' by {
      TagHasNoColon(t);
    }
    assert ':' !in s by {
      assert s == t + "[" + p + "]" + "[" + q + "]";
    }
    assert s[0] == t[0] && s[|s| - 1] == ']';
    assert t[0] !in TrimChars by {
      TagCharIsPlain(t[0]);
    }
    TrimUnchanged(s, TrimChars);
  }

  /** getSegments of `t[p][q]`: the tag, and the attribute array with p's test put before q's. */
  lemma ParseTwoAttr(t: string, p: string, q: string)
    requires TagName(t) && AttrPiece(p) && AttrPiece(q)
    ensures ParseSegment(TwoAttrText(t, p, q)) == Ok(TwoAttrSegment(t, p, q))
  {
    ParseTwoAttrScanned(t, p, q);
    DecodeTwoAttr(t, p, q);
  }

  /** `t[p][q]` needs no trimming, and getSegments decodes its scan. */
  lemma ParseTwoAttrScanned(t: string, p: string, q: string)
    requires TagName(t) && AttrPiece(p) && AttrPiece(q)
    ensures ParseSegment(TwoAttrText(t, p, q))
         == Decode(Match(t, "", "", Bracketed(p) + Bracketed(q), Tail("", "", "", false)))
  {
    var s := TwoAttrText(t, p, q);
    var m := Match(t, "", "", Bracketed(p) + Bracketed(q), Tail("", "", "", false));
    assert s != [] && Trim(s, TrimChars) == s by {
      TwoAttrPlain(t, p, q);
    }
    assert Scan(s) == m by {
      ScanTwoAttr(t, p, q);
    }
    assert m.Text() == s by {
      TwoAttrMatchText(t, p, q);
    }
    ParseVia(s, m);
  }

  /** The text of the match of `t[p][q]` is `t[p][q]`. */
  lemma TwoAttrMatchText(t: string, p: string, q: string)
    ensures Match(t, "", "", Bracketed(p) + Bracketed(q), Tail("", "", "", false)).Text() == TwoAttrText(t, p, q)
  {
    var rest := Bracketed(p) + Bracketed(q);
    assert Tail("", "", "", false).Text() == "" by {
      assert "" + ("" + "") == "";
    }
    assert "" + ("" + (rest + "")) == rest;
  }

  /** A trimmed selector whose scan consumes it whole is decoded from that scan. */
  lemma ParseVia(s: string, m: Match)
    requires s != [] && Trim(s, TrimChars) == s && Scan(s) == m && m.Text() == s
    ensures Shaped(m) && ParseSegment(s) == Decode(m)
  {
    ParseScanned(s);
  }

  /** The groups of `t[p][q]` decode to the tag and the two-test attribute array. */
  lemma DecodeTwoAttr(t: string, p: string, q: string)
    requires TagName(t) && AttrPiece(p) && AttrPiece(q)
    ensures Decode(Match(t, "", "", Bracketed(p) + Bracketed(q), Tail("", "", "", false)))
         == Ok(TwoAttrSegment(t, p, q))
  {
    var m := Match(t, "", "", Bracketed(p) + Bracketed(q), Tail("", "", "", false));
    assert m.Text() == TwoAttrText(t, p, q) by {
      TwoAttrMatchText(t, p, q);
    }
    assert Shaped(m) by {
      ScanTwoAttr(t, p, q);
    }
    AddPair(p, q);
    DecodeTests(m, TwoAttrArray(p, q));
  }

  /** cssToXPath of a selector getSegments consumes in one segment without a property: that segment's step. */
  lemma SingleSegment(s: string, seg: Segment, prefix: string, mb: bool)
    requires s != [] && s[0] != '>' && ':' !in s
    requires ParseSegment(s) == Ok(seg) && seg.selector == s
    ensures SelectorPath(s, prefix, mb) == SegmentPath(seg, prefix, mb)
  {
    NoProperty(s, prefix, mb);
    assert Start(s, prefix, mb) == Chain(s, prefix, mb);
    OneStep(s, prefix, mb, seg);
  }

  /** cssToXPath of `t[p][q]` is the step of its one segment. */
  lemma TwoAttrPath(t: string, p: string, q: string, prefix: string, mb: bool)
    requires TagName(t) && AttrPiece(p) && AttrPiece(q)
    ensures SelectorPath(TwoAttrText(t, p, q), prefix, mb) == SegmentPath(TwoAttrSegment(t, p, q), prefix, mb)
  {
    var s := TwoAttrText(t, p, q);
    assert s != [] && s[0] != '>' && ':' !in s by {
      TwoAttrPlain(t, p, q);
    }
    ParseTwoAttr(t, p, q);
    SingleSegment(s, TwoAttrSegment(t, p, q), prefix, mb);
  }

  /** With two different names, p's test comes first and q's second. */
  lemma TwoAttrTests(p: string, q: string)
    requires SplitAttribute(p).0 != SplitAttribute(q).0
    ensures var n1, v1, n2, v2 := SplitAttribute(p).0, SplitAttribute(p).1, SplitAttribute(q).0, SplitAttribute(q).1;
      TwoAttrArray(p, q).keys == [n1, n2]
      && AttributePredicates(TwoAttrArray(p, q), [n1, n2]) == [ConvertAttribute(n1, v1), ConvertAttribute(n2, v2)]
  {
    var n1, n2 := SplitAttribute(p).0, SplitAttribute(q).0;
    var attrs := TwoAttrArray(p, q);
    assert attrs.keys == [n1, n2] && attrs.values[n1] == SplitAttribute(p).1 && attrs.values[n2] == SplitAttribute(q).1;
    PredicatesOfTwo(attrs, n1, n2);
  }

  /** The attribute tests of two keys, in the order given. */
  lemma PredicatesOfTwo(attrs: OrderedMap<Option<string>>, a: string, b: string)
    requires a in attrs.values && b in attrs.values
    ensures AttributePredicates(attrs, [a, b]) == [ConvertAttribute(a, attrs.values[a]), ConvertAttribute(b, attrs.values[b])]
  {
    assert [a, b][..1] == [a] && [a][..0] == [];
    assert AttributePredicates(attrs, [a]) == [ConvertAttribute(a, attrs.values[a])];
  }

  /** With the same name twice, one test is left, holding q's value. */
  lemma RepeatedAttrTests(p: string, q: string)
    requires SplitAttribute(p).0 == SplitAttribute(q).0
    ensures var n, v := SplitAttribute(q).0, SplitAttribute(q).1;
      TwoAttrArray(p, q).keys == [n] && AttributePredicates(TwoAttrArray(p, q), [n]) == [ConvertAttribute(n, v)]
  {
    var n, v := SplitAttribute(q).0, SplitAttribute(q).1;
    var attrs := TwoAttrArray(p, q);
    assert attrs.keys == [n] && attrs.values[n] == v;
    assert [n][..0] == [];
  }

  /** The predicates of the segment of `t[p][q]` are its attribute tests. */
  lemma TwoAttrPredicates(t: string, p: string, q: string)
    ensures BasePredicates(TwoAttrSegment(t, p, q)) == AttributePredicates(TwoAttrArray(p, q), TwoAttrArray(p, q).keys)
  {
  }

  /**
   * cssToXPath of `t[p][q]` with two different names: the tag with p's test
   * and then q's, joined with `and`.
   */
  lemma TwoAttributeSelector(t: string, p: string, q: string, prefix: string, mb: bool)
    requires TagName(t) && AttrPiece(p) && AttrPiece(q) && SplitAttribute(p).0 != SplitAttribute(q).0
    ensures var n1, v1, n2, v2 := SplitAttribute(p).0, SplitAttribute(p).1, SplitAttribute(q).0, SplitAttribute(q).1;
      SelectorPath(TwoAttrText(t, p, q), prefix, mb)
      == Ok(prefix + t + "[(" + ConvertAttribute(n1, v1) + ") and (" + ConvertAttribute(n2, v2) + ")]")
  {
    var n1, v1, n2, v2 := SplitAttribute(p).0, SplitAttribute(p).1, SplitAttribute(q).0, SplitAttribute(q).1;
    var seg := TwoAttrSegment(t, p, q);
    var tests := [ConvertAttribute(n1, v1), ConvertAttribute(n2, v2)];
    TwoAttrPath(t, p, q, prefix, mb);
    assert BasePredicates(seg) == tests by {
      TwoAttrPredicates(t, p, q);
      TwoAttrTests(p, q);
    }
    assert WellFormed(seg) by {
      ParseTwoAttr(t, p, q);
    }
    var body := Join(") and (", tests);
    assert body == ConvertAttribute(n1, v1) + ") and (" + ConvertAttribute(n2, v2) by {
      Join2(") and (", ConvertAttribute(n1, v1), ConvertAttribute(n2, v2));
    }
    assert SegmentPath(seg, prefix, mb) == Ok(prefix + t + "[(" + body + ")]") by {
      PlainSteps(seg, prefix, mb);
    }
    JoinedTwo(prefix + t, ConvertAttribute(n1, v1), ConvertAttribute(n2, v2));
  }

  /** The bracket of two tests, regrouped as written. */
  lemma JoinedTwo(h: string, x: string, y: string)
    ensures h + "[(" + (x + ") and (" + y) + ")]" == h + "[(" + x + ") and (" + y + ")]"
  {
  }

  /** `t[p][q]` with the same name twice: q's value replaces p's, and one test is left. */
  lemma RepeatedAttributeSelector(t: string, p: string, q: string, prefix: string, mb: bool)
    requires TagName(t) && AttrPiece(p) && AttrPiece(q) && SplitAttribute(p).0 == SplitAttribute(q).0
    ensures var n, v := SplitAttribute(q).0, SplitAttribute(q).1;
      SelectorPath(TwoAttrText(t, p, q), prefix, mb) == Ok(prefix + t + Bracketed(ConvertAttribute(n, v)))
  {
    var n, v := SplitAttribute(q).0, SplitAttribute(q).1;
    var seg := TwoAttrSegment(t, p, q);
    TwoAttrPath(t, p, q, prefix, mb);
    assert BasePredicates(seg) == [ConvertAttribute(n, v)] by {
      TwoAttrPredicates(t, p, q);
      RepeatedAttrTests(p, q);
    }
    assert WellFormed(seg) by {
      ParseTwoAttr(t, p, q);
    }
    PlainStep(seg, prefix, mb);
  }

  /** `a[x][y]` meets the two-name case and `a[x][x=1]` the repeated-name case. */
  lemma TwoAttrWitness()
    ensures TagName("a") && AttrPiece("x") && AttrPiece("y") && AttrPiece("x=1")
    ensures SplitAttribute("x").0 != SplitAttribute("y").0
    ensures SplitAttribute("x").0 == SplitAttribute("x=1").0
  {
    assert IndexFrom("x", 0, '=') == None;
    assert IndexFrom("y", 0, '=') == None;
    assert IndexFrom("x=1", 0, '=') == Some(1);
    assert "x=1"[..1] == "x";
  }
}
