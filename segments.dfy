/**
 * Query::getSegments: the scanner that splits one selector segment into its
 * tag, `#id`, `.classes`, `[attributes]`, `:pseudo(expr)` and the `>` marker.
 *
 * The source matches the trimmed selector against the pattern
 *   (?P<tag>[\*|\w|\-]+)?(?:#(?P<id>[\w|\-]+))?(?P<classes>\.[\w|\-|\.]+)*
 *   (?P<attrs>(?:\[.+?\])*)?(?::(?P<pseudo>[\w\-]+)(?:\((?P<expr>[^\)]+)\))?)?\s*(?P<rel>>)?
 * Every group is optional, so the match starts at position 0, and since
 * nothing after a group can fail, the match PCRE finds is the one where each
 * greedy part takes as much as it can and the lazy attribute part as little.
 * Scan below follows the groups in that order, one phase per group.
 */
module Segments {
  import opened Outcomes
  import opened Strings
  import opened OrderedMaps

  /** `[\*|\w|\-]`: the tag class, which includes the literal `|`. */
  predicate IsTagChar(c: char) {
    c == '*' || c == '|' || c == '-' || IsWordChar(c)
  }

  /** `[\w|\-]`: the id class. */
  predicate IsIdChar(c: char) {
    c == '|' || c == '-' || IsWordChar(c)
  }

  /** `[\w|\-|\.]`: the classes class. */
  predicate IsClassChar(c: char) {
    c == '|' || c == '-' || c == '.' || IsWordChar(c)
  }

  /** `[\w\-]`: pseudo-class and property names. */
  predicate IsNameChar(c: char) {
    c == '-' || IsWordChar(c)
  }

  predicate AllChars(s: string, p: char -> bool) {
    forall i :: 0 <= i < |s| ==> p(s[i])
  }

  /** Length of the longest prefix of s whose characters satisfy p (a greedy `[...]*`). */
  function Span(s: string, p: char -> bool): (n: nat)
    ensures n <= |s| && AllChars(s[..n], p)
    ensures n == |s| || !p(s[n])
    decreases |s|
  {
    if s != [] && p(s[0]) then
      var n := 1 + Span(s[1..], p);
      assert s[..n] == [s[0]] + s[1..][..n - 1];
      n
    else 0
  }

  lemma {:induction false} SpanOf(a: string, b: string, p: char -> bool)
    requires AllChars(a, p)
    requires b == [] || !p(b[0])
    ensures Span(a + b, p) == |a|
    decreases |a|
  {
    if a == [] {
      assert a + b == b;
    } else {
      assert (a + b)[0] == a[0];
      assert (a + b)[1..] == a[1..] + b;
      assert AllChars(a[1..], p) by {
        forall i | 0 <= i < |a[1..]| ensures p(a[1..][i]) { assert a[1..][i] == a[i + 1]; }
      }
      SpanOf(a[1..], b, p);
    }
  }

  /** The text matched by `(?P<tag>...)?`. */
  function TagText(s: string): (t: string)
    ensures t <= s && AllChars(t, IsTagChar)
    ensures t == [] <==> (s == [] || !IsTagChar(s[0]))
    ensures |t| == |s| || !IsTagChar(s[|t|])
  {
    s[..Span(s, IsTagChar)]
  }

  /** The text matched by `(?:#(?P<id>...))?`, including the `#`. */
  function IdText(s: string): (t: string)
    ensures t <= s
    ensures t != [] ==> |t| >= 2 && t[0] == '#' && AllChars(t[1..], IsIdChar)
    ensures t == [] <==> !(|s| >= 2 && s[0] == '#' && IsIdChar(s[1]))
  {
    if |s| >= 2 && s[0] == '#' && IsIdChar(s[1]) then
      var n := Span(s[1..], IsIdChar);
      assert s[..1 + n][1..] == s[1..][..n];
      s[..1 + n]
    else ""
  }

  /**
   * The text matched by `(?P<classes>\.[\w|\-|\.]+)*`, including the leading
   * dot.  The first iteration's greedy run swallows every following dot, so
   * a second iteration can never start.
   */
  function ClassText(s: string): (t: string)
    ensures t <= s
    ensures t != [] ==> |t| >= 2 && t[0] == '.' && AllChars(t[1..], IsClassChar)
    ensures t == [] <==> !(|s| >= 2 && s[0] == '.' && IsClassChar(s[1]))
  {
    if |s| >= 2 && s[0] == '.' && IsClassChar(s[1]) then
      var n := Span(s[1..], IsClassChar);
      assert s[..1 + n][1..] == s[1..][..n];
      s[..1 + n]
    else ""
  }

  /**
   * The text matched by `(?:\[.+?\])*`: each test is a `[`, at least one
   * character, and the first `]` after that.
   */
  function AttrText(s: string): (t: string)
    ensures t <= s
    ensures t == [] <==> !(|s| >= 3 && s[0] == '[' && ']' in s[2..])
    decreases |s|
  {
    if |s| >= 3 && s[0] == '[' then
      match IndexFrom(s, 2, ']')
      case Some(j) =>
        var rest := AttrText(s[j + 1..]);
        assert s == s[..j + 1] + s[j + 1..];
        s[..j + 1] + rest
      case None =>
        assert ']' !in s[2..] by {
          forall k | 0 <= k < |s[2..]| ensures s[2..][k] != ']' { assert s[2..][k] == s[k + 2]; }
        }
        ""
    else ""
  }

  /** The name matched by `:(?P<pseudo>[\w\-]+)`, without the colon. */
  function PseudoName(s: string): (n: string)
    ensures n != [] ==> ":" + n <= s
    ensures AllChars(n, IsNameChar)
    ensures n == [] <==> !(|s| >= 2 && s[0] == ':' && IsNameChar(s[1]))
  {
    if |s| >= 2 && s[0] == ':' && IsNameChar(s[1]) then
      var k := Span(s[1..], IsNameChar);
      assert s[..1 + k] == ":" + s[1..][..k];
      s[1..][..k]
    else ""
  }

  /** The text matched by `\((?P<expr>[^\)]+)\)`, without the parentheses. */
  function ParenText(s: string): (e: string)
    ensures e != [] ==> "(" + e + ")" <= s
    ensures ')' !in e
  {
    if |s| >= 3 && s[0] == '(' && s[1] != ')' then
      match IndexFrom(s, 1, ')')
      case Some(j) =>
        assert s[..j + 1] == "(" + s[1..j] + ")";
        s[1..j]
      case None => ""
    else ""
  }

  /** What the pattern's last three groups captured: `:pseudo(expr)`, `\s*` and `>`. */
  datatype Tail = Tail(pseudo: string, expr: string, space: string, rel: bool)
  {
    function PseudoText(): string {
      if pseudo == "" then "" else ":" + pseudo + (if expr == "" then "" else "(" + expr + ")")
    }

    function Text(): string {
      PseudoText() + (space + (if rel then ">" else ""))
    }
  }

  /** What the pattern captured: the text of each group, in pattern order. */
  datatype Match = Match(tag: string, id: string, classes: string, attrs: string, tail: Tail)
  {
    /** `$segments[0]`: the whole matched text. */
    function Text(): string {
      tag + (id + (classes + (attrs + tail.Text())))
    }
  }

  /** Whether the first characters of s can start the pseudo, space or `>` group. */
  predicate TailCanStart(s: string) {
    s != [] && (IsRegexSpace(s[0]) || s[0] == '>' || (|s| >= 2 && s[0] == ':' && IsNameChar(s[1])))
  }

  /** Whether the first characters of s can start at least one group of the pattern. */
  predicate CanStart(s: string) {
    || TailCanStart(s)
    || (s != [] && IsTagChar(s[0]))
    || (|s| >= 2 && s[0] == '#' && IsIdChar(s[1]))
    || (|s| >= 2 && s[0] == '.' && IsClassChar(s[1]))
    || (|s| >= 3 && s[0] == '[' && ']' in s[2..])
  }

  lemma PrefixSplit(a: string, s: string)
    requires a <= s
    ensures s == a + s[|a|..]
  {
  }

  /** Two prefixes matched one after the other form a prefix. */
  lemma PrefixThen(a: string, b: string, s: string)
    requires a <= s && b <= s[|a|..]
    ensures a + b <= s
  {
    PrefixSplit(a, s);
    PrefixSplit(b, s[|a|..]);
    assert s == a + b + s[|a|..][|b|..];
  }

  /** The text `:pseudo(expr)` of the pseudo group, matched at the start of s. */
  function ScanPseudo(s: string): (t: (string, string))
    ensures t.1 != [] ==> t.0 != [] && ')' !in t.1
    ensures AllChars(t.0, IsNameChar)
    ensures Tail(t.0, t.1, "", false).PseudoText() <= s
    ensures t.0 == [] <==> !(|s| >= 2 && s[0] == ':' && IsNameChar(s[1]))
  {
    var pseudo := PseudoName(s);
    if pseudo == "" then ("", "")
    else
      var s5 := s[1 + |pseudo|..];
      var expr := ParenText(s5);
      PrefixSplit(":" + pseudo, s);
      (pseudo, expr)
  }

  /** The pseudo, space and `>` groups, matched at the start of s. */
  function ScanTail(s: string): (t: Tail)
    ensures t.Text() <= s
    ensures t.Text() == [] <==> !TailCanStart(s)
    ensures t.expr != [] ==> t.pseudo != [] && ')' !in t.expr
    ensures AllChars(t.pseudo, IsNameChar)
  {
    var (pseudo, expr) := ScanPseudo(s);
    var p := Tail(pseudo, expr, "", false).PseudoText();
    var s6 := s[|p|..];
    var space := s6[..Span(s6, IsRegexSpace)];
    var s7 := s6[|space|..];
    var rel := s7 != [] && s7[0] == '>';
    var t := Tail(pseudo, expr, space, rel);
    var relText := if rel then ">" else "";
    PrefixThen(space, relText, s6);
    PrefixThen(p, space + relText, s);
    t
  }

  /** The pattern's match at position 0 of s, one group after the other. */
  function Scan(s: string): (m: Match)
    ensures m.Text() <= s
    ensures Shaped(m)
  {
    var tag := TagText(s);
    var s1 := s[|tag|..];
    var id := IdText(s1);
    var s2 := s1[|id|..];
    var classes := ClassText(s2);
    var s3 := s2[|classes|..];
    var attrs := AttrText(s3);
    var s4 := s3[|attrs|..];
    var tail := ScanTail(s4);
    var m := Match(tag, id, classes, attrs, tail);
    PrefixThen(attrs, tail.Text(), s3);
    PrefixThen(classes, attrs + tail.Text(), s2);
    PrefixThen(id, classes + (attrs + tail.Text()), s1);
    PrefixThen(tag, id + (classes + (attrs + tail.Text())), s);
    m
  }

  /** The match is empty exactly when no group of the pattern can start at the front of s. */
  lemma ScanEmpty(s: string)
    ensures Scan(s).Text() == [] <==> !CanStart(s)
  {
    var m := Scan(s);
    if m.tag == [] && m.id == [] && m.classes == [] && m.attrs == [] {
      assert s[|m.tag|..] == s;
    }
  }

  /**
   * The associative array `$segments` that getSegments returns.  Absent keys
   * are None (or the empty list for classes); `attributes` maps each name to
   * its value, None where the test has no `=`.
   */
  datatype Segment = Segment(selector: string, tag: Option<string>, id: Option<string>,
                             classes: seq<string>, attributes: OrderedMap<Option<string>>,
                             pseudo: Option<string>, expr: Option<string>, rel: bool)

  /**
   * `list($name, $value) = array_pad(explode('=', $attribute, 2), 2, null)`,
   * then the value trimmed of quotes.
   */
  function SplitAttribute(piece: string): (r: (string, Option<string>))
    ensures '=' !in r.0
    ensures r.1.None? <==> '=' !in piece
    ensures r.1.None? ==> r.0 == piece
  {
    match IndexFrom(piece, 0, '=')
    case None => (piece, None)
    case Some(k) => (piece[..k], Some(Trim(piece[k + 1..], {'\'', '"'})))
  }

  /** A valid attribute array whose names are non-empty and hold no `=`. */
  predicate NamesOk(attrs: OrderedMap<Option<string>>) {
    && attrs.Valid()
    && forall k :: k in attrs.values ==> k != [] && '=' !in k
  }

  /** The foreach over the `][`-separated attribute texts, from the array built so far. */
  function AddAttributes(acc: OrderedMap<Option<string>>, pieces: seq<string>): (r: Result<OrderedMap<Option<string>>>)
    requires NamesOk(acc)
    ensures r.Ok? ==> NamesOk(r.value)
    ensures r.Err? ==> r.error == EmptyAttributeName
    decreases |pieces|
  {
    if pieces == [] then Ok(acc)
    else if pieces[0] == "" then AddAttributes(acc, pieces[1..])
    else
      var (name, value) := SplitAttribute(pieces[0]);
      if name == "" then Err(EmptyAttributeName)
      else AddAttributes(acc.Put(name, value), pieces[1..])
  }

  /** The foreach that keeps the non-empty class names, in order. */
  function NonEmpty(pieces: seq<string>): (r: seq<string>)
    ensures forall i :: 0 <= i < |r| ==> r[i] != "" && r[i] in pieces
    ensures forall i :: 0 <= i < |pieces| && pieces[i] != "" ==> pieces[i] in r
    ensures |r| <= |pieces|
  {
    if pieces == [] then []
    else
      var r := NonEmpty(pieces[..|pieces| - 1]);
      assert forall i :: 0 <= i < |pieces| - 1 ==> pieces[..|pieces| - 1][i] == pieces[i];
      r + (if pieces[|pieces| - 1] == "" then [] else [pieces[|pieces| - 1]])
  }

  /** The class names a `.a.b` group yields: non-empty and dot-free. */
  function ClassNames(text: string): (r: seq<string>)
    ensures forall i :: 0 <= i < |r| ==> r[i] != [] && '.' !in r[i]
  {
    var pieces := Explode(".", Trim(text, {'.'}));
    NonEmpty(pieces)
  }

  /** A single piece is kept exactly when it is not empty. */
  lemma NonEmptySingle(x: string)
    ensures NonEmpty([x]) == if x == "" then [] else [x]
  {
    assert [x][..0] == [];
  }

  /** The filter keeps the order of the pieces: it works piece by piece. */
  lemma {:induction false} NonEmptyAppend(a: seq<string>, b: seq<string>)
    ensures NonEmpty(a + b) == NonEmpty(a) + NonEmpty(b)
    decreases |b|
  {
    if b == [] {
      assert a + b == a;
    } else {
      var n := |b| - 1;
      assert (a + b)[..|a + b| - 1] == a + b[..n];
      assert (a + b)[|a + b| - 1] == b[n];
      NonEmptyAppend(a, b[..n]);
    }
  }

  /** Pieces that are all non-empty are kept as they are, in order. */
  lemma {:induction false} NonEmptyKeepsAll(pieces: seq<string>)
    requires forall i :: 0 <= i < |pieces| ==> pieces[i] != ""
    ensures NonEmpty(pieces) == pieces
    decreases |pieces|
  {
    if pieces != [] {
      var n := |pieces| - 1;
      NonEmptyKeepsAll(pieces[..n]);
      assert pieces[..n] + [pieces[n]] == pieces;
    }
  }

  /** The group `.a.b...` yields the names a, b, ... in the order written. */
  lemma ClassNamesOfJoin(names: seq<string>)
    requires names != []
    requires forall i :: 0 <= i < |names| ==> names[i] != [] && '.' !in names[i]
    ensures ClassNames("." + Join(".", names)) == names
  {
    var j := Join(".", names);
    assert Trim("." + j, {'.'}) == j by { JoinTrimmed(names); }
    assert Explode(".", j) == names by { ExplodeJoin(".", names); }
    NonEmptyKeepsAll(names);
  }

  lemma JoinTrimmed(names: seq<string>)
    requires names != []
    requires forall i :: 0 <= i < |names| ==> names[i] != [] && '.' !in names[i]
    ensures Trim("." + Join(".", names), {'.'}) == Join(".", names)
  {
    var j := Join(".", names);
    JoinEnds(".", names);
    var last := names[|names| - 1];
    assert j[0] == names[0][0] && j[0] != '.';
    assert j[|j| - 1] == last[|last| - 1] && j[|j| - 1] != '.';
    TrimMark('.', j, {'.'});
  }

  /** What the tag, id, pseudo and expr groups satisfy by the pattern. */
  predicate Shaped(m: Match) {
    && AllChars(m.tag, IsTagChar)
    && (m.id != [] ==> |m.id| >= 2 && m.id[0] == '#' && AllChars(m.id[1..], IsIdChar))
    && (m.tail.expr != [] ==> m.tail.pseudo != [] && ')' !in m.tail.expr)
    && AllChars(m.tail.pseudo, IsNameChar)
  }

  /** What every segment getSegments returns satisfies. */
  predicate WellFormed(seg: Segment) {
    && seg.selector != []
    && (seg.tag.Some? ==> seg.tag.value != [] && AllChars(seg.tag.value, IsTagChar))
    && (seg.id.Some? ==> seg.id.value != [] && AllChars(seg.id.value, IsIdChar))
    && (forall i :: 0 <= i < |seg.classes| ==> seg.classes[i] != [] && '.' !in seg.classes[i])
    && NamesOk(seg.attributes)
    && (seg.pseudo.Some? ==> seg.pseudo.value != [] && AllChars(seg.pseudo.value, IsNameChar))
    && (seg.expr.Some? ==> seg.pseudo.Some? && seg.expr.value != [] && ')' !in seg.expr.value)
    && (seg.expr.Some? ==> |seg.expr.value| + 3 <= |seg.selector|)
  }

  lemma TailLength(t: Tail)
    requires t.expr != [] ==> t.pseudo != []
    ensures t.expr != [] ==> |t.expr| + 3 <= |t.Text()|
  {
  }

  /** The segment the matched groups describe (the part of getSegments after preg_match). */
  function Decode(m: Match): (r: Result<Segment>)
    requires m.Text() != [] && Shaped(m)
    ensures r.Ok? ==> r.value.selector == m.Text() && WellFormed(r.value)
    ensures r.Err? ==> r.error == EmptyAttributeName
  {
    var attributes :- AddAttributes(Empty(), Explode("][", Trim(m.attrs, {'[', ']'})));
    TailLength(m.tail);
    Ok(Segment(
         selector := m.Text(),
         tag := if m.tag == "" then None else Some(m.tag),
         id := if m.id == "" then None else Some(m.id[1..]),
         classes := ClassNames(m.classes),
         attributes := attributes,
         pseudo := if m.tail.pseudo == "" then None else Some(m.tail.pseudo),
         expr := if m.tail.expr == "" then None else Some(m.tail.expr),
         rel := m.tail.rel))
  }

  /**
   * Query::getSegments.  The segment's `selector` is the non-empty prefix of
   * the trimmed input that the pattern consumed.
   */
  function ParseSegment(selector: string): (r: Result<Segment>)
    ensures r.Ok? ==> r.value.selector <= Trim(selector, TrimChars) && WellFormed(r.value)
    ensures r.Err? ==> r.error == EmptySelector || r.error == InvalidSelector || r.error == EmptyAttributeName
  {
    var s := Trim(selector, TrimChars);
    if s == [] then Err(EmptySelector)
    else
      var m := Scan(s);
      if m.Text() == [] then Err(InvalidSelector)
      else Decode(m)
  }

  /**
   * getSegments raises "empty" exactly for empty or whitespace-only input,
   * and "invalid" exactly when no group of the pattern can start.
   */
  lemma ParseSegmentErrors(selector: string)
    ensures ParseSegment(selector) == Err(EmptySelector) <==> Trim(selector, TrimChars) == []
    ensures ParseSegment(selector) == Err(InvalidSelector)
            <==> Trim(selector, TrimChars) != [] && !CanStart(Trim(selector, TrimChars))
  {
    ScanEmpty(Trim(selector, TrimChars));
  }
}
