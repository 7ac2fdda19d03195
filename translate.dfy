/**
 * The per-constraint translators of Query: convertAttribute, convertContains,
 * parseProperty and convertProperty.  Each turns one piece of a selector into
 * a piece of XPath text.
 */
module Translate {
  import opened Outcomes
  import opened Strings
  import opened Segments

  /** `"` + s + `"`: a string literal as vsprintf prints it (no escaping). */
  function Quote(s: string): string {
    "\"" + s + "\""
  }

  /** The characters that, at the end of an attribute name, make it a comparison. */
  const Operators: set<char> := {'^', '$', '*', '!', '~'}

  /** A name that is tested as it stands: no `^` or `!` in front and no operator at the end. */
  predicate PlainAttribute(name: string) {
    name != [] && name[0] != '^' && name[0] != '!' && name[|name| - 1] !in Operators
  }

  /**
   * convertAttribute.  A name that neither starts with `^`/`!` nor ends with
   * one of `^ $ * ! ~` is a plain test; otherwise the first character is
   * looked at before the last one.  A missing value prints as "".
   */
  function ConvertAttribute(name: string, value: Option<string>): (r: string)
    ensures PlainAttribute(name) && value.None? ==> r == "@" + name
    ensures PlainAttribute(name) && value.Some? ==> r == "@" + name + "=" + Quote(value.value)
    ensures name != [] && name[0] == '^' ==>
      var test := "@*[starts-with(name(), " + Quote(name[1..]) + ")]";
      r == if value.None? then test else test + "=" + Quote(value.value)
    ensures name != [] && name[0] == '!' ==> r == "not(@" + name[1..] + ")"
    ensures name != [] && name[0] != '^' && name[0] != '!' && name[|name| - 1] in Operators ==>
      var base, v := name[..|name| - 1], Quote(value.GetOr(""));
      && (name[|name| - 1] == '^' ==> r == "starts-with(@" + base + ", " + v + ")")
      && (name[|name| - 1] == '$' ==> r == "ends-with(@" + base + ", " + v + ")")
      && (name[|name| - 1] == '*' ==> r == "contains(@" + base + ", " + v + ")")
      && (name[|name| - 1] == '!' ==> r == "not(@" + base + "=" + v + ")")
      && (name[|name| - 1] == '~' ==>
            r == "contains(concat(\" \", normalize-space(@" + base + "), \" \"), \" " + value.GetOr("") + " \")")
  {
    var first := if name == [] then ' ' else name[0];
    var last := if name == [] then ' ' else name[|name| - 1];
    var v := value.GetOr("");
    if first != '^' && first != '!' && last !in Operators then
      if value.None? then "@" + name else "@" + name + "=" + Quote(v)
    else if first == '^' then
      var test := "@*[starts-with(name(), " + Quote(name[1..]) + ")]";
      if value.None? then test else test + "=" + Quote(v)
    else if first == '!' then
      "not(@" + name[1..] + ")"
    else
      var base := name[..|name| - 1];
      match last
      case '^' => "starts-with(@" + base + ", " + Quote(v) + ")"
      case '$' => "ends-with(@" + base + ", " + Quote(v) + ")"
      case '*' => "contains(@" + base + ", " + Quote(v) + ")"
      case '!' => "not(@" + base + "=" + Quote(v) + ")"
      case '~' => "contains(concat(\" \", normalize-space(@" + base + "), \" \"), \" " + v + " \")"
  }

  /**
   * convertContains.  `mbAvailable` stands for `function_exists('mb_strtolower')`,
   * which is decided by the PHP installation.
   */
  function ConvertContains(text: string, caseSensitive: bool, mbAvailable: bool): (r: string)
    ensures caseSensitive ==> r == "text() = " + Quote(text)
    ensures !caseSensitive ==>
      r == "php:functionString(" + Quote(LowerCase(mbAvailable)) + ", .) = php:functionString("
           + Quote(LowerCase(mbAvailable)) + ", " + Quote(text) + ")"
  {
    if caseSensitive then "text() = " + Quote(text)
    else
      var lower := LowerCase(mbAvailable);
      "php:functionString(" + Quote(lower) + ", .) = php:functionString(" + Quote(lower) + ", " + Quote(text) + ")"
  }

  /** The PHP function both sides of a case-insensitive comparison are lowered with. */
  function LowerCase(mbAvailable: bool): string {
    if mbAvailable then "mb_strtolower" else "strtolower"
  }

  /** What parseProperty returns: the property name and its `|`-separated arguments. */
  datatype Property = Property(name: string, args: seq<string>)

  /**
   * parseProperty.  The pattern `(?:([\w\-]*)(?:\(([^\)]+)\))?)?` always
   * matches at position 0, so this never fails: the name is the longest run
   * of name characters, and the arguments exist only when a non-empty
   * parenthesised group follows the name directly.
   */
  function ParseProperty(text: string): (p: Property)
    ensures p.name <= text && AllChars(p.name, IsNameChar)
    ensures |p.name| < |text| ==> !IsNameChar(text[|p.name|])
    ensures forall i :: 0 <= i < |p.args| ==> '|' !in p.args[i]
  {
    var n := Span(text, IsNameChar);
    var rest := text[n..];
    var inner := ParenText(rest);
    Property(text[..n], if inner == "" then [] else Explode("|", inner))
  }

  /** The `name() = "a"` tests of an `attr(...)` property, in argument order. */
  function NameTests(args: seq<string>): (r: seq<string>)
    ensures |r| == |args|
    ensures forall i :: 0 <= i < |args| ==> r[i] == "name() = " + Quote(args[i])
    decreases |args|
  {
    if args == [] then [] else ["name() = " + Quote(args[0])] + NameTests(args[1..])
  }

  /** convertProperty: `text` and `attr` are the only properties. */
  function ConvertProperty(p: Property): (r: Result<string>)
    ensures r.Err? <==> p.name != "text" && p.name != "attr"
    ensures r.Err? ==> r.error == UnknownProperty
    ensures p.name == "text" ==> r == Ok("text()")
    ensures p.name == "attr" ==> r == Ok("@*[" + Join(" or ", NameTests(p.args)) + "]")
  {
    if p.name == "text" then Ok("text()")
    else if p.name == "attr" then Ok("@*[" + Join(" or ", NameTests(p.args)) + "]")
    else Err(UnknownProperty)
  }

  /** The suffix text `attr(a|b|...)` a selector author writes. */
  function AttrPropertyText(names: seq<string>): string {
    "attr" + Parenthesized(Join("|", names))
  }

  function Parenthesized(s: string): string {
    "(" + s + ")"
  }

  /**
   * Reading `attr(a|b|...)` back gives the property `attr` with exactly the
   * names listed, in order, provided the names are free of `|` and `)` and
   * their list is not empty text.
   */
  lemma ParseAttrProperty(names: seq<string>)
    requires |names| >= 1 && Join("|", names) != []
    requires forall i :: 0 <= i < |names| ==> '|' !in names[i] && ')' !in names[i]
    ensures ParseProperty(AttrPropertyText(names)) == Property("attr", names)
  {
    JoinAvoids(names, ')');
    ParseAttrText(Join("|", names));
    assert forall i :: 0 <= i < |names| ==> "|"[0] !in names[i];
    ExplodeJoin("|", names);
  }

  /** `attr(...)` splits into the name `attr` and the pieces of the parenthesised text. */
  lemma ParseAttrText(inner: string)
    requires inner != [] && ')' !in inner
    ensures ParseProperty("attr" + Parenthesized(inner)) == Property("attr", Explode("|", inner))
  {
    ParenTextOf(inner);
    assert AllChars("attr", IsNameChar) by {
      forall i | 0 <= i < 4 ensures IsNameChar("attr"[i]) { }
    }
    ParseNamedProperty("attr", Parenthesized(inner));
  }

  /** A name followed by a non-name character splits there. */
  lemma ParseNamedProperty(name: string, rest: string)
    requires AllChars(name, IsNameChar) && rest != [] && !IsNameChar(rest[0])
    requires ParenText(rest) != []
    ensures ParseProperty(name + rest) == Property(name, Explode("|", ParenText(rest)))
  {
    SpanOf(name, rest, IsNameChar);
    assert (name + rest)[|name|..] == rest;
    assert (name + rest)[..|name|] == name;
  }

  /** A parenthesised text without `)` inside is read back whole. */
  lemma ParenTextOf(inner: string)
    requires inner != [] && ')' !in inner
    ensures ParenText(Parenthesized(inner)) == inner
  {
    var s := Parenthesized(inner);
    forall k | 1 <= k < |s| - 1 ensures s[k] != ')' {
      assert s[k] == inner[k - 1];
    }
    assert s[1] == inner[0] && s[|s| - 1] == ')';
    assert IndexFrom(s, 1, ')') == Some(|s| - 1);
    assert s[1..|s| - 1] == inner;
  }

  /** Joining with "|" introduces only the character `|`. */
  lemma {:induction false} JoinAvoids(parts: seq<string>, c: char)
    requires c != '|'
    requires forall i :: 0 <= i < |parts| ==> c !in parts[i]
    ensures c !in Join("|", parts)
    decreases |parts|
  {
    if |parts| > 1 {
      JoinAvoids(parts[1..], c);
    }
  }

  /** `text` followed by anything that is not a name character is the text property. */
  lemma ParseTextProperty(tail: string)
    requires tail == [] || !IsNameChar(tail[0])
    ensures ParseProperty("text" + tail).name == "text"
  {
    SpanOf("text", tail, IsNameChar);
  }
}
