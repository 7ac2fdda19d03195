/**
 * The PHP string primitives the selector compiler is written with:
 * trim/ltrim with a character list, explode/implode, strpos/strrpos and
 * the decimal `%d` formatting of a non-negative number.
 */
module Strings {
  import opened Outcomes

  /** The characters trim() strips when no list is given: " \t\n\r\0\x0B". */
  const TrimChars: set<char> := {' ', '\t', '\n', '\r', '\0', '\U{B}'}

  /** PCRE's `\s`: space, \t, \n, \x0B, \f and \r (note: no \0, unlike trim()). */
  predicate IsRegexSpace(c: char) {
    c == ' ' || c == '\t' || c == '\n' || c == '\U{B}' || c == '\U{C}' || c == '\r'
  }

  /** PCRE's `\w` in the default (non-UTF, C locale) mode. */
  predicate IsWordChar(c: char) {
    ('a' <= c <= 'z') || ('A' <= c <= 'Z') || ('0' <= c <= '9') || c == '_'
  }

  predicate IsDigit(c: char) {
    '0' <= c <= '9'
  }

  predicate AllDigits(s: string) {
    forall i :: 0 <= i < |s| ==> IsDigit(s[i])
  }

  /** ltrim($s, $cs): drop the longest prefix made of characters of cs. */
  function TrimLeft(s: string, cs: set<char>): (r: string)
    ensures |r| <= |s| && r == s[|s| - |r|..]
    ensures r == [] || r[0] !in cs
    ensures forall i :: 0 <= i < |s| - |r| ==> s[i] in cs
    decreases |s|
  {
    if s != [] && s[0] in cs then TrimLeft(s[1..], cs) else s
  }

  /** rtrim($s, $cs): drop the longest suffix made of characters of cs. */
  function TrimRight(s: string, cs: set<char>): (r: string)
    ensures |r| <= |s| && r == s[..|r|]
    ensures r == [] || r[|r| - 1] !in cs
    ensures forall i :: |r| <= i < |s| ==> s[i] in cs
    decreases |s|
  {
    if s != [] && s[|s| - 1] in cs then TrimRight(s[..|s| - 1], cs) else s
  }

  /** trim($s, $cs). */
  function Trim(s: string, cs: set<char>): (r: string)
    ensures |r| <= |s|
    ensures r == [] || (r[0] !in cs && r[|r| - 1] !in cs)
    ensures (forall i :: 0 <= i < |s| ==> s[i] in cs) <==> r == []
  {
    TrimRight(TrimLeft(s, cs), cs)
  }

  /** trim cuts characters of cs, and only those, from both ends of s: the result is a slice of s. */
  lemma TrimCuts(s: string, cs: set<char>)
    ensures exists i :: CutAt(s, cs, i, Trim(s, cs))
  {
    TrimCut(s, TrimLeft(s, cs), Trim(s, cs), cs);
  }

  /** r is s from position i on, with only characters of cs before and after it. */
  predicate CutAt(s: string, cs: set<char>, i: int, r: string) {
    && 0 <= i <= |s| - |r| && r == s[i..i + |r|]
    && (forall j :: 0 <= j < i ==> s[j] in cs)
    && (forall j :: i + |r| <= j < |s| ==> s[j] in cs)
  }

  /** ltrim then rtrim cut a prefix and a suffix of characters of cs. */
  lemma TrimCut(s: string, l: string, r: string, cs: set<char>)
    requires |l| <= |s| && l == s[|s| - |l|..] && forall j :: 0 <= j < |s| - |l| ==> s[j] in cs
    requires |r| <= |l| && r == l[..|r|] && forall j :: |r| <= j < |l| ==> l[j] in cs
    ensures CutAt(s, cs, |s| - |l|, r)
  {
    var i := |s| - |l|;
    assert r == s[i..i + |r|];
    forall j | i + |r| <= j < |s| ensures s[j] in cs {
      assert s[j] == l[j - i];
    }
  }

  /** A mark of cs put in front of a string whose ends are not in cs is all trim takes. */
  lemma TrimMark(c: char, s: string, cs: set<char>)
    requires c in cs && s != [] && s[0] !in cs && s[|s| - 1] !in cs
    ensures Trim([c] + s, cs) == s
  {
    assert ([c] + s)[1..] == s;
  }

  /** A string whose ends are not in cs is left alone by trim. */
  lemma TrimUnchanged(s: string, cs: set<char>)
    requires s == [] || (s[0] !in cs && s[|s| - 1] !in cs)
    ensures Trim(s, cs) == s
  {
  }

  /** implode($sep, $parts). */
  function Join(sep: string, parts: seq<string>): (r: string)
    decreases |parts|
  {
    if parts == [] then ""
    else if |parts| == 1 then parts[0]
    else parts[0] + sep + Join(sep, parts[1..])
  }

  /** sep occurs in s starting at position i. */
  predicate OccursAt(sep: string, s: string, i: int) {
    0 <= i && i + |sep| <= |s| && s[i..i + |sep|] == sep
  }

  /** strpos($s, $sep, $from): the first occurrence of sep at or after from. */
  function Find(sep: string, s: string, from: nat): (r: Option<nat>)
    ensures r.Some? ==> from <= r.value && OccursAt(sep, s, r.value)
    ensures r.Some? ==> forall j :: from <= j < r.value ==> !OccursAt(sep, s, j)
    ensures r.None? ==> forall j :: from <= j ==> !OccursAt(sep, s, j)
    decreases |s| - from
  {
    if from + |sep| > |s| then None
    else if s[from..from + |sep|] == sep then Some(from)
    else Find(sep, s, from + 1)
  }

  /**
   * explode($sep, $s): the pieces between the non-overlapping occurrences of
   * sep, found left to right.  With a one character separator no piece
   * contains it.
   */
  function Explode(sep: string, s: string): (parts: seq<string>)
    requires sep != []
    ensures |parts| >= 1
    ensures forall i :: 0 <= i < |parts| ==> |parts[i]| <= |s|
    ensures |sep| == 1 ==> forall i :: 0 <= i < |parts| ==> sep[0] !in parts[i]
    decreases |s|
  {
    match Find(sep, s, 0)
    case None =>
      assert |sep| == 1 ==> sep[0] !in s by {
        if |sep| == 1 {
          forall j | 0 <= j < |s| ensures s[j] != sep[0] { assert !OccursAt(sep, s, j); }
        }
      }
      [s]
    case Some(i) =>
      var piece := s[..i];
      assert |sep| == 1 ==> sep[0] !in piece by {
        if |sep| == 1 {
          forall j | 0 <= j < i ensures s[j] != sep[0] { assert !OccursAt(sep, s, j); }
        }
      }
      [piece] + Explode(sep, s[i + |sep|..])
  }

  /** implode undoes explode. */
  lemma {:induction false} JoinExplode(sep: string, s: string)
    requires sep != []
    ensures Join(sep, Explode(sep, s)) == s
    decreases |s|
  {
    match Find(sep, s, 0)
    case None =>
    case Some(i) =>
      var rest := s[i + |sep|..];
      JoinExplode(sep, rest);
      JoinCons(sep, s[..i], Explode(sep, rest));
      SplitAt(s, i, sep);
  }

  lemma SplitAt(s: string, i: nat, sep: string)
    requires OccursAt(sep, s, i)
    ensures s == s[..i] + sep + s[i + |sep|..]
  {
    assert s[i..i + |sep|] == sep;
  }

  lemma JoinCons(sep: string, p: string, parts: seq<string>)
    requires |parts| >= 1
    ensures Join(sep, [p] + parts) == p + sep + Join(sep, parts)
  {
    assert ([p] + parts)[1..] == parts;
  }

  /** implode starts with the first part's first character and ends with the last part's last one. */
  lemma {:induction false} JoinEnds(sep: string, parts: seq<string>)
    requires parts != [] && forall i :: 0 <= i < |parts| ==> parts[i] != []
    ensures var j, last := Join(sep, parts), parts[|parts| - 1];
      j != [] && j[0] == parts[0][0] && j[|j| - 1] == last[|last| - 1]
    decreases |parts|
  {
    if |parts| > 1 {
      JoinEnds(sep, parts[1..]);
      assert Join(sep, parts) == parts[0] + sep + Join(sep, parts[1..]);
    }
  }

  /** A string with no occurrence of the separator's first character explodes to itself. */
  lemma ExplodeWithoutSeparator(sep: string, a: string)
    requires sep != [] && sep[0] !in a
    ensures Explode(sep, a) == [a]
  {
    forall j | 0 <= j ensures !OccursAt(sep, a, j) {
      if j + |sep| <= |a| { assert a[j..j + |sep|][0] == a[j]; }
    }
  }

  /** explode splits at the first occurrence of the separator. */
  lemma ExplodeAtSeparator(sep: string, a: string, b: string)
    requires sep != [] && sep[0] !in a
    ensures Explode(sep, a + sep + b) == [a] + Explode(sep, b)
  {
    var s := a + sep + b;
    assert OccursAt(sep, s, |a|) by { assert s[|a|..|a| + |sep|] == sep; }
    forall j | 0 <= j < |a| ensures !OccursAt(sep, s, j) {
      assert s[j] == a[j];
      if j + |sep| <= |s| { assert s[j..j + |sep|][0] == s[j]; }
    }
    assert Find(sep, s, 0) == Some(|a|);
    assert s[..|a|] == a;
    assert s[|a| + |sep|..] == b;
  }

  /** explode undoes implode when no piece contains the separator's first character. */
  lemma {:induction false} ExplodeJoin(sep: string, parts: seq<string>)
    requires sep != [] && |parts| >= 1
    requires forall i :: 0 <= i < |parts| ==> sep[0] !in parts[i]
    ensures Explode(sep, Join(sep, parts)) == parts
    decreases |parts|
  {
    if |parts| == 1 {
      ExplodeWithoutSeparator(sep, parts[0]);
    } else {
      ExplodeAtSeparator(sep, parts[0], Join(sep, parts[1..]));
      ExplodeJoin(sep, parts[1..]);
      assert [parts[0]] + parts[1..] == parts;
    }
  }

  /** Concatenation regrouped, and the empty prefix dropped. */
  lemma Regroup(p: string, a: string, b: string)
    ensures p + a + b == p + (a + b)
    ensures "" + a + b == a + b
  {
  }

  /** strpos($s, $c, $from) for a single character. */
  function IndexFrom(s: string, from: nat, c: char): (r: Option<nat>)
    ensures r.Some? ==> from <= r.value < |s| && s[r.value] == c
    ensures r.Some? ==> forall k :: from <= k < r.value ==> s[k] != c
    ensures r.None? ==> forall k :: from <= k < |s| ==> s[k] != c
    decreases |s| - from
  {
    if from >= |s| then None
    else if s[from] == c then Some(from)
    else IndexFrom(s, from + 1, c)
  }

  predicate PairAt(s: string, i: int, c: char) {
    0 <= i && i + 1 < |s| && s[i] == c && s[i + 1] == c
  }

  /** strrpos($s, $c . $c), searching down from position `below - 1`. */
  function LastPairBelow(s: string, c: char, below: nat): (r: Option<nat>)
    requires below <= |s|
    ensures r.Some? ==> r.value < below && PairAt(s, r.value, c)
    ensures r.Some? ==> forall j :: r.value < j < below ==> !PairAt(s, j, c)
    ensures r.None? ==> forall j :: 0 <= j < below ==> !PairAt(s, j, c)
    decreases below
  {
    if below == 0 then None
    else if PairAt(s, below - 1, c) then Some(below - 1)
    else LastPairBelow(s, c, below - 1)
  }

  /** strrpos($s, $c . $c): the start of the last occurrence of the doubled character. */
  function LastPair(s: string, c: char): (r: Option<nat>)
    ensures r.Some? ==> PairAt(s, r.value, c) && forall j :: r.value < j ==> !PairAt(s, j, c)
    ensures r.None? ==> forall j :: !PairAt(s, j, c)
  {
    LastPairBelow(s, c, |s|)
  }

  /** PHP_INT_MAX on a 64-bit build. */
  const PhpIntMax: nat := 0x7FFF_FFFF_FFFF_FFFF

  /**
   * The integer `%d` formats for a numeric string of value n: zval_get_long
   * reads a string too large for a PHP int as a float and saturates it, so
   * the value is capped at PHP_INT_MAX.
   */
  function PhpInt(n: nat): (r: nat)
    ensures r <= PhpIntMax
    ensures r == n <==> n <= PhpIntMax
    ensures n > PhpIntMax ==> r == PhpIntMax
  {
    if n > PhpIntMax then PhpIntMax else n
  }

  /** The value of a digit string (leading zeros do not count). */
  function DigitsValue(s: string): nat
    requires AllDigits(s)
  {
    if s == [] then 0 else 10 * DigitsValue(s[..|s| - 1]) + (s[|s| - 1] as int - '0' as int)
  }

  function DigitChar(d: nat): (c: char)
    requires d < 10
    ensures IsDigit(c) && c as int - '0' as int == d
  {
    ('0' as int + d) as char
  }

  /** sprintf('%d', $n) for n >= 0: decimal digits, no leading zero. */
  function NatToString(n: nat): (r: string)
    ensures r != [] && AllDigits(r)
    ensures r[0] == '0' ==> r == "0"
    ensures DigitsValue(r) == n
  {
    if n < 10 then
      [DigitChar(n)]
    else
      var r := NatToString(n / 10) + [DigitChar(n % 10)];
      assert r[..|r| - 1] == NatToString(n / 10);
      r
  }
}
