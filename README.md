# RefineDom selector compiler, modelled in Dafny

RefineDom is a PHP wrapper around the DOM extension that lets callers
query documents with CSS selectors. Its core is `Query`, which compiles a
CSS selector into XPath. `compile` splits the expression on `,`, trims
each clause and looks it up in a static cache. On a miss it runs
`cssToXPath`. That function walks the selector segment by segment:

- `getSegments` scans one segment into tag, `#id`, `.classes`, `[attributes]`,
  `:pseudo(expr)` and the `>` marker.
- `buildXPath` turns the segment into one XPath step.
- The step's axis is `/` or `//`, chosen by the segment before.
- `:has(...)` and `:not(...)` compile their argument as a selector of their own.
- A trailing `::text` or `::attr(a|b)` becomes a final step.

Around the compiler sit the selector helpers of `Element` (`matches` and
`closest`) and `Document` (`createElementFromSelector`, `has`, `count`,
`find`, `first`, `findIndex`, `xPath`, `xPathIndex` and `wrapNode`).

The project has one module per part of the program:

| module | file | what it holds |
|---|---|---|
| `Outcomes` | outcomes.dfy | `Option`, `Result` and the exceptions the code raises, one constructor each |
| `Strings` | strings.dfy | PHP's `trim`/`ltrim` with a character list, `explode`/`implode`, `strpos`/`strrpos`, `%d` |
| `OrderedMaps` | ordered.dfy | a PHP array with string keys: key order plus values |
| `Segments` | segments.dfy | `getSegments`: the pattern as a left-to-right scanner, one phase per group |
| `Translate` | translate.dfy | `convertAttribute`, `convertContains`, `parseProperty`, `convertProperty` |
| `Nth` | nth.dfy | `convertNthExpression`, and which positions its output keeps |
| `Compiler` | compiler.dfy | `cssToXPath`, `buildXPath` and `convertPseudo` as mutually recursive functions |
| `Selectors` | selectors.dfy | what `t[...]`, `t:name` and `t:name(arg)` compile to, for every tag, name and argument of the stated shapes |
| `Compounds` | compounds.dfy | what segments with several tests compile to: `t#i.a.b...` and `t[p][q]` |
| `Cache` | cache.dfy | `compile`'s foreach over the static cache, for any clause compiler |
| `Queries` | query.dfy | the class `Query`, with the cache as a field and the source's loops as methods |
| `Axes` | axes.dfy | what chains of bare tags compile to: `/`, `//`, a leading `>` |
| `Nodes` | nodes.dfy | an element as a tag plus an attribute map; the node kinds |
| `Documents` | documents.dfy | the `Document` helpers, with the XPath engine as a parameter |
| `Elements` | elements.dfy | strict and non-strict `matches`, and `closest` over a parent chain |

### How the model is built

**Methods and their specifications.** The code that loops or mutates is
written as methods:

- `compile`'s foreach;
- the `while` loop of `cssToXPath`;
- the foreach loops of `getSegments` and `buildXPath`;
- `createElementFromSelector`'s assignments;
- the `while (true)` of `closest`.

Each method is proved equal to a function. The properties are proved
about those functions. The static `$compiled` array is the field
`compiled` of a `Query` object. Every method that compiles names it in
`modifies`.

**Parameters for what the model cannot see.** Each of these is a parameter:

- the XPath engine: `evaluate` for `DOMXPath::evaluate`, `query` for
  `DOMXPath::query`;
- `function_exists('mb_strtolower')`, as the flag `mb`.

**The cache is transparent.** Every stored path is the path compiling
its clause gives. A fresh `Query` starts in that state and `compile` keeps
it (`Cache.CompileTransparent`). From such a cache, `compile` answers
exactly as compiling without a cache would. The same holds for `matches`
and `closest` (`Elements.MatchTransparent` and `Elements.ClosestTransparent`).

### Behaviour of the code as written

The model follows the code where it differs from what a reader would
expect. Each point below is a proved lemma:

- **A tab after a leading `>` breaks the segment cut.** After a leading
  `>`, `cssToXPath` strips only `>` and spaces. `getSegments` trims the
  rest, but the cut uses the length of the trimmed match against the
  untrimmed text. So `>\ta>b` compiles to the error "no tag or
  attribute", while `> a>b` gives `/a/b` (`Axes.SelectorLeadingTab`).
- **`nth-child` with a `-` offset drops positions.** `3n-4` prints the
  lower bound `position() >= 4`. That drops position 2, which the CSS
  meaning `3n-4` includes (`Nth.MinusOffsetDropsPositions`).
- **A zero multiplier selects nothing.** `0n+3` prints `mod 0` and keeps
  no position (`Nth.ZeroMultiplierSelectsNothing`).
- **`compile` is not all-or-nothing.** Clauses compiled before a failing
  one stay in the cache (`Cache.StoredBeforeError`).
- **`first` loses the context `.`.** It compiles once and hands `(E)[1]` to
  `find` as XPath. So with a context element it does not put the `.` in front
  that `find` gives a CSS query (`Documents.FirstDropsContextDot`).
- **Non-strict `matches` wraps only the first clause.** It prefixes
  `root > ` to the whole selector. For `t,u` only the first clause is
  anchored: the path is `//root/t|//u` (`Elements.NonStrictUnion`).
- **Strict `matches` reads the first segment only.** `a b` matches
  exactly what `a` matches (`Elements.StrictReadsFirstSegment`).
- **A blank class attribute never matches strictly.** It explodes to the
  one class `""`, which no selector produces
  (`Elements.BlankClassNeverMatches`).
- **Negative indexes give null.** `findIndex` and `xPathIndex` return null
  for a negative index as well as for one past the end (`Documents.Index`).
- **`%d` caps large numbers.** `:nth-child(n+B)` with B above PHP_INT_MAX
  prints PHP_INT_MAX as the offset. So it keeps position PHP_INT_MAX, which
  CSS excludes (`Nth.LargeOffsetCapped`).
- **`!a=v` ignores the value.** `t[!a=v]` compiles to `t[not(@a)]`, the same
  as `t[!a]` (`Selectors.AbsenceSelector`).
- **Some selectors scan but cannot be created.** getSegments accepts the tag
  `*`, tags that start with a digit or `-`, and comparison names such as `a^`
  in `t[a^=v]`. createElementFromSelector passes them to the DOM, which raises
  DOMException (`Elements.TagRefused`, `Elements.OperatorAttributeRefused`).

## Model

| member | source | states |
|---|---|---|
| Queries.Query.Compile | src/RefineDom/Query.php:15-44 | the result and the new cache are CompileSpec of the old cache: XPath is returned untouched, CSS runs the clause foreach and joins the paths with a bar |
| Queries.Query.CompileAll | src/RefineDom/Query.php:22-39 | the foreach over the exploded selectors equals CompileClauses over the trimmed clauses, paths and cache both |
| Queries.Query.CompileClause | src/RefineDom/Query.php:27-38 | one clause: a hit returns the stored path and leaves the cache; a miss compiles and stores only on success |
| Queries.Query.GetCompiled | src/RefineDom/Query.php:423-426 | returns the whole cache |
| Queries.Query.SetCompiled | src/RefineDom/Query.php:428-436 | replaces the whole cache |
| Queries.Query.constructor | src/RefineDom/Query.php:13 | the cache starts empty |
| Queries.Query.GetSegments | src/RefineDom/Query.php:328-421 | the trim, match and the two foreach loops give exactly ParseSegment |
| Queries.Query.ReadAttributes | src/RefineDom/Query.php:367-386 | the attribute foreach equals AddAttributes: empty pieces skipped, an empty name raises |
| Queries.Query.ReadClasses | src/RefineDom/Query.php:388-400 | the class foreach equals NonEmpty of the pieces, whose order and contents Segments.NonEmptyAppend and Segments.NonEmptyKeepsAll state |
| Queries.Query.ConvertPseudo | src/RefineDom/Query.php:232-272 | the predicate and the by-reference tag equal PseudoPredicate, errors included |
| Queries.Query.BuildXPath | src/RefineDom/Query.php:133-182 | the step equals SegmentPath of the segment |
| Queries.Query.BuildPseudoXPath | src/RefineDom/Query.php:160-181 | with a pseudo-class, its predicate comes last and the step uses the tag convertPseudo leaves |
| Queries.Query.BuildPlainXPath | src/RefineDom/Query.php:169-181 | without one, no tag and no predicate raises; else the tag or `*` with the bracketed predicates |
| Queries.Query.PseudoStep | src/RefineDom/Query.php:160-167 | the argument is trimmed and exploded on `,` before convertPseudo |
| Queries.Query.AppendPredicates | src/RefineDom/Query.php:174-179 | no predicate adds nothing, one gives `[p]`, several give `[(p1) and (p2)...]` |
| Queries.Query.CollectPredicates | src/RefineDom/Query.php:137-158 | the predicates in the order id, classes, attributes |
| Queries.Query.ClassTests | src/RefineDom/Query.php:144-150 | the class foreach equals ClassPredicates: the i-th test is the test of the i-th class |
| Queries.Query.AttributeTests | src/RefineDom/Query.php:152-158 | the attribute foreach equals AttributePredicates over the keys in array order; the i-th test converts the i-th key (Compiler.AttributePredicateAt) |
| Queries.Query.CssToXPath | src/RefineDom/Query.php:46-91 | the whole loop equals SelectorPath |
| Queries.Query.PropertyXPath | src/RefineDom/Query.php:48-57 | with a `::` property: an unknown one raises before the chain, a known one is appended once after it |
| Queries.Query.StartSegments | src/RefineDom/Query.php:59-64 | a leading `>` switches the prefix to `/` and strips `>` and spaces |
| Queries.Query.CompileSegments | src/RefineDom/Query.php:66-83 | the segment loop equals Chain: each segment's step, then the rest with `/` after `rel` and `//` otherwise |
| Strings.Trim | src/RefineDom/Query.php:27 | never longer; neither end is a trimmed character; empty exactly when every character is one |
| Strings.TrimCuts | src/RefineDom/Query.php:27 | the result is a slice of the input, and every character cut before or after it is a trimmed character |
| Strings.TrimLeft | src/RefineDom/Query.php:63 | a suffix of the input that does not start with a stripped character, every character cut being one |
| Strings.Explode | src/RefineDom/Query.php:22 | at least one piece, none longer than the input; with a one-character separator no piece holds it |
| Strings.JoinExplode | src/RefineDom/Query.php:22-41 | implode with the separator undoes explode |
| Strings.ExplodeJoin | src/RefineDom/Query.php:22-41 | explode undoes implode when no part holds the separator |
| Strings.LastPair | src/RefineDom/Query.php:48 | strrpos of `::`: the last position where the pair starts, none when there is none |
| Strings.PhpInt | src/RefineDom/Query.php:293 | `%d` of a number: the number up to PHP_INT_MAX, PHP_INT_MAX above it |
| Segments.ParseSegment | src/RefineDom/Query.php:328-421 | the consumed text is a non-empty prefix of the trimmed input, so the loop shrinks; the only errors are empty, invalid and empty attribute name |
| Segments.ParseSegmentErrors | src/RefineDom/Query.php:330-353 | "empty" exactly for blank input; "invalid" exactly when no group of the pattern can start |
| Segments.Scan | src/RefineDom/Query.php:337-348 | the match is a prefix of the text and its groups have the shapes the pattern allows |
| Segments.ScanEmpty | src/RefineDom/Query.php:348-353 | the match is empty exactly when no group can start at position 0 |
| Segments.ScanTail | src/RefineDom/Query.php:341-344 | the pseudo, `\s*` and `>` groups match a prefix; empty exactly when none can start |
| Segments.TagText | src/RefineDom/Query.php:337 | the tag group is a prefix of tag characters that ends at the end of the text or before a character that is not one |
| Segments.IdText | src/RefineDom/Query.php:338 | the id group needs `#` and at least one id character |
| Segments.ClassText | src/RefineDom/Query.php:339 | the classes group needs `.` and at least one class character |
| Segments.AttrText | src/RefineDom/Query.php:340 | the attribute groups exist exactly when a `[` has a `]` after at least one character |
| Segments.PseudoName | src/RefineDom/Query.php:341 | the pseudo name follows `:` and is a run of name characters |
| Segments.ParenText | src/RefineDom/Query.php:342 | the expression is a `)`-free text in parentheses |
| Segments.Decode | src/RefineDom/Query.php:355-417 | the segment records the whole match as its selector and is well formed; the only error is an empty attribute name |
| Segments.SplitAttribute | src/RefineDom/Query.php:376-383 | split on the first `=`: no `=` gives the whole name and null, else the value trimmed of quotes |
| Segments.AddAttributes | src/RefineDom/Query.php:372-385 | names stay non-empty and `=`-free; the only error is an empty name |
| Segments.NonEmpty | src/RefineDom/Query.php:393-399 | every kept piece is non-empty and one of the input's, every non-empty piece is kept, and none is added |
| Segments.NonEmptySingle | src/RefineDom/Query.php:395-398 | one piece is kept when it is non-empty and dropped when it is empty |
| Segments.NonEmptyAppend | src/RefineDom/Query.php:393-399 | the foreach over a + b keeps the pieces of a, then those of b: the kept pieces stay in input order |
| Segments.NonEmptyKeepsAll | src/RefineDom/Query.php:393-399 | when no piece is empty, every piece is kept, in order |
| Segments.ClassNames | src/RefineDom/Query.php:390-399 | class names are non-empty and dot-free |
| Segments.ClassNamesOfJoin | src/RefineDom/Query.php:390-399 | `.a.b...` reads back as exactly the names a, b, ... in that order, for non-empty dot-free names |
| Translate.ConvertAttribute | src/RefineDom/Query.php:184-230 | one result per form: a plain name gives `@a` or `@a="v"`; `^a` tests the name prefix, then `="v"` when there is a value; `!a` gives `not(@a)` and ignores the value; a trailing `^ $ * ! ~` gives starts-with, ends-with, contains, `not(@a="v")` and the word test, a missing value printed as "" |
| Translate.ConvertContains | src/RefineDom/Query.php:311-326 | case-sensitive: `text() = "s"`; otherwise both sides lowered, with mb_strtolower when mbstring is there and strtolower when not |
| Translate.ParseProperty | src/RefineDom/Query.php:93-109 | the name is the longest run of name characters; no argument holds a bar |
| Translate.ConvertProperty | src/RefineDom/Query.php:111-131 | `text` gives `text()`; `attr` gives the `name() = ...` tests joined by ` or `; anything else raises |
| Translate.NameTests | src/RefineDom/Query.php:120-125 | one `name() = "a"` test per argument, in order |
| Translate.ParseAttrProperty | src/RefineDom/Query.php:93-109 | `attr(...)` with bar-separated names reads back as the property `attr` with exactly those names |
| Translate.ParseTextProperty | src/RefineDom/Query.php:95-102 | `text` followed by a non-name character is the `text` property |
| Nth.ParseNth | src/RefineDom/Query.php:274-309 | empty input is the "empty" error; a digit string is its index; any other error is "invalid" |
| Nth.ConvertNthExpression | src/RefineDom/Query.php:274-309 | the result is the printed form of what ParseNth read, numbers capped at PHP_INT_MAX as `%d` caps them; errors passed on |
| Nth.Multiplier | src/RefineDom/Query.php:300 | `n` is 1; a digit then `n` is that digit |
| Nth.OffsetPart | src/RefineDom/Query.php:296-302 | no tail is offset 0; else a sign and digits |
| Nth.ParseCycleText | src/RefineDom/Query.php:296-304 | `An+B` and `An-B` read back with the digit, the inverted sign and the offset capped at PHP_INT_MAX |
| Nth.ParseIndex | src/RefineDom/Query.php:291-294 | a number is read as that index, capped at PHP_INT_MAX |
| Nth.PlusOffsetAgrees | src/RefineDom/Query.php:296-304 | for `An+B` with A >= 1 and B up to PHP_INT_MAX, the printed predicate keeps exactly the positions A*n+B |
| Nth.OddEvenAgree | src/RefineDom/Query.php:281-289 | `odd` keeps exactly 2n+1 and `even` exactly 2n |
| Nth.MinusOffsetDropsPositions | src/RefineDom/Query.php:304 | `3n-4` denotes position 2 but the printed predicate drops it |
| Nth.ZeroMultiplierSelectsNothing | src/RefineDom/Query.php:300-304 | `0n+B` denotes B but `mod 0` keeps nothing |
| Nth.LargeOffsetCapped | src/RefineDom/Query.php:304 | an offset above PHP_INT_MAX is printed as PHP_INT_MAX, so `n+B` keeps position PHP_INT_MAX, which CSS does not |
| Nth.NthXPath | src/RefineDom/Query.php:281-304 | an index prints as `position() = ` and digits that read back as the index |
| Nth.CycleForm | src/RefineDom/Query.php:296-304 | whatever matches the `An+B` pattern is read as a cycle |
| Nth.Anchored | src/RefineDom/Query.php:296 | the text the anchored pattern sees is the argument, less at most one final newline |
| Nth.DividesOffset | src/RefineDom/Query.php:304 | p is m*n+b for some n >= 0 exactly when p >= b and m divides p-b |
| Compiler.ClassPredicates | src/RefineDom/Query.php:144-150 | one class test per class; the i-th is the `contains(concat(...))` test of the i-th class |
| Compiler.AttributePredicates | src/RefineDom/Query.php:152-158 | one attribute test per key |
| Compiler.AttributePredicateAt | src/RefineDom/Query.php:152-158 | the i-th attribute test is convertAttribute of the i-th key and its value |
| Compiler.BasePredicatesShape | src/RefineDom/Query.php:137-158 | one test for the id when there is one, one per class and one per attribute; the id test first |
| Compiler.BaseClassTests | src/RefineDom/Query.php:137-150 | after the id test, the i-th test is the test of the i-th class |
| Compiler.BaseAttributeTests | src/RefineDom/Query.php:137-158 | after the id and class tests, the i-th test converts the i-th attribute key and its value |
| Compiler.Bracket | src/RefineDom/Query.php:174-179 | empty exactly without predicates; otherwise wrapped in `[` and `]`, a single one as `[p]` |
| Compiler.PseudoParameters | src/RefineDom/Query.php:162-164 | at least one parameter, none longer than the expression; no expression gives `[""]` |
| Compiler.PseudoPredicate | src/RefineDom/Query.php:232-272 | every error is one cssToXPath raises: an nth error, one from the `:has` or `:not` argument, or an unknown pseudo-class under a name the switch does not list |
| Compiler.PseudoPredicateNames | src/RefineDom/Query.php:232-272 | the unknown pseudo-class error comes exactly for a name outside the nine cases; only `nth-child` changes the tag, to `*` |
| Compiler.SegmentPath | src/RefineDom/Query.php:133-182 | every error is one cssToXPath raises |
| Compiler.PlainSegmentError | src/RefineDom/Query.php:169-172 | without a pseudo-class, buildXPath raises exactly when there is neither a tag nor a predicate, and then with "no tag or attribute" |
| Compiler.NextPrefix | src/RefineDom/Query.php:75 | `/` exactly after a segment that ends in `>`, `//` exactly after any other |
| Compiler.Chain | src/RefineDom/Query.php:66-83 | every error comes from getSegments, buildXPath or a converter |
| Compiler.Start | src/RefineDom/Query.php:59-83 | every error is one cssToXPath raises |
| Compiler.SelectorPath | src/RefineDom/Query.php:46-91 | every error is one of the compiler exceptions, an unknown property among them |
| Compiler.SegmentPrefix | src/RefineDom/Query.php:174 | the prefix goes in front of the step and nowhere else |
| Compiler.ChainPrefix | src/RefineDom/Query.php:69-83 | the prefix goes only in front of the first step; later steps take `/` or `//` from the segment before |
| Compiler.StartPrefix | src/RefineDom/Query.php:59-66 | without a leading `>` the given prefix is put once in front |
| Compiler.ChildStart | src/RefineDom/Query.php:59-64 | a leading `>` ignores the prefix, puts `/` in front and drops `>` and spaces |
| Compiler.SelectorPrefix | src/RefineDom/Query.php:46-91 | the prefix appears once, in front of the whole path including the property |
| Compiler.LastPairBeforeSuffix | src/RefineDom/Query.php:48 | the last `::` is the one before a `:`-free suffix |
| Compiler.TextSuffix | src/RefineDom/Query.php:85-88 | `::text` appends `/text()` once, after the whole chain |
| Compiler.AttrSuffix | src/RefineDom/Query.php:85-88 | `::attr(...)` appends one `name() = "a"` test per name, joined by ` or `, after the whole chain |
| Compiler.UnknownSuffix | src/RefineDom/Query.php:130 | any other property name is an error, whatever the chain |
| Selectors.ParseAttrSelector | src/RefineDom/Query.php:328-421 | `t[piece]` scans to the tag t with the one attribute the piece splits into |
| Selectors.AttributeSelector | src/RefineDom/Query.php:133-230 | `t[piece]` compiles to the prefix, t and the bracketed convertAttribute of the piece's name and value |
| Selectors.SplitAssign | src/RefineDom/Query.php:376-383 | `a=v` splits into the name a and v trimmed of quotes |
| Selectors.PresenceSelector | src/RefineDom/Query.php:189-193 | `t[a]` compiles to `t[@a]` |
| Selectors.EqualsSelector | src/RefineDom/Query.php:189-193 | `t[a=v]` compiles to `t[@a="v"]`, v trimmed of quotes |
| Selectors.NamePrefixSelector | src/RefineDom/Query.php:196-201 | `t[^a]` tests for an attribute whose name starts with a; `t[^a=v]` also compares its value with v |
| Selectors.AbsenceSelector | src/RefineDom/Query.php:203-208 | `t[!a]` and `t[!a=v]` both compile to `t[not(@a)]`: the value is ignored |
| Selectors.OperatorSelector | src/RefineDom/Query.php:210-227 | `t[a^=v]`, `t[a$=v]`, `t[a*=v]`, `t[a!=v]` and `t[a~=v]` compile to the starts-with, ends-with, contains, inequality and word tests of a against v |
| Selectors.ParsePseudoSelector | src/RefineDom/Query.php:337-417 | `t:name(arg)` scans to the tag t with that pseudo-class and argument |
| Selectors.ParseBarePseudoSelector | src/RefineDom/Query.php:337-417 | `t:name` scans to the tag t with that pseudo-class and no argument |
| Selectors.PseudoSelector | src/RefineDom/Query.php:160-181 | `t:name(arg)` compiles to the prefix, the tag convertPseudo leaves and its bracketed predicate, or raises its error |
| Selectors.BarePseudoSelector | src/RefineDom/Query.php:160-181 | `t:name` does the same with the one empty parameter |
| Selectors.FixedPseudo | src/RefineDom/Query.php:232-268 | `t:first-child`, `t:last-child`, `t:empty` and `t:not-empty` compile to t with their fixed predicate |
| Selectors.NthChildSelector | src/RefineDom/Query.php:242-247 | `t:nth-child(e)` compiles to `*[(name()="t") and (N)]` for the nth predicate N of e, or raises its error |
| Selectors.NthOfTypeSelector | src/RefineDom/Query.php:260-262 | `t:nth-of-type(e)` compiles to `t[N]`, or raises the nth error |
| Selectors.HasSelector | src/RefineDom/Query.php:254-256 | `t:has(u)` compiles to `t[.//u]` |
| Selectors.NotSelector | src/RefineDom/Query.php:257-259 | `t:not(u)` compiles to `t[not(self::u)]` |
| Selectors.UnknownPseudoSelector | src/RefineDom/Query.php:271 | a pseudo-class outside the nine raises the unknown pseudo-class error under its own name |
| Selectors.ContainsSelector | src/RefineDom/Query.php:248-253 | `t:contains(x)` compiles to t with the case-insensitive text test of x |
| Selectors.ContainsCaseSelector | src/RefineDom/Query.php:248-253 | `t:contains(x,true)` compiles to t with the case-sensitive test `text() = "x"` |
| Selectors.NthName | src/RefineDom/Query.php:341 | the argument-taking pseudo-class names are whole names for the pattern |
| Compounds.IdClassTests | src/RefineDom/Query.php:137-150 | the id test first, then one class test per class in the order written |
| Compounds.ParseIdClass | src/RefineDom/Query.php:328-421 | `t#i.a.b...` scans to the tag t (none when t is empty), the id i and the classes a, b, ... in order |
| Compounds.IdClassStep | src/RefineDom/Query.php:133-182 | buildXPath of that segment: the tag or `*`, then the id and class tests joined with `and` |
| Compounds.IdClassSelector | src/RefineDom/Query.php:46-182 | cssToXPath of `t#i.a.b...`: one step, the tag or `*` with the id test and then the class tests joined with `and` |
| Compounds.TwoClassSelector | src/RefineDom/Query.php:46-182 | `t#i.a.b` compiles to `t[(@id="i") and (class test of a) and (class test of b)]` after the prefix |
| Compounds.PlainSteps | src/RefineDom/Query.php:169-181 | without a pseudo-class and with two or more predicates, the step is the tag or `*` with them joined as `[(p1) and (p2)...]` |
| Compounds.AddTwo | src/RefineDom/Query.php:372-385 | two named pieces put the first name and then the second into the array |
| Compounds.ParseTwoAttr | src/RefineDom/Query.php:328-421 | `t[p][q]` scans to the tag t and the array built by putting p's name and then q's |
| Compounds.TwoAttrTests | src/RefineDom/Query.php:376-383 | two different names keep their order, p's test first and q's second |
| Compounds.RepeatedAttrTests | src/RefineDom/Query.php:376-383 | the same name twice leaves one key, holding q's value |
| Compounds.TwoAttributeSelector | src/RefineDom/Query.php:46-230 | `t[p][q]` with two names compiles to t with p's convertAttribute and then q's, joined with `and` |
| Compounds.RepeatedAttributeSelector | src/RefineDom/Query.php:46-230 | `t[p][q]` with one name twice compiles to t with the single test of q's value |
| Cache.Clauses | src/RefineDom/Query.php:22-27 | at least one clause; a comma-free expression is one trimmed clause |
| Cache.ClausesOfComma | src/RefineDom/Query.php:22 | every `,` splits, even inside parentheses |
| Cache.CompileSpec | src/RefineDom/Query.php:15-44 | XPath leaves input and cache alone; CSS leaves the cache the foreach leaves |
| Cache.Lookup | src/RefineDom/Query.php:29-38 | a hit returns the stored path and leaves the cache; a miss returns the compiled path; a successful key is stored with its path, old entries stay and nothing else is added |
| Cache.CompileClauses | src/RefineDom/Query.php:25-39 | one path per clause on success; old entries keep their paths; only clauses are added |
| Cache.Extend | src/RefineDom/Query.php:36-39 | the paths found so far go in front of the rest; an error and the cache pass through |
| Cache.PureClauses | src/RefineDom/Query.php:25-39 | without a cache, one path per clause |
| Cache.PureCompile | src/RefineDom/Query.php:15-44 | without a cache, XPath is returned as given |
| Cache.CommaUnion | src/RefineDom/Query.php:22-41 | `a,b` compiles to the path of `a`, a bar, the path of `b`; the first error wins |
| Cache.SingleClause | src/RefineDom/Query.php:22-41 | a comma-free expression compiles to its trimmed text's path |
| Cache.LookupConsistent | src/RefineDom/Query.php:29-38 | a consistent cache answers as compiling would and stays consistent |
| Cache.ClausesTransparent | src/RefineDom/Query.php:25-39 | from a consistent cache, the foreach gives the cache-free paths and keeps the cache consistent |
| Cache.CompileTransparent | src/RefineDom/Query.php:15-44 | from a consistent cache, compile answers exactly as without one |
| Cache.EmptyConsistent | src/RefineDom/Query.php:13 | the initial empty cache is consistent |
| Cache.CacheGrows | src/RefineDom/Query.php:29-38 | stored clauses keep their paths; a new entry is what compiling its clause gives |
| Cache.FillsCache | src/RefineDom/Query.php:36-38 | after success every clause is stored and the i-th path is the one stored for the i-th clause |
| Cache.AllCached | src/RefineDom/Query.php:29-34 | when all clauses are stored nothing is compiled and the cache is unchanged |
| Cache.CompileAgain | src/RefineDom/Query.php:15-44 | compiling the same expression again returns the same result and changes nothing |
| Cache.StoredBeforeError | src/RefineDom/Query.php:36 | clauses before a failing one stay stored |
| Axes.ParseTag | src/RefineDom/Query.php:328-421 | a bare tag scans to a segment with that tag and nothing else |
| Axes.ParseChildPair | src/RefineDom/Query.php:337-344 | `t > u` scans `t >` with `rel` set |
| Axes.ParseDescendantPair | src/RefineDom/Query.php:337-344 | `t u` scans `t ` without `rel` |
| Axes.ParseTightPair | src/RefineDom/Query.php:337-344 | `t>u` scans `t>` with `rel` set |
| Axes.SelectorTag | src/RefineDom/Query.php:46-91 | a bare tag compiles to the prefix and the tag |
| Axes.ChainChild | src/RefineDom/Query.php:69-83 | `t > u` chains with `/` |
| Axes.ChainDescendant | src/RefineDom/Query.php:69-83 | `t u` chains with `//` |
| Axes.ChainTightChild | src/RefineDom/Query.php:69-83 | `t>u` chains with `/` |
| Axes.ChainBareChild | src/RefineDom/Query.php:169-172 | a lone `>` segment has no constraint and raises |
| Axes.SelectorChild | src/RefineDom/Query.php:46-91 | `t > u` compiles to `prefix t/u` |
| Axes.SelectorDescendant | src/RefineDom/Query.php:46-91 | `t u` compiles to `prefix t//u` |
| Axes.SelectorLeadingChild | src/RefineDom/Query.php:59-64 | `> u` compiles to `/u`, whatever the prefix |
| Axes.SelectorLeadingPair | src/RefineDom/Query.php:59-83 | `> t>u` compiles to `/t/u` |
| Axes.SelectorLeadingTab | src/RefineDom/Query.php:63-73 | `>` then a tab then `t>u` raises, while `> t>u` compiles to `/t/u` |
| Axes.ChainTabbedPair | src/RefineDom/Query.php:73 | a tab in front of `t>u` makes the cut one character short and the rest a bare `>` |
| Nodes.Attribute | src/RefineDom/Element.php:234-242 | getAttribute gives the value, or null when absent |
| Nodes.ClassList | src/RefineDom/Element.php:182 | a class list exists exactly when the attribute does; no entry holds a space |
| Elements.Diff | src/RefineDom/Element.php:186-187 | array_diff keeps exactly the values of a not in b |
| Elements.DiffEmpty | src/RefineDom/Element.php:189 | the diff is empty exactly when every value of a is in b |
| Elements.DiffAssocBothEmpty | src/RefineDom/Element.php:201-204 | both array_diff_assoc results are empty exactly when the arrays are equal |
| Elements.OtherAttributes | src/RefineDom/Element.php:194-197 | the attributes without `id` and `class`, values unchanged |
| Elements.Compare | src/RefineDom/Element.php:170-209 | the comparisons succeed exactly when tag, id, class set and other attributes all agree |
| Elements.MatchesStrict | src/RefineDom/Element.php:163-209 | raises exactly on a parse error or a missing tag; true exactly when the segment agrees with the element |
| Elements.BareTagMatches | src/RefineDom/Element.php:170-209 | a bare tag matches exactly an element of that tag, or any for `*`, with no attributes |
| Elements.StrictReadsFirstSegment | src/RefineDom/Element.php:163 | `t u` matches strictly exactly what `t` matches |
| Elements.BlankClassNeverMatches | src/RefineDom/Element.php:182-192 | a blank class attribute never matches strictly |
| Elements.ClassesRoundTrip | src/RefineDom/Element.php:182 | classes joined with a space explode back to themselves |
| Elements.CreatedElementMatches | src/RefineDom/Document.php:75-97 | the element created from a tagged selector whose names the DOM accepts matches that selector strictly |
| Elements.TagAccepted | src/RefineDom/Document.php:67 | of the tags getSegments admits, createElement refuses exactly those that start with a digit or `-` or hold `*` or a bar |
| Elements.TagRefused | src/RefineDom/Document.php:64-97 | createElementFromSelector of a bare tag the DOM refuses, `*` for one, raises DOMException |
| Elements.OperatorAttributeRefused | src/RefineDom/Element.php:229 | createElementFromSelector of `t[a^=v]` or another comparison form raises DOMException, because setAttribute refuses the name `a^` |
| Elements.AttributeRefused | src/RefineDom/Element.php:229 | one selector attribute name that setAttribute refuses makes createElementFromSelector raise |
| Elements.Matches | src/RefineDom/Element.php:142-210 | strict matching, or `has` of `root > trim(selector)` on the wrapper, with the shared cache |
| Elements.MatchSpec | src/RefineDom/Element.php:142-210 | strict: the segment comparison, cache untouched; otherwise the cache compile leaves and the engine answer for `count(E) > 0` of the compiled path |
| Elements.NonStrictTag | src/RefineDom/Element.php:156 | a bare tag `u` becomes `//root/u` |
| Elements.NonStrictUnion | src/RefineDom/Element.php:156 | `t,u` becomes `//root/t`, a bar, then `//u`: only the first clause is anchored |
| Elements.Ancestors | src/RefineDom/Element.php:382-395 | element ancestors nearest first; none when the parent is null or the document |
| Elements.NearestFound | src/RefineDom/Element.php:397-417 | returns the first ancestor that matches when all nearer ones do not |
| Elements.NearestNone | src/RefineDom/Element.php:397-417 | null exactly when no ancestor matches |
| Elements.NearestError | src/RefineDom/Element.php:410 | an error from matches on the first undecided ancestor is raised |
| Elements.NearestIsProperAncestor | src/RefineDom/Element.php:397-417 | the result is a matching proper ancestor, never the element itself |
| Elements.Nearest | src/RefineDom/Element.php:397-417 | a node found is an ancestor the test accepts; without an element parent nothing is found |
| Elements.NearestSpecAncestor | src/RefineDom/Element.php:397-417 | with the cache threaded through, what closest finds is still an ancestor, never the element itself |
| Elements.MatchTransparent | src/RefineDom/Element.php:142-210 | with a consistent cache matches answers as without one and keeps it consistent |
| Elements.Closest | src/RefineDom/Element.php:397-417 | the loop equals NearestSpec, with the cache each matches leaves |
| Elements.ClosestTransparent | src/RefineDom/Element.php:397-417 | from a consistent cache, closest is Nearest with the cache-free test |
| Elements.ClosestStrict | src/RefineDom/Element.php:397-417 | strict closest leaves the cache alone |
| Documents.PutAllValues | src/RefineDom/Document.php:83 | each assigned key has its new value, every other key its old one |
| Documents.PutAllKeys | src/RefineDom/Document.php:83 | the keys already there keep their places in front |
| Documents.PutAll | src/RefineDom/Document.php:83 | the assignments keep the array well formed: each key listed once, exactly the keys that have values |
| Documents.MergeValues | src/RefineDom/Document.php:83 | array_merge's values: the second array wins |
| Documents.MergeKeys | src/RefineDom/Document.php:83 | array_merge keeps the first array's keys in front, in order |
| Documents.Merge | src/RefineDom/Document.php:83 | array_merge keeps the array well formed |
| Documents.SelectorArrayEntries | src/RefineDom/Document.php:79-94 | `#id` and classes override all; selector attributes override the caller's; other caller attributes stay |
| Documents.SelectorArray | src/RefineDom/Document.php:79-94 | the assignments keep the array well formed |
| Documents.ElementOf | src/RefineDom/Document.php:75-97 | once the names are accepted: the tag or `div`; entries as SelectorArrayEntries, with null set as "" |
| Documents.CreatedElement | src/RefineDom/Document.php:75-97 | getSegments' error is raised; otherwise the result is SegmentCreated of the segment |
| Documents.SegmentCreated | src/RefineDom/Document.php:79-97 | succeeds exactly when the tag (or `div`) and every caller and selector attribute name are XML names, giving ElementOf; else DOMException |
| Documents.Created | src/RefineDom/Document.php:64-70 | createElement succeeds exactly when the name and every key are XML names, each value set with null as ""; else DOMException |
| Documents.SelectorNames | src/RefineDom/Document.php:79-94 | the built array's keys are all names exactly when the caller's and the selector's are, `id` and `class` being names |
| Documents.CreatedOf | src/RefineDom/Document.php:75-97 | with names the DOM accepts, the element of the scanned segment |
| Documents.CreateElementFromSelector | src/RefineDom/Document.php:75-97 | the successive assignments and createElement give CreatedElement: getSegments' error, DOMException on a refused name, or ElementOf |
| Documents.AssignSelector | src/RefineDom/Document.php:81-94 | the assignments build SelectorArray |
| Documents.CreateElement | src/RefineDom/Element.php:44-47 | DOMException when the tag or any key is not an XML name; otherwise setAttribute of each entry gives the attribute map |
| Documents.QueryExpression | src/RefineDom/Document.php:246-262 | one `.` in front only with a context and the CSS type; a non-element context raises |
| Documents.WrapNode | src/RefineDom/Document.php:313-328 | element to wrapper, text to data, attribute to value; any other kind raises |
| Documents.WrapAll | src/RefineDom/Document.php:268-274 | succeeds exactly when no node is of another kind, wrapping each in order |
| Documents.Raws | src/RefineDom/Document.php:277-281 | the nodes as they are, in order |
| Documents.Index | src/RefineDom/Document.php:290-295 | null exactly when the index is out of range, else that entry |
| Documents.IndexSpec | src/RefineDom/Document.php:286-296 | find's error passes on; else null exactly when the index is out of range, and that entry otherwise |
| Documents.Has | src/RefineDom/Document.php:227-235 | evaluates `count(E) > 0` for the compiled E, with the cache compile leaves |
| Documents.HasSpec | src/RefineDom/Document.php:227-235 | XPath input is evaluated as given and leaves the cache; otherwise the cache is the one compile leaves, and an error exactly when compile fails |
| Documents.Count | src/RefineDom/Document.php:348-356 | evaluates `count(E)` for the compiled E |
| Documents.Find | src/RefineDom/Document.php:237-284 | compile, the context check and `.`, the query, then wrapping or not |
| Documents.FindSpec | src/RefineDom/Document.php:237-284 | compile's error or the context error is raised; on success one entry per node the engine returns; unwrapped, nothing fails after the context check |
| Documents.WrapNodes | src/RefineDom/Document.php:270-273 | the wrapping foreach equals WrapAll |
| Documents.WrapPrefixFails | src/RefineDom/Document.php:272 | the first node that cannot be wrapped raises for the whole result |
| Documents.RawNodes | src/RefineDom/Document.php:277-280 | the other foreach keeps each node |
| Documents.FindIndex | src/RefineDom/Document.php:286-296 | find, then the entry at the index or null |
| Documents.XPath | src/RefineDom/Document.php:331-334 | find as XPath compiles nothing and leaves the cache |
| Documents.XPathIndex | src/RefineDom/Document.php:336-346 | xPath, then the entry at the index or null |
| Documents.First | src/RefineDom/Document.php:298-311 | one compile, then `(E)[1]` through find as XPath and unwrapped, then the first node wrapped if asked |
| Documents.FirstSpec | src/RefineDom/Document.php:298-311 | compile's error is raised; null exactly when the engine returns no node for `(E)[1]`; unwrapped, its first node as it is |
| Documents.FirstIsXPathIndexZero | src/RefineDom/Document.php:298-311 | when the engine's `(E)[1]` is E's first node, first is xPathIndex(E, 0) |
| Documents.FirstDropsContextDot | src/RefineDom/Document.php:246-262 | with a context element find queries `.E` but first queries `(E)[1]` |

## Left out

- XPath evaluation: DOMXPath, `registerPhpFunctions` and the namespace registration are the parameters `evaluate` and `query`. Nothing here says which nodes an expression selects.
- `function_exists('mb_strtolower')` in convertContains is the flag `mb`, because it depends on the PHP installation.
- Loading, saving and serialising markup are I/O and libxml: `load`, `loadFile`, `html`, `xml` and `innerHtml`.
- The DOM mutators are thin wrappers over PHP's DOM extension: `appendChild`, `replace`, `remove`, `cloneNode` and the attribute setters.
- src/RefineDom/Error.php is not part of this model: it toggles libxml's global error state.
- An element is its tag and attribute map. The text `$value` of createElementFromSelector and of Element's constructor is not modelled, because strict matching never reads it.
- Non-strict matches serialises the element into a new `<root>` document. The model passes the element to `evaluate` in place of that document, because the serialisation is libxml.
- Elements.Node: the parent chain holds elements, the document and null. An element can also sit under a DOMDocumentFragment or an entity reference, which parent() wraps as an Element. Those parents are not modelled. On one, non-strict matches throws its LogicException (Element.php:148-151), and strict matches reads the tag name of a node that is not an element.
- Nth.ParseNth: is_numeric is modelled as PHP 8 has it only for digit strings. Its other forms are not modelled, because `%d` would truncate them: signs, decimals, exponents, and leading or trailing white space. Trailing white space is reachable: `t:nth-child(2 ,x)` gives the parameter `2 `, which PHP 8 accepts as numeric and the model reports as invalid. Leading white space other than a form feed does not survive the trim.
- Nodes.XmlName: libxml's name check is modelled for ASCII. Every character from U+0080 up counts as a name character, although XML excludes a few ranges. The `xmlns` special case of setAttribute is not modelled.
- Nth.PlusOffsetAgrees: holds only for offsets up to PHP_INT_MAX. Above it the printed offset is capped (Nth.LargeOffsetCapped).
- The `%d` cap assumes a 64-bit PHP build, where PHP_INT_MAX is 2^63-1.
- Compiler.SelectorPath, Compiler.Start, Compiler.Chain, Compiler.SegmentPath and Compiler.PseudoPredicate: their own contracts only classify the errors. What they compile to is stated by the prefix lemmas (Compiler.SelectorPrefix and the rest) and by the lemmas of Selectors, Compounds and Axes, for the selector shapes named there. For PseudoPredicate these are the per-case lemmas Selectors.FixedPseudo, NthChildSelector, NthOfTypeSelector, HasSelector, NotSelector, UnknownPseudoSelector, ContainsSelector and ContainsCaseSelector.
- Compounds: segments that mix an id, classes and attributes, or hold three or more attribute tests, are covered only by the general lemmas (Compiler.BasePredicatesShape, BaseClassTests, BaseAttributeTests), not by an end-to-end lemma.
- Elements.CreatedElementMatches: requires a tag and attribute names the DOM accepts, since createElementFromSelector raises otherwise (Elements.TagRefused). It requires the selector's `[...]` attributes not to name `id` or `class`, because the selector's own `#id` and classes would override them. It also requires class names made of class characters, so that joining and exploding them round-trips.
- PHP runtime type checks are left out: `is_array` in setCompiled, `is_string` on values and the Element and DOMElement context check. They are expressed through the types.
- Concurrency of the static cache: PHP runs each request single-threaded.
