/**
 * The static cache of Query::compile and the foreach that fills it, over any
 * function that compiles one trimmed clause (Queries.ClausePath is the one
 * compile uses).  A cache is consistent when every stored path is what
 * compiling its clause gives; compile keeps a consistent cache consistent
 * and then answers as if there were no cache at all.
 */
module Cache {
  import opened Outcomes
  import opened Strings

  /** Query::TYPE_XPATH and Query::TYPE_CSS. */
  const XPathType: string := "XPATH"
  const CssType: string := "CSS"

  /** Each piece trimmed, as the foreach trims each selector before it looks it up. */
  function Trimmed(parts: seq<string>): (keys: seq<string>)
    ensures |keys| == |parts|
    decreases |parts|
  {
    if parts == [] then [] else [Trim(parts[0], TrimChars)] + Trimmed(parts[1..])
  }

  /** The trimmed pieces from the i-th on: the i-th trimmed, then those after it. */
  lemma TrimmedFrom(parts: seq<string>, i: nat)
    requires i < |parts|
    ensures Trimmed(parts[i..]) != []
    ensures Trimmed(parts[i..])[0] == Trim(parts[i], TrimChars)
    ensures Trimmed(parts[i..])[1..] == Trimmed(parts[i + 1..])
  {
    assert parts[i..][1..] == parts[i + 1..];
  }

  /** The clauses of a CSS expression: split on every `,` and trimmed. */
  function Clauses(expression: string): (keys: seq<string>)
    ensures |keys| >= 1
    ensures ',' !in expression ==> keys == [Trim(expression, TrimChars)]
  {
    assert ',' !in expression ==> Explode(",", expression) == [expression] by {
      if ',' !in expression {
        ExplodeWithoutSeparator(",", expression);
      }
    }
    Trimmed(Explode(",", expression))
  }

  /** A comma-free text before the first `,` is the first clause; the rest are the clauses after it. */
  lemma ClausesOfComma(a: string, b: string)
    requires ',' !in a
    ensures Clauses(a + "," + b) == [Trim(a, TrimChars)] + Clauses(b)
  {
    ExplodeAtSeparator(",", a, b);
    var parts := [a] + Explode(",", b);
    assert parts[1..] == Explode(",", b);
  }

  /** A clause list's result with the paths already found put in front. */
  function Extend(paths: seq<string>, r: (Result<seq<string>>, map<string, string>)): (e: (Result<seq<string>>, map<string, string>))
    ensures e.1 == r.1
    ensures e.0.Ok? <==> r.0.Ok?
    ensures r.0.Ok? ==> e.0.value == paths + r.0.value
    ensures r.0.Err? ==> e.0 == r.0
  {
    (if r.0.Ok? then Ok(paths + r.0.value) else r.0, r.1)
  }

  lemma ExtendNothing(r: (Result<seq<string>>, map<string, string>))
    ensures Extend([], r) == r
  {
    if r.0.Ok? {
      assert [] + r.0.value == r.0.value;
    }
  }

  lemma ExtendTwice(paths: seq<string>, more: seq<string>, r: (Result<seq<string>>, map<string, string>))
    ensures Extend(paths, Extend(more, r)) == Extend(paths + more, r)
  {
    if r.0.Ok? {
      assert paths + (more + r.0.value) == paths + more + r.0.value;
    }
  }

  /**
   * One trimmed clause against the cache: the stored path on a hit; on a
   * miss the compiled path, stored only when compiling succeeds.
   */
  function Lookup(cache: map<string, string>, key: string, compile: string -> Result<string>): (r: (Result<string>, map<string, string>))
    ensures key in cache ==> r == (Ok(cache[key]), cache)
    ensures key !in cache ==> r.0 == compile(key)
    ensures r.0.Ok? ==> key in r.1 && r.1[key] == r.0.value
    ensures forall k :: k in cache ==> k in r.1 && r.1[k] == cache[k]
    ensures forall k :: k in r.1 ==> k in cache || (k == key && r.0.Ok?)
  {
    if key in cache then (Ok(cache[key]), cache)
    else
      var path := compile(key);
      (path, if path.Ok? then cache[key := path.value] else cache)
  }

  /**
   * The foreach of compile from a given cache, over the trimmed clauses: the
   * paths and the cache afterwards.  An error ends the loop, and what was
   * stored before it stays stored.
   */
  function CompileClauses(cache: map<string, string>, keys: seq<string>, compile: string -> Result<string>): (r: (Result<seq<string>>, map<string, string>))
    ensures r.0.Ok? ==> |r.0.value| == |keys|
    ensures forall k :: k in cache ==> k in r.1 && r.1[k] == cache[k]
    ensures forall k :: k in r.1 ==> k in cache || k in keys
    decreases |keys|
  {
    if keys == [] then (Ok([]), cache)
    else
      var (path, updated) := Lookup(cache, keys[0], compile);
      if path.Err? then (Err(path.error), updated)
      else Extend([path.value], CompileClauses(updated, keys[1..], compile))
  }

  /** One round of the foreach: the first clause against the cache, then the rest. */
  lemma ClauseStep(cache: map<string, string>, keys: seq<string>, compile: string -> Result<string>)
    requires keys != []
    ensures var (path, updated) := Lookup(cache, keys[0], compile);
      CompileClauses(cache, keys, compile)
      == if path.Err? then (Err(path.error), updated) else Extend([path.value], CompileClauses(updated, keys[1..], compile))
  {
  }

  /** What compile returns and what the cache holds afterwards. */
  function CompileSpec(cache: map<string, string>, expression: string, queryType: string, compile: string -> Result<string>): (r: (Result<string>, map<string, string>))
    ensures queryType == XPathType ==> r == (Ok(expression), cache)
    ensures queryType != XPathType ==> r.1 == CompileClauses(cache, Clauses(expression), compile).1
  {
    if queryType == XPathType then (Ok(expression), cache)
    else
      var (paths, updated) := CompileClauses(cache, Clauses(expression), compile);
      (if paths.Ok? then Ok(Join("|", paths.value)) else Err(paths.error), updated)
  }

  /** Every stored clause maps to the path compiling it gives. */
  predicate Consistent(cache: map<string, string>, compile: string -> Result<string>) {
    forall k :: k in cache ==> compile(k) == Ok(cache[k])
  }

  /** Compiling the clauses one after the other, with no cache, up to the first error. */
  function PureClauses(keys: seq<string>, compile: string -> Result<string>): (r: Result<seq<string>>)
    ensures r.Ok? ==> |r.value| == |keys|
    decreases |keys|
  {
    if keys == [] then Ok([])
    else
      var path :- compile(keys[0]);
      var rest :- PureClauses(keys[1..], compile);
      Ok([path] + rest)
  }

  /** compile without a cache: XPath as given, CSS split on `,`, compiled and joined with `|`. */
  function PureCompile(expression: string, queryType: string, compile: string -> Result<string>): (r: Result<string>)
    ensures queryType == XPathType ==> r == Ok(expression)
  {
    if queryType == XPathType then Ok(expression)
    else
      var paths :- PureClauses(Clauses(expression), compile);
      Ok(Join("|", paths))
  }

  /**
   * A selector list is the union of its clauses: the path of `a,b` with a
   * comma-free `a` is the path of `a`, a `|`, and the path of `b`; the first
   * error wins.  A comma inside a pseudo-class argument splits the clause
   * just the same.
   */
  lemma CommaUnion(a: string, b: string, compile: string -> Result<string>)
    requires ',' !in a
    ensures var first, rest := compile(Trim(a, TrimChars)), PureCompile(b, CssType, compile);
      PureCompile(a + "," + b, CssType, compile)
      == if first.Err? then first else if rest.Err? then rest else Ok(first.value + "|" + rest.value)
  {
    ClausesOfComma(a, b);
    var keys := [Trim(a, TrimChars)] + Clauses(b);
    assert keys[0] == Trim(a, TrimChars) && keys[1..] == Clauses(b);
    var first := compile(Trim(a, TrimChars));
    var more := PureClauses(Clauses(b), compile);
    if first.Ok? && more.Ok? {
      JoinCons("|", first.value, more.value);
    }
  }

  /** A comma-free CSS expression is one clause: its trimmed text compiled. */
  lemma SingleClause(expression: string, compile: string -> Result<string>)
    requires ',' !in expression
    ensures PureCompile(expression, CssType, compile) == compile(Trim(expression, TrimChars))
  {
    var k := Trim(expression, TrimChars);
    assert Clauses(expression) == [k];
    OneClause(k, compile);
  }

  lemma OneClause(k: string, compile: string -> Result<string>)
    ensures compile(k).Ok? ==> PureClauses([k], compile) == Ok([compile(k).value])
    ensures compile(k).Err? ==> PureClauses([k], compile) == Err(compile(k).error)
  {
    assert [k][1..] == [];
    assert PureClauses([], compile) == Ok([]);
    if compile(k).Ok? {
      assert [compile(k).value] + [] == [compile(k).value];
    }
  }

  /** A consistent cache gives the path compiling would give, and stays consistent. */
  lemma LookupConsistent(cache: map<string, string>, key: string, compile: string -> Result<string>)
    requires Consistent(cache, compile)
    ensures Lookup(cache, key, compile).0 == compile(key)
    ensures Consistent(Lookup(cache, key, compile).1, compile)
  {
    if key !in cache {
      var path := compile(key);
      if path.Ok? {
        var updated := cache[key := path.value];
        forall k | k in updated ensures compile(k) == Ok(updated[k]) {
          if k != key {
            assert k in cache;
          }
        }
      }
    }
  }

  /** From a consistent cache, the foreach gives the cache-free paths and leaves the cache consistent. */
  lemma {:induction false} ClausesTransparent(cache: map<string, string>, keys: seq<string>, compile: string -> Result<string>)
    requires Consistent(cache, compile)
    ensures CompileClauses(cache, keys, compile).0 == PureClauses(keys, compile)
    ensures Consistent(CompileClauses(cache, keys, compile).1, compile)
    decreases |keys|
  {
    if keys != [] {
      LookupConsistent(cache, keys[0], compile);
      var (path, updated) := Lookup(cache, keys[0], compile);
      if path.Ok? {
        ClausesTransparent(updated, keys[1..], compile);
      }
    }
  }

  /** compile from a consistent cache answers exactly as compiling without one, and the cache stays consistent. */
  lemma CompileTransparent(cache: map<string, string>, expression: string, queryType: string, compile: string -> Result<string>)
    requires Consistent(cache, compile)
    ensures CompileSpec(cache, expression, queryType, compile).0 == PureCompile(expression, queryType, compile)
    ensures Consistent(CompileSpec(cache, expression, queryType, compile).1, compile)
  {
    if queryType != XPathType {
      ClausesTransparent(cache, Clauses(expression), compile);
    }
  }

  /** The empty cache a fresh Query starts with is consistent. */
  lemma EmptyConsistent(compile: string -> Result<string>)
    ensures Consistent(map[], compile)
  {
  }

  /**
   * The cache only grows: stored clauses keep their paths, and a clause that
   * was not stored before is stored with the path compiling gives it.
   */
  lemma {:induction false} CacheGrows(cache: map<string, string>, keys: seq<string>, compile: string -> Result<string>)
    ensures var after := CompileClauses(cache, keys, compile).1;
      forall k :: k in cache ==> k in after && after[k] == cache[k]
    ensures var after := CompileClauses(cache, keys, compile).1;
      forall k :: k in after && k !in cache ==> compile(k) == Ok(after[k])
    decreases |keys|
  {
    if keys != [] {
      var (path, updated) := Lookup(cache, keys[0], compile);
      if path.Ok? {
        CacheGrows(updated, keys[1..], compile);
      }
    }
  }

  /**
   * After a successful foreach, every clause is stored, and the i-th path
   * returned is the one stored for the i-th clause.
   */
  lemma {:induction false} FillsCache(cache: map<string, string>, keys: seq<string>, compile: string -> Result<string>)
    ensures var (paths, after) := CompileClauses(cache, keys, compile);
      paths.Ok? ==>
        (|paths.value| == |keys| && forall i :: 0 <= i < |keys| ==> keys[i] in after && paths.value[i] == after[keys[i]])
    decreases |keys|
  {
    if keys != [] {
      var (path, updated) := Lookup(cache, keys[0], compile);
      if path.Ok? {
        FillsCache(updated, keys[1..], compile);
        CacheGrows(updated, keys[1..], compile);
        var (paths, after) := CompileClauses(cache, keys, compile);
        if paths.Ok? {
          assert keys[0] in updated && updated[keys[0]] == path.value;
          forall i | 0 <= i < |keys| ensures keys[i] in after && paths.value[i] == after[keys[i]] {
            if i > 0 {
              assert keys[1..][i - 1] == keys[i];
            }
          }
        }
      }
    }
  }

  /** When every clause is stored, the foreach compiles nothing: it returns the stored paths and changes nothing. */
  lemma {:induction false} AllCached(cache: map<string, string>, keys: seq<string>, compile: string -> Result<string>)
    requires forall i :: 0 <= i < |keys| ==> keys[i] in cache
    ensures var (paths, after) := CompileClauses(cache, keys, compile);
      after == cache && paths.Ok? && |paths.value| == |keys|
        && forall i :: 0 <= i < |keys| ==> paths.value[i] == cache[keys[i]]
    decreases |keys|
  {
    if keys != [] {
      assert forall i :: 0 <= i < |keys| - 1 ==> keys[1..][i] == keys[i + 1];
      AllCached(cache, keys[1..], compile);
      var rest := CompileClauses(cache, keys[1..], compile).0.value;
      forall i | 1 <= i < |keys| ensures ([cache[keys[0]]] + rest)[i] == cache[keys[i]] {
        assert keys[1..][i - 1] == keys[i];
      }
    }
  }

  /** Compiling the same expression again returns the same result and leaves the cache as it was. */
  lemma CompileAgain(cache: map<string, string>, expression: string, queryType: string, compile: string -> Result<string>)
    requires CompileSpec(cache, expression, queryType, compile).0.Ok?
    ensures var (r, after) := CompileSpec(cache, expression, queryType, compile);
      CompileSpec(after, expression, queryType, compile) == (r, after)
  {
    if queryType != XPathType {
      var keys := Clauses(expression);
      FillsCache(cache, keys, compile);
      var (paths, after) := CompileClauses(cache, keys, compile);
      AllCached(after, keys, compile);
      var (again, same) := CompileClauses(after, keys, compile);
      assert again.value == paths.value;
    }
  }

  /**
   * compile is not all-or-nothing: the clauses before a failing one stay
   * stored, as long as each of them was stored or compiles.
   */
  lemma {:induction false} StoredBeforeError(cache: map<string, string>, keys: seq<string>, j: nat, compile: string -> Result<string>)
    requires j <= |keys|
    requires forall i :: 0 <= i < j ==> keys[i] in cache || compile(keys[i]).Ok?
    ensures forall i :: 0 <= i < j ==> keys[i] in CompileClauses(cache, keys, compile).1
    decreases |keys|
  {
    if j > 0 {
      var (path, updated) := Lookup(cache, keys[0], compile);
      assert path.Ok? && keys[0] in updated;
      assert forall i :: 0 <= i < j - 1 ==> keys[1..][i] == keys[i + 1];
      StoredBeforeError(updated, keys[1..], j - 1, compile);
      CacheGrows(updated, keys[1..], compile);
      forall i | 0 <= i < j ensures keys[i] in CompileClauses(cache, keys, compile).1 {
        if i > 0 {
          assert keys[1..][i - 1] == keys[i];
        }
      }
    }
  }
}
