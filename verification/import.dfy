/**
 * The import plumbing of a document (`StateParser` and `Into<State>` in
 * src/state/mod.rs). Regular-expression matching is not modelled: the matches
 * of each pattern arrive as sequences of strings, and pattern tests on a line
 * arrive as predicates. `SoundChange::parse` is a function parameter.
 */
module DocumentImport {
  import opened Wrappers
  import opened LanguageImport

  datatype ImportError = InvalidData

  // ---------------------------------------------------------------------------
  // `collect_matches`: every match is pushed, in order; a failing push only
  // raises a flag, and the flag turns the whole collection into an error.

  /** Pushes every match in order; the flag is the `or` of every push's failure flag. */
  function Fold<T>(push: (T, string) -> (T, bool), coll: T, ms: seq<string>): (T, bool)
    decreases |ms|
  {
    if ms == [] then (coll, false)
    else
      var (next, failed) := push(coll, ms[0]);
      var (last, failedLater) := Fold(push, next, ms[1..]);
      (last, failed || failedLater)
  }

  /** `collect_matches`: Err exactly when some push failed, otherwise the collection after all pushes. */
  method CollectMatches<T>(matches: seq<string>, collection: T, push: (T, string) -> (T, bool))
    returns (r: Result<T, ImportError>)
    ensures r == if Fold(push, collection, matches).1 then Err(InvalidData) else Ok(Fold(push, collection, matches).0)
  {
    var coll := collection;
    var pushResult := false;
    var i := 0;
    while i < |matches|
      invariant i <= |matches|
      invariant Fold(push, collection, matches) ==
        (Fold(push, coll, matches[i..]).0, pushResult || Fold(push, coll, matches[i..]).1)
    {
      assert matches[i..][1..] == matches[i + 1..];
      var (next, failed) := push(coll, matches[i]);
      coll := next;
      pushResult := pushResult || failed;
      i := i + 1;
    }
    if pushResult {
      r := Err(InvalidData);
    } else {
      r := Ok(coll);
    }
  }

  // ---------------------------------------------------------------------------
  // `split_once`

  /** The first position of `c` in `s`. */
  function IndexOf(s: string, c: char): (r: Option<nat>)
    ensures r.Some? ==> r.value < |s| && s[r.value] == c && c !in s[..r.value]
    ensures r.None? <==> c !in s
  {
    if s == [] then None
    else if s[0] == c then Some(0)
    else match IndexOf(s[1..], c)
      case None => None
      case Some(j) => assert s[1..][..j] == s[1..j + 1]; Some(j + 1)
  }

  /** `split_once(c)`: the text before and after the first `c`, or None without one. */
  function SplitOnce(s: string, c: char): (r: Option<(string, string)>)
    ensures r.None? <==> c !in s
    ensures r.Some? ==> s == r.value.0 + [c] + r.value.1 && c !in r.value.0
  {
    match IndexOf(s, c)
      case None => None
      case Some(j) =>
        assert s == s[..j] + [c] + s[j + 1..];
        Some((s[..j], s[j + 1..]))
  }

  /** The category push: a match splits at its first `=` into key and members, or fails without one. */
  function CategoryPush(categories: seq<(string, string)>, m: string): (seq<(string, string)>, bool) {
    match SplitOnce(m, '=')
      case Some(category) => (categories + [category], false)
      case None => (categories, true)
  }

  /** The categories a list of matches yields: the split of every match holding `=`, in order. */
  function Splits(ms: seq<string>, c: char): (r: seq<(string, string)>)
    ensures |r| <= |ms|
    ensures (forall i :: 0 <= i < |ms| ==> c in ms[i]) ==> |r| == |ms|
  {
    if ms == [] then []
    else
      var rest := Splits(ms[1..], c);
      match SplitOnce(ms[0], c)
        case Some(p) => [p] + rest
        case None => rest
  }

  /**
   * The category fold pushes every split, including those after a match
   * without `=`, and fails exactly when some match has no `=`.
   */
  lemma {:induction false} CategoryFold(coll: seq<(string, string)>, ms: seq<string>)
    ensures Fold(CategoryPush, coll, ms).0 == coll + Splits(ms, '=')
    ensures Fold(CategoryPush, coll, ms).1 <==> exists m :: m in ms && '=' !in m
    decreases |ms|
  {
    if ms != [] {
      var (next, failed) := CategoryPush(coll, ms[0]);
      CategoryFold(next, ms[1..]);
      assert Fold(CategoryPush, coll, ms).0 == Fold(CategoryPush, next, ms[1..]).0;
      assert Fold(CategoryPush, coll, ms).1 == (failed || Fold(CategoryPush, next, ms[1..]).1);
      assert ms == [ms[0]] + ms[1..];
      match SplitOnce(ms[0], '=') {
        case Some(c) =>
          assert next + Splits(ms[1..], '=') == coll + ([c] + Splits(ms[1..], '='));
        case None =>
      }
    } else {
      assert coll + Splits(ms, '=') == coll;
    }
  }

  /**
   * The category push as corrected: a match whose first `=` is its first
   * character has an empty key, which the tokenizer cannot abbreviate, so it
   * fails like a match without `=`.
   */
  function CategoryPushChecked(categories: seq<(string, string)>, m: string): (r: (seq<(string, string)>, bool))
    ensures !r.1 ==> r.0 == CategoryPush(categories, m).0 && |r.0| == |categories| + 1 && |r.0[|categories|].0| > 0
    ensures r.1 ==> r.0 == categories
    ensures r.1 <==> ('=' !in m || m[0] == '=')
  {
    match SplitOnce(m, '=')
      case Some(category) => if category.0 == [] then (categories, true) else (categories + [category], false)
      case None => (categories, true)
  }

  /** Every category the corrected fold collects has a non-empty key. */
  lemma {:induction false} CheckedFoldKeysNonEmpty(coll: seq<(string, string)>, ms: seq<string>)
    requires forall i :: 0 <= i < |coll| ==> |coll[i].0| > 0
    ensures forall i :: 0 <= i < |Fold(CategoryPushChecked, coll, ms).0| ==> |Fold(CategoryPushChecked, coll, ms).0[i].0| > 0
    decreases |ms|
  {
    if ms != [] {
      CheckedFoldKeysNonEmpty(CategoryPushChecked(coll, ms[0]).0, ms[1..]);
    }
  }

  /** Where no match lacks `=` or starts with it, the corrected fold collects what the fold as written does. */
  lemma {:induction false} CheckedFoldAgrees(coll: seq<(string, string)>, ms: seq<string>)
    requires forall i :: 0 <= i < |ms| ==> '=' in ms[i] && ms[i][0] != '='
    ensures Fold(CategoryPushChecked, coll, ms).0 == Fold(CategoryPush, coll, ms).0
    decreases |ms|
  {
    if ms != [] {
      CheckedFoldAgrees(CategoryPush(coll, ms[0]).0, ms[1..]);
    }
  }

  /** As written: the match "==x" of `\S=\S*` is accepted with an empty key. */
  lemma CategoryPushEmptyKey()
    ensures CategoryPush([], "==x") == ([("", "=x")], false)
    ensures CategoryPushChecked([], "==x").1
  {
    assert "==x"[0] == '=';
    assert IndexOf("==x", '=') == Some(0);
    assert "==x"[..0] == "" && "==x"[1..] == "=x";
    assert SplitOnce("==x", '=') == Some(("", "=x"));
    assert [] + [("", "=x")] == [("", "=x")];
  }

  // ---------------------------------------------------------------------------
  // The rewrite rules: a bidirectional map, where inserting a pair evicts any
  // pair with the same left side or the same right side.

  /** Left sides are unique and right sides are unique. */
  predicate BiUnique(rules: seq<(string, string)>) {
    forall i, j :: 0 <= i < j < |rules| ==> rules[i].0 != rules[j].0 && rules[i].1 != rules[j].1
  }

  /** The pairs that share neither side with `(l, r)`, in order. */
  function Evict(rules: seq<(string, string)>, l: string, r: string): (res: seq<(string, string)>)
    ensures forall p :: p in res <==> p in rules && p.0 != l && p.1 != r
    ensures BiUnique(rules) ==> BiUnique(res)
  {
    if rules == [] then []
    else
      var rest := Evict(rules[1..], l, r);
      assert forall p :: p in rules <==> p == rules[0] || p in rules[1..];
      if rules[0].0 != l && rules[0].1 != r then [rules[0]] + rest else rest
  }

  /** `BiHashMap::insert`: the new pair replaces every pair it shares a side with. */
  function BiInsert(rules: seq<(string, string)>, l: string, r: string): (res: seq<(string, string)>)
    ensures (l, r) in res
    ensures forall p :: p in res && p != (l, r) ==> p in rules && p.0 != l && p.1 != r
    ensures forall p :: p in rules && p.0 != l && p.1 != r ==> p in res
    ensures BiUnique(rules) ==> BiUnique(res)
  {
    Evict(rules, l, r) + [(l, r)]
  }

  /** The rewrite-rule push: a match splits at its first `|` into (from, to), or fails without one. */
  function RulePush(rules: seq<(string, string)>, m: string): (seq<(string, string)>, bool) {
    match SplitOnce(m, '|')
      case Some((from, to)) => (BiInsert(rules, from, to), false)
      case None => (rules, true)
  }

  /** The rule fold keeps both sides unique and fails exactly when some match has no `|`. */
  lemma {:induction false} RuleFold(rules: seq<(string, string)>, ms: seq<string>)
    requires BiUnique(rules)
    ensures BiUnique(Fold(RulePush, rules, ms).0)
    ensures Fold(RulePush, rules, ms).1 <==> exists m :: m in ms && '|' !in m
    decreases |ms|
  {
    if ms != [] {
      RuleFold(RulePush(rules, ms[0]).0, ms[1..]);
      assert forall m :: m in ms <==> m == ms[0] || m in ms[1..];
    }
  }

  /** The sound-change push keeps every match and never fails. */
  function SoundChangePush(changes: seq<string>, m: string): (seq<string>, bool) {
    (changes + [m], false)
  }

  /** The sound-change fold keeps every match, in order, and never fails. */
  lemma {:induction false} SoundChangeFold(coll: seq<string>, ms: seq<string>)
    ensures Fold(SoundChangePush, coll, ms) == (coll + ms, false)
    decreases |ms|
  {
    if ms != [] {
      SoundChangeFold(coll + [ms[0]], ms[1..]);
      assert SoundChangePush(coll, ms[0]) == (coll + [ms[0]], false);
      assert Fold(SoundChangePush, coll, ms) == Fold(SoundChangePush, coll + [ms[0]], ms[1..]);
      assert ms == [ms[0]] + ms[1..];
      assert coll + [ms[0]] + ms[1..] == coll + ms;
    } else {
      assert coll + ms == coll;
    }
  }

  // ---------------------------------------------------------------------------
  // The lexicon filter

  /** The patterns a line is tested against. */
  datatype Patterns = Patterns(
    category: string -> bool,
    rewriteRule: string -> bool,
    soundChange: string -> bool,
    lexicon: string -> bool)

  /** A line is a lexicon entry when it is none of the other kinds and matches the lexicon pattern. */
  predicate IsLexiconLine(line: string, p: Patterns) {
    !(p.category(line) || p.rewriteRule(line) || p.soundChange(line)) && p.lexicon(line)
  }

  /** The lexicon: the lines that are lexicon entries, in document order. */
  function Lexicon(lines: seq<string>, p: Patterns): (r: seq<string>)
    ensures |r| <= |lines|
    ensures forall x :: x in r <==> x in lines && IsLexiconLine(x, p)
  {
    if lines == [] then []
    else
      var rest := Lexicon(lines[1..], p);
      assert forall x :: x in lines <==> x == lines[0] || x in lines[1..];
      if IsLexiconLine(lines[0], p) then [lines[0]] + rest else rest
  }

  /** The lexicon of a joined document is the lexicon of each part, joined. */
  lemma {:induction false} LexiconAppend(a: seq<string>, b: seq<string>, p: Patterns)
    ensures Lexicon(a + b, p) == Lexicon(a, p) + Lexicon(b, p)
  {
    if a != [] {
      assert (a + b)[1..] == a[1..] + b;
      assert (a + b)[0] == a[0];
      LexiconAppend(a[1..], b, p);
      assert Lexicon(a + b, p) == (if IsLexiconLine(a[0], p) then [a[0]] else []) + Lexicon(a[1..] + b, p);
      assert Lexicon(a, p) == (if IsLexiconLine(a[0], p) then [a[0]] else []) + Lexicon(a[1..], p);
      if IsLexiconLine(a[0], p) {
        assert [a[0]] + (Lexicon(a[1..], p) + Lexicon(b, p)) == ([a[0]] + Lexicon(a[1..], p)) + Lexicon(b, p);
      }
    } else {
      assert a + b == b;
    }
  }

  // ---------------------------------------------------------------------------
  // The split of compiled rules into good and broken ones

  /** The rules that compiled, in order. */
  function Compiled<R>(raws: seq<string>, parse: string -> Result<R, string>): seq<R> {
    if raws == [] then []
    else match parse(raws[0])
      case Ok(rule) => [rule] + Compiled(raws[1..], parse)
      case Err(_) => Compiled(raws[1..], parse)
  }

  /** The error texts of the rules that did not compile, in order. */
  function Broken<R>(raws: seq<string>, parse: string -> Result<R, string>): seq<string> {
    if raws == [] then []
    else match parse(raws[0])
      case Ok(_) => Broken(raws[1..], parse)
      case Err(e) => [e] + Broken(raws[1..], parse)
  }

  /** Every raw rule lands in exactly one of the two lists. */
  lemma {:induction false} PartitionCounts<R>(raws: seq<string>, parse: string -> Result<R, string>)
    ensures |Compiled(raws, parse)| + |Broken(raws, parse)| == |raws|
  {
    if raws != [] {
      PartitionCounts(raws[1..], parse);
    }
  }

  /** Appending a raw rule appends it to the one list its compilation selects. */
  lemma CompiledSnoc<R>(raws: seq<string>, x: string, parse: string -> Result<R, string>)
    ensures Compiled(raws + [x], parse) == Compiled(raws, parse) + (if parse(x).Ok? then [parse(x).value] else [])
    ensures Broken(raws + [x], parse) == Broken(raws, parse) + (if parse(x).Err? then [parse(x).error] else [])
  {
    if raws != [] {
      assert (raws + [x])[1..] == raws[1..] + [x];
      CompiledSnoc(raws[1..], x, parse);
    }
  }

  /** The compile loop of `Into<State>`: good rules are collected, errors pushed into `broken`. */
  method Partition<R>(raws: seq<string>, parse: string -> Result<R, string>)
    returns (soundChanges: seq<R>, broken: seq<string>)
    ensures soundChanges == Compiled(raws, parse)
    ensures broken == Broken(raws, parse)
    ensures |soundChanges| + |broken| == |raws|
  {
    soundChanges, broken := [], [];
    var i := 0;
    while i < |raws|
      invariant i <= |raws|
      invariant soundChanges == Compiled(raws[..i], parse)
      invariant broken == Broken(raws[..i], parse)
    {
      CompiledSnoc(raws[..i], raws[i], parse);
      assert raws[..i + 1] == raws[..i] + [raws[i]];
      match parse(raws[i]) {
        case Ok(rule) => soundChanges := soundChanges + [rule];
        case Err(e) => broken := broken + [e];
      }
      i := i + 1;
    }
    assert raws[..i] == raws;
    PartitionCounts(raws, parse);
  }

  // ---------------------------------------------------------------------------
  // The whole import

  /** The parts of an imported document. */
  datatype Parsed = Parsed(
    categories: seq<(string, string)>,
    rewriteRules: seq<(string, string)>,
    soundChanges: seq<string>,
    lexicon: seq<string>)

  /**
   * `StateParser::init_from_str` over given matches: the three collections in
   * order, stopping at the first one that fails, then the lexicon lines.
   * Categories are collected with the corrected push.
   */
  method InitFromMatches(categoryMatches: seq<string>, ruleMatches: seq<string>, changeMatches: seq<string>,
                         lines: seq<string>, p: Patterns)
    returns (r: Result<Parsed, ImportError>)
    ensures r.Ok? <==> !(exists m :: m in categoryMatches && ('=' !in m || m[0] == '=')) &&
                       !(exists m :: m in ruleMatches && '|' !in m)
    ensures r.Ok? ==> r.value.categories == Splits(categoryMatches, '=') && |r.value.categories| == |categoryMatches|
    ensures r.Ok? ==> forall i :: 0 <= i < |r.value.categories| ==> |r.value.categories[i].0| > 0
    ensures r.Ok? ==> r.value.rewriteRules == Fold(RulePush, [], ruleMatches).0 && BiUnique(r.value.rewriteRules)
    ensures r.Ok? ==> r.value.soundChanges == changeMatches && r.value.lexicon == Lexicon(lines, p)
  {
    CheckedFoldFails([], categoryMatches);
    CheckedFoldKeysNonEmpty([], categoryMatches);
    var categories := CollectMatches(categoryMatches, [], CategoryPushChecked);
    if categories.Err? {
      return Err(categories.error);
    }
    assert forall i :: 0 <= i < |categoryMatches| ==> '=' in categoryMatches[i] && categoryMatches[i][0] != '=';
    CheckedFoldAgrees([], categoryMatches);
    CategoryFold([], categoryMatches);
    RuleFold([], ruleMatches);
    var rules := CollectMatches(ruleMatches, [], RulePush);
    if rules.Err? {
      return Err(rules.error);
    }
    SoundChangeFold([], changeMatches);
    var changes := CollectMatches(changeMatches, [], SoundChangePush);
    r := Ok(Parsed(categories.value, rules.value, changes.value, Lexicon(lines, p)));
  }

  /** The corrected category fold fails exactly when some match has no `=` or starts with it. */
  lemma {:induction false} CheckedFoldFails(coll: seq<(string, string)>, ms: seq<string>)
    ensures Fold(CategoryPushChecked, coll, ms).1 <==> exists m :: m in ms && ('=' !in m || m[0] == '=')
    decreases |ms|
  {
    if ms != [] {
      CheckedFoldFails(CategoryPushChecked(coll, ms[0]).0, ms[1..]);
      assert forall m :: m in ms <==> m == ms[0] || m in ms[1..];
    }
  }
}
