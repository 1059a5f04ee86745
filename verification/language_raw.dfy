/**
 * The import-time tokenizer of the symbol inventory (`LanguageRaw::parse` in
 * src/types/language.rs): every category line `K=abc…` becomes one group
 * entry whose phonemes are the rewrite-rule sources found in the category
 * text, followed by the characters of the text one by one, leaving out the
 * positions the walk skips. When the first occurrences of the found sources
 * do not overlap, those are exactly the positions of the sources; when they
 * overlap, a character inside a later source can be pushed on its own.
 *
 * Rewrite rules are the `from|to` pairs of the document, in the iteration
 * order of their bidirectional map; romanization maps a phoneme to its
 * grapheme.
 */
module LanguageImport {
  import opened Wrappers
  import opened GroupNames

  /** A parsed category: its group name and its raw phonemes with optional graphemes. */
  type RawPhoneme = (string, Option<string>)
  type RawGroup = (GroupName, seq<RawPhoneme>)

  // ---------------------------------------------------------------------------
  // Substring search (`str::find`)

  predicate OccursAt(s: string, sub: string, p: nat) {
    p + |sub| <= |s| && s[p..p + |sub|] == sub
  }

  /** The first position at or after `from` where `sub` occurs. */
  function FindFrom(s: string, sub: string, from: nat): (r: Option<nat>)
    decreases |s| - from
    ensures r.Some? ==> from <= r.value && OccursAt(s, sub, r.value)
    ensures r.Some? ==> forall p :: from <= p < r.value ==> !OccursAt(s, sub, p)
    ensures r.None? ==> forall p :: from <= p ==> !OccursAt(s, sub, p)
  {
    if from + |sub| > |s| then None
    else if s[from..from + |sub|] == sub then Some(from)
    else FindFrom(s, sub, from + 1)
  }

  /** The first occurrence of `sub` in `s`, if any. */
  function Find(s: string, sub: string): (r: Option<nat>)
    ensures r.Some? ==> OccursAt(s, sub, r.value) && forall p: nat :: p < r.value ==> !OccursAt(s, sub, p)
    ensures r.None? ==> forall p: nat :: !OccursAt(s, sub, p)
  {
    FindFrom(s, sub, 0)
  }

  // ---------------------------------------------------------------------------
  // The mask of rewrite sources (language.rs:28-39)

  /**
   * The mask after trying every source in order: the first occurrence of each
   * found source maps to its length in characters (a later source found at the
   * same position overwrites the entry).
   */
  function MaskOf(raw: string, sources: seq<string>): map<nat, nat>
  {
    if sources == [] then map[]
    else
      var m := MaskOf(raw, sources[..|sources| - 1]);
      var src := sources[|sources| - 1];
      match Find(raw, src)
      case Some(p) => m[p := |src|]
      case None => m
  }

  /** The sources found in the category text, in the order they were tried; each is pushed once. */
  function FoundSources(raw: string, sources: seq<string>): (r: seq<string>)
    ensures |r| <= |sources|
    ensures forall x :: x in r <==> x in sources && Find(raw, x).Some?
  {
    if sources == [] then []
    else
      var r := FoundSources(raw, sources[..|sources| - 1]);
      var src := sources[|sources| - 1];
      assert sources == sources[..|sources| - 1] + [src];
      if Find(raw, src).Some? then r + [src] else r
  }

  /** Every mask entry sits where its source occurs first. */
  lemma {:induction false} MaskEntriesAreOccurrences(raw: string, sources: seq<string>, p: nat)
    requires p in MaskOf(raw, sources)
    ensures exists src :: src in sources && Find(raw, src) == Some(p) && |src| == MaskOf(raw, sources)[p]
  {
    var init := sources[..|sources| - 1];
    var src := sources[|sources| - 1];
    assert sources == init + [src];
    if Find(raw, src) == Some(p) {
      assert src in sources;
    } else {
      MaskEntriesAreOccurrences(raw, init, p);
      var w :| w in init && Find(raw, w) == Some(p) && |w| == MaskOf(raw, init)[p];
      assert w in sources;
    }
  }

  // ---------------------------------------------------------------------------
  // The character walk with its skip counter (language.rs:41-65)

  /** Each character of `t` as a one-character phoneme. */
  function Chars(t: string): (r: seq<string>)
    ensures |r| == |t|
    ensures forall j :: 0 <= j < |t| ==> r[j] == [t[j]]
  {
    if t == [] then [] else [[t[0]]] + Chars(t[1..])
  }

  /** How many positions a masked index skips after itself. */
  function SkipAfter(len: nat, asWritten: bool): nat {
    if asWritten then len else if len == 0 then 0 else len - 1
  }

  /**
   * The phonemes pushed by the walk from position `i` with `skip` pending:
   * a pending skip consumes the position, a masked position starts a new skip
   * and pushes nothing, any other position pushes its own character. With
   * `asWritten` the new skip is the source's length (as the code does); the
   * corrected walk skips one position fewer, so that the masked position and
   * the skipped ones together cover exactly the source.
   */
  function Walk(s: string, mask: map<nat, nat>, i: nat, skip: nat, asWritten: bool): seq<string>
    decreases |s| - i
  {
    if i >= |s| then []
    else if skip > 0 then Walk(s, mask, i + 1, skip - 1, asWritten)
    else if i in mask then Walk(s, mask, i + 1, SkipAfter(mask[i], asWritten), asWritten)
    else [[s[i]]] + Walk(s, mask, i + 1, 0, asWritten)
  }

  /** Everything the walk pushes is a single character of the text at an unmasked position. */
  lemma {:induction false} WalkPushesSingleChars(s: string, mask: map<nat, nat>, i: nat, skip: nat, asWritten: bool, x: string)
    requires x in Walk(s, mask, i, skip, asWritten)
    ensures exists j :: i <= j < |s| && j !in mask && x == [s[j]]
    decreases |s| - i
  {
    if skip > 0 {
      WalkPushesSingleChars(s, mask, i + 1, skip - 1, asWritten, x);
    } else if i in mask {
      WalkPushesSingleChars(s, mask, i + 1, SkipAfter(mask[i], asWritten), asWritten, x);
    } else if x != [s[i]] {
      WalkPushesSingleChars(s, mask, i + 1, 0, asWritten, x);
    }
  }

  /** Without any rewrite source every position pushes exactly its own character. */
  lemma {:induction false} WalkWithoutMask(s: string, i: nat, asWritten: bool)
    requires i <= |s|
    ensures Walk(s, map[], i, 0, asWritten) == Chars(s[i..])
    decreases |s| - i
  {
    if i < |s| {
      WalkWithoutMask(s, i + 1, asWritten);
      assert s[i..][1..] == s[i + 1..];
    }
  }

  /** Past the only masked position, the walk finishes the pending skip and then pushes every character. */
  lemma {:induction false} WalkAfterMask(s: string, p: nat, m: nat, i: nat, skip: nat, asWritten: bool)
    requires p < i
    ensures Walk(s, map[p := m], i, skip, asWritten) == Chars(s[if i + skip <= |s| then i + skip else |s|..])
    decreases |s| - i
  {
    if i < |s| {
      if skip > 0 {
        WalkAfterMask(s, p, m, i + 1, skip - 1, asWritten);
      } else {
        WalkAfterMask(s, p, m, i + 1, 0, asWritten);
        assert s[i..][1..] == s[i + 1..];
      }
    }
  }

  /** Up to the only masked position, the walk pushes each character; the rest is decided there. */
  lemma {:induction false} WalkBeforeMask(s: string, p: nat, m: nat, i: nat, asWritten: bool)
    requires i <= p < |s|
    ensures Walk(s, map[p := m], i, 0, asWritten) == Chars(s[i..p]) + Walk(s, map[p := m], p, 0, asWritten)
    decreases p - i
  {
    if i < p {
      WalkBeforeMask(s, p, m, i + 1, asWritten);
      assert s[i..p] == [s[i]] + s[i + 1..p];
    }
  }

  /**
   * The corrected walk with one rewrite source of length `m` at `p`: the
   * characters before the source and every character after it are pushed;
   * only the source's own positions are left out.
   */
  lemma SingleSourceWalk(s: string, p: nat, m: nat)
    requires 0 < m && p + m <= |s|
    ensures Walk(s, map[p := m], 0, 0, false) == Chars(s[..p]) + Chars(s[p + m..])
  {
    var mask := map[p := m];
    assert Walk(s, mask, 0, 0, false) == Chars(s[..p]) + Walk(s, mask, p, 0, false) by {
      WalkBeforeMask(s, p, m, 0, false);
      assert s[0..p] == s[..p];
    }
    assert Walk(s, mask, p, 0, false) == Chars(s[p + m..]) by {
      assert Walk(s, mask, p, 0, false) == Walk(s, mask, p + 1, m - 1, false);
      WalkAfterMask(s, p, m, p + 1, m - 1, false);
    }
  }

  /**
   * The walk as written, with one rewrite source of length `m` at `p`: the
   * masked position and the next `m` positions push nothing, so the character
   * right after the source is lost.
   */
  lemma SingleSourceWalkAsWritten(s: string, p: nat, m: nat)
    requires p + m < |s|
    ensures Walk(s, map[p := m], 0, 0, true) == Chars(s[..p]) + Chars(s[p + m + 1..])
  {
    WalkBeforeMask(s, p, m, 0, true);
    WalkAfterMask(s, p, m, p + 1, m, true);
  }

  /** A category `tsa` with the rewrite source `ts` loses its `a` as written, and keeps it corrected. */
  lemma SkipDropsFollowingChar()
    ensures CategoryPhonemesAsWritten("tsa", ["ts"]) == ["ts"]
    ensures CategoryPhonemes("tsa", ["ts"]) == ["ts", "a"]
  {
    assert "tsa"[0..2] == "ts";
    assert Find("tsa", "ts") == Some(0);
    assert MaskOf("tsa", ["ts"]) == map[0 := 2];
    SingleSourceWalkAsWritten("tsa", 0, 2);
    SingleSourceWalk("tsa", 0, 2);
    assert "tsa"[..0] == [] && "tsa"[2..] == "a";
  }

  /** Position `j` lies inside the span of some mask entry. */
  predicate Covered(mask: map<nat, nat>, j: nat) {
    exists p :: p in mask && p <= j < p + mask[p]
  }

  /** Every mask entry spans at least one position, and no two spans overlap. */
  predicate SpansDisjoint(mask: map<nat, nat>) {
    (forall p :: p in mask ==> mask[p] > 0) &&
    forall p, q :: p in mask && q in mask && p < q ==> p + mask[p] <= q
  }

  /** The characters of `s` from `i` on that no mask span covers, each as a one-character phoneme, in order. */
  function Uncovered(s: string, mask: map<nat, nat>, i: nat): (r: seq<string>)
    decreases |s| - i
    ensures forall j :: i <= j < |s| && !Covered(mask, j) ==> [s[j]] in r
  {
    if i >= |s| then []
    else (if Covered(mask, i) then [] else [[s[i]]]) + Uncovered(s, mask, i + 1)
  }

  /**
   * The corrected walk from any state the walk itself reaches: every span
   * started before `i` ends by `i + skip`, and a pending skip is the rest of
   * such a span.
   */
  lemma {:induction false} WalkLeavesOutSpans(s: string, mask: map<nat, nat>, i: nat, skip: nat)
    requires SpansDisjoint(mask)
    requires forall p :: p in mask && p < i ==> p + mask[p] <= i + skip
    requires skip > 0 ==> exists p :: p in mask && p < i && p + mask[p] == i + skip
    ensures Walk(s, mask, i, skip, false) == Uncovered(s, mask, i)
    decreases |s| - i
  {
    if i < |s| {
      if skip > 0 {
        var w :| w in mask && w < i && w + mask[w] == i + skip;
        assert Covered(mask, i);
        assert i !in mask;
        WalkLeavesOutSpans(s, mask, i + 1, skip - 1);
      } else if i in mask {
        assert Covered(mask, i);
        WalkLeavesOutSpans(s, mask, i + 1, mask[i] - 1);
      } else {
        assert !Covered(mask, i);
        WalkLeavesOutSpans(s, mask, i + 1, 0);
      }
    }
  }

  /**
   * A category whose found sources are non-empty and whose first occurrences
   * do not overlap yields the found sources, then exactly the characters
   * outside them, in order.
   */
  lemma DisjointSourcesCategory(raw: string, sources: seq<string>)
    requires SpansDisjoint(MaskOf(raw, sources))
    ensures CategoryPhonemes(raw, sources) == FoundSources(raw, sources) + Uncovered(raw, MaskOf(raw, sources), 0)
  {
    WalkLeavesOutSpans(raw, MaskOf(raw, sources), 0, 0);
  }

  /**
   * Overlapping sources: `ab` and `bc` both occur in `abcd`. The skip started
   * by `ab` consumes position 1, so the entry of `bc` there is never read,
   * and the `c` inside `bc` is pushed as a character of its own.
   */
  lemma OverlappingSourcesRepeatChar()
    ensures CategoryPhonemes("abcd", ["ab", "bc"]) == ["ab", "bc", "c", "d"]
  {
    assert "abcd"[0..2] == "ab";
    assert "abcd"[1..3] == "bc";
    assert Find("abcd", "ab") == Some(0);
    assert Find("abcd", "bc") == Some(1);
    assert ["ab", "bc"][..1] == ["ab"];
    assert MaskOf("abcd", ["ab"]) == map[0 := 2];
    assert MaskOf("abcd", ["ab", "bc"]) == map[0 := 2, 1 := 2];
  }

  // ---------------------------------------------------------------------------
  // One category entry (language.rs:24-83)

  /** The phonemes of a category as the code computes them. */
  function CategoryPhonemesAsWritten(raw: string, sources: seq<string>): seq<string> {
    FoundSources(raw, sources) + Walk(raw, MaskOf(raw, sources), 0, 0, true)
  }

  /** The phonemes of a category: the sources found, then the characters the corrected walk does not skip. */
  function CategoryPhonemes(raw: string, sources: seq<string>): seq<string> {
    FoundSources(raw, sources) + Walk(raw, MaskOf(raw, sources), 0, 0, false)
  }

  /** The left side of the first rule whose right side is `key` (`get_by_right`). */
  function GetByRight(rules: seq<(string, string)>, key: string): (r: Option<string>)
    ensures r.Some? ==> (r.value, key) in rules
    ensures r.None? ==> forall j :: 0 <= j < |rules| ==> rules[j].1 != key
  {
    if rules == [] then None
    else if rules[0].1 == key then Some(rules[0].0)
    else GetByRight(rules[1..], key)
  }

  /**
   * The group name of a category: the abbreviation is the key's first
   * character; it is a full name exactly when some rewrite rule's right side
   * is the key, and then the full name is that rule's left side.
   */
  function GroupNameOf(key: string, rules: seq<(string, string)>): (r: GroupName)
    requires |key| > 0
    ensures r.abbrev == key[0]
    ensures r.Full? <==> exists j :: 0 <= j < |rules| && rules[j].1 == key
    ensures r.Full? ==> (r.name, key) in rules
  {
    match GetByRight(rules, key)
    case Some(name) => Full(name, key[0])
    case None => Abbrev(key[0])
  }

  /** Each phoneme paired with its romanization, if the document gives one. */
  function WithGraphemes(ps: seq<string>, romanization: map<string, string>): (r: seq<RawPhoneme>)
    ensures |r| == |ps|
    ensures forall j :: 0 <= j < |ps| ==> r[j].0 == ps[j]
    ensures forall j :: 0 <= j < |ps| ==> r[j].1 == if ps[j] in romanization then Some(romanization[ps[j]]) else None
  {
    seq(|ps|, j requires 0 <= j < |ps| => (ps[j], if ps[j] in romanization then Some(romanization[ps[j]]) else None))
  }

  function Lefts(rules: seq<(string, string)>): (r: seq<string>)
    ensures |r| == |rules| && forall j :: 0 <= j < |rules| ==> r[j] == rules[j].0
  {
    seq(|rules|, j requires 0 <= j < |rules| => rules[j].0)
  }

  /** The entry one category line produces. */
  function CategoryEntry(category: (string, string), romanization: map<string, string>, rules: seq<(string, string)>): RawGroup
    requires |category.0| > 0
  {
    (GroupNameOf(category.0, rules), WithGraphemes(CategoryPhonemes(category.1, Lefts(rules)), romanization))
  }

  // ---------------------------------------------------------------------------
  // The imperative parse

  /** Builds the mask and pushes every rewrite source found, in rule order. */
  method MaskSources(raw: string, sources: seq<string>) returns (mask: map<nat, nat>, found: seq<string>)
    ensures mask == MaskOf(raw, sources)
    ensures found == FoundSources(raw, sources)
  {
    mask, found := map[], [];
    var k := 0;
    while k < |sources|
      invariant k <= |sources|
      invariant mask == MaskOf(raw, sources[..k])
      invariant found == FoundSources(raw, sources[..k])
    {
      var src := sources[k];
      assert sources[..k + 1][..k] == sources[..k];
      match Find(raw, src) {
        case Some(idx) =>
          mask := mask[idx := |src|];
          found := found + [src];
        case None =>
      }
      k := k + 1;
    }
    assert sources[..k] == sources;
  }

  /** Walks the characters with the skip counter (corrected: a masked source covers its own length). */
  method WalkChars(raw: string, mask: map<nat, nat>) returns (pushed: seq<string>)
    ensures pushed == Walk(raw, mask, 0, 0, false)
  {
    pushed := [];
    var skip := 0;
    var i := 0;
    while i < |raw|
      invariant i <= |raw|
      invariant pushed + Walk(raw, mask, i, skip, false) == Walk(raw, mask, 0, 0, false)
    {
      if skip > 0 {
        skip := skip - 1;
      } else if i in mask {
        var phonemeLen := mask[i];
        skip := if phonemeLen == 0 then 0 else phonemeLen - 1;
      } else {
        pushed := pushed + [[raw[i]]];
      }
      i := i + 1;
    }
  }

  /**
   * `LanguageRaw::parse`: exactly one entry per category, in input order, each
   * as `CategoryEntry` describes.
   */
  method Parse(categories: seq<(string, string)>, romanization: map<string, string>, rules: seq<(string, string)>)
    returns (r: seq<RawGroup>)
    requires forall i :: 0 <= i < |categories| ==> |categories[i].0| > 0
    ensures |r| == |categories|
    ensures forall i :: 0 <= i < |categories| ==> r[i] == CategoryEntry(categories[i], romanization, rules)
  {
    r := [];
    var sources := Lefts(rules);
    var c := 0;
    while c < |categories|
      invariant c <= |categories|
      invariant |r| == c
      invariant forall i :: 0 <= i < c ==> r[i] == CategoryEntry(categories[i], romanization, rules)
    {
      var (key, raw) := categories[c];
      var mask, group := MaskSources(raw, sources);
      var rest := WalkChars(raw, mask);
      group := group + rest;
      var name := match GetByRight(rules, key)
        case Some(full) => Full(full, key[0])
        case None => Abbrev(key[0]);
      r := r + [(name, WithGraphemes(group, romanization))];
      c := c + 1;
    }
  }
}
