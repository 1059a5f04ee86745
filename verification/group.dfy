/**
 * Group names and groups (src/types/group.rs): a group is named either by a
 * full display name with a one-character abbreviation, or by the bare
 * abbreviation, and owns the set of keys of its member phonemes.
 */
module GroupNames {

  type PhonemeKey = nat

  datatype GroupName = Full(name: string, abbrev: char) | Abbrev(abbrev: char)

  datatype Group = Group(name: GroupName, keys: set<PhonemeKey>)

  /** `p` is a prefix of `s` (Rust's `str::starts_with`). */
  predicate StartsWith(s: string, p: string) {
    |p| <= |s| && s[..|p|] == p
  }

  /** The display form: `name (abbrev)` for a full name, the bare character otherwise. */
  function Display(g: GroupName): (r: string)
    ensures g.Abbrev? ==> r == [g.abbrev]
    ensures g.Full? ==> StartsWith(r, g.name) && |r| == |g.name| + 4
    ensures g.Full? ==> r[|g.name|..] == [' ', '(', g.abbrev, ')']
  {
    match g
    case Full(name, abbrev) => name + " (" + [abbrev] + ")"
    case Abbrev(abbrev) => [abbrev]
  }

  /** Two different names never display alike, so the display form identifies the name. */
  lemma DisplayInjective(g: GroupName, h: GroupName)
    requires Display(g) == Display(h)
    ensures g == h
  {
    var d := Display(g);
    if g.Full? && h.Full? {
      assert |g.name| == |h.name|;
      assert g.name == d[..|g.name|] == h.name;
      assert d[|d| - 2] == g.abbrev == h.abbrev;
    } else if g.Abbrev? && h.Abbrev? {
      assert d[0] == g.abbrev == h.abbrev;
    }
  }

  /**
   * Whether text typed at a rule position refers to this group: it starts
   * with the full name or with the abbreviation character.
   */
  function Matches(g: GroupName, other: string): (r: bool)
    ensures g.Full? ==> (r <==> StartsWith(other, g.name) || StartsWith(other, [g.abbrev]))
    ensures g.Abbrev? ==> (r <==> |other| > 0 && other[0] == g.abbrev)
  {
    match g
    case Full(name, abbrev) => StartsWith(other, name) || StartsWith(other, [abbrev])
    case Abbrev(abbrev) => StartsWith(other, [abbrev])
  }

  /** Matching only looks at a prefix: extending the text never loses a match. */
  lemma MatchesPrefixMonotone(g: GroupName, s: string, t: string)
    requires Matches(g, s)
    ensures Matches(g, s + t)
  {
    var p := if g.Full? && StartsWith(s, g.name) then g.name else [g.abbrev];
    assert StartsWith(s, p);
    assert (s + t)[..|p|] == s[..|p|];
  }

  /** A name always matches its own display form. */
  lemma MatchesOwnDisplay(g: GroupName)
    ensures Matches(g, Display(g))
  {
    if g.Full? {
      assert Display(g)[..|g.name|] == g.name;
    }
  }
}
