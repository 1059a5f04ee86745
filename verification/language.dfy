/**
 * The symbol inventory (`Language` in src/types/language.rs): phonemes and
 * groups in two keyed arenas, where a group's member set holds phoneme keys.
 * Keys come from a monotone allocator and are never reused, which is what the
 * slot maps of the source guarantee for a key while it is in use; arena order
 * is ascending key order.
 */
module Inventory {
  import opened Wrappers
  import opened GroupNames
  import opened LanguageImport

  type GroupKey = nat

  datatype Phoneme = Phoneme(phoneme: string, grapheme: Option<string>)

  predicate Distinct<T(==)>(s: seq<T>) {
    forall i, j :: 0 <= i < j < |s| ==> s[i] != s[j]
  }

  /** Keys in strictly ascending order: the order a slot map walks its arena in. Such keys are distinct. */
  predicate Ascending(s: seq<nat>) {
    forall i, j :: 0 <= i < j < |s| ==> s[i] < s[j]
  }

  /** Every key in a group's member set names a live phoneme. */
  predicate MembersLive(phonemes: map<PhonemeKey, Phoneme>, groups: map<GroupKey, Group>) {
    forall g, k :: g in groups && k in groups[g].keys ==> k in phonemes
  }

  /** The groups with `key` taken out of every member set; names and group keys stay. */
  function StripMember(groups: map<GroupKey, Group>, key: PhonemeKey): (r: map<GroupKey, Group>)
    ensures r.Keys == groups.Keys
    ensures forall g :: g in r ==> r[g].name == groups[g].name && key !in r[g].keys
    ensures forall g, k :: g in r && k != key ==> (k in r[g].keys <==> k in groups[g].keys)
  {
    map g | g in groups :: groups[g].(keys := groups[g].keys - {key})
  }

  /**
   * As written, the member walk handed out by `group_ref_mut` and by
   * `groups_mut` deletes through the bare phoneme arena: the phoneme goes,
   * but its key stays in every group's member set.
   */
  function BareStoreRemove(phonemes: map<PhonemeKey, Phoneme>, groups: map<GroupKey, Group>, key: PhonemeKey)
    : (r: (map<PhonemeKey, Phoneme>, map<GroupKey, Group>))
    ensures key !in r.0 && r.0.Keys == phonemes.Keys - {key}
    ensures r.1 == groups
  {
    (phonemes - {key}, groups)
  }

  /** The bare removal keeps every member live exactly when no group held the removed key. */
  lemma BareStoreRemoveDangles(phonemes: map<PhonemeKey, Phoneme>, groups: map<GroupKey, Group>, key: PhonemeKey)
    requires MembersLive(phonemes, groups)
    ensures MembersLive(BareStoreRemove(phonemes, groups, key).0, BareStoreRemove(phonemes, groups, key).1)
            <==> forall g :: g in groups ==> key !in groups[g].keys
  {
    var (ps, gs) := BareStoreRemove(phonemes, groups, key);
    if !forall g :: g in groups ==> key !in groups[g].keys {
      var g :| g in groups && key in groups[g].keys;
      assert key !in ps;
    }
  }

  /** A concrete case: one group holding one phoneme, removed through the bare arena. */
  lemma BareStoreRemoveExample()
    ensures MembersLive(map[0 := Phoneme("a", None)], map[0 := Group(Abbrev('V'), {0})])
    ensures !MembersLive(BareStoreRemove(map[0 := Phoneme("a", None)], map[0 := Group(Abbrev('V'), {0})], 0).0,
                         map[0 := Group(Abbrev('V'), {0})])
  {
    BareStoreRemoveDangles(map[0 := Phoneme("a", None)], map[0 := Group(Abbrev('V'), {0})], 0);
  }

  /** The corrected removal, `PhonemeRemove`'s cascade, keeps every member live for every key. */
  lemma StripKeepsMembersLive(phonemes: map<PhonemeKey, Phoneme>, groups: map<GroupKey, Group>, key: PhonemeKey)
    requires MembersLive(phonemes, groups)
    ensures MembersLive(phonemes - {key}, StripMember(groups, key))
  {
  }

  /**
   * The keys of a set in ascending order, the order in which an arena walks
   * its slots and a `BTreeSet` its members.
   */
  method AscendingKeys(s: set<nat>, bound: nat) returns (r: seq<nat>)
    requires forall k :: k in s ==> k < bound
    ensures forall i, j :: 0 <= i < j < |r| ==> r[i] < r[j]
    ensures forall k :: k in r <==> k in s
  {
    r := [];
    var i := 0;
    while i < bound
      invariant i <= bound
      invariant forall a, b :: 0 <= a < b < |r| ==> r[a] < r[b]
      invariant forall a :: 0 <= a < |r| ==> r[a] < i
      invariant forall k :: k in r <==> k in s && k < i
    {
      if i in s {
        r := r + [i];
      }
      i := i + 1;
    }
  }

  class Language {
    var phonemes: map<PhonemeKey, Phoneme>
    var groups: map<GroupKey, Group>
    /** The phoneme last handed out by `PhonemeRefMut`, and whether its deletion is pending. */
    var phonemeRm: (PhonemeKey, bool)
    /** A group whose deletion is pending until the next `GroupRefMut`. */
    var groupRm: Option<GroupKey>
    /** The arena allocators: every key handed out so far is below them. */
    var nextPhoneme: nat
    var nextGroup: nat
    /**
     * Whether the last `PhonemeRefMut` handed out a phoneme, and the group the
     * last `GroupRefMut` handed out: only such a reference can request a
     * deletion. The other operations on the language say nothing of these,
     * so a reference does not outlive them.
     */
    ghost var phonemeHeld: bool
    ghost var groupHeld: Option<GroupKey>

    predicate Valid()
      reads this
    {
      (forall k :: k in phonemes ==> k < nextPhoneme) &&
      (forall g :: g in groups ==> g < nextGroup) &&
      MembersLive(phonemes, groups)
    }

    /** The empty language. */
    constructor ()
      ensures Valid()
      ensures phonemes == map[] && groups == map[] && groupRm == None && !phonemeRm.1
      ensures !phonemeHeld && groupHeld == None
    {
      phonemes, groups := map[], map[];
      phonemeRm, groupRm := (0, false), None;
      phonemeHeld, groupHeld := false, None;
      nextPhoneme, nextGroup := 0, 0;
    }

    /**
     * `From<LanguageRaw>`: one group per raw entry, in order, over phonemes
     * deduplicated by their raw text.
     */
    constructor FromRaw(raw: seq<RawGroup>)
      ensures Valid()
      ensures forall i: nat :: i in groups <==> i < |raw|
      ensures forall i :: 0 <= i < |raw| ==> groups[i].name == raw[i].0 && GroupTexts(phonemes, groups[i]) == Texts(raw[i].1)
      ensures forall i, k :: 0 <= i < |raw| ==>
        (k in groups[i].keys <==> k in phonemes && phonemes[k].phoneme in Texts(raw[i].1))
      ensures forall k, k' :: k in phonemes && k' in phonemes && phonemes[k].phoneme == phonemes[k'].phoneme ==> k == k'
      ensures forall k :: k in phonemes ==>
        phonemes[k].phoneme in Texts(Flatten(raw)) && phonemes[k].grapheme == FirstGrapheme(Flatten(raw), phonemes[k].phoneme)
      ensures groupRm == None && !phonemeRm.1
      ensures !phonemeHeld && groupHeld == None
    {
      var ps, gs, n := Convert(raw);
      phonemes, groups := ps, gs;
      phonemeRm, groupRm := (0, false), None;
      phonemeHeld, groupHeld := false, None;
      nextPhoneme, nextGroup := n, |raw|;
    }

    /** Adds a phoneme under a key that was never live before; nothing else changes. */
    method PhonemeAdd(p: Phoneme) returns (key: PhonemeKey)
      requires Valid()
      modifies this
      ensures Valid()
      ensures key !in old(phonemes) && key >= old(nextPhoneme)
      ensures phonemes == old(phonemes)[key := p] && nextPhoneme == key + 1
      ensures groups == old(groups) && nextGroup == old(nextGroup)
      ensures phonemeRm == old(phonemeRm) && groupRm == old(groupRm)
    {
      key := nextPhoneme;
      phonemes := phonemes[key := p];
      nextPhoneme := nextPhoneme + 1;
    }

    /** Removes a phoneme and strips its key from every group's member set. */
    method PhonemeRemove(key: PhonemeKey)
      requires Valid()
      modifies this
      ensures Valid()
      ensures phonemes == old(phonemes) - {key}
      ensures groups == StripMember(old(groups), key)
      ensures nextPhoneme == old(nextPhoneme) && nextGroup == old(nextGroup)
      ensures phonemeRm == old(phonemeRm) && groupRm == old(groupRm)
    {
      var order := AscendingKeys(groups.Keys, nextGroup);
      var gs := groups;
      var i := 0;
      while i < |order|
        invariant i <= |order|
        invariant gs.Keys == groups.Keys
        invariant forall g :: g in gs ==> gs[g].name == groups[g].name
        invariant forall g :: g in gs ==>
          gs[g].keys == if g in order[..i] then groups[g].keys - {key} else groups[g].keys
      {
        var g := order[i];
        assert g !in order[..i];
        assert order[..i + 1] == order[..i] + [g];
        gs := gs[g := gs[g].(keys := gs[g].keys - {key})];
        i := i + 1;
      }
      assert order[..i] == order;
      assert gs == StripMember(groups, key);
      groups := gs;
      phonemes := phonemes - {key};
    }

    /** Adds a group with an empty member set under a fresh key; phonemes are untouched. */
    method GroupAdd(name: GroupName) returns (key: GroupKey)
      requires Valid()
      modifies this
      ensures Valid()
      ensures key !in old(groups) && key >= old(nextGroup)
      ensures groups == old(groups)[key := Group(name, {})] && nextGroup == key + 1
      ensures phonemes == old(phonemes) && nextPhoneme == old(nextPhoneme)
      ensures phonemeRm == old(phonemeRm) && groupRm == old(groupRm)
    {
      key := nextGroup;
      groups := groups[key := Group(name, {})];
      nextGroup := nextGroup + 1;
    }

    /** Removes only that group; phonemes and the other groups are untouched. */
    method GroupRemove(key: GroupKey)
      requires Valid()
      modifies this
      ensures Valid()
      ensures groups == old(groups) - {key}
      ensures phonemes == old(phonemes)
      ensures nextPhoneme == old(nextPhoneme) && nextGroup == old(nextGroup)
      ensures phonemeRm == old(phonemeRm) && groupRm == old(groupRm)
    {
      groups := groups - {key};
    }

    /** `phoneme_ref`: the phoneme under a key, while it is live. */
    function PhonemeRef(key: PhonemeKey): (r: Option<Phoneme>)
      reads this
      ensures r.Some? <==> key in phonemes
      ensures r.Some? ==> r.value == phonemes[key]
    {
      if key in phonemes then Some(phonemes[key]) else None
    }

    /** Adds a live phoneme to a live group's member set (`language[group].keys.insert`). */
    method GroupMemberInsert(g: GroupKey, k: PhonemeKey)
      requires Valid() && g in groups && k in phonemes
      modifies this
      ensures Valid()
      ensures groups == old(groups)[g := old(groups)[g].(keys := old(groups)[g].keys + {k})]
      ensures phonemes == old(phonemes) && nextPhoneme == old(nextPhoneme) && nextGroup == old(nextGroup)
      ensures phonemeRm == old(phonemeRm) && groupRm == old(groupRm)
    {
      groups := groups[g := groups[g].(keys := groups[g].keys + {k})];
    }

    /** Takes a phoneme out of a live group's member set (`language[group].keys.remove`). */
    method GroupMemberRemove(g: GroupKey, k: PhonemeKey)
      requires Valid() && g in groups
      modifies this
      ensures Valid()
      ensures groups == old(groups)[g := old(groups)[g].(keys := old(groups)[g].keys - {k})]
      ensures phonemes == old(phonemes) && nextPhoneme == old(nextPhoneme) && nextGroup == old(nextGroup)
      ensures phonemeRm == old(phonemeRm) && groupRm == old(groupRm)
    {
      groups := groups[g := groups[g].(keys := groups[g].keys - {k})];
    }

    /** `group_ref`: a live group's name and members; None for a stale key. */
    function GroupRef(key: GroupKey): (r: Option<Group>)
      reads this
      requires Valid()
      ensures r.Some? <==> key in groups
      ensures r.Some? ==> r.value == groups[key] && forall k :: k in r.value.keys ==> k in phonemes
    {
      if key in groups then Some(groups[key]) else None
    }

    /** `phonemes(key)`: the member keys of a live group in set order; None for a stale group key. */
    method Phonemes(key: GroupKey) returns (r: Option<seq<PhonemeKey>>)
      requires Valid()
      ensures r.Some? <==> key in groups
      ensures r.Some? ==> Ascending(r.value) && forall k :: k in r.value <==> k in groups[key].keys
      ensures r.Some? ==> forall k :: k in r.value ==> k in phonemes
    {
      if key in groups {
        forall k | k in groups[key].keys ensures k < nextPhoneme {
          assert k in phonemes;
        }
        var ks := AscendingKeys(groups[key].keys, nextPhoneme);
        r := Some(ks);
      } else {
        r := None;
      }
    }

    /**
     * `phoneme_ref_mut`: first applies a deletion queued on the phoneme handed
     * out before (cascading through the groups), then hands out `key` if it is
     * live and remembers it as the one a later deletion refers to.
     */
    method PhonemeRefMut(key: PhonemeKey) returns (found: bool)
      requires Valid()
      modifies this
      ensures Valid()
      ensures old(phonemeRm.1) ==>
                phonemes == old(phonemes) - {old(phonemeRm.0)} &&
                groups == StripMember(old(groups), old(phonemeRm.0))
      ensures !old(phonemeRm.1) ==> phonemes == old(phonemes) && groups == old(groups)
      ensures found <==> key in phonemes
      ensures phonemeRm == (if found then key else old(phonemeRm.0), false)
      ensures groupRm == old(groupRm) && nextPhoneme == old(nextPhoneme) && nextGroup == old(nextGroup)
      ensures phonemeHeld == found && groupHeld == None
    {
      if phonemeRm.1 {
        PhonemeRemove(phonemeRm.0);
        phonemeRm := (phonemeRm.0, false);
      }
      found := key in phonemes;
      if found {
        phonemeRm := (key, phonemeRm.1);
      }
      phonemeHeld, groupHeld := found, None;
    }

    /** `PhonemeRefMut::delete` on the phoneme last handed out: the deletion is only queued. */
    method DeleteHandedOutPhoneme()
      requires phonemeHeld
      modifies this
      ensures phonemeRm == (old(phonemeRm.0), true)
      ensures phonemes == old(phonemes) && groups == old(groups) && groupRm == old(groupRm)
      ensures nextPhoneme == old(nextPhoneme) && nextGroup == old(nextGroup)
      ensures phonemeHeld && groupHeld == old(groupHeld)
    {
      phonemeRm := (phonemeRm.0, true);
    }

    /**
     * `group_ref_mut`: first removes a group whose deletion was queued, then
     * hands out `key` if it is live.
     */
    method GroupRefMut(key: GroupKey) returns (found: bool)
      requires Valid()
      modifies this
      ensures Valid()
      ensures old(groupRm).Some? ==> groups == old(groups) - {old(groupRm).value}
      ensures old(groupRm).None? ==> groups == old(groups)
      ensures groupRm == None
      ensures found <==> key in groups
      ensures phonemes == old(phonemes) && phonemeRm == old(phonemeRm)
      ensures nextPhoneme == old(nextPhoneme) && nextGroup == old(nextGroup)
      ensures groupHeld == (if found then Some(key) else None) && !phonemeHeld
    {
      if groupRm.Some? {
        GroupRemove(groupRm.value);
        groupRm := None;
      }
      found := key in groups;
      phonemeHeld, groupHeld := false, if found then Some(key) else None;
    }

    /** `GroupRefMut::delete`: queues the deletion of the handed-out group. */
    method DeleteHandedOutGroup(key: GroupKey)
      requires groupHeld == Some(key)
      modifies this
      ensures groupRm == Some(key)
      ensures phonemes == old(phonemes) && groups == old(groups) && phonemeRm == old(phonemeRm)
      ensures nextPhoneme == old(nextPhoneme) && nextGroup == old(nextGroup)
      ensures groupHeld == old(groupHeld) && phonemeHeld == old(phonemeHeld)
    {
      groupRm := Some(key);
    }
  }

  // ---------------------------------------------------------------------------
  // `From<LanguageRaw>`: phoneme deduplication (language.rs:104-152)

  /** The raw phonemes of all entries, category by category. */
  function Flatten(raw: seq<RawGroup>): seq<RawPhoneme> {
    if raw == [] then [] else Flatten(raw[..|raw| - 1]) + raw[|raw| - 1].1
  }

  /** A raw phoneme is in the flattened list exactly when some entry lists it. */
  lemma {:induction false} FlattenMembers(raw: seq<RawGroup>, x: RawPhoneme)
    ensures x in Flatten(raw) <==> exists i :: 0 <= i < |raw| && x in raw[i].1
  {
    if raw != [] {
      var init := raw[..|raw| - 1];
      FlattenMembers(init, x);
      assert forall i :: 0 <= i < |init| ==> init[i] == raw[i];
    }
  }

  /** The facts of `BuildInventory` that the lemmas below start from. */
  ghost predicate Built(raw: seq<RawGroup>, ps: map<PhonemeKey, Phoneme>, gs: map<GroupKey, Group>,
                        table: map<string, PhonemeKey>, n: nat) {
    TableOk(table, ps, Flatten(raw), n) &&
    (forall i :: 0 <= i < |raw| ==> i in gs && Texts(raw[i].1) <= table.Keys) &&
    (forall i :: 0 <= i < |raw| ==> gs[i] == Group(raw[i].0, MemberKeys(table, raw[i].1)))
  }

  /** The texts of a group's live members. */
  function GroupTexts(ps: map<PhonemeKey, Phoneme>, g: Group): set<string> {
    set k | k in g.keys && k in ps :: ps[k].phoneme
  }

  /** Group `i` holds exactly the keys of entry `i`'s texts, so its texts are the entry's texts. */
  lemma GroupMatchesRaw(raw: seq<RawGroup>, ps: map<PhonemeKey, Phoneme>, gs: map<GroupKey, Group>,
                        table: map<string, PhonemeKey>, n: nat, i: nat)
    requires Built(raw, ps, gs, table, n) && i < |raw|
    ensures forall k :: k in gs[i].keys <==> k in ps && ps[k].phoneme in Texts(raw[i].1)
    ensures GroupTexts(ps, gs[i]) == Texts(raw[i].1)
  {
    forall s | s in Texts(raw[i].1) ensures s in GroupTexts(ps, gs[i]) {
      var x :| x in raw[i].1 && x.0 == s;
      assert table[s] in gs[i].keys;
    }
    forall k | k in ps && ps[k].phoneme in Texts(raw[i].1) ensures k in gs[i].keys {
      var x :| x in raw[i].1 && x.0 == ps[k].phoneme;
      assert table[x.0] == k;
    }
  }

  /** No two phonemes share a text, and each keeps the grapheme of its text's first occurrence. */
  lemma PhonemesMatchRaw(raw: seq<RawGroup>, ps: map<PhonemeKey, Phoneme>, gs: map<GroupKey, Group>,
                         table: map<string, PhonemeKey>, n: nat)
    requires Built(raw, ps, gs, table, n)
    ensures forall k, k' :: k in ps && k' in ps && ps[k].phoneme == ps[k'].phoneme ==> k == k'
    ensures forall k :: k in ps ==>
      ps[k].phoneme in Texts(Flatten(raw)) && ps[k].grapheme == FirstGrapheme(Flatten(raw), ps[k].phoneme)
  {
  }

  /** The grapheme given at the first occurrence of the raw text `s`. */
  function FirstGrapheme(ps: seq<RawPhoneme>, s: string): Option<string> {
    if ps == [] then None else if ps[0].0 == s then ps[0].1 else FirstGrapheme(ps[1..], s)
  }

  /** The raw texts occurring in a list of raw phonemes. */
  function Texts(ps: seq<RawPhoneme>): set<string> {
    set x | x in ps :: x.0
  }

  /** A later occurrence does not change which grapheme came first. */
  lemma {:induction false} FirstGraphemeStable(ps: seq<RawPhoneme>, x: RawPhoneme, s: string)
    requires s in Texts(ps)
    ensures FirstGrapheme(ps + [x], s) == FirstGrapheme(ps, s)
  {
    if ps[0].0 != s {
      var y :| y in ps && y.0 == s;
      assert ps == [ps[0]] + ps[1..];
      assert y in ps[1..];
      FirstGraphemeStable(ps[1..], x, s);
      assert (ps + [x])[1..] == ps[1..] + [x];
    }
  }

  /** A first occurrence at the end is the one the grapheme comes from. */
  lemma {:induction false} FirstGraphemeAtEnd(ps: seq<RawPhoneme>, x: RawPhoneme)
    requires x.0 !in Texts(ps)
    ensures FirstGrapheme(ps + [x], x.0) == x.1
  {
    if ps != [] {
      assert ps[0] in ps;
      assert Texts(ps[1..]) <= Texts(ps);
      FirstGraphemeAtEnd(ps[1..], x);
      assert (ps + [x])[1..] == ps[1..] + [x];
    }
  }

  /** The dedup table: one key per distinct raw text, naming a phoneme with that text. */
  ghost predicate TableOk(table: map<string, PhonemeKey>, phonemes: map<PhonemeKey, Phoneme>, seen: seq<RawPhoneme>, n: nat) {
    table.Keys == Texts(seen) &&
    (forall s :: s in table ==> table[s] < n && table[s] in phonemes &&
                                phonemes[table[s]] == Phoneme(s, FirstGrapheme(seen, s))) &&
    (forall k: nat :: k in phonemes <==> k < n) &&
    (forall k :: k in phonemes ==> phonemes[k].phoneme in table && table[phonemes[k].phoneme] == k)
  }

  /** The member keys the table gives to a list of raw phonemes. */
  function MemberKeys(table: map<string, PhonemeKey>, ps: seq<RawPhoneme>): set<PhonemeKey>
    requires Texts(ps) <= table.Keys
  {
    set x | x in ps :: table[x.0]
  }

  /** Extending the table and the list by one keeps the earlier member keys. */
  lemma MemberKeysExtend(table: map<string, PhonemeKey>, table': map<string, PhonemeKey>, ps: seq<RawPhoneme>, x: RawPhoneme)
    requires Texts(ps) <= table.Keys
    requires forall s :: s in table ==> s in table' && table'[s] == table[s]
    requires x.0 in table'
    ensures MemberKeys(table', ps + [x]) == MemberKeys(table, ps) + {table'[x.0]}
  {
  }

  /** Extending the table keeps the member keys of a list it already covers. */
  lemma MemberKeysStable(table: map<string, PhonemeKey>, table': map<string, PhonemeKey>, ps: seq<RawPhoneme>)
    requires Texts(ps) <= table.Keys
    requires forall s :: s in table ==> s in table' && table'[s] == table[s]
    ensures Texts(ps) <= table'.Keys && MemberKeys(table', ps) == MemberKeys(table, ps)
  {
  }

  /**
   * One raw phoneme of the conversion: a text already in the table reuses its
   * key, a new text gets the next key and keeps the grapheme it came with.
   */
  method InternOne(table: map<string, PhonemeKey>, phonemes: map<PhonemeKey, Phoneme>, n: nat,
                   ghost seen: seq<RawPhoneme>, x: RawPhoneme)
    returns (table': map<string, PhonemeKey>, phonemes': map<PhonemeKey, Phoneme>, n': nat, key: PhonemeKey)
    requires TableOk(table, phonemes, seen, n)
    ensures TableOk(table', phonemes', seen + [x], n')
    ensures forall s :: s in table ==> s in table' && table'[s] == table[s]
    ensures x.0 in table' && table'[x.0] == key
    ensures x.0 in table ==> table' == table && phonemes' == phonemes && n' == n
    ensures x.0 !in table ==> key == n && n' == n + 1 && phonemes' == phonemes[n := Phoneme(x.0, x.1)]
  {
    forall s | s in table ensures FirstGrapheme(seen + [x], s) == FirstGrapheme(seen, s) {
      FirstGraphemeStable(seen, x, s);
    }
    if x.0 in table {
      table', phonemes', n', key := table, phonemes, n, table[x.0];
    } else {
      FirstGraphemeAtEnd(seen, x);
      key := n;
      table', phonemes', n' := table[x.0 := key], phonemes[key := Phoneme(x.0, x.1)], n + 1;
    }
  }

  /** The inner loop of the conversion over one entry's raw phonemes; `keys` are its member keys. */
  method InternPhonemes(table: map<string, PhonemeKey>, phonemes: map<PhonemeKey, Phoneme>, n: nat,
                        ghost seen: seq<RawPhoneme>, ps: seq<RawPhoneme>)
    returns (table': map<string, PhonemeKey>, phonemes': map<PhonemeKey, Phoneme>, n': nat, keys: set<PhonemeKey>)
    requires TableOk(table, phonemes, seen, n)
    ensures TableOk(table', phonemes', seen + ps, n')
    ensures forall s :: s in table ==> s in table' && table'[s] == table[s]
    ensures Texts(ps) <= table'.Keys
    ensures keys == MemberKeys(table', ps)
  {
    table', phonemes', n', keys := table, phonemes, n, {};
    var j := 0;
    assert seen + ps[..j] == seen;
    while j < |ps|
      invariant j <= |ps|
      invariant TableOk(table', phonemes', seen + ps[..j], n')
      invariant forall s :: s in table ==> s in table' && table'[s] == table[s]
      invariant Texts(ps[..j]) <= table'.Keys
      invariant keys == MemberKeys(table', ps[..j])
    {
      ghost var table0 := table';
      assert ps[..j + 1] == ps[..j] + [ps[j]];
      assert seen + ps[..j + 1] == (seen + ps[..j]) + [ps[j]];
      var key;
      table', phonemes', n', key := InternOne(table', phonemes', n', seen + ps[..j], ps[j]);
      keys := keys + {key};
      MemberKeysExtend(table0, table', ps[..j], ps[j]);
      j := j + 1;
    }
    assert ps[..j] == ps;
  }

  /** One more entry of the conversion: the earlier groups keep their members, and group `c` joins. */
  lemma GroupsStep(raw: seq<RawGroup>, c: nat, groups: map<GroupKey, Group>, table: map<string, PhonemeKey>,
                   table': map<string, PhonemeKey>, groups': map<GroupKey, Group>)
    requires c < |raw|
    requires forall i: nat :: i in groups <==> i < c
    requires forall i :: 0 <= i < c ==> Texts(raw[i].1) <= table.Keys
    requires forall i :: 0 <= i < c ==> groups[i] == Group(raw[i].0, MemberKeys(table, raw[i].1))
    requires forall s :: s in table ==> s in table' && table'[s] == table[s]
    requires Texts(raw[c].1) <= table'.Keys
    requires groups' == groups[c := Group(raw[c].0, MemberKeys(table', raw[c].1))]
    ensures forall i: nat :: i in groups' <==> i < c + 1
    ensures forall i :: 0 <= i < c + 1 ==> Texts(raw[i].1) <= table'.Keys
    ensures forall i :: 0 <= i < c + 1 ==> groups'[i] == Group(raw[i].0, MemberKeys(table', raw[i].1))
  {
    forall i | 0 <= i < c
      ensures Texts(raw[i].1) <= table'.Keys && MemberKeys(table', raw[i].1) == MemberKeys(table, raw[i].1)
    {
      MemberKeysStable(table, table', raw[i].1);
    }
  }

  /**
   * The conversion's loops: each distinct raw text gets exactly one key,
   * allocated at its first occurrence and reused in every later group, with
   * the grapheme of that first occurrence; group `i` is entry `i` with the
   * keys of its raw phonemes as members.
   */
  method BuildInventory(raw: seq<RawGroup>)
    returns (phonemes: map<PhonemeKey, Phoneme>, groups: map<GroupKey, Group>, table: map<string, PhonemeKey>, n: nat)
    ensures TableOk(table, phonemes, Flatten(raw), n)
    ensures forall i: nat :: i in groups <==> i < |raw|
    ensures forall i :: 0 <= i < |raw| ==> Texts(raw[i].1) <= table.Keys
    ensures forall i :: 0 <= i < |raw| ==> groups[i] == Group(raw[i].0, MemberKeys(table, raw[i].1))
    ensures MembersLive(phonemes, groups)
  {
    phonemes, groups, table, n := map[], map[], map[], 0;
    var c := 0;
    assert raw[..c] == [];
    while c < |raw|
      invariant c <= |raw|
      invariant TableOk(table, phonemes, Flatten(raw[..c]), n)
      invariant forall i: nat :: i in groups <==> i < c
      invariant forall i :: 0 <= i < c ==> Texts(raw[i].1) <= table.Keys
      invariant forall i :: 0 <= i < c ==> groups[i] == Group(raw[i].0, MemberKeys(table, raw[i].1))
    {
      ghost var table0, groups0 := table, groups;
      var keys;
      table, phonemes, n, keys := InternPhonemes(table, phonemes, n, Flatten(raw[..c]), raw[c].1);
      assert raw[..c + 1][..c] == raw[..c];
      groups := groups[c := Group(raw[c].0, keys)];
      GroupsStep(raw, c, groups0, table0, table, groups);
      c := c + 1;
    }
    assert raw[..c] == raw;
  }

  /**
   * The conversion stated without the table: group `i` is entry `i` with
   * exactly the keys of its texts, phoneme texts are distinct, and every
   * phoneme has a raw text and the grapheme of that text's first occurrence.
   */
  method Convert(raw: seq<RawGroup>) returns (ps: map<PhonemeKey, Phoneme>, gs: map<GroupKey, Group>, n: nat)
    ensures (forall k :: k in ps ==> k < n) && MembersLive(ps, gs)
    ensures forall i: nat :: i in gs <==> i < |raw|
    ensures forall i :: 0 <= i < |raw| ==> gs[i].name == raw[i].0 && GroupTexts(ps, gs[i]) == Texts(raw[i].1)
    ensures forall i, k :: 0 <= i < |raw| ==> (k in gs[i].keys <==> k in ps && ps[k].phoneme in Texts(raw[i].1))
    ensures forall k, k' :: k in ps && k' in ps && ps[k].phoneme == ps[k'].phoneme ==> k == k'
    ensures forall k :: k in ps ==>
      ps[k].phoneme in Texts(Flatten(raw)) && ps[k].grapheme == FirstGrapheme(Flatten(raw), ps[k].phoneme)
  {
    var table;
    ps, gs, table, n := BuildInventory(raw);
    assert Built(raw, ps, gs, table, n);
    forall i | 0 <= i < |raw|
      ensures GroupTexts(ps, gs[i]) == Texts(raw[i].1)
      ensures forall k :: k in gs[i].keys <==> k in ps && ps[k].phoneme in Texts(raw[i].1)
    {
      GroupMatchesRaw(raw, ps, gs, table, n, i);
    }
    PhonemesMatchRaw(raw, ps, gs, table, n);
  }

  // ---------------------------------------------------------------------------
  // Iterators with deferred deletion: snapshot the keys, hand out one item per
  // step, and apply a deletion asked for on an item at the start of the next
  // step.

  /** `Phonemes`: a read-only walk over a snapshot of keys. */
  class PhonemesIter {
    var idx: nat
    const keys: seq<PhonemeKey>
    const source: Language

    predicate Valid()
      reads this, source
    {
      idx <= |keys| && forall j :: idx <= j < |keys| ==> keys[j] in source.phonemes
    }

    constructor (l: Language, ks: seq<PhonemeKey>)
      requires forall k :: k in ks ==> k in l.phonemes
      ensures Valid() && idx == 0 && keys == ks && source == l
    {
      idx, keys, source := 0, ks, l;
    }

    /** Hands out the next key of the snapshot with its phoneme, or None at the end. */
    method Next() returns (r: Option<(PhonemeKey, Phoneme)>)
      requires Valid()
      modifies this
      ensures Valid()
      ensures old(idx) == |keys| ==> r.None? && idx == old(idx)
      ensures old(idx) < |keys| ==>
                idx == old(idx) + 1 && r == Some((keys[old(idx)], source.phonemes[keys[old(idx)]]))
    {
      if idx == |keys| {
        return None;
      }
      var key := keys[idx];
      idx := idx + 1;
      r := Some((key, source.phonemes[key]));
    }
  }

  /**
   * `PhonemesMut` backed by the language: a deletion asked for on the item
   * handed out last is applied at the next step, cascading through the
   * groups, and that key is dropped from the remaining snapshot.
   */
  class PhonemesMut {
    var idx: nat
    var keys: seq<PhonemeKey>
    var rm: bool
    const lang: Language
    /** The keys as taken when the iterator was made. */
    ghost const snapshot: seq<PhonemeKey>
    /** How many snapshot keys have been handed out. */
    ghost var yielded: nat
    /** Whether the last step handed out an item that can still be deleted. */
    ghost var holding: bool

    ghost predicate Valid()
      reads this, lang
    {
      lang.Valid() &&
      Distinct(snapshot) &&
      yielded <= |snapshot| &&
      idx <= |keys| &&
      keys[idx..] == snapshot[yielded..] &&
      (holding ==> 0 < idx && 0 < yielded && keys[idx - 1] == snapshot[yielded - 1]) &&
      (rm ==> holding) &&
      (forall j :: yielded <= j < |snapshot| ==> snapshot[j] in lang.phonemes)
    }

    constructor (l: Language, ks: seq<PhonemeKey>)
      requires l.Valid() && Distinct(ks)
      requires forall k :: k in ks ==> k in l.phonemes
      ensures Valid() && lang == l && snapshot == ks && yielded == 0 && !holding
    {
      idx, keys, rm, lang := 0, ks, false, l;
      snapshot, yielded, holding := ks, 0, false;
    }

    /** `PhonemeRefMut::delete` on the item handed out last. */
    method Delete()
      requires Valid() && holding
      modifies this
      ensures Valid() && rm
      ensures idx == old(idx) && keys == old(keys) && yielded == old(yielded) && holding
    {
      rm := true;
    }

    /**
     * Applies a pending deletion, then hands out the next snapshot key: the
     * keys come out exactly in snapshot order, none skipped or repeated.
     */
    method Next() returns (r: Option<PhonemeKey>)
      requires Valid()
      modifies this, lang
      ensures Valid() && !rm
      ensures old(yielded) < |snapshot| ==> r == Some(snapshot[old(yielded)]) && yielded == old(yielded) + 1 && holding
      ensures old(yielded) == |snapshot| ==> r.None? && yielded == old(yielded) && !holding
      ensures r.Some? ==> r.value in lang.phonemes
      ensures old(rm) ==>
                lang.phonemes == old(lang.phonemes) - {snapshot[old(yielded) - 1]} &&
                lang.groups == StripMember(old(lang.groups), snapshot[old(yielded) - 1])
      ensures !old(rm) ==> lang.phonemes == old(lang.phonemes) && lang.groups == old(lang.groups)
      ensures lang.phonemeRm == old(lang.phonemeRm) && lang.groupRm == old(lang.groupRm)
      ensures lang.nextPhoneme == old(lang.nextPhoneme) && lang.nextGroup == old(lang.nextGroup)
    {
      if rm {
        idx := idx - 1;
        rm := false;
        var key := keys[idx];
        lang.PhonemeRemove(key);
        assert keys[idx + 1..] == snapshot[yielded..];
        keys := keys[..idx] + keys[idx + 1..];
        assert keys[idx..] == snapshot[yielded..];
        forall j | yielded <= j < |snapshot| ensures snapshot[j] in lang.phonemes {
          assert snapshot[j] != snapshot[yielded - 1];
        }
      }
      holding := false;
      if idx == |keys| {
        assert |snapshot[yielded..]| == 0;
        return None;
      }
      var key := keys[idx];
      assert key == snapshot[yielded];
      idx := idx + 1;
      yielded := yielded + 1;
      holding := true;
      r := Some(key);
    }
  }

  /** `GroupsMut`: the same protocol over group keys, deleting with `GroupRemove`. */
  class GroupsMut {
    var pos: nat
    const keys: seq<GroupKey>
    var rm: Option<GroupKey>
    const lang: Language

    ghost predicate Valid()
      reads this, lang
    {
      lang.Valid() &&
      Distinct(keys) &&
      pos <= |keys| &&
      (rm.Some? ==> 0 < pos && rm.value == keys[pos - 1]) &&
      (forall j :: pos <= j < |keys| ==> keys[j] in lang.groups)
    }

    constructor (l: Language, ks: seq<GroupKey>)
      requires l.Valid() && Distinct(ks)
      requires forall k :: k in ks ==> k in l.groups
      ensures Valid() && lang == l && keys == ks && pos == 0 && rm.None?
    {
      pos, keys, rm, lang := 0, ks, None, l;
    }

    /** `GroupRefMut::delete` on the group handed out last. */
    method Delete()
      requires Valid() && 0 < pos
      modifies this
      ensures pos == old(pos) && 0 < pos
      ensures Valid() && rm == Some(keys[pos - 1])
    {
      rm := Some(keys[pos - 1]);
    }

    /** Removes a group queued for deletion, then hands out the next snapshot key. */
    method Next() returns (r: Option<GroupKey>)
      requires Valid()
      modifies this, lang
      ensures Valid() && rm.None?
      ensures old(pos) < |keys| ==> r == Some(keys[old(pos)]) && pos == old(pos) + 1
      ensures old(pos) == |keys| ==> r.None? && pos == old(pos)
      ensures r.Some? ==> r.value in lang.groups
      ensures old(rm).Some? ==> lang.groups == old(lang.groups) - {old(rm).value}
      ensures old(rm).None? ==> lang.groups == old(lang.groups)
      ensures lang.phonemes == old(lang.phonemes)
      ensures lang.phonemeRm == old(lang.phonemeRm) && lang.groupRm == old(lang.groupRm)
      ensures lang.nextPhoneme == old(lang.nextPhoneme) && lang.nextGroup == old(lang.nextGroup)
    {
      if rm.Some? {
        lang.GroupRemove(rm.value);
        rm := None;
      }
      if pos == |keys| {
        return None;
      }
      r := Some(keys[pos]);
      pos := pos + 1;
    }
  }

  /** `phonemes_all`: a read-only walk over every phoneme in arena order. */
  method PhonemesAll(l: Language) returns (it: PhonemesIter)
    requires l.Valid()
    ensures fresh(it) && it.Valid() && it.source == l && it.idx == 0
    ensures Ascending(it.keys) && forall k :: k in it.keys <==> k in l.phonemes
  {
    var ks := AscendingKeys(l.phonemes.Keys, l.nextPhoneme);
    it := new PhonemesIter(l, ks);
  }

  /** `phonemes_mut(key)`: a deleting walk over a live group's members, None for a stale key. */
  method PhonemesMutOf(l: Language, key: GroupKey) returns (r: Option<PhonemesMut>)
    requires l.Valid()
    ensures r.Some? <==> key in l.groups
    ensures r.Some? ==> fresh(r.value) && r.value.Valid() && r.value.lang == l && r.value.yielded == 0
    ensures r.Some? ==> Ascending(r.value.snapshot) && forall k :: k in r.value.snapshot <==> k in l.groups[key].keys
  {
    var ks := l.Phonemes(key);
    if ks.Some? {
      var it := new PhonemesMut(l, ks.value);
      r := Some(it);
    } else {
      r := None;
    }
  }

  /** `phonemes_mut_all`: a deleting walk over every phoneme in arena order. */
  method PhonemesMutAll(l: Language) returns (it: PhonemesMut)
    requires l.Valid()
    ensures fresh(it) && it.Valid() && it.lang == l && it.yielded == 0
    ensures Ascending(it.snapshot) && forall k :: k in it.snapshot <==> k in l.phonemes
  {
    var ks := AscendingKeys(l.phonemes.Keys, l.nextPhoneme);
    it := new PhonemesMut(l, ks);
  }

  /** `groups_mut`: a deleting walk over every group in arena order. */
  method GroupsMutAll(l: Language) returns (it: GroupsMut)
    requires l.Valid()
    ensures fresh(it) && it.Valid() && it.lang == l && it.pos == 0
    ensures Ascending(it.keys) && forall k :: k in it.keys <==> k in l.groups
  {
    var ks := AscendingKeys(l.groups.Keys, l.nextGroup);
    it := new GroupsMut(l, ks);
  }
}
