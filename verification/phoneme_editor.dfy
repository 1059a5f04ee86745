/**
 * The phoneme editor (src/tools/editors/phoneme_editor.rs): either a new
 * phoneme is being typed, or an existing one is being edited together with
 * the set of groups it belongs to. The editor keeps that set in step with the
 * member sets of the language's groups.
 */
module PhonemeEditing {
  import opened Wrappers
  import opened GroupNames
  import opened Inventory
  import Rules

  datatype EditorState =
    | Editing(phonemeKey: PhonemeKey, groups: set<GroupKey>, rm: bool, clear: bool)
    | New(content: string, complete: Option<PhonemeKey>, failed: bool)

  /** `PhonemeEditor::default()`: an empty new-phoneme field. */
  function Default(): EditorState {
    New("", None, false)
  }

  /** The groups whose member set holds `key`. */
  function Containing(groups: map<GroupKey, Group>, key: PhonemeKey): set<GroupKey> {
    set g | g in groups && key in groups[g].keys
  }

  /**
   * `get_groups`: walks the groups in arena order and keeps those whose
   * phonemes include `key`.
   */
  method GetGroups(lang: Language, key: PhonemeKey) returns (r: set<GroupKey>)
    requires lang.Valid()
    ensures forall g :: g in r <==> g in lang.groups && key in lang.groups[g].keys
  {
    var gs := AscendingKeys(lang.groups.Keys, lang.nextGroup);
    r := {};
    var i := 0;
    while i < |gs|
      invariant 0 <= i <= |gs|
      invariant forall g :: g in r <==> g in gs[..i] && key in lang.groups[g].keys
    {
      var members := lang.Phonemes(gs[i]);
      if key in members.value {
        r := r + {gs[i]};
      }
      assert gs[..i + 1] == gs[..i] + [gs[i]];
      i := i + 1;
    }
    assert gs[..i] == gs;
  }

  /** Whether the groups containing `key` are exactly the live members of `gs`. */
  predicate InStep(lang: Language, key: PhonemeKey, gs: set<GroupKey>)
    reads lang
  {
    forall g :: g in lang.groups ==> (g in gs <==> key in lang.groups[g].keys)
  }

  class PhonemeEditor {
    var state: EditorState

    /**
     * The edited phoneme is live and the editor's group set agrees with the
     * language on every live group; a recorded new phoneme is live.
     */
    predicate Tracks(lang: Language)
      reads this, lang
    {
      && (state.Editing? ==> state.phonemeKey in lang.phonemes && InStep(lang, state.phonemeKey, state.groups))
      && (state.New? && state.complete.Some? ==> state.complete.value in lang.phonemes)
    }

    constructor ()
      ensures state == Default()
    {
      state := Default();
    }

    /**
     * `parse_new_phoneme`: a phoneme that parses is added to the language and
     * its key recorded, unless a key was recorded already; one that does not
     * parse marks the field as failed. `parsed` is the parser's verdict on the
     * field's content; `added` is the key the language handed out.
     */
    method ParseNewPhoneme(lang: Language, parsed: Option<Phoneme>) returns (added: Option<PhonemeKey>)
      requires lang.Valid() && state.New?
      modifies this, lang
      ensures lang.Valid()
      ensures added.Some? <==> parsed.Some?
      ensures parsed.Some? ==>
                added.value !in old(lang.phonemes) &&
                lang.phonemes == old(lang.phonemes)[added.value := parsed.value] &&
                state == old(state).(complete := if old(state.complete).Some? then old(state.complete) else added)
      ensures parsed.None? ==> lang.phonemes == old(lang.phonemes) && state == old(state).(failed := true)
      ensures lang.groups == old(lang.groups) && lang.phonemeRm == old(lang.phonemeRm) && lang.groupRm == old(lang.groupRm)
      ensures lang.nextGroup == old(lang.nextGroup)
      ensures lang.nextPhoneme == if parsed.Some? then added.value + 1 else old(lang.nextPhoneme)
    {
      match parsed {
        case Some(p) =>
          var key := lang.PhonemeAdd(p);
          added := Some(key);
          if state.complete.None? {
            state := state.(complete := Some(key));
          }
        case None =>
          added := None;
          state := state.(failed := true);
      }
    }

    /**
     * The first half of `show`: a group handed over by the focus joins the
     * edited phoneme's groups (in the editor and in the language); a finished
     * addition turns into editing the new phoneme; then a requested clear
     * resets the editor, and otherwise a requested removal deletes the phoneme
     * from the language and resets the editor.
     */
    method Show(lang: Language, taken: Option<GroupKey>)
      requires lang.Valid()
      requires taken.Some? && state.Editing? ==> taken.value in lang.groups && state.phonemeKey in lang.phonemes
      modifies this, lang
      ensures lang.Valid()
      ensures state.Editing? ==> !state.rm && !state.clear
      ensures old(state).New? && old(state).complete.None? ==>
                state == old(state) && lang.phonemes == old(lang.phonemes) && lang.groups == old(lang.groups)
      ensures old(state).New? && old(state).complete.Some? ==>
                lang.phonemes == old(lang.phonemes) && lang.groups == old(lang.groups) &&
                state == Editing(old(state).complete.value, Containing(lang.groups, old(state).complete.value), false, false)
      ensures old(state).Editing? ==>
                var k := old(state).phonemeKey;
                var gs := if taken.Some? then old(state).groups + {taken.value} else old(state).groups;
                var joined := if taken.Some? then old(lang.groups)[taken.value := old(lang.groups)[taken.value].(keys := old(lang.groups)[taken.value].keys + {k})]
                              else old(lang.groups);
                if old(state).clear then
                  state == Default() && lang.phonemes == old(lang.phonemes) && lang.groups == joined
                else if old(state).rm then
                  state == Default() && lang.phonemes == old(lang.phonemes) - {k} && lang.groups == StripMember(joined, k)
                else
                  state == old(state).(groups := gs) && lang.phonemes == old(lang.phonemes) && lang.groups == joined
      ensures old(Tracks(lang)) ==> Tracks(lang)
      ensures lang.phonemeRm == old(lang.phonemeRm) && lang.groupRm == old(lang.groupRm)
      ensures lang.nextPhoneme == old(lang.nextPhoneme) && lang.nextGroup == old(lang.nextGroup)
    {
      if taken.Some? && state.Editing? {
        lang.GroupMemberInsert(taken.value, state.phonemeKey);
        state := state.(groups := state.groups + {taken.value});
      }
      if state.New? && state.complete.Some? {
        var key := state.complete.value;
        var gs := GetGroups(lang, key);
        state := Editing(key, gs, false, false);
      }
      if state.Editing? && state.clear {
        state := Default();
      }
      if state.Editing? && state.rm {
        lang.PhonemeRemove(state.phonemeKey);
        state := Default();
      }
    }

    /**
     * `set`: a phoneme of the language handed over by the focus becomes the
     * edited one, with the groups that hold it; a representation phoneme is
     * ignored.
     */
    method Set(lang: Language, key: PhonemeKey, src: Rules.PhonemeSrc)
      requires lang.Valid()
      modifies this
      ensures src.Language? ==> state == Editing(key, Containing(lang.groups, key), false, false)
      ensures src.Rep? ==> state == old(state)
      ensures src.Language? && key in lang.phonemes ==> Tracks(lang)
    {
      if src.Language? {
        var gs := GetGroups(lang, key);
        state := Editing(key, gs, false, false);
      }
    }

    /**
     * `selection_row`: an edited phoneme is looked up for editing, which first
     * applies a deletion queued on the phoneme handed out before; if it is no
     * longer live the editor resets, otherwise the Clear button may request a
     * clear. A new phoneme's field takes the typed `content` and is parsed when
     * it loses focus.
     */
    method SelectionRow(lang: Language, clearClicked: bool, content: string, lostFocus: bool, parsed: Option<Phoneme>)
      returns (added: Option<PhonemeKey>)
      requires lang.Valid()
      modifies this, lang
      ensures lang.Valid()
      ensures old(state).Editing? ==>
                var k := old(state).phonemeKey;
                (if old(lang.phonemeRm.1) then
                   lang.phonemes == old(lang.phonemes) - {old(lang.phonemeRm.0)} &&
                   lang.groups == StripMember(old(lang.groups), old(lang.phonemeRm.0))
                 else
                   lang.phonemes == old(lang.phonemes) && lang.groups == old(lang.groups)) &&
                (if k in lang.phonemes then
                   state == (if clearClicked then old(state).(clear := true) else old(state)) &&
                   lang.phonemeRm == (k, false)
                 else
                   state == Default() && lang.phonemeRm == (old(lang.phonemeRm.0), false))
      ensures old(state).New? && !lostFocus ==>
                state == old(state).(content := content) && lang.phonemes == old(lang.phonemes) &&
                lang.groups == old(lang.groups) && lang.phonemeRm == old(lang.phonemeRm)
      ensures old(state).New? && lostFocus ==>
                state.New? && state.content == content && lang.groups == old(lang.groups) &&
                (parsed.None? <==> lang.phonemes == old(lang.phonemes)) &&
                (parsed.None? ==> state.failed && state.complete == old(state).complete) &&
                (parsed.Some? ==> state.complete.Some? && old(lang.phonemes.Keys) < lang.phonemes.Keys)
      ensures old(state).Editing? || !lostFocus ==> added.None?
      ensures old(state).New? && lostFocus ==>
                (added.Some? <==> parsed.Some?) && lang.phonemeRm == old(lang.phonemeRm) &&
                (parsed.Some? ==>
                   added.value !in old(lang.phonemes) &&
                   lang.phonemes == old(lang.phonemes)[added.value := parsed.value] &&
                   lang.nextPhoneme == added.value + 1 &&
                   state == old(state).(content := content,
                                        complete := if old(state).complete.Some? then old(state).complete else added)) &&
                (parsed.None? ==> state == old(state).(content := content, failed := true))
      ensures old(Tracks(lang)) ==> Tracks(lang)
      ensures lang.groupRm == old(lang.groupRm) && lang.nextGroup == old(lang.nextGroup)
      ensures old(state).Editing? || !lostFocus || parsed.None? ==> lang.nextPhoneme == old(lang.nextPhoneme)
    {
      added := None;
      match state {
        case Editing(k, _, _, _) =>
          var found := lang.PhonemeRefMut(k);
          if found {
            if clearClicked {
              state := state.(clear := true);
            }
          } else {
            state := Default();
          }
        case New(_, _, _) =>
          state := state.(content := content);
          if lostFocus {
            added := ParseNewPhoneme(lang, parsed);
          }
      }
    }

    /**
     * One chip of `group_panel_inner`: the group is looked up, which first
     * applies a queued group deletion; if it is live and its chip was clicked,
     * it leaves the editor's set and the phoneme leaves its member set.
     */
    method VisitChip(lang: Language, key: GroupKey, clicked: Option<GroupKey>)
      requires lang.Valid() && state.Editing?
      modifies this, lang
      ensures lang.Valid() && state.Editing? && state.phonemeKey == old(state).phonemeKey
      ensures var live := if old(lang.groupRm).Some? then old(lang.groups) - {old(lang.groupRm).value} else old(lang.groups);
              if key in live && clicked == Some(key) then
                state == old(state).(groups := old(state).groups - {key}) &&
                lang.groups == live[key := live[key].(keys := live[key].keys - {old(state).phonemeKey})]
              else
                state == old(state) && lang.groups == live
      ensures lang.groupRm == None
      ensures lang.phonemes == old(lang.phonemes) && lang.phonemeRm == old(lang.phonemeRm)
      ensures lang.nextPhoneme == old(lang.nextPhoneme) && lang.nextGroup == old(lang.nextGroup)
      ensures old(Tracks(lang)) ==> Tracks(lang)
    {
      var found := lang.GroupRefMut(key);
      if found && clicked == Some(key) {
        state := state.(groups := state.groups - {key});
        lang.GroupMemberRemove(key, state.phonemeKey);
      }
    }

    /**
     * `group_panel_inner`: every group of the edited phoneme is looked up in
     * ascending key order, which first applies a queued group deletion; a
     * clicked chip of a live group takes the group out of the editor's set and
     * the phoneme out of the group.
     */
    method GroupPanel(lang: Language, clicked: Option<GroupKey>)
      requires lang.Valid() && state.Editing?
      modifies this, lang
      ensures lang.Valid()
      ensures var live := if old(state).groups != {} && old(lang.groupRm).Some?
                          then old(lang.groups) - {old(lang.groupRm).value} else old(lang.groups);
              var k := old(state).phonemeKey;
              if clicked.Some? && clicked.value in old(state).groups && clicked.value in live then
                state == old(state).(groups := old(state).groups - {clicked.value}) &&
                lang.groups == live[clicked.value := live[clicked.value].(keys := live[clicked.value].keys - {k})]
              else
                state == old(state) && lang.groups == live
      ensures lang.groupRm == (if old(state).groups != {} then None else old(lang.groupRm))
      ensures lang.phonemes == old(lang.phonemes) && lang.phonemeRm == old(lang.phonemeRm)
      ensures lang.nextPhoneme == old(lang.nextPhoneme) && lang.nextGroup == old(lang.nextGroup)
      ensures old(Tracks(lang)) ==> Tracks(lang)
    {
      var k := state.phonemeKey;
      var bound := UpperBound(state.groups);
      var ks := AscendingKeys(state.groups, bound);
      if state.groups != {} {
        ghost var x :| x in state.groups;
        assert x in ks;
      }
      ghost var live := if state.groups != {} && lang.groupRm.Some?
                        then lang.groups - {lang.groupRm.value} else lang.groups;
      ghost var s0 := state;
      ghost var rm0 := lang.groupRm;
      ghost var tracked := Tracks(lang);
      ghost var hit := false;
      assert |ks| > 0 ==> ks[0] in state.groups;
      var i := 0;
      while i < |ks|
        invariant 0 <= i <= |ks|
        invariant lang.Valid()
        invariant state.Editing? && state.phonemeKey == k
        invariant lang.phonemes == old(lang.phonemes) && lang.phonemeRm == old(lang.phonemeRm)
        invariant lang.nextPhoneme == old(lang.nextPhoneme) && lang.nextGroup == old(lang.nextGroup)
        invariant i == 0 ==> lang.groups == old(lang.groups) && lang.groupRm == rm0 && state == s0
        invariant 0 < i ==> lang.groupRm == None
        invariant hit <==> clicked.Some? && clicked.value in ks[..i] && clicked.value in live
        invariant 0 < i && hit ==>
                    state == s0.(groups := s0.groups - {clicked.value}) &&
                    lang.groups == live[clicked.value := live[clicked.value].(keys := live[clicked.value].keys - {k})]
        invariant 0 < i && !hit ==> state == s0 && lang.groups == live
        invariant tracked ==> Tracks(lang)
        invariant forall x :: x in ks[..i] ==> i == |ks| || x < ks[i]
      {
        var key := ks[i];
        assert !hit || clicked != Some(key);
        hit := hit || (clicked == Some(key) && key in live);
        VisitChip(lang, key, clicked);
        assert ks[..i + 1] == ks[..i] + [key];
        i := i + 1;
      }
      assert ks[..i] == ks;
    }
  }

  /** A bound above every key of a finite set, for walking it in ascending order. */
  method UpperBound(s: set<nat>) returns (b: nat)
    ensures forall k :: k in s ==> k < b
  {
    b := 0;
    var rest := s;
    while rest != {}
      invariant rest <= s
      invariant forall k :: k in s && k !in rest ==> k < b
      decreases rest
    {
      var x :| x in rest;
      if b <= x {
        b := x + 1;
      }
      rest := rest - {x};
    }
  }
}
