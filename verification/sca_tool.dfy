/**
 * The sound-change list of the rule tool (src/tools/sca/mod.rs): rules are
 * added at the end, deleted, and moved up or down, while an `active` cursor
 * names the rule being edited.
 */
module RuleList {
  import opened Wrappers
  import opened Rules

  /** A rule: the elements of each of its four fields. */
  datatype SoundChange = SoundChange(target: seq<Element>, replacement: seq<Element>,
                                     envStart: seq<Element>, envEnd: seq<Element>)

  /** `SoundChange::default()`: four empty fields. */
  function DefaultSoundChange(): SoundChange {
    SoundChange([], [], [], [])
  }

  /** The document's rule list. */
  class RuleStore {
    var soundChanges: seq<SoundChange>

    constructor (rules: seq<SoundChange>)
      ensures soundChanges == rules
    {
      soundChanges := rules;
    }
  }

  /** `v.swap(i, j)` on a sequence. */
  function Swap<T>(s: seq<T>, i: nat, j: nat): (r: seq<T>)
    requires i < |s| && j < |s|
    ensures |r| == |s| && r[i] == s[j] && r[j] == s[i]
    ensures forall k :: 0 <= k < |s| && k != i && k != j ==> r[k] == s[k]
  {
    s[i := s[j]][j := s[i]]
  }

  /** A swap rearranges the rules and loses none. */
  lemma SwapPermutes<T>(s: seq<T>, i: nat, j: nat)
    requires i < |s| && j < |s|
    ensures multiset(Swap(s, i, j)) == multiset(s)
  {
    if i != j {
      var t := s[i := s[j]];
      assert multiset(t) == multiset(s) - multiset{s[i]} + multiset{s[j]};
      assert t[j] == s[j];
      assert multiset(t[j := s[i]]) == multiset(t) - multiset{s[j]} + multiset{s[i]};
    }
  }

  class ScaTool {
    var active: Option<nat>
    var activeScrollToBottom: bool

    /** The cursor is absent or names a rule. */
    predicate ActiveInRange(store: RuleStore)
      reads this, store
    {
      active.None? || active.value < |store.soundChanges|
    }

    constructor ()
      ensures active == Option.None && !activeScrollToBottom
    {
      active, activeScrollToBottom := Option.None, false;
    }

    /** Add: a default rule is appended and becomes the active one. */
    method Add(store: RuleStore)
      modifies this, store
      ensures store.soundChanges == old(store.soundChanges) + [DefaultSoundChange()]
      ensures active == Some(|store.soundChanges| - 1) && activeScrollToBottom
      ensures ActiveInRange(store)
    {
      active := Some(|store.soundChanges|);
      activeScrollToBottom := true;
      store.soundChanges := store.soundChanges + [DefaultSoundChange()];
    }

    /**
     * Delete on the active rule: it is removed; the cursor stays when it
     * still names a rule, moves to the new last rule otherwise, and is dropped
     * when the list became empty.
     */
    method Delete(store: RuleStore)
      requires active.Some? && active.value < |store.soundChanges|
      modifies this, store
      ensures var idx := old(active).value;
              store.soundChanges == old(store.soundChanges)[..idx] + old(store.soundChanges)[idx + 1..]
      ensures var idx := old(active).value;
              active == if idx < |store.soundChanges| then Some(idx)
                        else if |store.soundChanges| == 0 then Option.None
                        else Some(idx - 1)
      ensures activeScrollToBottom == old(activeScrollToBottom)
      ensures ActiveInRange(store)
    {
      var idx := active.value;
      store.soundChanges := store.soundChanges[..idx] + store.soundChanges[idx + 1..];
      if idx >= |store.soundChanges| {
        if |store.soundChanges| == 0 || idx == 0 {
          active := Option.None;
        } else {
          active := Some(idx - 1);
        }
      }
    }

    /** Move up: enabled unless the active rule is first; it trades places with the one above and stays active. */
    method MoveUp(store: RuleStore)
      requires active.Some? && active.value < |store.soundChanges|
      modifies this, store
      ensures var idx := old(active).value;
              if idx != 0 then
                store.soundChanges == Swap(old(store.soundChanges), idx, idx - 1) && active == Some(idx - 1)
              else
                store.soundChanges == old(store.soundChanges) && active == old(active)
      ensures multiset(store.soundChanges) == multiset(old(store.soundChanges))
      ensures activeScrollToBottom == old(activeScrollToBottom)
      ensures ActiveInRange(store)
    {
      var idx := active.value;
      if idx != 0 {
        SwapPermutes(store.soundChanges, idx, idx - 1);
        active := Some(idx - 1);
        store.soundChanges := Swap(store.soundChanges, idx, idx - 1);
      }
    }

    /** Move down: enabled unless the active rule is last; it trades places with the one below and stays active. */
    method MoveDown(store: RuleStore)
      requires active.Some? && active.value < |store.soundChanges|
      modifies this, store
      ensures var idx := old(active).value;
              if idx != |old(store.soundChanges)| - 1 then
                store.soundChanges == Swap(old(store.soundChanges), idx, idx + 1) && active == Some(idx + 1)
              else
                store.soundChanges == old(store.soundChanges) && active == old(active)
      ensures multiset(store.soundChanges) == multiset(old(store.soundChanges))
      ensures activeScrollToBottom == old(activeScrollToBottom)
      ensures ActiveInRange(store)
    {
      var idx := active.value;
      if idx != |store.soundChanges| - 1 {
        SwapPermutes(store.soundChanges, idx, idx + 1);
        active := Some(idx + 1);
        store.soundChanges := Swap(store.soundChanges, idx, idx + 1);
      }
    }

    /** Clicking a rule that is not active makes it the active one. */
    method Click(store: RuleStore, idx: nat)
      requires idx < |store.soundChanges| && active != Some(idx)
      modifies this
      ensures active == Some(idx) && activeScrollToBottom == old(activeScrollToBottom)
      ensures ActiveInRange(store)
    {
      active := Some(idx);
    }
  }
}
