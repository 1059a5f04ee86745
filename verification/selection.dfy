/**
 * A selection of keys (src/types/selection.rs): a single slot, a set, or
 * nothing at all. The source's variants borrow the storage they update; here
 * the storage is the object's own fields.
 */
module Selections {
  import opened Wrappers

  datatype Mode = Single | Multiple | NoSelection

  class Selection {
    const mode: Mode
    /** The slot a Single selection writes. */
    var slot: Option<nat>
    /** The set a Multiple selection writes. */
    var keys: set<nat>

    constructor (m: Mode, s: Option<nat>, ks: set<nat>)
      ensures mode == m && slot == s && keys == ks
    {
      mode, slot, keys := m, s, ks;
    }

    /** `is_selected`: the slot holds the key, the set contains it, or never. */
    function IsSelected(key: nat): (r: bool)
      reads this
      ensures mode == Single ==> (r <==> slot == Some(key))
      ensures mode == Multiple ==> (r <==> key in keys)
      ensures mode == NoSelection ==> !r
    {
      match mode
        case Single => (match slot case Some(selected) => selected == key case None => false)
        case Multiple => key in keys
        case NoSelection => false
    }

    /** `insert`: a Single slot is overwritten, a Multiple set grows, nothing happens otherwise. */
    method Insert(key: nat)
      modifies this
      ensures mode == Single ==> slot == Some(key) && keys == old(keys)
      ensures mode == Multiple ==> keys == old(keys) + {key} && slot == old(slot)
      ensures mode == NoSelection ==> slot == old(slot) && keys == old(keys)
      ensures mode != NoSelection ==> IsSelected(key)
      ensures forall k :: k != key && mode == Multiple ==> (IsSelected(k) <==> old(IsSelected(k)))
    {
      match mode {
        case Single => slot := Some(key);
        case Multiple => keys := keys + {key};
        case NoSelection =>
      }
    }

    /** `remove`: a Single slot is cleared only when it holds that key; a Multiple set loses it. */
    method Remove(key: nat)
      modifies this
      ensures mode == Single ==> slot == (if old(slot) == Some(key) then Option.None else old(slot)) && keys == old(keys)
      ensures mode == Multiple ==> keys == old(keys) - {key} && slot == old(slot)
      ensures mode == NoSelection ==> slot == old(slot) && keys == old(keys)
      ensures !IsSelected(key)
      ensures forall k :: k != key ==> (IsSelected(k) <==> old(IsSelected(k)))
    {
      match mode {
        case Single =>
          if slot == Some(key) {
            slot := Option.None;
          }
        case Multiple => keys := keys - {key};
        case NoSelection =>
      }
    }
  }
}
