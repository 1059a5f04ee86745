/** Syllable shapes (src/types/syllable.rs): a list of phoneme, group or invalid slots. */
module Syllables {
  datatype SyllabicElement = Phoneme(key: nat) | Group(key: nat) | Invalid

  datatype Syllable = Syllable(elems: seq<SyllabicElement>)

  /** `len`: the number of elements. */
  function Len(s: Syllable): (r: nat)
    ensures r == 0 <==> s.elems == []
  {
    |s.elems|
  }

  /** `is_empty`: whether there are no elements. */
  function IsEmpty(s: Syllable): (r: bool)
    ensures r <==> Len(s) == 0
  {
    s.elems == []
  }

  /** The fold of `is_valid`: the accumulator stays true while no element is Invalid. */
  function FoldValid(valid: bool, elems: seq<SyllabicElement>): bool {
    if elems == [] then valid else FoldValid(valid && !elems[0].Invalid?, elems[1..])
  }

  /** The fold is true exactly when it starts true and meets no Invalid element. */
  lemma {:induction false} FoldValidSpec(valid: bool, elems: seq<SyllabicElement>)
    ensures FoldValid(valid, elems) <==> valid && forall i :: 0 <= i < |elems| ==> !elems[i].Invalid?
  {
    if elems != [] {
      FoldValidSpec(valid && !elems[0].Invalid?, elems[1..]);
      assert forall i :: 1 <= i < |elems| ==> elems[i] == elems[1..][i - 1];
    }
  }

  /** `is_valid`: at least one element and none Invalid; a valid syllable is never empty. */
  function IsValid(s: Syllable): (r: bool)
    ensures r <==> |s.elems| > 0 && forall i :: 0 <= i < |s.elems| ==> !s.elems[i].Invalid?
    ensures r ==> !IsEmpty(s)
  {
    FoldValidSpec(true, s.elems);
    s.elems != [] && FoldValid(true, s.elems)
  }
}
