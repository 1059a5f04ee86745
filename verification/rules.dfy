/**
 * The shapes of a sound-change rule (src/types/sc.rs, in the richer form the
 * rule editor in src/tools/sca/sc_editor.rs works on): four fields, each a
 * list of elements, where the two environment fields carry a flag saying
 * whether they hold a word boundary.
 */
module Rules {
  type PhonemeKey = nat
  type GroupKey = nat

  /** Where a phoneme reference points: the inventory, or the rule-local representative phonemes. */
  datatype PhonemeSrc = Language | Rep

  datatype Field = Target | Replacement | EnvStart(hasBoundary: bool) | EnvEnd(hasBoundary: bool)

  datatype Element =
    | Phoneme(key: PhonemeKey, rep: bool)
    | Group(key: GroupKey)
    | Boundary
    | Any(elems: seq<Element>)
    | Invalid(content: string)

  /** An element that holds a boundary: the boundary itself, or an `Any` listing one. */
  predicate BearsBoundary(e: Element) {
    e.Boundary? || (e.Any? && Element.Boundary in e.elems)
  }

  /** Sets the boundary flag of an environment field; Target and Replacement have none. */
  function WithBoundaryFlag(field: Field, flag: bool): (r: Field)
    ensures r.EnvStart? == field.EnvStart? && r.EnvEnd? == field.EnvEnd?
    ensures r.Target? == field.Target? && r.Replacement? == field.Replacement?
    ensures (r.EnvStart? || r.EnvEnd?) ==> r.hasBoundary == flag
  {
    match field
      case EnvStart(_) => EnvStart(flag)
      case EnvEnd(_) => EnvEnd(flag)
      case _ => field
  }
}
