/**
 * The insertion focus (src/state/focus.rs): a target saying where the next
 * element will go, and a buffer holding the element chosen for it.
 */
module Focusing {
  import opened Wrappers
  import opened Rules

  datatype FocusTarget =
    | Sc(field: Field, head: bool, tail: bool, nested: bool)
    | NewPhonemeGroups
    | None

  datatype FocusBuffer =
    | Phoneme(key: PhonemeKey, src: PhonemeSrc)
    | Group(key: GroupKey)
    | Any
    | Boundary

  /**
   * `FocusTarget::is_valid`: which buffer may go into which rule field at
   * which position. The contract gives the same table read by buffer kind
   * instead of by field.
   */
  function IsValid(target: FocusTarget, buffer: FocusBuffer): (r: bool)
    ensures buffer.Phoneme? ==> (r <==> target.Sc? && (buffer.src == Language || target.field.Replacement?))
    ensures buffer.Group? ==> (r <==> !target.None?)
    ensures buffer.Any? ==> (r <==> target.Sc? && !target.nested)
    ensures buffer.Boundary? ==>
              (r <==> target.Sc? && ((target.field.EnvStart? && target.head) || (target.field.EnvEnd? && target.tail)))
  {
    match target
      case Sc(field, head, tail, nested) =>
        (match field
          case Target =>
            (match buffer
              case Phoneme(_, src) => src == Language
              case Group(_) => true
              case Any => !nested
              case Boundary => false)
          case Replacement =>
            (match buffer
              case Phoneme(_, _) => true
              case Group(_) => true
              case Any => !nested
              case Boundary => false)
          case EnvStart(_) =>
            (match buffer
              case Phoneme(_, src) => src == Language
              case Group(_) => true
              case Any => !nested
              case Boundary => head)
          case EnvEnd(_) =>
            (match buffer
              case Phoneme(_, src) => src == Language
              case Group(_) => true
              case Any => !nested
              case Boundary => tail))
      case NewPhonemeGroups => buffer.Group?
      case None => false
  }

  /** A focus whose buffer, when there is one, fits its target. */
  class Focus {
    var target: FocusTarget
    var buffer: Option<FocusBuffer>

    ghost predicate Valid()
      reads this
    {
      buffer.Some? ==> IsValid(target, buffer.value)
    }

    constructor ()
      ensures Valid() && target == FocusTarget.None && buffer == Option.None
    {
      target := FocusTarget.None;
      buffer := Option.None;
    }

    /** `set`: a new target, with the buffer emptied. */
    method Set(t: FocusTarget)
      modifies this
      ensures Valid()
      ensures target == t && buffer == Option.None
    {
      target := t;
      buffer := Option.None;
    }

    /** `clear`: no target and an empty buffer. */
    method Clear()
      modifies this
      ensures Valid()
      ensures target == FocusTarget.None && buffer == Option.None
    {
      target := FocusTarget.None;
      buffer := Option.None;
    }

    /**
     * `show_if_valid`: the offered buffer is stored when the user clicks it,
     * which is only possible when the current target accepts it.
     */
    method ShowIfValid(b: FocusBuffer, clicked: bool)
      requires Valid()
      modifies this
      ensures Valid()
      ensures target == old(target)
      ensures buffer == if IsValid(target, b) && clicked then Some(b) else old(buffer)
    {
      if IsValid(target, b) {
        if clicked {
          buffer := Some(b);
        }
      }
    }
  }
}
