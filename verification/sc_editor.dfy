/**
 * In-place editing of one rule field (src/tools/sca/sc_editor.rs): elements
 * are inserted from the focus buffer at the head or the tail of the field or
 * of an `Any`, removed through their context menu, and the boundary flag of
 * an environment field follows the boundaries it holds.
 *
 * Each method is one pass of the editor in which the user did one thing:
 * the focus is cleared after the first insertion, so a pass takes at most one
 * buffer.
 */
module RuleEditor {
  import opened Wrappers
  import opened Rules
  import opened Focusing

  /** An element of a field: an `Any` holds no `Any`. */
  predicate Fits(e: Element) {
    e.Any? ==> forall x :: x in e.elems ==> !x.Any?
  }

  /**
   * The editor's invariant on a field: Target and Replacement hold no
   * boundary; an EnvStart holds one only first and an EnvEnd only last, and
   * the flag says exactly whether it is there.
   */
  predicate WellFormed(field: Field, elems: seq<Element>) {
    (forall i :: 0 <= i < |elems| ==> Fits(elems[i])) &&
    ((field.Target? || field.Replacement?) ==> forall i :: 0 <= i < |elems| ==> !BearsBoundary(elems[i])) &&
    (field.EnvStart? ==>
      (forall i :: 0 <= i < |elems| && BearsBoundary(elems[i]) ==> i == 0) &&
      (field.hasBoundary <==> |elems| > 0 && BearsBoundary(elems[0]))) &&
    (field.EnvEnd? ==>
      (forall i :: 0 <= i < |elems| && BearsBoundary(elems[i]) ==> i == |elems| - 1) &&
      (field.hasBoundary <==> |elems| > 0 && BearsBoundary(elems[|elems| - 1])))
  }

  /** The element a taken buffer becomes. */
  function ElementOf(b: FocusBuffer): (e: Element)
    ensures BearsBoundary(e) <==> b.Boundary?
    ensures e.Any? ==> b.Any? && e.elems == []
    ensures e.Phoneme? <==> b.Phoneme?
    ensures e.Phoneme? ==> e.key == b.key && (e.rep <==> b.src == Rep)
    ensures e.Group? <==> b.Group?
  {
    match b
      case Phoneme(key, src) => Element.Phoneme(key, src == Rep)
      case Group(key) => Element.Group(key)
      case Any => Element.Any([])
      case Boundary => Element.Boundary
  }

  /** Taking a boundary raises the flag of an environment field; anything else leaves the field alone. */
  function Marked(field: Field, b: FocusBuffer): Field {
    if b.Boundary? then WithBoundaryFlag(field, true) else field
  }

  /** Insertion at the head or the tail. */
  function Insert(elems: seq<Element>, e: Element, head: bool): (r: seq<Element>)
    ensures |r| == |elems| + 1
    ensures head ==> r[0] == e && r[1..] == elems
    ensures !head ==> r[|elems|] == e && r[..|elems|] == elems
  {
    if head then [e] + elems else elems + [e]
  }

  /** What an addition point takes: the focus buffer, when the focus is aimed at that point. */
  function Taken(target: FocusTarget, buffer: Option<FocusBuffer>, at: FocusTarget): Option<FocusBuffer> {
    if buffer.Some? && target == at then buffer else Option.None
  }

  /** The leading addition point is offered unless EnvStart holds a boundary, and only on a non-empty field. */
  predicate LeadingOffered(field: Field, elems: seq<Element>) {
    field != EnvStart(true) && |elems| > 0
  }

  /** The trailing addition point is offered unless EnvEnd holds a boundary. */
  predicate TrailingOffered(field: Field) {
    field != EnvEnd(true)
  }

  /** The index the last Remove click of a walk selected. */
  function LastClicked(clicks: seq<bool>): (r: Option<nat>)
    ensures r.Some? ==> r.value < |clicks| && clicks[r.value] && forall j :: r.value < j < |clicks| ==> !clicks[j]
    ensures r.None? ==> forall j :: 0 <= j < |clicks| ==> !clicks[j]
  {
    if clicks == [] then Option.None
    else if clicks[|clicks| - 1] then Some(|clicks| - 1)
    else LastClicked(clicks[..|clicks| - 1])
  }

  /** Removal of one element; the others keep their order. */
  function RemoveAt(elems: seq<Element>, k: nat): (r: seq<Element>)
    requires k < |elems|
    ensures |r| == |elems| - 1
    ensures forall j :: 0 <= j < k ==> r[j] == elems[j]
    ensures forall j :: k <= j < |r| ==> r[j] == elems[j + 1]
  {
    elems[..k] + elems[k + 1..]
  }

  // ---------------------------------------------------------------------------
  // The invariant is kept by every edit

  /** A top-level insertion from a buffer the target accepts, at an offered point, keeps the invariant. */
  lemma InsertKeepsWellFormed(field: Field, elems: seq<Element>, b: FocusBuffer, head: bool, tail: bool)
    requires WellFormed(field, elems)
    requires IsValid(FocusTarget.Sc(field, head, tail, false), b)
    requires (head && !tail && LeadingOffered(field, elems)) || (tail && head == (|elems| == 0) && TrailingOffered(field))
    ensures WellFormed(Marked(field, b), Insert(elems, ElementOf(b), head))
  {
    var e := ElementOf(b);
    var r := Insert(elems, e, head);
    var f := Marked(field, b);
    assert Fits(e);
    forall i | 0 <= i < |r| ensures Fits(r[i]) {
      if head && i > 0 {
        assert r[i] == elems[i - 1];
      } else if !head && i < |elems| {
        assert r[i] == elems[i];
      }
    }
    if f.EnvStart? && !b.Boundary? && |elems| > 0 {
      if head {
        assert !BearsBoundary(r[0]);
        assert !BearsBoundary(elems[0]);
      } else {
        assert r[0] == elems[0];
      }
    }
    if f.EnvEnd? && !b.Boundary? && |elems| > 0 {
      if head {
        assert r[|r| - 1] == elems[|elems| - 1];
      } else {
        assert !BearsBoundary(elems[|elems| - 1]);
      }
    }
  }

  /** An insertion into an `Any` from a buffer its nested target accepts keeps the invariant. */
  lemma NestedInsertKeepsWellFormed(field: Field, elems: seq<Element>, i: nat, b: FocusBuffer)
    requires WellFormed(field, elems)
    requires i < |elems| && elems[i].Any?
    requires IsValid(FocusTarget.Sc(field, i == 0, i == |elems| - 1, true), b)
    ensures WellFormed(Marked(field, b), elems[i := Element.Any(Insert(elems[i].elems, ElementOf(b), i == 0))])
  {
    var e := ElementOf(b);
    var inner := Insert(elems[i].elems, e, i == 0);
    var r := elems[i := Element.Any(inner)];
    var f := Marked(field, b);
    assert forall x :: x in inner ==> x == e || x in elems[i].elems;
    assert Element.Boundary in elems[i].elems ==> Element.Boundary in inner;
    assert b.Boundary? ==> Element.Boundary in inner;
    assert !b.Boundary? ==> (Element.Boundary in inner <==> Element.Boundary in elems[i].elems);
    forall j | 0 <= j < |r| ensures Fits(r[j]) {
      if j != i {
        assert r[j] == elems[j];
      }
    }
  }

  /** Removing a top-level element with the flag cleared when it held a boundary keeps the invariant. */
  lemma RemoveKeepsWellFormed(field: Field, elems: seq<Element>, k: nat)
    requires WellFormed(field, elems) && k < |elems|
    ensures WellFormed(if BearsBoundary(elems[k]) then WithBoundaryFlag(field, false) else field, RemoveAt(elems, k))
  {
    var r := RemoveAt(elems, k);
    var f := if BearsBoundary(elems[k]) then WithBoundaryFlag(field, false) else field;
    forall j | 0 <= j < |r| ensures Fits(r[j]) && (BearsBoundary(r[j]) ==> BearsBoundary(elems[if j < k then j else j + 1])) {
      if j >= k {
        assert r[j] == elems[j + 1];
      }
    }
    if f.EnvEnd? && |r| > 0 && !BearsBoundary(elems[k]) && k == |elems| - 1 {
      assert !BearsBoundary(r[|r| - 1]);
    }
  }

  /**
   * Removing a boundary from inside an `Any`, clearing the flag when the
   * `Any` then holds none, keeps the invariant.
   */
  lemma NestedRemoveKeepsWellFormed(field: Field, elems: seq<Element>, i: nat, j: nat)
    requires WellFormed(field, elems)
    requires i < |elems| && elems[i].Any? && j < |elems[i].elems|
    ensures WellFormed(NestedRemovalField(field, elems[i].elems, j), elems[i := Element.Any(RemoveAt(elems[i].elems, j))])
  {
    var inner := RemoveAt(elems[i].elems, j);
    var r := elems[i := Element.Any(inner)];
    var f := NestedRemovalField(field, elems[i].elems, j);
    assert forall x :: x in inner ==> x in elems[i].elems;
    forall x | x in elems[i].elems && x != elems[i].elems[j] ensures x in inner {
      var m :| 0 <= m < |elems[i].elems| && elems[i].elems[m] == x;
      assert m != j;
      if m < j { assert inner[m] == x; } else { assert inner[m - 1] == x; }
    }
    forall m | 0 <= m < |r| ensures Fits(r[m]) {
      if m != i {
        assert r[m] == elems[m];
      }
    }
  }

  /** The corrected flag after a nested removal: cleared when a removed boundary leaves the `Any` with none. */
  function NestedRemovalField(field: Field, inner: seq<Element>, j: nat): Field
    requires j < |inner|
  {
    if inner[j].Boundary? && Element.Boundary !in RemoveAt(inner, j) then WithBoundaryFlag(field, false) else field
  }

  // ---------------------------------------------------------------------------
  // Representative phonemes. Imported rules may hold them in any field; the
  // editor itself only ever adds them to Replacement.

  /** A representative phoneme, or an `Any` listing one. */
  predicate HoldsRep(e: Element) {
    (e.Phoneme? && e.rep) || (e.Any? && exists x :: x in e.elems && x.Phoneme? && x.rep)
  }

  /** A top-level insertion into a field other than Replacement adds no representative phoneme. */
  lemma InsertAddsNoRep(field: Field, elems: seq<Element>, b: FocusBuffer, head: bool, tail: bool)
    requires IsValid(FocusTarget.Sc(field, head, tail, false), b) && !field.Replacement?
    requires forall i :: 0 <= i < |elems| ==> !HoldsRep(elems[i])
    ensures var r := Insert(elems, ElementOf(b), head);
            forall i :: 0 <= i < |r| ==> !HoldsRep(r[i])
  {
    var r := Insert(elems, ElementOf(b), head);
    forall i | 0 <= i < |r| ensures !HoldsRep(r[i]) {
      if head && i > 0 {
        assert r[i] == elems[i - 1];
      } else if !head && i < |elems| {
        assert r[i] == elems[i];
      }
    }
  }

  /** An insertion into an `Any` of a field other than Replacement adds no representative phoneme. */
  lemma NestedInsertAddsNoRep(field: Field, elems: seq<Element>, i: nat, b: FocusBuffer)
    requires i < |elems| && elems[i].Any?
    requires IsValid(FocusTarget.Sc(field, i == 0, i == |elems| - 1, true), b) && !field.Replacement?
    requires forall j :: 0 <= j < |elems| ==> !HoldsRep(elems[j])
    ensures var r := elems[i := Element.Any(Insert(elems[i].elems, ElementOf(b), i == 0))];
            forall j :: 0 <= j < |r| ==> !HoldsRep(r[j])
  {
    var inner := Insert(elems[i].elems, ElementOf(b), i == 0);
    assert forall x :: x in inner ==> x == ElementOf(b) || x in elems[i].elems;
    assert !HoldsRep(Element.Any(inner));
  }

  // ---------------------------------------------------------------------------
  // The field being edited

  class RuleField {
    var field: Field
    var elems: seq<Element>

    ghost predicate Valid()
      reads this
    {
      WellFormed(field, elems)
    }

    constructor (f: Field)
      requires !f.EnvStart? || !f.hasBoundary
      requires !f.EnvEnd? || !f.hasBoundary
      ensures Valid() && field == f && elems == []
    {
      field, elems := f, [];
    }

    /**
     * A top-level addition point (`show_sc_element_addition` with the
     * leading or the trailing flags): a buffer aimed at this point becomes an
     * element at the head or the tail, a boundary raises the flag, and the
     * focus is cleared; with nothing taken, nothing changes.
     */
    method Addition(focus: Focus, head: bool, tail: bool)
      requires Valid() && focus.Valid()
      requires (head && !tail && LeadingOffered(field, elems)) || (tail && head == (|elems| == 0) && TrailingOffered(field))
      modifies this, focus
      ensures Valid() && focus.Valid()
      ensures var taken := Taken(old(focus.target), old(focus.buffer), FocusTarget.Sc(old(field), head, tail, false));
              if taken.Some? then
                field == Marked(old(field), taken.value) &&
                elems == Insert(old(elems), ElementOf(taken.value), head) &&
                focus.target == FocusTarget.None && focus.buffer == Option.None
              else
                field == old(field) && elems == old(elems) &&
                focus.target == old(focus.target) && focus.buffer == old(focus.buffer)
    {
      if focus.buffer.Some? && focus.target == FocusTarget.Sc(field, head, tail, false) {
        var b := focus.buffer.value;
        InsertKeepsWellFormed(field, elems, b, head, tail);
        var e := ElementOf(b);
        if b.Boundary? {
          field := WithBoundaryFlag(field, true);
        }
        if head {
          elems := [e] + elems;
        } else {
          elems := elems + [e];
        }
        focus.Clear();
      }
    }

    /** The addition point inside the `Any` at `i`, whose target is nested and inherits its position. */
    method NestedAddition(focus: Focus, i: nat)
      requires Valid() && focus.Valid()
      requires i < |elems| && elems[i].Any?
      modifies this, focus
      ensures Valid() && focus.Valid()
      ensures var taken := Taken(old(focus.target), old(focus.buffer), FocusTarget.Sc(old(field), i == 0, i == |old(elems)| - 1, true));
              if taken.Some? then
                field == Marked(old(field), taken.value) &&
                elems == old(elems)[i := Element.Any(Insert(old(elems)[i].elems, ElementOf(taken.value), i == 0))] &&
                focus.target == FocusTarget.None && focus.buffer == Option.None
              else
                field == old(field) && elems == old(elems) &&
                focus.target == old(focus.target) && focus.buffer == old(focus.buffer)
    {
      var head, tail := i == 0, i == |elems| - 1;
      if focus.buffer.Some? && focus.target == FocusTarget.Sc(field, head, tail, true) {
        var b := focus.buffer.value;
        NestedInsertKeepsWellFormed(field, elems, i, b);
        var e := ElementOf(b);
        if b.Boundary? {
          field := WithBoundaryFlag(field, true);
        }
        var inner := elems[i].elems;
        if head {
          inner := [e] + inner;
        } else {
          inner := inner + [e];
        }
        elems := elems[i := Element.Any(inner)];
        focus.Clear();
      }
    }

    /**
     * The element walk of `show_sc_field`: element `i` is shown with the head
     * flag exactly at index 0 and the tail flag exactly at the last index; the
     * last Remove click of the pass selects the one element removed, and a
     * removed element that held a boundary clears the flag.
     */
    method ElementWalk(clicks: seq<bool>) returns (targets: seq<FocusTarget>)
      requires Valid() && |clicks| == |elems|
      modifies this
      ensures Valid()
      ensures |targets| == |old(elems)|
      ensures forall i :: 0 <= i < |targets| ==> targets[i] == FocusTarget.Sc(old(field), i == 0, i == |old(elems)| - 1, false)
      ensures LastClicked(clicks).None? ==> field == old(field) && elems == old(elems)
      ensures LastClicked(clicks).Some? ==>
                var k := LastClicked(clicks).value;
                elems == RemoveAt(old(elems), k) &&
                field == if BearsBoundary(old(elems)[k]) then WithBoundaryFlag(old(field), false) else old(field)
    {
      var n := |elems|;
      var head, tail := true, false;
      var toRemove: Option<nat> := Option.None;
      targets := [];
      var idx := 0;
      while idx < n
        invariant idx <= n
        invariant head == (idx <= 1) && tail == (0 < n <= idx)
        invariant |targets| == idx
        invariant forall j :: 0 <= j < idx ==> targets[j] == FocusTarget.Sc(field, j == 0, j == n - 1, false)
        invariant toRemove == LastClicked(clicks[..idx])
      {
        if idx != 0 {
          head := false;
        }
        if n > 0 && idx == n - 1 {
          tail := true;
        }
        targets := targets + [FocusTarget.Sc(field, head, tail, false)];
        if clicks[idx] {
          toRemove := Some(idx);
        }
        assert clicks[..idx + 1][..idx] == clicks[..idx];
        idx := idx + 1;
      }
      assert clicks[..idx] == clicks;
      if toRemove.Some? {
        var k := toRemove.value;
        RemoveKeepsWellFormed(field, elems, k);
        var boundary := match elems[k]
          case Boundary => true
          case Any(es) => Element.Boundary in es
          case _ => false;
        if boundary {
          field := WithBoundaryFlag(field, false);
        }
        elems := elems[..k] + elems[k + 1..];
      }
    }

    /**
     * The walk inside the `Any` at `i`: the last Remove click selects one
     * inner element; the flag is cleared when that removes the `Any`'s last
     * boundary.
     */
    method NestedWalk(i: nat, clicks: seq<bool>)
      requires Valid() && i < |elems| && elems[i].Any? && |clicks| == |elems[i].elems|
      modifies this
      ensures Valid()
      ensures LastClicked(clicks).None? ==> field == old(field) && elems == old(elems)
      ensures LastClicked(clicks).Some? ==>
                var j := LastClicked(clicks).value;
                elems == old(elems)[i := Element.Any(RemoveAt(old(elems)[i].elems, j))] &&
                field == NestedRemovalField(old(field), old(elems)[i].elems, j)
    {
      var inner := elems[i].elems;
      var toRemove: Option<nat> := Option.None;
      var idx := 0;
      while idx < |inner|
        invariant idx <= |inner|
        invariant toRemove == LastClicked(clicks[..idx])
      {
        if clicks[idx] {
          toRemove := Some(idx);
        }
        assert clicks[..idx + 1][..idx] == clicks[..idx];
        idx := idx + 1;
      }
      assert clicks[..idx] == clicks;
      if toRemove.Some? {
        var j := toRemove.value;
        NestedRemoveKeepsWellFormed(field, elems, i, j);
        var rest := inner[..j] + inner[j + 1..];
        if inner[j].Boundary? && Element.Boundary !in rest {
          field := WithBoundaryFlag(field, false);
        }
        elems := elems[i := Element.Any(rest)];
      }
    }
  }

  // ---------------------------------------------------------------------------
  // As written, the walk inside an `Any` removes without touching the flag.

  /** The nested removal as written: the flag is left as it was. */
  function NestedRemovalAsWritten(field: Field, elems: seq<Element>, i: nat, j: nat): (r: (Field, seq<Element>))
    requires i < |elems| && elems[i].Any? && j < |elems[i].elems|
    ensures r.0 == field && |r.1| == |elems|
  {
    (field, elems[i := Element.Any(RemoveAt(elems[i].elems, j))])
  }

  /**
   * An EnvEnd holding `[#]` loses its boundary to the nested removal while
   * its flag stays raised; once the empty `Any` is removed too, the field is
   * empty and neither addition point is ever offered again. The corrected
   * removal lowers the flag.
   */
  lemma NestedRemovalStrandsEnvEnd()
    ensures WellFormed(EnvEnd(true), [Element.Any([Element.Boundary])])
    ensures NestedRemovalAsWritten(EnvEnd(true), [Element.Any([Element.Boundary])], 0, 0) == (EnvEnd(true), [Element.Any([])])
    ensures !WellFormed(EnvEnd(true), [Element.Any([])])
    ensures !BearsBoundary(Element.Any([])) && !LeadingOffered(EnvEnd(true), RemoveAt([Element.Any([])], 0)) && !TrailingOffered(EnvEnd(true))
    ensures NestedRemovalField(EnvEnd(true), [Element.Boundary], 0) == EnvEnd(false) && TrailingOffered(EnvEnd(false))
  {
    assert Element.Boundary in [Element.Boundary];
    assert RemoveAt([Element.Boundary], 0) == [];
    assert [Element.Any([Element.Boundary])][0 := Element.Any([])] == [Element.Any([])];
    assert RemoveAt([Element.Any([])], 0) == [];
  }
}
