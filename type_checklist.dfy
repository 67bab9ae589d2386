/** The tag selection of the `TypeChecklist` checkboxes. Its `toggle` is
    written out again in its own component; it computes the same list as
    the pills' one. */
module TypeChecklist {
  import TypePills

  /** `toggle(t)` of the checklist, with `selected` defaulted the same way:
      the box of `t` flips, every other box stays as it was, and the list
      is the one `TypePills` builds. */
  function Toggle(value: TypePills.Value, t: string): (next: seq<string>)
    ensures (t in next) == !Checked(value, t)
    ensures forall x :: x != t ==> (x in next) == Checked(value, x)
    ensures next == TypePills.Toggle(value, t)
  {
    var selected := if value.Tags? then value.tags else [];
    var next := if t in selected then TypePills.RemoveAll(selected, t) else selected + [t];
    assert next == TypePills.Toggle(value, t);
    next
  }

  /** `checked={selected.includes(t)}` */
  predicate Checked(value: TypePills.Value, t: string) {
    t in TypePills.Selected(value)
  }

  /** Checking and unchecking an unchecked box restores the selection. */
  lemma ToggleTwice(value: TypePills.Value, t: string)
    requires !Checked(value, t)
    ensures Toggle(TypePills.Tags(Toggle(value, t)), t) == TypePills.Selected(value)
  {
    TypePills.ToggleTwice(value, t);
  }
}
