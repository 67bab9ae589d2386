/** The tag selection of the `TypePills` multi-select: clicking a pill
    toggles its tag in the selected list. */
module TypePills {

  /** The `value` prop: an array of selected tags, or anything else. */
  datatype Value = Tags(tags: seq<string>) | NotArray

  /** `Array.isArray(value) ? value : []` */
  function Selected(value: Value): seq<string> {
    if value.Tags? then value.tags else []
  }

  /** `selected.filter((x) => x !== t)` */
  function RemoveAll(s: seq<string>, t: string): (r: seq<string>)
    ensures t !in r
    ensures |r| <= |s|
  {
    if s == [] then [] else (if s[0] == t then [] else [s[0]]) + RemoveAll(s[1..], t)
  }

  /** Filtering drops every occurrence of `t` and keeps everything else
      as often as it occurs. */
  lemma {:induction false} RemoveAllCounts(s: seq<string>, t: string)
    ensures forall x :: x != t ==> multiset(RemoveAll(s, t))[x] == multiset(s)[x]
    ensures |RemoveAll(s, t)| == |s| - multiset(s)[t]
  {
    if s != [] {
      RemoveAllCounts(s[1..], t);
      assert s == [s[0]] + s[1..];
    }
  }

  /** Filtering keeps the order: it works piece by piece. */
  lemma {:induction false} RemoveAllAppend(a: seq<string>, b: seq<string>, t: string)
    ensures RemoveAll(a + b, t) == RemoveAll(a, t) + RemoveAll(b, t)
  {
    if a == [] {
      assert a + b == b;
    } else {
      var h := if a[0] == t then [] else [a[0]];
      assert (a + b)[0] == a[0] && (a + b)[1..] == a[1..] + b;
      assert RemoveAll(a + b, t) == h + RemoveAll(a[1..] + b, t);
      RemoveAllAppend(a[1..], b, t);
      var x, y := RemoveAll(a[1..], t), RemoveAll(b, t);
      assert RemoveAll(a, t) == h + x;
      assert h + (x + y) == (h + x) + y;
    }
  }

  /** Filtering out a tag that is not there changes nothing. */
  lemma {:induction false} RemoveAllAbsent(s: seq<string>, t: string)
    requires t !in s
    ensures RemoveAll(s, t) == s
  {
    if s != [] {
      RemoveAllAbsent(s[1..], t);
      assert [s[0]] + s[1..] == s;
    }
  }

  /** `toggle(t)`: the list handed to `onChange`. A selected tag is
      filtered out, every occurrence of it; an unselected one is appended.
      The tag's membership flips and no other tag's membership changes. */
  function Toggle(value: Value, t: string): (next: seq<string>)
    ensures t in Selected(value) ==> next == RemoveAll(Selected(value), t)
    ensures t !in Selected(value) ==> next == Selected(value) + [t]
    ensures t in next <==> t !in Selected(value)
    ensures forall x :: x != t ==> (x in next <==> x in Selected(value))
  {
    var selected := Selected(value);
    if t in selected then
      RemoveAllCounts(selected, t);
      assert forall x :: x != t ==> (x in selected <==> multiset(selected)[x] > 0);
      RemoveAll(selected, t)
    else selected + [t]
  }

  /** A non-array value selects nothing, so a toggle selects just the tag. */
  lemma ToggleNotArray(t: string)
    ensures Toggle(NotArray, t) == [t]
  {
  }

  /** Toggling an unselected tag twice gives the original selection back. */
  lemma ToggleTwice(value: Value, t: string)
    requires t !in Selected(value)
    ensures Toggle(Tags(Toggle(value, t)), t) == Selected(value)
  {
    var s := Selected(value);
    RemoveAllAppend(s, [t], t);
    RemoveAllAbsent(s, t);
    assert RemoveAll([t], t) == [];
    assert s + [] == s;
  }

  /** Toggling a selected tag twice moves it to the end, once. */
  lemma ToggleSelectedTwice(value: Value, t: string)
    requires t in Selected(value)
    ensures Toggle(Tags(Toggle(value, t)), t) == RemoveAll(Selected(value), t) + [t]
  {
  }
}
