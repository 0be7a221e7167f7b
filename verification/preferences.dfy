/**
 * The preference tree the on-screen menu shows, and its flattening into the
 * list behind the main menu.
 *
 * A `ListPref` stands for the camera's `ListPreference` (and, with
 * `hasIcons`, for `IconListPreference`): a key, a title, the parallel arrays
 * of entry labels and entry values, and the current value. A `Pref` is either
 * a group with ordered children or a list preference.
 */
module Preferences {
  import opened Wrappers

  datatype ListPref = ListPref(
    key: string,
    title: string,
    entries: seq<string>,
    entryValues: seq<string>,
    value: string,
    hasIcons: bool)
  {
    /** The labels and the values are parallel arrays. */
    predicate WellFormed()
    {
      |entries| == |entryValues|
    }
  }

  datatype Pref =
    | Group(title: string, children: seq<Pref>)
    | Item(list: ListPref)

  /** No value occurs twice among the entry values. */
  predicate DistinctValues(values: seq<string>)
  {
    forall i, j :: 0 <= i < j < |values| ==> values[i] != values[j]
  }

  /** The index of the first entry value equal to `v`, or -1 when there is none. */
  function FindIndexOfValue(values: seq<string>, v: string): (r: int)
    ensures -1 <= r < |values|
    ensures r == -1 <==> v !in values
    ensures 0 <= r ==> values[r] == v && forall j :: 0 <= j < r ==> values[j] != v
  {
    if |values| == 0 then -1
    else if values[0] == v then 0
    else
      var k := FindIndexOfValue(values[1..], v);
      if k == -1 then -1 else k + 1
  }

  /** The label of the current value, when the current value is one of the entry values. */
  function Entry(lp: ListPref): (r: Option<string>)
    ensures r.Some? ==>
      exists i :: (&& 0 <= i < |lp.entries| && i < |lp.entryValues|
                   && lp.entryValues[i] == lp.value && lp.entries[i] == r.value
                   && forall j :: 0 <= j < i ==> lp.entryValues[j] != lp.value)
    ensures lp.WellFormed() ==> (r.Some? <==> lp.value in lp.entryValues)
  {
    var i := FindIndexOfValue(lp.entryValues, lp.value);
    if 0 <= i < |lp.entries| then Some(lp.entries[i]) else None
  }

  /** Selects the entry at `index`: its value becomes the current value. */
  function SetValueIndex(lp: ListPref, index: nat): (r: ListPref)
    requires index < |lp.entryValues|
    ensures r.value == lp.entryValues[index]
    ensures r.(value := lp.value) == lp
  {
    lp.(value := lp.entryValues[index])
  }

  /** With distinct entry values, selecting an entry makes it the one found for the current value. */
  lemma SelectedIndexFound(lp: ListPref, index: nat)
    requires index < |lp.entryValues| && DistinctValues(lp.entryValues)
    ensures FindIndexOfValue(lp.entryValues, SetValueIndex(lp, index).value) == index
  {
    var v := lp.entryValues[index];
    assert v in lp.entryValues;
  }

  /** The number of nodes of a tree, the root included. */
  function Size(p: Pref): nat
    decreases p
  {
    match p
    case Group(_, cs) => 1 + SizeAll(cs)
    case Item(_) => 1
  }

  function SizeAll(ps: seq<Pref>): nat
    decreases ps
  {
    if |ps| == 0 then 0 else Size(ps[0]) + SizeAll(ps[1..])
  }

  /** A preference followed by the flattenings of its children: what `addPreference` appends. */
  function Preorder(p: Pref): seq<Pref>
    decreases p
  {
    match p
    case Group(_, cs) => [p] + PreorderAll(cs)
    case Item(_) => [p]
  }

  /** The flattenings of `ps`, one after another. */
  function PreorderAll(ps: seq<Pref>): seq<Pref>
    decreases ps
  {
    if |ps| == 0 then [] else Preorder(ps[0]) + PreorderAll(ps[1..])
  }

  /** The main-menu list for a root group: its children's flattenings, the root left out. */
  function Flatten(root: Pref): seq<Pref>
    requires root.Group?
  {
    PreorderAll(root.children)
  }

  lemma {:induction false} PreorderAllAppend(a: seq<Pref>, b: seq<Pref>)
    ensures PreorderAll(a + b) == PreorderAll(a) + PreorderAll(b)
    decreases |a|
  {
    if |a| == 0 {
      assert a + b == b;
    } else {
      assert (a + b)[0] == a[0];
      assert (a + b)[1..] == a[1..] + b;
      PreorderAllAppend(a[1..], b);
    }
  }

  lemma PreorderAllSnoc(ps: seq<Pref>, i: nat)
    requires i < |ps|
    ensures PreorderAll(ps[..i + 1]) == PreorderAll(ps[..i]) + Preorder(ps[i])
  {
    assert ps[..i + 1] == ps[..i] + [ps[i]];
    PreorderAllAppend(ps[..i], [ps[i]]);
    assert [ps[i]][1..] == [];
  }

  /**
   * `addPreference`: appends `p` and then, for a group, each child in order,
   * recursively.
   */
  method AddPreference(p: Pref, list: seq<Pref>) returns (list': seq<Pref>)
    ensures list' == list + Preorder(p)
    decreases p
  {
    var prefix := list + [p];
    list' := prefix;
    if p.Group? {
      var cs := p.children;
      var i := 0;
      while i < |cs|
        invariant i <= |cs|
        invariant list' == prefix + PreorderAll(cs[..i])
      {
        PreorderAllSnoc(cs, i);
        list' := AddPreference(cs[i], list');
        assert list' == prefix + (PreorderAll(cs[..i]) + Preorder(cs[i]));
        i := i + 1;
      }
      assert cs[..i] == cs;
      assert Preorder(p) == [p] + PreorderAll(cs);
    } else {
      assert Preorder(p) == [p];
    }
  }

  /** `setPreferenceGroup`: the list behind the main menu, built child by child. */
  method SetPreferenceGroup(root: Pref) returns (list: seq<Pref>)
    requires root.Group?
    ensures list == Flatten(root)
  {
    list := [];
    var i := 0;
    while i < |root.children|
      invariant i <= |root.children|
      invariant list == PreorderAll(root.children[..i])
    {
      PreorderAllSnoc(root.children, i);
      list := AddPreference(root.children[i], list);
      i := i + 1;
    }
    assert root.children[..i] == root.children;
  }

  lemma {:induction false} PreorderLength(p: Pref)
    ensures |Preorder(p)| == Size(p)
    decreases p
  {
    match p
    case Group(_, cs) => PreorderAllLength(cs);
    case Item(_) =>
  }

  lemma {:induction false} PreorderAllLength(ps: seq<Pref>)
    ensures |PreorderAll(ps)| == SizeAll(ps)
    decreases ps
  {
    if |ps| > 0 {
      PreorderLength(ps[0]);
      PreorderAllLength(ps[1..]);
    }
  }

  /** The main list holds exactly the non-root nodes of the tree. */
  lemma FlattenLength(root: Pref)
    requires root.Group?
    ensures |Flatten(root)| == Size(root) - 1
  {
    PreorderAllLength(root.children);
  }

  lemma {:induction false} PreorderSizes(p: Pref)
    ensures forall q :: q in Preorder(p) ==> Size(q) <= Size(p)
    decreases p
  {
    match p
    case Group(_, cs) => PreorderAllSizes(cs);
    case Item(_) =>
  }

  lemma {:induction false} PreorderAllSizes(ps: seq<Pref>)
    ensures forall q :: q in PreorderAll(ps) ==> Size(q) <= SizeAll(ps)
    decreases ps
  {
    if |ps| > 0 {
      PreorderSizes(ps[0]);
      PreorderAllSizes(ps[1..]);
    }
  }

  /** The root group itself never becomes a row of the main menu. */
  lemma FlattenExcludesRoot(root: Pref)
    requires root.Group?
    ensures root !in Flatten(root)
  {
    PreorderAllSizes(root.children);
  }

  /**
   * Every node of the list is immediately followed by all of its descendants,
   * in pre-order: the list at its position starts with its own flattening.
   */
  ghost predicate BlocksNested(l: seq<Pref>)
  {
    forall i :: 0 <= i < |l| ==> i + |Preorder(l[i])| <= |l| && l[i..i + |Preorder(l[i])|] == Preorder(l[i])
  }

  /** A slice lying inside the front part of a concatenation is a slice of that part. */
  lemma SliceFront(a: seq<Pref>, b: seq<Pref>, i: nat, k: nat)
    requires i <= k <= |a|
    ensures (a + b)[i..k] == a[i..k]
  {
  }

  /** A slice lying inside the back part of a concatenation is a shifted slice of that part. */
  lemma SliceBack(a: seq<Pref>, b: seq<Pref>, i: nat, k: nat)
    requires |a| <= i <= k <= |a| + |b|
    ensures (a + b)[i..k] == b[i - |a|..k - |a|]
  {
  }

  lemma BlocksNestedConcat(a: seq<Pref>, b: seq<Pref>)
    requires BlocksNested(a) && BlocksNested(b)
    ensures BlocksNested(a + b)
  {
    var l := a + b;
    forall i | 0 <= i < |l|
      ensures i + |Preorder(l[i])| <= |l| && l[i..i + |Preorder(l[i])|] == Preorder(l[i])
    {
      if i < |a| {
        assert l[i] == a[i];
        SliceFront(a, b, i, i + |Preorder(a[i])|);
      } else {
        var j := i - |a|;
        assert l[i] == b[j];
        SliceBack(a, b, i, i + |Preorder(b[j])|);
      }
    }
  }

  /** A node put in front of its descendants' blocks starts a block of its own. */
  lemma HeadNested(p: Pref, rest: seq<Pref>)
    requires BlocksNested(rest) && Preorder(p) == [p] + rest
    ensures BlocksNested([p] + rest)
  {
    var l := [p] + rest;
    forall i | 0 <= i < |l|
      ensures i + |Preorder(l[i])| <= |l| && l[i..i + |Preorder(l[i])|] == Preorder(l[i])
    {
      if i == 0 {
        assert l[0..|l|] == l;
      } else {
        var j := i - 1;
        assert l[i] == rest[j];
        SliceBack([p], rest, i, i + |Preorder(rest[j])|);
      }
    }
  }

  lemma {:induction false} PreorderNested(p: Pref)
    ensures BlocksNested(Preorder(p))
    decreases p
  {
    match p
    case Group(_, cs) =>
      PreorderAllNested(cs);
      HeadNested(p, PreorderAll(cs));
    case Item(_) =>
      assert BlocksNested([]);
      HeadNested(p, []);
      assert [p] + [] == Preorder(p);
  }

  lemma {:induction false} PreorderAllNested(ps: seq<Pref>)
    ensures BlocksNested(PreorderAll(ps))
    decreases ps
  {
    if |ps| > 0 {
      PreorderNested(ps[0]);
      PreorderAllNested(ps[1..]);
      BlocksNestedConcat(Preorder(ps[0]), PreorderAll(ps[1..]));
    }
  }

  /** In the main list every group precedes its descendants, which follow it contiguously. */
  lemma FlattenNested(root: Pref)
    requires root.Group?
    ensures BlocksNested(Flatten(root))
  {
    PreorderAllNested(root.children);
  }
}
