/**
 * The main menu adapter: one row per preference of the flattened list,
 * plus a last row that restores the default settings.
 */
module MainMenu {
  import opened Wrappers
  import opened Preferences
  import Overrides

  const HeaderViewType := 0
  const ItemViewType := 1

  /** What a row of the main menu stands for. */
  datatype Row = PrefRow(pref: Pref) | RestoreRow

  /** What `getView` shows on a row. */
  datatype RowView =
    | RestoreView(focusable: bool)
    | HeaderView(title: string)
    | ItemView(title: string, summary: Option<string>, textEnabled: bool, focusable: bool)

  /** What a click on a row starts. */
  datatype Action = OpenSubMenu(pref: ListPref) | ConfirmRestore

  /** `getCount`: the preferences and the restore row. */
  function Count(prefs: seq<Pref>): nat
  {
    |prefs| + 1
  }

  predicate ValidPosition(prefs: seq<Pref>, p: int)
  {
    0 <= p < Count(prefs)
  }

  /** `isEmpty`: no preferences, although the restore row is still there. */
  predicate IsEmpty(prefs: seq<Pref>)
  {
    |prefs| == 0
  }

  /** The main list of a tree is empty exactly when the root has no children; the restore row remains. */
  lemma EmptyExactlyWithoutChildren(root: Pref)
    requires root.Group?
    ensures IsEmpty(Flatten(root)) <==> |root.children| == 0
    ensures Count(Flatten(root)) >= 1
  {
    if |root.children| > 0 {
      assert Preorder(root.children[0])[0] == root.children[0];
      assert Flatten(root)[0] == root.children[0];
    }
  }

  /** Which row sits at a position. */
  function RowAt(prefs: seq<Pref>, p: int): (r: Row)
    requires ValidPosition(prefs, p)
    ensures r.PrefRow? ==> r.pref in prefs
  {
    if p < |prefs| then PrefRow(prefs[p]) else RestoreRow
  }

  /** `isEnabled`: the restore row, and every row that is not a group header. */
  predicate IsEnabled(prefs: seq<Pref>, p: int)
    requires ValidPosition(prefs, p)
  {
    if p == |prefs| then true else !prefs[p].Group?
  }

  /** `getItemViewType` */
  function ViewType(prefs: seq<Pref>, p: int): int
    requires ValidPosition(prefs, p)
  {
    if p == |prefs| then ItemViewType
    else if prefs[p].Group? then HeaderViewType
    else ItemViewType
  }

  /**
   * The row rules: the last position is the restore row, enabled and of the
   * item type; every other position shows its preference, a header exactly
   * for a group; a row is enabled exactly when it has the item view type.
   */
  lemma RowRules(prefs: seq<Pref>, p: int)
    requires ValidPosition(prefs, p)
    ensures RowAt(prefs, p).RestoreRow? <==> p == |prefs|
    ensures RowAt(prefs, p).RestoreRow? ==> IsEnabled(prefs, p) && ViewType(prefs, p) == ItemViewType
    ensures RowAt(prefs, p).PrefRow? ==> RowAt(prefs, p).pref == prefs[p]
    ensures RowAt(prefs, p).PrefRow? ==> (IsEnabled(prefs, p) <==> RowAt(prefs, p).pref.Item?)
    ensures ViewType(prefs, p) == HeaderViewType <==> RowAt(prefs, p).PrefRow? && RowAt(prefs, p).pref.Group?
    ensures IsEnabled(prefs, p) <==> ViewType(prefs, p) == ItemViewType
  {
  }

  /** Every preference of the list has its own row, at its own index. */
  lemma EveryPreferenceHasARow(prefs: seq<Pref>, q: Pref)
    requires q in prefs
    ensures exists p :: ValidPosition(prefs, p) && p < |prefs| && RowAt(prefs, p) == PrefRow(q)
  {
    var p :| 0 <= p < |prefs| && prefs[p] == q;
    assert RowAt(prefs, p) == PrefRow(q);
  }

  /** `getView`: the restore row, a group header, or a list preference with its summary. */
  function GetView(prefs: seq<Pref>, overrides: Overrides.OverrideMap, p: int): (v: RowView)
    requires ValidPosition(prefs, p)
  {
    if p == |prefs| then RestoreView(false)
    else match prefs[p]
      case Group(title, _) => HeaderView(title)
      case Item(lp) =>
        var forced := Overrides.ForcedValue(overrides, lp.key);
        ItemView(lp.title, if forced.None? then Entry(lp) else forced,
                 forced.None?, forced.Some?)
  }

  /**
   * A list preference row under an override shows the forced value and looks
   * disabled (text disabled, row focusable so that it eats the events);
   * without one it shows the label of the current value, enabled.
   */
  lemma ItemViewOverride(prefs: seq<Pref>, overrides: Overrides.OverrideMap, p: int)
    requires ValidPosition(prefs, p) && p < |prefs| && prefs[p].Item?
    ensures GetView(prefs, overrides, p).ItemView?
    ensures GetView(prefs, overrides, p).title == prefs[p].list.title
    ensures GetView(prefs, overrides, p).focusable <==> prefs[p].list.key in overrides
    ensures GetView(prefs, overrides, p).textEnabled <==> !GetView(prefs, overrides, p).focusable
    ensures prefs[p].list.key in overrides ==>
      GetView(prefs, overrides, p).summary == Some(overrides[prefs[p].list.key])
    ensures prefs[p].list.key !in overrides ==> GetView(prefs, overrides, p).summary == Entry(prefs[p].list)
    ensures prefs[p].list.key !in overrides && prefs[p].list.WellFormed() ==>
      (GetView(prefs, overrides, p).summary.Some? <==> prefs[p].list.value in prefs[p].list.entryValues)
  {
  }

  /** The restore row is never made focusable, and a group row is a plain header. */
  lemma OtherViews(prefs: seq<Pref>, overrides: Overrides.OverrideMap, p: int)
    requires ValidPosition(prefs, p)
    ensures p == |prefs| ==> GetView(prefs, overrides, p) == RestoreView(false)
    ensures p < |prefs| && prefs[p].Group? ==> GetView(prefs, overrides, p) == HeaderView(prefs[p].title)
  {
  }

  /**
   * `onItemClick`: a preference row opens the sub-menu of that preference,
   * the last row asks to confirm the restore. Clicks only reach enabled rows,
   * so a preference row is always a list preference.
   */
  function OnItemClick(prefs: seq<Pref>, p: int): (a: Action)
    requires ValidPosition(prefs, p) && IsEnabled(prefs, p)
    ensures a.OpenSubMenu? <==> RowAt(prefs, p).PrefRow?
    ensures a.OpenSubMenu? ==> RowAt(prefs, p).pref == Item(a.pref)
    ensures a.ConfirmRestore? <==> RowAt(prefs, p).RestoreRow?
  {
    if p < |prefs| then OpenSubMenu(prefs[p].list) else ConfirmRestore
  }

  /** On the list of a tree, a click opens the sub-menu of a list preference below the root. */
  lemma ClickOpensTreePreference(root: Pref, p: int)
    requires root.Group?
    requires ValidPosition(Flatten(root), p) && IsEnabled(Flatten(root), p)
    ensures OnItemClick(Flatten(root), p).OpenSubMenu? ==>
      Item(OnItemClick(Flatten(root), p).pref) in Flatten(root)
    ensures OnItemClick(Flatten(root), p).ConfirmRestore? <==> p == Size(root) - 1
  {
    FlattenLength(root);
  }
}
