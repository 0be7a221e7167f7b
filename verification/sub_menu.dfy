/**
 * The sub-menu adapter for one list preference: a header row with the
 * preference title, then one row per entry.
 */
module SubMenu {
  import opened Wrappers
  import opened Preferences
  import TitleSplit

  const HeaderViewType := 0
  const OptionViewType := 1

  /** What `getView` shows on a row. */
  datatype RowView =
    | HeaderView(title: string)
    | OptionView(title: string, detail: Option<string>, detailVisible: bool, checked: bool, iconVisible: bool)

  /** The preference after a click, and whether the sub-menu closes. */
  datatype Click = Click(pref: ListPref, close: bool)

  /** `getCount`: one row per entry plus the header. */
  function Count(lp: ListPref): nat
  {
    |lp.entries| + 1
  }

  predicate ValidPosition(lp: ListPref, p: int)
  {
    0 <= p < Count(lp)
  }

  /** `getItemViewType` */
  function ViewType(p: int): int
  {
    if p == 0 then HeaderViewType else OptionViewType
  }

  /** `isEnabled`: every row whose view type is not the header's. */
  predicate IsEnabled(p: int)
  {
    ViewType(p) != HeaderViewType
  }

  /** The entry a row below the header stands for. */
  function EntryIndex(p: int): (i: nat)
    requires p >= 1
  {
    p - 1
  }

  /** Position 0 is the disabled header; every later row is an enabled option. */
  lemma RowRules(lp: ListPref, p: int)
    requires ValidPosition(lp, p)
    ensures p == 0 <==> ViewType(p) == HeaderViewType
    ensures IsEnabled(p) <==> p >= 1
    ensures p >= 1 ==> ViewType(p) == OptionViewType && EntryIndex(p) < |lp.entries|
    ensures p == 0 && lp.WellFormed() ==> GetView(lp, p) == HeaderView(lp.title)
  {
  }

  /** Every entry has its row, one position below its index. */
  lemma EveryEntryHasARow(lp: ListPref, i: nat)
    requires i < |lp.entries|
    ensures ValidPosition(lp, i + 1) && IsEnabled(i + 1) && EntryIndex(i + 1) == i
  {
  }

  /** `getView`: the header, or an entry split into title and detail, checked when it holds the current value. */
  function GetView(lp: ListPref, p: int): (v: RowView)
    requires lp.WellFormed() && ValidPosition(lp, p)
  {
    if p == 0 then HeaderView(lp.title)
    else
      var index := EntryIndex(p);
      var split := TitleSplit.SplitTitle(lp.entries[index]);
      OptionView(split.title, split.detail, split.detail.Some?,
                 lp.value == lp.entryValues[index], lp.hasIcons)
  }

  /**
   * An option row is checked exactly when its entry value is the current
   * value, shows a detail line exactly when its label matches the
   * "Title (detail)" pattern, and shows an icon exactly for an icon
   * preference.
   */
  lemma OptionViewRules(lp: ListPref, p: int)
    requires lp.WellFormed() && ValidPosition(lp, p) && p >= 1
    ensures GetView(lp, p).OptionView?
    ensures GetView(lp, p).checked <==> lp.value == lp.entryValues[p - 1]
    ensures GetView(lp, p).detailVisible <==> GetView(lp, p).detail.Some?
    ensures GetView(lp, p).detailVisible <==> TitleSplit.Matches(lp.entries[p - 1])
    ensures !GetView(lp, p).detailVisible ==> GetView(lp, p).title == lp.entries[p - 1]
    ensures GetView(lp, p).title == TitleSplit.SplitTitle(lp.entries[p - 1]).title
    ensures GetView(lp, p).detail == TitleSplit.SplitTitle(lp.entries[p - 1]).detail
    ensures GetView(lp, p).iconVisible <==> lp.hasIcons
  {
    TitleSplit.SplitComplete(lp.entries[p - 1]);
  }

  /** With distinct entry values, at most one row is checked, and exactly one when the value is an entry value. */
  lemma OneRowChecked(lp: ListPref, p: int, q: int)
    requires lp.WellFormed() && DistinctValues(lp.entryValues)
    requires ValidPosition(lp, p) && ValidPosition(lp, q) && p >= 1 && q >= 1
    requires GetView(lp, p).checked && GetView(lp, q).checked
    ensures p == q
  {
    assert lp.entryValues[p - 1] == lp.entryValues[q - 1];
  }

  lemma SomeRowChecked(lp: ListPref)
    requires lp.WellFormed() && lp.value in lp.entryValues
    ensures exists p :: ValidPosition(lp, p) && p >= 1 && GetView(lp, p).checked
  {
    var i :| 0 <= i < |lp.entryValues| && lp.entryValues[i] == lp.value;
    assert GetView(lp, i + 1).checked;
  }

  /**
   * `onItemClick`: choosing an entry other than the one found for the current
   * value selects it and keeps the sub-menu open; choosing that one closes
   * the sub-menu. Clicks only reach enabled rows, so never the header.
   */
  function OnItemClick(lp: ListPref, p: int): (r: Click)
    requires lp.WellFormed() && ValidPosition(lp, p) && IsEnabled(p)
  {
    var index := EntryIndex(p);
    if FindIndexOfValue(lp.entryValues, lp.value) != index then Click(SetValueIndex(lp, index), false)
    else Click(lp, true)
  }

  /**
   * The click rule: the sub-menu closes exactly when the row clicked holds
   * the first entry value equal to the current value, and then nothing
   * changes; otherwise the clicked entry becomes the value and its row is
   * checked, with everything but the value unchanged.
   */
  lemma ClickRules(lp: ListPref, p: int)
    requires lp.WellFormed() && ValidPosition(lp, p) && IsEnabled(p)
    ensures OnItemClick(lp, p).close <==>
      lp.value == lp.entryValues[p - 1] && forall j :: 0 <= j < p - 1 ==> lp.entryValues[j] != lp.value
    ensures OnItemClick(lp, p).close ==> OnItemClick(lp, p).pref == lp
    ensures !OnItemClick(lp, p).close ==>
      OnItemClick(lp, p).pref == lp.(value := lp.entryValues[p - 1])
    ensures !OnItemClick(lp, p).close ==> GetView(OnItemClick(lp, p).pref, p).checked
  {
    var i := FindIndexOfValue(lp.entryValues, lp.value);
    if lp.value == lp.entryValues[p - 1] && forall j :: 0 <= j < p - 1 ==> lp.entryValues[j] != lp.value {
      assert lp.value in lp.entryValues;
      assert i >= p - 1;
    }
  }

  /** With distinct entry values, a click closes the sub-menu exactly when it hits the checked row. */
  lemma ClickClosesOnCheckedRow(lp: ListPref, p: int)
    requires lp.WellFormed() && DistinctValues(lp.entryValues) && ValidPosition(lp, p) && IsEnabled(p)
    ensures OnItemClick(lp, p).close <==> GetView(lp, p).checked
  {
    ClickRules(lp, p);
    if GetView(lp, p).checked {
      forall k | 0 <= k < p - 1
        ensures lp.entryValues[k] != lp.value
      {
        assert lp.entryValues[k] != lp.entryValues[p - 1];
      }
    }
  }

  /** With distinct entry values, clicking the same row twice selects it and then closes the sub-menu. */
  lemma SecondClickCloses(lp: ListPref, p: int)
    requires lp.WellFormed() && DistinctValues(lp.entryValues) && ValidPosition(lp, p) && IsEnabled(p)
    ensures OnItemClick(OnItemClick(lp, p).pref, p).close
    ensures OnItemClick(OnItemClick(lp, p).pref, p).pref.value == lp.entryValues[p - 1]
  {
    var r := OnItemClick(lp, p);
    if !r.close {
      SelectedIndexFound(lp, p - 1);
    }
  }
}
