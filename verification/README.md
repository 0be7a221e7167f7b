# On-screen camera settings menu, modelled in Dafny

The camera application's on-screen settings panel is a floating window beside
the viewfinder with a two-level menu: a main list of preference categories and
list preferences, and a sub-menu listing the options of one list preference.
This project models the logic inside that widget, `OnScreenSettings`:

- `Preferences` (preferences.dfy): the preference tree (groups and list
  preferences) and its pre-order flattening into the main list, with the root
  left out (`addPreference`, `setPreferenceGroup`), plus the small
  `ListPreference` helpers the menu uses.
- `Overrides` (overrides.dfy): the map of forced values (`overrideSettings`,
  the override part of `clearSettings`).
- `TitleSplit` (title_split.dfy): the whole-string match of
  `(.*)\s*\((.+)\)` that splits an option label "Title (detail)" into two
  lines, with the greedy, backtracking semantics of Java's regex engine.
- `MainMenu` (main_menu.dfy): row mapping, enabled and view-type queries, row
  rendering with overrides, and click dispatch of `MainMenuAdapter`.
- `SubMenu` (sub_menu.dfy): the same for `SubMenuAdapter`, with the
  select-or-close click rule.
- `OnScreenMenu` (on_screen_menu.dfy): the panel as a state machine:
  `setVisible` with its posted retry, `updateLayout`, the key and touch
  handlers that dismiss the panel, and the menu clicks. The window manager,
  the adapters' change notifications and the visibility listener are not
  called; each call is returned as an `Effect`.

Inputs the code reads from the platform are parameters: whether the owner view
has a window token and the display size (`Env`), whether the container's
own view handling (its superclass's `onTouchEvent`) consumed a touch, and the key code and action of an event. Android's
constants are used as they are: KEYCODE_BACK 4, KEYCODE_CAMERA 27,
KEYCODE_FOCUS 80, KEYCODE_MENU 82, ACTION_DOWN 0, ACTION_UP 1 (for both key
and motion events) and WRAP_CONTENT -2.

The model relies on these assumptions about the camera's `ListPreference`,
whose source is not part of this model. `findIndexOfValue` returns the first
index whose entry value equals the value, or -1. `getEntry` returns the label
at that index. `setValueIndex(i)` makes `entryValues[i]` the value.
`getValue` is a plain field.

Some behaviour of the code is easy to miss, and the model keeps it:

- Group 1 of the title pattern is greedy. On a label without line terminators
  it therefore keeps the white space before the parenthesis, and `\s*`
  matches nothing: "Auto (x)" splits into "Auto " and "x"
  (`TitleSplit.SplitExample`). When group 1 cannot extend over a line
  terminator, `\s*` takes the run of white space.
- Replacing the forced value of a key that already has one does not notify
  the main list (`Overrides.ReplaceIsSilent`).
- A sub-menu click closes the menu only when the row clicked is the first
  entry whose value equals the current value. With duplicate entry values,
  clicking a later duplicate selects it again and never closes the menu. With
  distinct values, a click closes the menu exactly when it hits the checked
  row (`SubMenu.ClickClosesOnCheckedRow`).

## Model

| member | source | states |
|---|---|---|
| `Preferences.AddPreference` | src/com/android/camera/OnScreenSettings.java:280-292 | appends the preference and then, recursively, each child in order: the result is the input list followed by the pre-order flattening of the preference |
| `Preferences.SetPreferenceGroup` | src/com/android/camera/OnScreenSettings.java:294-303 | the list built child by child is the concatenation of the flattenings of the root's children |
| `Preferences.FlattenLength` | src/com/android/camera/OnScreenSettings.java:297-303 | the main list has one element per node of the tree except the root |
| `Preferences.FlattenExcludesRoot` | src/com/android/camera/OnScreenSettings.java:299-303 | the root group never appears in the main list |
| `Preferences.FlattenNested` | src/com/android/camera/OnScreenSettings.java:282-292 | each node of the main list is followed immediately and contiguously by all of its descendants in pre-order, so a group precedes every descendant |
| `Preferences.FindIndexOfValue` | src/com/android/camera/OnScreenSettings.java:550 | -1 exactly when the value is not an entry value; otherwise an index holding the value with no earlier occurrence |
| `Preferences.Entry` | src/com/android/camera/OnScreenSettings.java:380-382 | the summary label is the entry at the first index whose entry value is the current value; there is one exactly when the value is an entry value |
| `Preferences.SetValueIndex` | src/com/android/camera/OnScreenSettings.java:552 | the value becomes the entry value at the given index and nothing else of the preference changes |
| `Preferences.SelectedIndexFound` | src/com/android/camera/OnScreenSettings.java:550-552 | with distinct entry values, after selecting index i the index found for the value is i |
| `Overrides.ForcedValue` | src/com/android/camera/OnScreenSettings.java:371-372 | a forced value exists exactly when the key is mapped, and it is the mapped value |
| `Overrides.Override` | src/com/android/camera/OnScreenSettings.java:185-197 | no value leaves the key unmapped; a value maps the key to it; every other key keeps its presence and value; the change flag is set exactly when the key's presence flipped |
| `Overrides.Clear` | src/com/android/camera/OnScreenSettings.java:129 | no key stays mapped |
| `Overrides.OverrideThenRemove` | src/com/android/camera/OnScreenSettings.java:187-197 | installing a new override and removing it restores the original map, and both steps report a change |
| `Overrides.ReplaceIsSilent` | src/com/android/camera/OnScreenSettings.java:192-195 | replacing an existing forced value installs the new value but reports no change |
| `Overrides.OverrideIdempotent` | src/com/android/camera/OnScreenSettings.java:187-197 | repeating an update leaves the map as the first call left it and reports no change |
| `TitleSplit.SpaceRun` | src/com/android/camera/OnScreenSettings.java:62-63 | the run of `\s` characters from a position is all white space and is followed by the end of the label or by a character that is not white space |
| `TitleSplit.SearchFrom` | src/com/android/camera/OnScreenSettings.java:477-478 | the backtracking search returns the match with the longest group 1 no longer than the bound, and none when no split point up to the bound matches |
| `TitleSplit.SplitTitle` | src/com/android/camera/OnScreenSettings.java:471-481 | without a match the title is the whole label; a detail is never empty |
| `TitleSplit.SplitSound` | src/com/android/camera/OnScreenSettings.java:477-481 | a detail comes only from a decomposition of the whole label as title, white space, "(", detail, ")" with no line terminator in title or detail |
| `TitleSplit.SplitComplete` | src/com/android/camera/OnScreenSettings.java:477-481 | the split has a detail exactly when the whole label matches the pattern |
| `TitleSplit.SplitGreedy` | src/com/android/camera/OnScreenSettings.java:62-63 | group 1 is the longest title of all decompositions of the label |
| `TitleSplit.SplitReassembles` | src/com/android/camera/OnScreenSettings.java:474-481 | on a label without line terminators, title + "(" + detail + ")" is the label, which therefore ends with ")" |
| `TitleSplit.SplitExample` | src/com/android/camera/OnScreenSettings.java:474-481 | "Auto (x)" splits into the title "Auto " and the detail "x" |
| `MainMenu.EmptyExactlyWithoutChildren` | src/com/android/camera/OnScreenSettings.java:407-443 | for `MainMenu.IsEmpty`: the main list of a tree is empty exactly when the root has no children, and the restore row is counted even then |
| `MainMenu.RowAt` | src/com/android/camera/OnScreenSettings.java:342-360 | a preference row shows an element of the main list |
| `MainMenu.RowRules` | src/com/android/camera/OnScreenSettings.java:398-427 | for `MainMenu.IsEnabled` and `MainMenu.ViewType`: the last position is the restore row, enabled and of view type 1; a preference row is enabled exactly when it is not a group; the view type is 0 exactly for a group; a row is enabled exactly when its view type is 1 |
| `MainMenu.EveryPreferenceHasARow` | src/com/android/camera/OnScreenSettings.java:407-410 | every element of the main list is shown on some row before the restore row |
| `MainMenu.ItemViewOverride` | src/com/android/camera/OnScreenSettings.java:367-389 | for `MainMenu.GetView`: a list-preference row is focusable, with title and summary disabled, exactly when its key has an override; the summary is then the forced value, otherwise the label of the first entry holding the current value |
| `MainMenu.OtherViews` | src/com/android/camera/OnScreenSettings.java:343-366 | the restore row is never focusable and a group row is a header with the group's title |
| `MainMenu.OnItemClick` | src/com/android/camera/OnScreenSettings.java:324-340 | a click on a preference row opens the sub-menu of that row's preference, which is a list preference; a click on the last row asks to confirm the restore |
| `MainMenu.ClickOpensTreePreference` | src/com/android/camera/OnScreenSettings.java:324-334 | on the list of a tree, the opened preference is a node of that list and the restore row sits at position tree size - 1 |
| `SubMenu.RowRules` | src/com/android/camera/OnScreenSettings.java:514-535 | for `SubMenu.IsEnabled` and `SubMenu.ViewType`: position 0 is the header of view type 0 and disabled; every later row is enabled, of view type 1, and stands for an existing entry; for `SubMenu.GetView`, row 0 shows the preference's title as header |
| `SubMenu.EveryEntryHasARow` | src/com/android/camera/OnScreenSettings.java:519-522 | every entry has an enabled row one position below its index |
| `SubMenu.OptionViewRules` | src/com/android/camera/OnScreenSettings.java:465-504 | for `SubMenu.GetView`: an option row is checked exactly when its entry value is the current value; its title and detail are group 1 and group 2 of the label under the pattern, as `TitleSplit.SplitTitle` computes them (so `SplitSound`, `SplitComplete` and `SplitGreedy` apply); it shows a detail exactly when its label matches the pattern, and otherwise the whole label as title; it shows an icon exactly for an icon preference |
| `SubMenu.OneRowChecked` | src/com/android/camera/OnScreenSettings.java:469-470 | with distinct entry values, no two rows are checked |
| `SubMenu.SomeRowChecked` | src/com/android/camera/OnScreenSettings.java:469-470 | when the value is an entry value, some row is checked |
| `SubMenu.ClickRules` | src/com/android/camera/OnScreenSettings.java:547-560 | for `SubMenu.OnItemClick`: the sub-menu closes, changing nothing, exactly when the clicked row holds the first entry value equal to the value; otherwise the clicked entry becomes the value and its row is checked |
| `SubMenu.ClickClosesOnCheckedRow` | src/com/android/camera/OnScreenSettings.java:547-560 | with distinct entry values, a click closes the sub-menu exactly when it hits the checked row |
| `SubMenu.SecondClickCloses` | src/com/android/camera/OnScreenSettings.java:547-560 | with distinct entry values, clicking the same row twice leaves it selected and closes the sub-menu on the second click |
| `OnScreenMenu.DisplayLayout` | src/com/android/camera/OnScreenSettings.java:204-208 | the window sits at the origin, with the full display height and half the display width rounded down |
| `OnScreenMenu.UpdateLayout` | src/com/android/camera/OnScreenSettings.java:199-213 | without a window token nothing happens; with one the geometry becomes the display layout, and the window is updated exactly when the panel is shown |
| `OnScreenMenu.SetVisible` | src/com/android/camera/OnScreenSettings.java:145-183 | the panel ends in the requested state, except for a show request without a token; the list, the overrides and the listener stay as they were |
| `OnScreenMenu.SetVisibleRetry` | src/com/android/camera/OnScreenSettings.java:145-156 | every call cancels the pending retry; a show request without a token posts a new retry and changes nothing else |
| `OnScreenMenu.SetVisibleNoChange` | src/com/android/camera/OnScreenSettings.java:159-161 | a request for the current state only cancels the retry and makes no call |
| `OnScreenMenu.SetVisibleNotifies` | src/com/android/camera/OnScreenSettings.java:162-183 | the listener, if there is one, hears the new state exactly once when the state changes, and hears nothing otherwise |
| `OnScreenMenu.SetVisibleWindow` | src/com/android/camera/OnScreenSettings.java:164-179 | showing adds the window, brings the main menu back in front and lays the window out; hiding removes the window and changes only the visibility and the retry flag |
| `OnScreenMenu.SetVisibleIdempotent` | src/com/android/camera/OnScreenSettings.java:145-183 | a second identical call leaves the panel as the first left it and notifies no one |
| `OnScreenMenu.DeliverRetry` | src/com/android/camera/OnScreenSettings.java:97-106 | the delivered message (`handleMessage`) is a `setVisible(true)` that runs only while a retry is pending; while there is still no token it changes nothing but posts the retry again, so the retry repeats until a token exists |
| `OnScreenMenu.RetryShows` | src/com/android/camera/OnScreenSettings.java:97-106 | once the owner has a window token, delivering the pending retry is exactly `setVisible(true)`: the panel ends shown with nothing pending, the list, overrides and listener are kept, and the listener hears `true` exactly when the panel was hidden and a listener exists |
| `OnScreenMenu.KeyDismissal` | src/com/android/camera/OnScreenSettings.java:266-278 | for `OnContainerKey`: a key event is consumed exactly when it is the release of CAMERA, FOCUS, BACK or MENU; it then acts as `setVisible(false)`: the panel ends hidden with the retry cancelled and nothing else changed, and the listener hears `false` exactly when the panel was shown and a listener exists; any other key event changes nothing |
| `OnScreenMenu.GripperDismissal` | src/com/android/camera/OnScreenSettings.java:253-264 | for `OnGripperTouch`: the gripper consumes exactly presses and releases; a release acts as `setVisible(false)`: the panel ends hidden with the retry cancelled and nothing else changed, and the listener hears `false` exactly when the panel was shown and a listener exists; anything other than a release changes nothing |
| `OnScreenMenu.ContainerDismissal` | src/com/android/camera/OnScreenSettings.java:568-576 | for `OnContainerTouch`: the panel ends hidden exactly when it was hidden or a press reached it that its own view handling (`super.onTouchEvent`) did not consume; the container consumes a touch exactly when its own view handling did or it is a press; such an unconsumed press acts as `setVisible(false)` (hidden, retry cancelled, nothing else changed, the listener told only of a real change), and every other touch changes nothing |
| `OnScreenMenu.OverrideNotifies` | src/com/android/camera/OnScreenSettings.java:187-197 | for `OverrideSettings`: an override call changes only the override map, which becomes `Overrides.Override`'s result, so every other key keeps its presence and value; it tells the main list exactly when the adapter exists and the key's presence flipped |
| `OnScreenMenu.OverrideDisablesRows` | src/com/android/camera/OnScreenSettings.java:371-388 | after an override call, the rows of that key look disabled exactly when a value was given, and show that value |
| `OnScreenMenu.ClearEnablesRows` | src/com/android/camera/OnScreenSettings.java:119-130 | for `ClearSettings`: a clear empties the override map and changes nothing else, tells the main list, and leaves no row disabled by an override |
| `OnScreenMenu.SetPreferenceGroup` | src/com/android/camera/OnScreenSettings.java:294-307 | the panel's main list becomes the flattening of the tree (one row per non-root node, without the root); nothing else changes except that an open sub-menu is closed, and no call is made |
| `OnScreenMenu.ClickMain` | src/com/android/camera/OnScreenSettings.java:324-340 | a click on a preference row opens the sub-menu for that row, which shows a list preference; a click on the restore row only asks for the confirmation |
| `OnScreenMenu.ClickSubRules` | src/com/android/camera/OnScreenSettings.java:547-560 | for `ClickSub`: the sub-menu closes exactly when `SubMenu.OnItemClick` says so, and then only the sub-menu closes and the only call is the close; otherwise the only change is the open preference's row of the main list, which gets the clicked entry value with every other field kept, and both lists are notified |
| `OnScreenMenu.SetVisibleHides` | src/com/android/camera/OnScreenSettings.java:145-183 | a hide request ends with the panel hidden, no retry pending and nothing else changed; the listener hears `false` exactly when the panel was shown and a listener exists |
| `OnScreenMenu.MainClickSkipsOverridden` | src/com/android/camera/OnScreenSettings.java:324-388 | a main-menu click that reaches `onItemClick` opens the sub-menu of a list preference with no override, since an overridden row is focusable and eats the click; a click on the restore row only asks for the confirmation |
| `OnScreenMenu.InitialValid` | src/com/android/camera/OnScreenSettings.java:72-81 | a new panel is hidden, with no retry pending and no sub-menu open |
| `OnScreenMenu.ApplyPreservesValid` | src/com/android/camera/OnScreenSettings.java:324-333 | under every input, an open sub-menu keeps pointing at a list preference of the main list |

## Left out
- A sub-menu that is already open when `overrideSettings` overrides its preference stays open, and a click in it still changes the value, as in the source, which neither closes nor disables it.

- Window-manager calls (`addView`, `removeView`, `updateViewLayout`) are returned as effects and not performed. The window token is only "has a token", and the layout flags, gravity, type, format and animation style of the layout parameters are not modelled.
- The handler and its message queue are not modelled. The posted `MSG_POST_SET_VISIBLE` is a pending flag, and its delivery is a separate input (`DeliverRetry`), not asynchronous execution.
- Layout inflation, view recycling (`inflateIfNeed`), text, radio-button and image setters, focus requests and the slide animations of `showSubMenu`/`closeSubMenu` are user-interface side effects. Rows are described by `RowView` records, and showing or closing a menu is an effect.
- Clearing the shared preferences, `PreferenceGroup.reloadValue`, `MenuHelper.confirmAction` and the restore runner are persistence and dialogs in files that are not part of this model. `clearSettings` keeps its override part and its need for a preference group.
- The internals of `CameraPreference`, `ListPreference` and `IconListPreference` are not part of this model. They are records with a key, a title, entries, entry values, a value and whether icons exist, and the icon drawables are left out. The helpers' assumed behaviour is stated above.
- Preferences.Entry: where the current value is not an entry value, the model gives no summary, while `getEntry` would index -1 in the source.
- `getItemViewType` throws `IllegalStateException` for a preference that is neither a group nor a list preference. The model's tree has no other kind, so that branch cannot arise.
- The constant adapter queries are not modelled: `getItem` is null, `getItemId` is the position, and `hasStableIds`, `areAllItemsEnabled` and `getViewTypeCount` are fixed answers. `isEmpty` is modelled (`MainMenu.IsEmpty`).
- The main list holds copies, not shared references. In the source, a group in the main list and its child are the same objects the sub-menu changes. In the model, a sub-menu click updates only the row of the changed list preference, so the children stored inside a group row keep the old value. After such a click the list is no longer the flattening of a tree. No displayed field reads those copies, because a group row shows only its title.
- OnScreenMenu.SetPreferenceGroup: an open sub-menu is closed. The source leaves the old sub-menu adapter on its preference object, but the model has no object identity to keep it by.
- `setOnVisibilityChangedListener`, `setRestoreRunner` and `isVisible` are plain field access. The listener is modelled only as present or absent (`ListenerSet`).
- Display sizes are natural numbers. On them, Java's truncating `/` agrees with Dafny's.
- Sub-menu option labels are split by the one pattern only. The general regular-expression engine is not modelled.
