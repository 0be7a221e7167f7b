/**
 * The on-screen settings panel as a state machine: visibility with its
 * pending retry, the window geometry, the override map, the main list and
 * which sub-menu is open. Window-manager calls, adapter notifications and
 * listener calls are returned as effects instead of performed.
 */
module OnScreenMenu {
  import opened Wrappers
  import opened Preferences
  import Overrides
  import MainMenu
  import SubMenu

  const KeycodeBack := 4
  const KeycodeCamera := 27
  const KeycodeFocus := 80
  const KeycodeMenu := 82
  const KeyActionUp := 1
  const MotionActionDown := 0
  const MotionActionUp := 1
  /** The layout size that means "as large as the content". */
  const WrapContent := -2

  /** Position and size of the floating window. */
  datatype Geometry = Geometry(x: int, y: int, width: int, height: int)

  /** What the panel reads from its surroundings: whether the owner view has a window token, and the display size. */
  datatype Env = Env(hasToken: bool, displayWidth: nat, displayHeight: nat)

  datatype Panel = Panel(
    visible: bool,
    retryPending: bool,
    hasListener: bool,
    geometry: Geometry,
    prefs: Option<seq<Pref>>,
    overrides: Overrides.OverrideMap,
    subMenu: Option<nat>)

  /** The calls the panel makes on the platform and on its listener. */
  datatype Effect =
    | ListenerNotified(visible: bool)
    | RetryPosted
    | AddedToWindow
    | RemovedFromWindow
    | LayoutUpdated
    | MainListInvalidated
    | MainListChanged
    | SubListChanged
    | SubMenuShown
    | SubMenuClosed
    | RestoreConfirmRequested

  datatype Step = Step(panel: Panel, effects: seq<Effect>)

  /** The outcome of an input event, and whether the panel consumed it. */
  datatype Handled = Handled(step: Step, consumed: bool)

  /** A freshly created panel: hidden, wrapping its content, no preferences and no overrides. */
  const Initial := Panel(false, false, false, Geometry(0, 0, WrapContent, WrapContent), None, map[], None)

  /** An open sub-menu shows a list preference of the main list. */
  predicate Valid(s: Panel)
  {
    s.subMenu.Some? ==>
      s.prefs.Some? && s.subMenu.value < |s.prefs.value| && s.prefs.value[s.subMenu.value].Item?
  }

  /** The list preference of the open sub-menu. */
  function SubPref(s: Panel): ListPref
    requires Valid(s) && s.subMenu.Some?
  {
    s.prefs.value[s.subMenu.value].list
  }

  /** The visibility values handed to the listener, in order. */
  function Notifications(effects: seq<Effect>): seq<bool>
  {
    if |effects| == 0 then []
    else (if effects[0].ListenerNotified? then [effects[0].visible] else []) + Notifications(effects[1..])
  }

  lemma {:induction false} NotificationsAppend(a: seq<Effect>, b: seq<Effect>)
    ensures Notifications(a + b) == Notifications(a) + Notifications(b)
    decreases |a|
  {
    if |a| > 0 {
      assert (a + b)[0] == a[0];
      assert (a + b)[1..] == a[1..] + b;
      NotificationsAppend(a[1..], b);
    } else {
      assert a + b == b;
    }
  }

  /** The geometry `updateLayout` gives the window: the left half of the display, full height. */
  function DisplayLayout(env: Env): (g: Geometry)
    ensures g.x == 0 && g.y == 0 && g.height == env.displayHeight
    ensures 0 <= 2 * g.width <= env.displayWidth < 2 * g.width + 2
  {
    Geometry(0, 0, env.displayWidth / 2, env.displayHeight)
  }

  /** `updateLayout`: nothing without a window token; otherwise the display layout, pushed to the window when shown. */
  function UpdateLayout(s: Panel, env: Env): (r: Step)
    ensures !env.hasToken ==> r == Step(s, [])
    ensures env.hasToken ==> r.panel == s.(geometry := DisplayLayout(env))
    ensures LayoutUpdated in r.effects <==> env.hasToken && s.visible
    ensures Notifications(r.effects) == []
  {
    if !env.hasToken then Step(s, [])
    else Step(s.(geometry := DisplayLayout(env)), if s.visible then [LayoutUpdated] else [])
  }

  /** A `setVisible(v)` call that shows or hides the panel, rather than retrying or doing nothing. */
  predicate Changes(s: Panel, v: bool, env: Env)
  {
    !(v && !env.hasToken) && s.visible != v
  }

  /**
   * `setVisible`: drops any pending retry; a show request without a window
   * token posts a retry instead; a request for the current state does
   * nothing; otherwise the window is added (menus reset, layout updated) or
   * removed, and the listener is told.
   */
  function SetVisible(s: Panel, v: bool, env: Env): (r: Step)
    ensures r.panel.visible == if v && !env.hasToken then s.visible else v
    ensures r.panel.prefs == s.prefs && r.panel.overrides == s.overrides && r.panel.hasListener == s.hasListener
  {
    var s0 := s.(retryPending := false);
    if v && !env.hasToken then Step(s0.(retryPending := true), [RetryPosted])
    else if s0.visible == v then Step(s0, [])
    else
      var notify := if s.hasListener then [ListenerNotified(v)] else [];
      if v then
        var invalidate := if s.prefs.Some? then [MainListInvalidated] else [];
        var laid := UpdateLayout(s0.(visible := true, subMenu := None), env);
        Step(laid.panel, invalidate + [AddedToWindow] + laid.effects + notify)
      else Step(s0.(visible := false), [RemovedFromWindow] + notify)
  }

  /**
   * Every call cancels the pending retry; a show request without a token
   * posts a new one and changes nothing else.
   */
  lemma SetVisibleRetry(s: Panel, v: bool, env: Env)
    ensures SetVisible(s, v, env).panel.retryPending <==> v && !env.hasToken
    ensures v && !env.hasToken ==>
      SetVisible(s, v, env) == Step(s.(retryPending := true), [RetryPosted])
  {
  }

  /** A request for the state the panel is already in does nothing and tells no one. */
  lemma SetVisibleNoChange(s: Panel, v: bool, env: Env)
    requires !(v && !env.hasToken) && s.visible == v
    ensures SetVisible(s, v, env) == Step(s.(retryPending := false), [])
  {
  }

  /** The listener hears of a change exactly once, with the new state, and hears of nothing else. */
  lemma SetVisibleNotifies(s: Panel, v: bool, env: Env)
    ensures Notifications(SetVisible(s, v, env).effects) ==
      if Changes(s, v, env) && s.hasListener then [v] else []
  {
    var s0 := s.(retryPending := false);
    var notify := if s.hasListener then [ListenerNotified(v)] else [];
    assert Notifications(notify) == if s.hasListener then [v] else [];
    if Changes(s, v, env) {
      if v {
        var invalidate := if s.prefs.Some? then [MainListInvalidated] else [];
        var laid := UpdateLayout(s0.(visible := true, subMenu := None), env);
        NotificationsAppend(invalidate + [AddedToWindow] + laid.effects, notify);
        NotificationsAppend(invalidate + [AddedToWindow], laid.effects);
        NotificationsAppend(invalidate, [AddedToWindow]);
      } else {
        NotificationsAppend([RemovedFromWindow], notify);
      }
    }
  }

  /** Showing adds the window, puts the main menu back in front and lays the window out; hiding removes it. */
  lemma SetVisibleWindow(s: Panel, v: bool, env: Env)
    requires Changes(s, v, env)
    ensures v ==> AddedToWindow in SetVisible(s, v, env).effects
    ensures v ==> SetVisible(s, v, env).panel.subMenu.None?
    ensures v ==> SetVisible(s, v, env).panel.geometry == DisplayLayout(env)
    ensures !v ==> RemovedFromWindow in SetVisible(s, v, env).effects
    ensures !v ==> SetVisible(s, v, env).panel == s.(visible := false, retryPending := false)
  {
    if v {
      var s0 := s.(retryPending := false);
      var invalidate := if s.prefs.Some? then [MainListInvalidated] else [];
      var laid := UpdateLayout(s0.(visible := true, subMenu := None), env);
      assert (invalidate + [AddedToWindow] + laid.effects + (if s.hasListener then [ListenerNotified(v)] else []))[|invalidate|] == AddedToWindow;
    }
  }

  /** A second identical call changes nothing and tells no one. */
  lemma SetVisibleIdempotent(s: Panel, v: bool, env: Env)
    ensures SetVisible(SetVisible(s, v, env).panel, v, env).panel == SetVisible(s, v, env).panel
    ensures Notifications(SetVisible(SetVisible(s, v, env).panel, v, env).effects) == []
  {
    SetVisibleRetry(s, v, env);
    SetVisibleNotifies(SetVisible(s, v, env).panel, v, env);
  }

  /**
   * The posted message: a pending retry becomes a `setVisible(true)` call,
   * which, while there is still no token, posts the retry again.
   */
  function DeliverRetry(s: Panel, env: Env): (r: Step)
    ensures !s.retryPending ==> r == Step(s, [])
    ensures s.retryPending && !env.hasToken ==> r == Step(s, [RetryPosted])
    ensures !env.hasToken ==> r.panel.visible == s.visible
  {
    if s.retryPending then SetVisible(s, true, env) else Step(s, [])
  }

  /**
   * Once the token exists, the retried request is a plain `setVisible(true)`:
   * it shows the panel, leaves nothing pending, keeps the list, the
   * overrides and the listener, and tells the listener only if the panel was
   * hidden.
   */
  lemma RetryShows(s: Panel, env: Env)
    requires s.retryPending && env.hasToken
    ensures DeliverRetry(s, env) == SetVisible(s, true, env)
    ensures DeliverRetry(s, env).panel.visible && !DeliverRetry(s, env).panel.retryPending
    ensures DeliverRetry(s, env).panel.prefs == s.prefs && DeliverRetry(s, env).panel.overrides == s.overrides
    ensures DeliverRetry(s, env).panel.hasListener == s.hasListener
    ensures Notifications(DeliverRetry(s, env).effects) == if !s.visible && s.hasListener then [true] else []
  {
    SetVisibleRetry(s, true, env);
    SetVisibleNotifies(s, true, env);
  }

  /** A hide request: the panel ends hidden with no retry and nothing else changed, and the listener hears only of a real change. */
  lemma SetVisibleHides(s: Panel, env: Env)
    ensures SetVisible(s, false, env).panel == s.(visible := false, retryPending := false)
    ensures Notifications(SetVisible(s, false, env).effects) == if s.visible && s.hasListener then [false] else []
  {
    SetVisibleNotifies(s, false, env);
  }

  predicate IsDismissKey(code: int)
  {
    code == KeycodeCamera || code == KeycodeFocus || code == KeycodeBack || code == KeycodeMenu
  }

  /** `onContainerKey`: the release of CAMERA, FOCUS, BACK or MENU hides the panel and is consumed. */
  function OnContainerKey(s: Panel, env: Env, code: int, action: int): (h: Handled)
  {
    if IsDismissKey(code) && action == KeyActionUp then Handled(SetVisible(s, false, env), true)
    else Handled(Step(s, []), false)
  }

  lemma KeyDismissal(s: Panel, env: Env, code: int, action: int)
    ensures OnContainerKey(s, env, code, action).consumed <==>
      code in {KeycodeCamera, KeycodeFocus, KeycodeBack, KeycodeMenu} && action == KeyActionUp
    ensures OnContainerKey(s, env, code, action).consumed ==>
      OnContainerKey(s, env, code, action).step.panel == s.(visible := false, retryPending := false)
    ensures OnContainerKey(s, env, code, action).consumed ==>
      Notifications(OnContainerKey(s, env, code, action).step.effects) ==
        if s.visible && s.hasListener then [false] else []
    ensures !OnContainerKey(s, env, code, action).consumed ==>
      OnContainerKey(s, env, code, action).step == Step(s, [])
  {
    SetVisibleHides(s, env);
  }

  /** The gripper: a press is consumed, a release hides the panel, anything else is passed on. */
  function OnGripperTouch(s: Panel, env: Env, action: int): (h: Handled)
  {
    if action == MotionActionDown then Handled(Step(s, []), true)
    else if action == MotionActionUp then Handled(SetVisible(s, false, env), true)
    else Handled(Step(s, []), false)
  }

  lemma GripperDismissal(s: Panel, env: Env, action: int)
    ensures OnGripperTouch(s, env, action).consumed <==> action == MotionActionDown || action == MotionActionUp
    ensures action == MotionActionUp ==>
      OnGripperTouch(s, env, action).step.panel == s.(visible := false, retryPending := false)
    ensures action == MotionActionUp ==>
      Notifications(OnGripperTouch(s, env, action).step.effects) ==
        if s.visible && s.hasListener then [false] else []
    ensures action != MotionActionUp ==> OnGripperTouch(s, env, action).step == Step(s, [])
  {
    SetVisibleHides(s, env);
  }

  /**
   * The container's touch handler. `ownConsumed` is what the container's
   * own view handling (the superclass) made of the event; a press it did
   * not take hides the panel.
   */
  function OnContainerTouch(s: Panel, env: Env, action: int, ownConsumed: bool): (h: Handled)
  {
    if ownConsumed then Handled(Step(s, []), true)
    else if action == MotionActionDown then Handled(SetVisible(s, false, env), true)
    else Handled(Step(s, []), false)
  }

  lemma ContainerDismissal(s: Panel, env: Env, action: int, ownConsumed: bool)
    ensures !OnContainerTouch(s, env, action, ownConsumed).step.panel.visible <==>
      !s.visible || (!ownConsumed && action == MotionActionDown)
    ensures OnContainerTouch(s, env, action, ownConsumed).consumed <==>
      ownConsumed || action == MotionActionDown
    ensures !ownConsumed && action == MotionActionDown ==>
      OnContainerTouch(s, env, action, ownConsumed).step.panel == s.(visible := false, retryPending := false)
    ensures !ownConsumed && action == MotionActionDown ==>
      Notifications(OnContainerTouch(s, env, action, ownConsumed).step.effects) ==
        if s.visible && s.hasListener then [false] else []
    ensures ownConsumed || action != MotionActionDown ==>
      OnContainerTouch(s, env, action, ownConsumed).step == Step(s, [])
  {
    SetVisibleHides(s, env);
  }

  /** `overrideSettings`: the main list is told only when the key's override appears or disappears, and only once it exists. */
  function OverrideSettings(s: Panel, key: string, value: Option<string>): (r: Step)
  {
    var u := Overrides.Override(s.overrides, key, value);
    Step(s.(overrides := u.overrides), if u.changed && s.prefs.Some? then [MainListChanged] else [])
  }

  lemma OverrideNotifies(s: Panel, key: string, value: Option<string>)
    ensures OverrideSettings(s, key, value).panel.overrides == Overrides.Override(s.overrides, key, value).overrides
    ensures forall k :: k != key ==>
      (k in OverrideSettings(s, key, value).panel.overrides <==> k in s.overrides)
    ensures forall k :: k != key && k in s.overrides ==>
      OverrideSettings(s, key, value).panel.overrides[k] == s.overrides[k]
    ensures OverrideSettings(s, key, value).panel.(overrides := s.overrides) == s
    ensures MainListChanged in OverrideSettings(s, key, value).effects <==>
      s.prefs.Some? && (key in s.overrides) != value.Some?
  {
  }

  /** After an override call every row of that key is disabled exactly when a value was given, and shows it. */
  lemma OverrideDisablesRows(s: Panel, key: string, value: Option<string>, p: int)
    requires s.prefs.Some? && 0 <= p < |s.prefs.value| && s.prefs.value[p].Item? && s.prefs.value[p].list.key == key
    ensures MainMenu.GetView(s.prefs.value, OverrideSettings(s, key, value).panel.overrides, p).focusable <==> value.Some?
    ensures value.Some? ==>
      MainMenu.GetView(s.prefs.value, OverrideSettings(s, key, value).panel.overrides, p).summary == value
  {
    MainMenu.ItemViewOverride(s.prefs.value, OverrideSettings(s, key, value).panel.overrides, p);
  }

  /** `clearSettings`, the override part: it needs a preference group, empties the map and tells the main list. */
  function ClearSettings(s: Panel): (r: Step)
    requires s.prefs.Some?
  {
    Step(s.(overrides := Overrides.Clear(s.overrides)), [MainListChanged])
  }

  /** After a clear no row is disabled by an override. */
  lemma ClearEnablesRows(s: Panel, p: int)
    requires s.prefs.Some? && 0 <= p < |s.prefs.value| && s.prefs.value[p].Item?
    ensures ClearSettings(s).panel.overrides == map[]
    ensures ClearSettings(s).panel.(overrides := s.overrides) == s
    ensures MainListChanged in ClearSettings(s).effects
    ensures !MainMenu.GetView(s.prefs.value, ClearSettings(s).panel.overrides, p).focusable
    ensures MainMenu.GetView(s.prefs.value, ClearSettings(s).panel.overrides, p).textEnabled
  {
    MainMenu.ItemViewOverride(s.prefs.value, ClearSettings(s).panel.overrides, p);
  }

  /** `setPreferenceGroup`: the main list becomes the flattened tree. */
  function SetPreferenceGroup(s: Panel, root: Pref): (r: Step)
    requires root.Group?
    ensures r.panel.prefs == Some(Flatten(root))
    ensures r == Step(s.(prefs := r.panel.prefs, subMenu := None), [])
    ensures |r.panel.prefs.value| == Size(root) - 1
    ensures root !in r.panel.prefs.value
  {
    FlattenLength(root);
    FlattenExcludesRoot(root);
    Step(s.(prefs := Some(Flatten(root)), subMenu := None), [])
  }

  /** A click on an enabled main-menu row. */
  function ClickMain(s: Panel, p: int): (r: Step)
    requires s.prefs.Some? && MainMenu.ValidPosition(s.prefs.value, p) && MainMenu.IsEnabled(s.prefs.value, p)
    ensures p < |s.prefs.value| ==>
      r.panel == s.(subMenu := Some(p)) && Valid(r.panel) && r.effects == [SubMenuShown]
    ensures p == |s.prefs.value| ==> r == Step(s, [RestoreConfirmRequested])
  {
    match MainMenu.OnItemClick(s.prefs.value, p)
    case OpenSubMenu(_) => Step(s.(subMenu := Some(p)), [SubMenuShown])
    case ConfirmRestore => Step(s, [RestoreConfirmRequested])
  }

  /** A click on an enabled row of the open sub-menu. */
  function ClickSub(s: Panel, p: int): (r: Step)
    requires Valid(s) && s.subMenu.Some? && SubPref(s).WellFormed()
    requires SubMenu.ValidPosition(SubPref(s), p) && SubMenu.IsEnabled(p)
  {
    var c := SubMenu.OnItemClick(SubPref(s), p);
    if c.close then Step(s.(subMenu := None), [SubMenuClosed])
    else Step(s.(prefs := Some(s.prefs.value[s.subMenu.value := Item(c.pref)])), [SubListChanged, MainListChanged])
  }

  /**
   * A sub-menu click either closes the sub-menu and changes nothing else, or
   * keeps it open with the clicked entry selected in the main list at the
   * same row, every other row unchanged.
   */
  lemma ClickSubRules(s: Panel, p: int)
    requires Valid(s) && s.subMenu.Some? && SubPref(s).WellFormed()
    requires SubMenu.ValidPosition(SubPref(s), p) && SubMenu.IsEnabled(p)
    ensures ClickSub(s, p).panel.subMenu.None? <==> SubMenu.OnItemClick(SubPref(s), p).close
    ensures ClickSub(s, p).panel.subMenu.None? <==> ClickSub(s, p).effects == [SubMenuClosed]
    ensures ClickSub(s, p).panel.subMenu.Some? <==> ClickSub(s, p).effects == [SubListChanged, MainListChanged]
    ensures ClickSub(s, p).panel.subMenu.None? ==> ClickSub(s, p).panel == s.(subMenu := None)
    ensures ClickSub(s, p).panel.subMenu.Some? ==>
      && ClickSub(s, p).panel == s.(prefs := ClickSub(s, p).panel.prefs)
      && ClickSub(s, p).panel.prefs.value[s.subMenu.value] ==
           Item(SubPref(s).(value := SubPref(s).entryValues[p - 1]))
      && |ClickSub(s, p).panel.prefs.value| == |s.prefs.value|
      && (forall i :: 0 <= i < |s.prefs.value| && i != s.subMenu.value ==>
            ClickSub(s, p).panel.prefs.value[i] == s.prefs.value[i])
  {
    SubMenu.ClickRules(SubPref(s), p);
  }

  /** Every input the panel can receive, with what its caller guarantees. */
  datatype Event =
    | SetVisibleCall(visible: bool)
    | RetryDelivered
    | LayoutRequested
    | ListenerSet(present: bool)
    | KeyEvent(code: int, action: int)
    | GripperTouch(action: int)
    | ContainerTouch(action: int, ownConsumed: bool)
    | OverrideCall(key: string, value: Option<string>)
    | ClearCall
    | PreferenceGroupSet(root: Pref)
    | MainClick(position: int)
    | SubClick(position: int)

  /**
   * The callers' side: clicks reach only enabled rows of an existing list,
   * and never a focusable (overridden) main row, whose view eats the event;
   * a clear follows a preference group.
   */
  predicate Allowed(s: Panel, e: Event)
  {
    match e
    case ClearCall => s.prefs.Some?
    case PreferenceGroupSet(root) => root.Group?
    case MainClick(p) =>
      && s.prefs.Some? && MainMenu.ValidPosition(s.prefs.value, p) && MainMenu.IsEnabled(s.prefs.value, p)
      && (p < |s.prefs.value| ==> !MainMenu.GetView(s.prefs.value, s.overrides, p).focusable)
    case SubClick(p) =>
      Valid(s) && s.subMenu.Some? && SubPref(s).WellFormed()
      && SubMenu.ValidPosition(SubPref(s), p) && SubMenu.IsEnabled(p)
    case _ => true
  }

  function Apply(s: Panel, env: Env, e: Event): Step
    requires Allowed(s, e)
  {
    match e
    case SetVisibleCall(v) => SetVisible(s, v, env)
    case RetryDelivered => DeliverRetry(s, env)
    case LayoutRequested => UpdateLayout(s, env)
    case ListenerSet(present) => Step(s.(hasListener := present), [])
    case KeyEvent(code, action) => OnContainerKey(s, env, code, action).step
    case GripperTouch(action) => OnGripperTouch(s, env, action).step
    case ContainerTouch(action, consumed) => OnContainerTouch(s, env, action, consumed).step
    case OverrideCall(key, value) => OverrideSettings(s, key, value)
    case ClearCall => ClearSettings(s)
    case PreferenceGroupSet(root) => SetPreferenceGroup(s, root)
    case MainClick(p) => ClickMain(s, p)
    case SubClick(p) => ClickSub(s, p)
  }

  /** A main-menu click that reaches `onItemClick` never opens the sub-menu of an overridden preference. */
  lemma MainClickSkipsOverridden(s: Panel, env: Env, p: int)
    requires Allowed(s, MainClick(p))
    ensures p < |s.prefs.value| ==>
      && Apply(s, env, MainClick(p)).panel.subMenu == Some(p)
      && s.prefs.value[p].Item? && s.prefs.value[p].list.key !in s.overrides
    ensures p == |s.prefs.value| ==> Apply(s, env, MainClick(p)) == Step(s, [RestoreConfirmRequested])
  {
    if p < |s.prefs.value| {
      MainMenu.RowRules(s.prefs.value, p);
      MainMenu.ItemViewOverride(s.prefs.value, s.overrides, p);
    }
  }

  lemma InitialValid()
    ensures Valid(Initial) && !Initial.visible && !Initial.retryPending && Initial.subMenu.None?
  {
  }

  /** Every input keeps an open sub-menu pointing at a list preference of the main list. */
  lemma ApplyPreservesValid(s: Panel, env: Env, e: Event)
    requires Valid(s) && Allowed(s, e)
    ensures Valid(Apply(s, env, e).panel)
  {
    match e
    case SubClick(p) => SubMenu.ClickRules(SubPref(s), p);
    case _ =>
  }
}
