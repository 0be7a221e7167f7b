/**
 * The override map: preference key to a forced value. A preference whose key
 * is mapped shows the forced value, and its main-menu row eats clicks, so its
 * sub-menu cannot be opened (a scene mode forcing the focus mode, for
 * instance). A sub-menu already open when the override arrives stays usable.
 */
module Overrides {
  import opened Wrappers

  type OverrideMap = map<string, string>

  /** The map after an update, and whether the main list must be told it changed. */
  datatype Update = Update(overrides: OverrideMap, changed: bool)

  /** The forced value for `key`, if any (`mOverride.get`). */
  function ForcedValue(m: OverrideMap, key: string): (r: Option<string>)
    ensures r.Some? <==> key in m
    ensures r.Some? ==> m[key] == r.value
  {
    if key in m then Some(m[key]) else None
  }

  /**
   * `overrideSettings(key, value)`: no value removes the override, a value
   * installs it. `changed` reports what `remove` or `put` returned: a
   * removal that hit an entry, or a put for a key that had none.
   */
  function Override(m: OverrideMap, key: string, value: Option<string>): (r: Update)
    ensures value.None? ==> key !in r.overrides
    ensures value.Some? ==> key in r.overrides && r.overrides[key] == value.value
    ensures forall k :: k != key ==> (k in r.overrides <==> k in m)
    ensures forall k :: k != key && k in m ==> r.overrides[k] == m[k]
    ensures r.changed <==> (key in m) != (key in r.overrides)
  {
    match value
    case None => Update(m - {key}, key in m)
    case Some(v) => Update(m[key := v], key !in m)
  }

  /** `clearSettings`, the override part: every override is dropped. */
  function Clear(m: OverrideMap): (r: OverrideMap)
    ensures forall k :: k !in r
  {
    map[]
  }

  /** Installing a fresh override and removing it again leaves the map as it was, and both steps report a change. */
  lemma OverrideThenRemove(m: OverrideMap, key: string, v: string)
    requires key !in m
    ensures Override(m, key, Some(v)).changed
    ensures Override(Override(m, key, Some(v)).overrides, key, None).changed
    ensures Override(Override(m, key, Some(v)).overrides, key, None).overrides == m
  {
    assert m[key := v] - {key} == m;
  }

  /** Replacing the forced value of a key that already has one reports no change. */
  lemma ReplaceIsSilent(m: OverrideMap, key: string, v: string)
    requires key in m
    ensures !Override(m, key, Some(v)).changed
    ensures ForcedValue(Override(m, key, Some(v)).overrides, key) == Some(v)
  {
  }

  /** Repeating an update changes nothing more and reports no change. */
  lemma OverrideIdempotent(m: OverrideMap, key: string, value: Option<string>)
    ensures Override(Override(m, key, value).overrides, key, value).overrides == Override(m, key, value).overrides
    ensures !Override(Override(m, key, value).overrides, key, value).changed
  {
  }
}
