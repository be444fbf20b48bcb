/** The settings page of the toolbox window (src/views/toolbox_views/setting_view.py): the
    configuration being edited, the top-level copy taken when it was loaded, the
    `config_modified` flag, and what the view last wrote to `resources/properties.json`.

    `original_config` is `config_data.copy()`, a copy of the top level only: both hold the same
    nested dict objects, so an edit inside a nested dict is seen through both. The widgets are
    not modelled; each handler is a method taking what its widget would pass. Reading and
    writing the file are values: the constructor is given what `json.load` would return, and
    `saved` is what the last `json.dump` wrote. */
module SettingView {
  import opened Wrappers
  import opened PyDict
  import opened Json
  import opened ConfigEdits

  class SettingView {
    /** `config_data` */
    var configData: Dict<Value>
    /** `original_config`, the top-level copy taken at construction */
    var originalConfig: Dict<Value>
    /** `config_modified` */
    var configModified: bool
    /** What the last `save_config` wrote, `None` before the first. */
    var saved: Option<Json>
    /** The groups the last `create_cards` built, or the exception it raised. */
    var cards: Result<seq<Card>>
    /** Python's `int()` on a string, `None` where it raises `ValueError`. */
    const parseInt: string -> Option<int>

    /** `__init__`: `load_config` gives the file's dict, or `{}` when there is no file; the
        original is a shallow copy of it; nothing is modified yet; the cards are built. */
    constructor(stored: Option<Entries>, parseInt: string -> Option<int>)
      ensures Snapshot(configData) == JObj(if stored.Some? then stored.value else [])
      ensures originalConfig == configData
      ensures forall d :: d in DictsOf(configData) ==> fresh(d)
      ensures !configModified && saved == None
      ensures cards == Cards(if stored.Some? then stored.value else [])
      ensures this.parseInt == parseInt
    {
      var entries := if stored.Some? then stored.value else [];
      var loaded := FreshValues(entries);
      configData := loaded;
      originalConfig := loaded;
      configModified := false;
      saved := None;
      cards := Cards(entries);
      this.parseInt := parseInt;
    }

    /** `save_config`: the file now holds the configuration as it is, nested dicts included. */
    method SaveConfig()
      modifies this
      ensures saved == Some(old(Snapshot(configData))) && saved == Some(Snapshot(configData))
      ensures configData == old(configData) && originalConfig == old(originalConfig)
      ensures configModified == old(configModified) && cards == old(cards)
    {
      saved := Some(Snapshot(configData));
      assert unchanged(DictsOf(configData));
    }

    /** `apply_changes`: save, and clear the flag. */
    method ApplyChanges()
      modifies this
      ensures saved == Some(old(Snapshot(configData))) && !configModified
      ensures configData == old(configData) && originalConfig == old(originalConfig) && cards == old(cards)
    {
      SaveConfig();
      configModified := false;
    }

    /** `on_config_changed(key, value)`: the edit, coerced by the type of the original value,
        becomes the value of `key`, and the flag is set. A list edit of an int setting raises
        `TypeError` before anything changes. */
    method OnConfigChanged(key: string, e: Edit) returns (r: Result<()>)
      modifies this
      ensures r.Ok? <==> Coerce(IntOriginal(originalConfig, key), e, parseInt).Ok?
      ensures r.Ok? ==> configData == Set(old(configData), key, Plain(Coerce(IntOriginal(originalConfig, key), e, parseInt).value))
      ensures r.Ok? ==> Get(configData, key) == Some(Plain(Coerce(IntOriginal(originalConfig, key), e, parseInt).value))
      ensures forall k :: k != key ==> Get(configData, k) == Get(old(configData), k)
      ensures r.Ok? ==> configModified
      ensures r.Err? ==> configData == old(configData) && configModified == old(configModified)
      ensures originalConfig == old(originalConfig) && saved == old(saved) && cards == old(cards)
    {
      var coerced := Coerce(IntOriginal(originalConfig, key), e, parseInt);
      if coerced.Err? {
        return Err(coerced.error);
      }
      SetGet(configData, key, Plain(coerced.value));
      configData := Set(configData, key, Plain(coerced.value));
      configModified := true;
      r := Ok(());
    }

    /** `AssignIn` on `config_data`, which then refers to the new top level. */
    method AssignInDict(dictKey: string, subKey: string, value: Json) returns (r: Result<()>)
      modifies this, DictsOf(configData)
      ensures r.Err? <==> old(HoldsNonDict(configData, dictKey))
      ensures r.Ok? ==> NestedGet(configData, dictKey, subKey) == Ok(Some(value))
      ensures r.Ok? ==> forall k :: k != subKey ==> NestedGet(configData, dictKey, k) == old(NestedGet(configData, dictKey, k))
      ensures (old(Get(configData, dictKey)).Some? && old(Get(configData, dictKey)).value.Nested?
        && old(Get(originalConfig, dictKey)) == old(Get(configData, dictKey))) ==>
        NestedGet(originalConfig, dictKey, subKey) == Ok(Some(value))
      ensures old(Get(configData, dictKey)).None? ==>
        && Get(configData, dictKey).Some? && Get(configData, dictKey).value.Nested?
        && fresh(Get(configData, dictKey).value.dict)
        && Get(configData, dictKey).value.dict.entries == [(subKey, value)]
        && configData == Set(old(configData), dictKey, Get(configData, dictKey).value)
        && unchanged(old(DictsOf(configData)))
      ensures old(Get(configData, dictKey)).Some? && old(Get(configData, dictKey)).value.Nested? ==>
        var d := old(Get(configData, dictKey)).value.dict;
        && configData == old(configData)
        && d.entries == Set(old(d.entries), subKey, value)
        && unchanged(old(DictsOf(configData)) - {d})
      ensures old(Get(configData, dictKey)).Some? && old(Get(configData, dictKey)).value.Plain? && !old(HoldsNonDict(configData, dictKey)) ==>
        && configData == Set(old(configData), dictKey, Plain(JObj(Set(old(Get(configData, dictKey)).value.json.entries, subKey, value))))
        && unchanged(old(DictsOf(configData)))
      ensures r.Err? ==> configData == old(configData) && unchanged(old(DictsOf(configData)))
      ensures originalConfig == old(originalConfig) && configModified == old(configModified)
      ensures saved == old(saved) && cards == old(cards)
    {
      var outcome := AssignIn(configData, dictKey, subKey, value);
      if outcome.Err? {
        return Err(outcome.error);
      }
      label Assigned:
      configData := outcome.value;
      assert unchanged@Assigned(DictsOf(configData));
      r := Ok(());
    }

    /** `on_config_changed_in_dict(dict_key, sub_key, value)`: the text, coerced by the type of
        the original nested value, becomes the value of `sub_key` in the dict under `dict_key`
        (a new dict when there is none), and the flag is set. It raises `AttributeError` when the
        original under `dict_key` is not a dict, and `TypeError` when the current one is not.
        Where the dict is the one `original_config` also holds, the original sees the edit too,
        and a configuration equal to its original stays so. */
    method OnConfigChangedInDict(dictKey: string, subKey: string, text: string) returns (r: Result<()>)
      modifies this, DictsOf(configData)
      ensures old(NestedGet(originalConfig, dictKey, subKey)).Err? ==>
        r.Err? && configData == old(configData) && configModified == old(configModified) && unchanged(old(DictsOf(configData)))
      ensures old(NestedGet(originalConfig, dictKey, subKey)).Ok? ==> (r.Err? <==> old(HoldsNonDict(configData, dictKey)))
      ensures r.Ok? ==> configModified && old(NestedGet(originalConfig, dictKey, subKey)).Ok?
      ensures r.Ok? ==> NestedGet(configData, dictKey, subKey) == Ok(Some(TextValue(old(NestedGet(originalConfig, dictKey, subKey)).value, text, parseInt)))
      ensures r.Ok? ==> forall k :: k != subKey ==> NestedGet(configData, dictKey, k) == old(NestedGet(configData, dictKey, k))
      ensures r.Ok? && old(Get(configData, dictKey)).Some? && old(Get(configData, dictKey)).value.Nested? ==>
        && configData == old(configData)
        && (old(Get(originalConfig, dictKey)) == old(Get(configData, dictKey)) ==>
              NestedGet(originalConfig, dictKey, subKey) == NestedGet(configData, dictKey, subKey))
      ensures r.Err? ==> configData == old(configData) && unchanged(old(DictsOf(configData)))
      ensures originalConfig == old(originalConfig) && saved == old(saved) && cards == old(cards)
    {
      var original := NestedGet(originalConfig, dictKey, subKey);
      if original.Err? {
        return Err(original.error);
      }
      var value := TextValue(original.value, text, parseInt);
      r := AssignInDict(dictKey, subKey, value);
      if r.Ok? {
        configModified := true;
      }
    }

    /** `select_color`: a colour chosen in the dialog is stored under `colors` as its
        components, with alpha only when it is not opaque, and reads back as that colour; a
        cancelled dialog changes nothing. The flag is left as it was. */
    method SelectColor(colorKey: string, chosen: Option<(int, int, int, int)>) returns (r: Result<()>)
      modifies this, DictsOf(configData)
      ensures chosen.None? ==> r.Ok? && configData == old(configData) && unchanged(old(DictsOf(configData)))
      ensures chosen.Some? ==> (r.Err? <==> old(HoldsNonDict(configData, COLORS_KEY)))
      ensures r.Ok? && chosen.Some? ==>
        var (red, green, blue, alpha) := chosen.value;
        && NestedGet(configData, COLORS_KEY, colorKey) == Ok(Some(SelectedColorList(red, green, blue, alpha)))
        && ConvertToQColor(SelectedColorList(red, green, blue, alpha)) == Ok(Rgba(red, green, blue, alpha))
      ensures r.Ok? ==> forall k :: k != colorKey ==> NestedGet(configData, COLORS_KEY, k) == old(NestedGet(configData, COLORS_KEY, k))
      ensures r.Ok? && chosen.Some? && old(Get(configData, COLORS_KEY)).Some? && old(Get(configData, COLORS_KEY)).value.Nested? ==>
        && configData == old(configData)
        && (old(Get(originalConfig, COLORS_KEY)) == old(Get(configData, COLORS_KEY)) ==>
              NestedGet(originalConfig, COLORS_KEY, colorKey) == NestedGet(configData, COLORS_KEY, colorKey))
      ensures r.Err? ==> configData == old(configData) && unchanged(old(DictsOf(configData)))
      ensures originalConfig == old(originalConfig) && configModified == old(configModified)
      ensures saved == old(saved) && cards == old(cards)
    {
      if chosen.None? {
        return Ok(());
      }
      var (red, green, blue, alpha) := chosen.value;
      SelectedColorRoundTrip(red, green, blue, alpha);
      r := AssignInDict(COLORS_KEY, colorKey, SelectedColorList(red, green, blue, alpha));
    }

    /** `update_alpha`: the button's colour with the new alpha is stored under `colors` as four
        components, reads back as that colour, and is saved at once. The flag is left as it was. */
    method UpdateAlpha(colorKey: string, red: int, green: int, blue: int, alpha: int) returns (r: Result<()>)
      modifies this, DictsOf(configData)
      ensures r.Err? <==> old(HoldsNonDict(configData, COLORS_KEY))
      ensures r.Ok? ==> NestedGet(configData, COLORS_KEY, colorKey) == Ok(Some(AlphaColorList(red, green, blue, alpha)))
      ensures r.Ok? ==> ConvertToQColor(AlphaColorList(red, green, blue, alpha)) == Ok(Rgba(red, green, blue, alpha))
      ensures r.Ok? ==> forall k :: k != colorKey ==> NestedGet(configData, COLORS_KEY, k) == old(NestedGet(configData, COLORS_KEY, k))
      ensures r.Ok? ==> saved == Some(Snapshot(configData))
      ensures r.Err? ==> configData == old(configData) && unchanged(old(DictsOf(configData))) && saved == old(saved)
      ensures originalConfig == old(originalConfig) && configModified == old(configModified) && cards == old(cards)
    {
      AlphaColorRoundTrip(red, green, blue, alpha);
      r := AssignInDict(COLORS_KEY, colorKey, AlphaColorList(red, green, blue, alpha));
      if r.Ok? {
        SaveConfig();
      }
    }

    /** `remove_list_item(layout, key, index)`: the texts of the rows, less the one at `index`
        when that is in range, are written back under `key` as an edit. */
    method RemoveListItem(rows: seq<LayoutItem>, key: string, index: int) returns (r: Result<()>)
      modifies this
      ensures var items := RemovedAt(RowTexts(rows), index);
        && (r.Ok? <==> Coerce(IntOriginal(originalConfig, key), Texts(items), parseInt).Ok?)
        && (r.Ok? ==> Get(configData, key) == Some(Plain(EditValue(Texts(items)))))
      ensures forall k :: k != key ==> Get(configData, k) == Get(old(configData), k)
      ensures r.Ok? ==> configModified
      ensures r.Err? ==> configData == old(configData) && configModified == old(configModified)
      ensures originalConfig == old(originalConfig) && saved == old(saved) && cards == old(cards)
    {
      var items := CollectRowTexts(rows);
      items := RemovedAt(items, index);
      r := OnConfigChanged(key, Texts(items));
    }

    /** `reset_to_default`: the configuration becomes a fresh copy of the defaults and the cards
        are rebuilt from it; the original is kept. The flag is cleared only once the cards are
        built: when building them raises, the configuration is already replaced but the flag
        stays as it was. */
    method ResetToDefault(defaults: Entries)
      modifies this
      ensures Snapshot(configData) == JObj(defaults)
      ensures forall d :: d in DictsOf(configData) ==> fresh(d)
      ensures cards == Cards(defaults)
      ensures cards.Ok? ==> !configModified
      ensures cards.Err? ==> configModified == old(configModified)
      ensures originalConfig == old(originalConfig) && saved == old(saved)
    {
      var loaded := FreshValues(defaults);
      label Loaded:
      configData := loaded;
      cards := Cards(defaults);
      if cards.Ok? {
        configModified := false;
      }
      assert unchanged@Loaded(DictsOf(loaded));
    }
  }
}
