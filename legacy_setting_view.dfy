/** The older settings view (src/views/setting_view.py). It edits the configuration by the same
    rules as the toolbox page, with the same shallow `original_config` copy, but keeps no
    `config_modified` flag, has no reset and no alpha editing, and `apply_changes` only saves.

    Its `create_list_items` clears the list container with `itemAt(i).widget().setParent(None)`.
    A row of the container is a layout, whose `widget()` is `None`, so the clearing raises
    `AttributeError` as soon as it meets a row: deleting a list entry fails before the
    configuration is touched. */
module LegacySettingView {
  import opened Wrappers
  import opened PyDict
  import opened Json
  import opened ConfigEdits

  /** The clearing loop of `create_list_items`, from the last item down: a plain widget is
      detached; a row layout has no widget, and calling `setParent` on `None` raises. */
  function ClearedItems(rows: seq<LayoutItem>): (r: Result<()>)
    ensures r.Err? <==> exists i :: 0 <= i < |rows| && rows[i].RowLayout?
  {
    if rows == [] then Ok(())
    else if rows[|rows| - 1].RowLayout? then Err("AttributeError")
    else
      var r := ClearedItems(rows[..|rows| - 1]);
      assert forall i :: 0 <= i < |rows| - 1 ==> rows[..|rows| - 1][i] == rows[i];
      r
  }

  /** The loop itself. */
  method ClearListItems(rows: seq<LayoutItem>) returns (r: Result<()>)
    ensures r == ClearedItems(rows)
  {
    var i := |rows|;
    assert rows[..i] == rows;
    while i > 0
      invariant 0 <= i <= |rows|
      invariant ClearedItems(rows) == ClearedItems(rows[..i])
    {
      assert rows[..i][..i - 1] == rows[..i - 1];
      if rows[i - 1].RowLayout? {
        return Err("AttributeError");
      }
      i := i - 1;
    }
    r := Ok(());
  }

  /** Whenever there is an entry to delete, the clearing fails. */
  lemma NothingToDeleteOrFails(rows: seq<LayoutItem>, index: int)
    requires 0 <= index < |RowTexts(rows)|
    ensures ClearedItems(rows) == Err("AttributeError")
  {
    RowTextsMembers(rows);
    assert RowTexts(rows)[index] in RowTexts(rows);
    var i :| 0 <= i < |rows| && rows[i].RowLayout? && rows[i].count >= 2 && rows[i].text == RowTexts(rows)[index];
    ClearedIsFirstRowFromEnd(rows);
  }

  /** The error is the one raised on the last row layout. */
  lemma {:induction false} ClearedIsFirstRowFromEnd(rows: seq<LayoutItem>)
    ensures ClearedItems(rows).Err? ==> ClearedItems(rows) == Err("AttributeError")
  {
    if rows != [] && !rows[|rows| - 1].RowLayout? {
      ClearedIsFirstRowFromEnd(rows[..|rows| - 1]);
    }
  }

  /** A container without row layouts shows no texts. */
  lemma {:induction false} NoRowsNoTexts(rows: seq<LayoutItem>)
    requires forall i :: 0 <= i < |rows| ==> !rows[i].RowLayout?
    ensures RowTexts(rows) == []
  {
    if rows != [] {
      NoRowsNoTexts(rows[..|rows| - 1]);
    }
  }

  /** A list group showing `"a"` and `"b"`: deleting `"a"` raises and the list stays as it was. */
  lemma DeletingFromTwoRowsFails()
    ensures RowTexts([RowLayout(2, "a"), RowLayout(2, "b")]) == ["a", "b"]
    ensures ClearedItems([RowLayout(2, "a"), RowLayout(2, "b")]) == Err("AttributeError")
  {
    var rows := [RowLayout(2, "a"), RowLayout(2, "b")];
    assert rows[..1] == [RowLayout(2, "a")] && rows[..1][..0] == [];
  }

  class LegacySettingView {
    /** `config_data` */
    var configData: Dict<Value>
    /** `original_config`, the top-level copy taken at construction */
    var originalConfig: Dict<Value>
    /** What the last `save_config` wrote, `None` before the first. */
    var saved: Option<Json>
    /** The groups `create_cards` built, or the exception it raised. */
    var cards: Result<seq<Card>>
    /** Python's `int()` on a string, `None` where it raises `ValueError`. */
    const parseInt: string -> Option<int>

    /** `__init__`: the loaded dict (or `{}` with no file), a shallow copy of it, and its cards. */
    constructor(stored: Option<Entries>, parseInt: string -> Option<int>)
      ensures Snapshot(configData) == JObj(if stored.Some? then stored.value else [])
      ensures originalConfig == configData
      ensures forall d :: d in DictsOf(configData) ==> fresh(d)
      ensures saved == None && cards == Cards(if stored.Some? then stored.value else [])
      ensures this.parseInt == parseInt
    {
      var entries := if stored.Some? then stored.value else [];
      var loaded := FreshValues(entries);
      configData := loaded;
      originalConfig := loaded;
      saved := None;
      cards := Cards(entries);
      this.parseInt := parseInt;
    }

    /** `apply_changes`, which is `save_config`: the file now holds the configuration as it is. */
    method ApplyChanges()
      modifies this
      ensures saved == Some(old(Snapshot(configData))) && saved == Some(Snapshot(configData))
      ensures configData == old(configData) && originalConfig == old(originalConfig) && cards == old(cards)
    {
      saved := Some(Snapshot(configData));
      assert unchanged(DictsOf(configData));
    }

    /** `on_config_changed(key, value)`: the edit, coerced by the type of the original value,
        becomes the value of `key`; a list edit of an int setting raises `TypeError`. */
    method OnConfigChanged(key: string, e: Edit) returns (r: Result<()>)
      modifies this
      ensures r.Ok? <==> Coerce(IntOriginal(originalConfig, key), e, parseInt).Ok?
      ensures r.Ok? ==> configData == Set(old(configData), key, Plain(Coerce(IntOriginal(originalConfig, key), e, parseInt).value))
      ensures r.Ok? ==> Get(configData, key) == Some(Plain(Coerce(IntOriginal(originalConfig, key), e, parseInt).value))
      ensures forall k :: k != key ==> Get(configData, k) == Get(old(configData), k)
      ensures r.Err? ==> configData == old(configData)
      ensures originalConfig == old(originalConfig) && saved == old(saved) && cards == old(cards)
    {
      var coerced := Coerce(IntOriginal(originalConfig, key), e, parseInt);
      if coerced.Err? {
        return Err(coerced.error);
      }
      SetGet(configData, key, Plain(coerced.value));
      configData := Set(configData, key, Plain(coerced.value));
      r := Ok(());
    }

    /** `AssignIn` on `config_data`, which then refers to the new top level. */
    method AssignInDict(dictKey: string, subKey: string, value: Json) returns (r: Result<()>)
      modifies this, DictsOf(configData)
      ensures r.Err? <==> old(HoldsNonDict(configData, dictKey))
      ensures r.Ok? ==> NestedGet(configData, dictKey, subKey) == Ok(Some(value))
      ensures r.Ok? ==> forall k :: k != subKey ==> NestedGet(configData, dictKey, k) == old(NestedGet(configData, dictKey, k))
      ensures (old(Get(configData, dictKey)).Some? && old(Get(configData, dictKey)).value.Nested?
        && old(Get(originalConfig, dictKey)) == old(Get(configData, dictKey))) ==>
        NestedGet(originalConfig, dictKey, subKey) == Ok(Some(value))
      ensures old(Get(configData, dictKey)).Some? && old(Get(configData, dictKey)).value.Nested? ==>
        configData == old(configData)
      ensures r.Err? ==> configData == old(configData) && unchanged(old(DictsOf(configData)))
      ensures originalConfig == old(originalConfig) && saved == old(saved) && cards == old(cards)
    {
      var outcome := AssignIn(configData, dictKey, subKey, value);
      if outcome.Err? {
        return Err(outcome.error);
      }
      label Assigned:
      configData := outcome.value;
      assert unchanged@Assigned(DictsOf(configData));
      r := Ok(());
    }

    /** `on_config_changed_in_dict(dict_key, sub_key, value)`: the text, coerced by the type of
        the original nested value, becomes the value of `sub_key` in the dict under `dict_key`
        (a new dict when there is none). It raises `AttributeError` when the original under
        `dict_key` is not a dict, and `TypeError` when the current one is not. An edit of a dict
        `original_config` shares is seen through it too. */
    method OnConfigChangedInDict(dictKey: string, subKey: string, text: string) returns (r: Result<()>)
      modifies this, DictsOf(configData)
      ensures old(NestedGet(originalConfig, dictKey, subKey)).Err? ==>
        r.Err? && configData == old(configData) && unchanged(old(DictsOf(configData)))
      ensures old(NestedGet(originalConfig, dictKey, subKey)).Ok? ==> (r.Err? <==> old(HoldsNonDict(configData, dictKey)))
      ensures r.Ok? ==> old(NestedGet(originalConfig, dictKey, subKey)).Ok?
      ensures r.Ok? ==> NestedGet(configData, dictKey, subKey) == Ok(Some(TextValue(old(NestedGet(originalConfig, dictKey, subKey)).value, text, parseInt)))
      ensures r.Ok? ==> forall k :: k != subKey ==> NestedGet(configData, dictKey, k) == old(NestedGet(configData, dictKey, k))
      ensures r.Ok? && old(Get(configData, dictKey)).Some? && old(Get(configData, dictKey)).value.Nested? ==>
        && configData == old(configData)
        && (old(Get(originalConfig, dictKey)) == old(Get(configData, dictKey)) ==>
              NestedGet(originalConfig, dictKey, subKey) == NestedGet(configData, dictKey, subKey))
      ensures r.Err? ==> configData == old(configData) && unchanged(old(DictsOf(configData)))
      ensures originalConfig == old(originalConfig) && saved == old(saved) && cards == old(cards)
    {
      var original := NestedGet(originalConfig, dictKey, subKey);
      if original.Err? {
        return Err(original.error);
      }
      var value := TextValue(original.value, text, parseInt);
      r := AssignInDict(dictKey, subKey, value);
    }

    /** `select_color`: a chosen colour is stored under `colors` as its components, with alpha
        only when it is not opaque, and reads back as that colour; a cancelled dialog changes
        nothing. */
    method SelectColor(colorKey: string, chosen: Option<(int, int, int, int)>) returns (r: Result<()>)
      modifies this, DictsOf(configData)
      ensures chosen.None? ==> r.Ok? && configData == old(configData) && unchanged(old(DictsOf(configData)))
      ensures chosen.Some? ==> (r.Err? <==> old(HoldsNonDict(configData, COLORS_KEY)))
      ensures r.Ok? && chosen.Some? ==>
        var (red, green, blue, alpha) := chosen.value;
        && NestedGet(configData, COLORS_KEY, colorKey) == Ok(Some(SelectedColorList(red, green, blue, alpha)))
        && ConvertToQColor(SelectedColorList(red, green, blue, alpha)) == Ok(Rgba(red, green, blue, alpha))
      ensures r.Ok? ==> forall k :: k != colorKey ==> NestedGet(configData, COLORS_KEY, k) == old(NestedGet(configData, COLORS_KEY, k))
      ensures r.Ok? && chosen.Some? && old(Get(configData, COLORS_KEY)).Some? && old(Get(configData, COLORS_KEY)).value.Nested? ==>
        && configData == old(configData)
        && (old(Get(originalConfig, COLORS_KEY)) == old(Get(configData, COLORS_KEY)) ==>
              NestedGet(originalConfig, COLORS_KEY, colorKey) == NestedGet(configData, COLORS_KEY, colorKey))
      ensures r.Err? ==> configData == old(configData) && unchanged(old(DictsOf(configData)))
      ensures originalConfig == old(originalConfig) && saved == old(saved) && cards == old(cards)
    {
      if chosen.None? {
        return Ok(());
      }
      var (red, green, blue, alpha) := chosen.value;
      SelectedColorRoundTrip(red, green, blue, alpha);
      r := AssignInDict(COLORS_KEY, colorKey, SelectedColorList(red, green, blue, alpha));
    }

    /** `remove_list_item(layout, key, index)`: the row texts are collected and the one at an
        in-range `index` popped, but recreating the rows raises on the first row layout, so the
        edit is written back only when the container holds no row at all (and then the list is
        empty). */
    method RemoveListItem(rows: seq<LayoutItem>, key: string, index: int) returns (r: Result<()>)
      modifies this
      ensures (exists i :: 0 <= i < |rows| && rows[i].RowLayout?) ==>
        r == Err("AttributeError") && configData == old(configData)
      ensures 0 <= index < |RowTexts(rows)| ==> r == Err("AttributeError") && configData == old(configData)
      ensures (forall i :: 0 <= i < |rows| ==> !rows[i].RowLayout?) ==>
        && RowTexts(rows) == []
        && (r.Ok? <==> Coerce(IntOriginal(originalConfig, key), Texts([]), parseInt).Ok?)
        && (r.Ok? ==> Get(configData, key) == Some(Plain(JList([]))))
      ensures forall k :: k != key ==> Get(configData, k) == Get(old(configData), k)
      ensures originalConfig == old(originalConfig) && saved == old(saved) && cards == old(cards)
    {
      RowTextsMembers(rows);
      ClearedIsFirstRowFromEnd(rows);
      if 0 <= index < |RowTexts(rows)| {
        NothingToDeleteOrFails(rows, index);
      }
      var items := CollectRowTexts(rows);
      items := RemovedAt(items, index);
      var cleared := ClearListItems(rows);
      if cleared.Err? {
        return Err(cleared.error);
      }
      NoRowsNoTexts(rows);
      r := OnConfigChanged(key, Texts(items));
    }
  }
}
