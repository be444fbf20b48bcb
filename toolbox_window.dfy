/** The toolbox window (src/views/toolbox_views/toolbox_window.py): the theme flag and the theme
    switch that drives it, the page shown, the apply button, and the "configuration modified"
    test that decides whether the button shows.

    The stylesheets are not modelled beyond which of the two is set. The window's layout, title
    bar, dragging and painting are left out. */
module ToolBoxWindow {
  import opened Wrappers
  import opened PyStr
  import opened PyDict
  import opened Json
  import opened ConfigEdits
  import opened SettingView
  import opened Switch

  /** The pages of the stacked widget. */
  datatype Page = Home | Settings

  /** Which of the two stylesheets is set. */
  datatype StyleSheet = LightSheet | DarkSheet

  function SheetFor(dark: bool): (s: StyleSheet)
    ensures s.DarkSheet? <==> dark
  {
    if dark then DarkSheet else LightSheet
  }

  /** `is_config_modified`: whether the current and the original configuration serialise
      differently under `json.dumps(..., sort_keys=True)`. */
  function ConfigDiffers(view: SettingView): bool
    reads view, DictsOf(view.configData), DictsOf(view.originalConfig)
  {
    Sorted(Snapshot(view.configData)) != Sorted(Snapshot(view.originalConfig))
  }

  /** Key order is ignored (`Json.ReorderedSerialisesAlike`), but `true` is not `1`: a boolean setting edited to the value Python compares equal still
      counts as modified. */
  lemma BoolEditIsModified(key: string)
    ensures Sorted(JObj([(key, JBool(true))])) != Sorted(JObj([(key, JInt(1))]))
  {
    var a, b := [(key, JBool(true))], [(key, JInt(1))];
    assert SortedValues(a) == a && SortedValues(b) == b;
    assert InsertByKey(a[0], [], EntryKey) == a;
    assert SortByKey(a, EntryKey) == InsertByKey(a[0], SortByKey([], EntryKey), EntryKey);
    assert SortByKey(b, EntryKey) == InsertByKey(b[0], SortByKey([], EntryKey), EntryKey);
  }

  class ToolBoxWindow {
    /** `is_dark_theme` */
    var isDarkTheme: bool
    /** `current_view` */
    var currentView: Page
    /** Whether `apply_button` is shown. */
    var applyButtonVisible: bool
    /** The stylesheet last set on the window. */
    var styleSheet: StyleSheet
    /** `theme_switch` */
    const themeSwitch: Switch
    /** `setting_view` */
    const settingView: SettingView

    /** The switch shows the theme in force: every change of either goes through the other. */
    ghost predicate Valid()
      reads this, themeSwitch
    {
      themeSwitch.Valid() && isDarkTheme == themeSwitch.isChecked
    }

    /** `__init__`: light theme, the switch set unchecked (which emits nothing), the home page,
        the apply button hidden, and the light stylesheet applied. */
    constructor(stored: Option<Entries>, parseInt: string -> Option<int>)
      ensures Valid() && !isDarkTheme && styleSheet == LightSheet
      ensures currentView == Home && !applyButtonVisible
      ensures themeSwitch.emitted == []
      ensures fresh(themeSwitch) && fresh(settingView)
      ensures Snapshot(settingView.configData) == JObj(if stored.Some? then stored.value else [])
      ensures settingView.originalConfig == settingView.configData && !settingView.configModified
    {
      var switch := new Switch();
      switch.SetChecked(false);
      var view := new SettingView(stored, parseInt);
      isDarkTheme := false;
      currentView := Home;
      applyButtonVisible := false;
      styleSheet := LightSheet;
      themeSwitch := switch;
      settingView := view;
    }

    /** `set_light_theme` */
    method SetLightTheme()
      modifies this
      ensures !isDarkTheme && styleSheet == LightSheet
      ensures currentView == old(currentView) && applyButtonVisible == old(applyButtonVisible)
    {
      isDarkTheme := false;
      styleSheet := LightSheet;
    }

    /** `set_dark_theme` */
    method SetDarkTheme()
      modifies this
      ensures isDarkTheme && styleSheet == DarkSheet
      ensures currentView == old(currentView) && applyButtonVisible == old(applyButtonVisible)
    {
      isDarkTheme := true;
      styleSheet := DarkSheet;
    }

    /** `toggle_theme`: the other theme, and its stylesheet. */
    method ToggleTheme()
      modifies this
      ensures isDarkTheme == !old(isDarkTheme) && styleSheet == SheetFor(isDarkTheme)
      ensures currentView == old(currentView) && applyButtonVisible == old(applyButtonVisible)
    {
      if isDarkTheme {
        SetLightTheme();
        isDarkTheme := false;
      } else {
        SetDarkTheme();
        isDarkTheme := true;
      }
    }

    /** `apply_stylesheet`: the stylesheet of the theme in force, which stays. */
    method ApplyStylesheet()
      modifies this
      ensures isDarkTheme == old(isDarkTheme) && styleSheet == SheetFor(isDarkTheme)
      ensures currentView == old(currentView) && applyButtonVisible == old(applyButtonVisible)
    {
      if isDarkTheme {
        SetDarkTheme();
      } else {
        SetLightTheme();
      }
    }

    /** A click on the theme switch: `toggle` emits the new value, and `toggled` is connected
        to `toggle_theme`, so the theme follows the switch. */
    method ClickThemeSwitch()
      requires Valid()
      modifies this, themeSwitch
      ensures Valid()
      ensures isDarkTheme == !old(isDarkTheme) && styleSheet == SheetFor(isDarkTheme)
      ensures themeSwitch.emitted == old(themeSwitch.emitted) + [isDarkTheme]
      ensures currentView == old(currentView) && applyButtonVisible == old(applyButtonVisible)
    {
      themeSwitch.Toggle();
      ToggleTheme();
    }

    /** `switch_view(index)`: row 0 is the home page, row 1 the settings page; any other index
        keeps the page. */
    method SwitchView(index: int)
      modifies this
      ensures index == 0 ==> currentView == Home
      ensures index == 1 ==> currentView == Settings
      ensures index != 0 && index != 1 ==> currentView == old(currentView)
      ensures isDarkTheme == old(isDarkTheme) && styleSheet == old(styleSheet)
      ensures applyButtonVisible == old(applyButtonVisible)
    {
      if index == 0 {
        currentView := Home;
      } else if index == 1 {
        currentView := Settings;
      }
    }

    /** `show_apply_button`, connected to `changes_made`: the button shows exactly when the
        configuration differs from the original. */
    method ShowApplyButton()
      modifies this
      ensures applyButtonVisible == ConfigDiffers(settingView)
      ensures isDarkTheme == old(isDarkTheme) && styleSheet == old(styleSheet)
      ensures currentView == old(currentView)
    {
      applyButtonVisible := ConfigDiffers(settingView);
      assert unchanged(settingView) && unchanged(DictsOf(settingView.configData)) && unchanged(DictsOf(settingView.originalConfig));
    }

    /** `apply_changes`: the settings page saves and clears its flag, and the button hides. */
    method ApplyChanges()
      modifies this, settingView
      ensures !applyButtonVisible && !settingView.configModified
      ensures settingView.saved == Some(old(Snapshot(settingView.configData)))
      ensures settingView.configData == old(settingView.configData)
      ensures settingView.originalConfig == old(settingView.originalConfig)
      ensures isDarkTheme == old(isDarkTheme) && styleSheet == old(styleSheet)
      ensures currentView == old(currentView)
    {
      settingView.ApplyChanges();
      applyButtonVisible := false;
    }

    /** An edit of a nested value on the settings page, which emits `changes_made` when it
        succeeds. On a configuration that still shares its top level with the original, the
        settings page now counts itself modified but the apply button stays hidden: the edit
        went into a dict the original holds too. */
    method EditNested(dictKey: string, subKey: string, text: string) returns (r: Result<()>)
      modifies this, settingView, DictsOf(settingView.configData)
      ensures r.Ok? ==> settingView.configModified && applyButtonVisible == ConfigDiffers(settingView)
      ensures r.Err? ==> applyButtonVisible == old(applyButtonVisible)
      ensures (r.Ok? && old(settingView.configData == settingView.originalConfig)
        && old(Get(settingView.configData, dictKey)).Some? && old(Get(settingView.configData, dictKey)).value.Nested?) ==>
        !applyButtonVisible
      ensures isDarkTheme == old(isDarkTheme) && styleSheet == old(styleSheet)
      ensures currentView == old(currentView)
    {
      r := settingView.OnConfigChangedInDict(dictKey, subKey, text);
      if r.Ok? {
        ShowApplyButton();
      }
    }
  }
}
