/** The theme manager (src/utils/theme_manager.py): a dark-mode flag and the two stylesheets,
    read once when the manager is made. Reading `resources/themes/<name>_theme.qss` is not
    modelled: the constructor is given each file's text, or `None` when the file is missing. */
module ThemeManager {
  import opened Wrappers

  /** `_load_theme`: a missing file gives the empty stylesheet. */
  function LoadTheme(file: Option<string>): (sheet: string)
    ensures file.Some? ==> sheet == file.value
    ensures file.None? ==> sheet == ""
  {
    if file.Some? then file.value else ""
  }

  class ThemeManager {
    /** `is_dark_theme` */
    var isDarkTheme: bool
    /** `light_theme` */
    const lightTheme: string
    /** `dark_theme` */
    const darkTheme: string

    /** `__init__`: light mode, and both stylesheets loaded. */
    constructor(lightFile: Option<string>, darkFile: Option<string>)
      ensures !isDarkTheme
      ensures lightTheme == LoadTheme(lightFile) && darkTheme == LoadTheme(darkFile)
    {
      isDarkTheme := false;
      lightTheme := LoadTheme(lightFile);
      darkTheme := LoadTheme(darkFile);
    }

    /** `get_current_theme`: the stylesheet of the mode in force. */
    function CurrentTheme(): (sheet: string)
      reads this
      ensures isDarkTheme ==> sheet == darkTheme
      ensures !isDarkTheme ==> sheet == lightTheme
    {
      if isDarkTheme then darkTheme else lightTheme
    }

    /** `toggle_theme`: the other mode, and its stylesheet. */
    method ToggleTheme() returns (sheet: string)
      modifies this
      ensures isDarkTheme == !old(isDarkTheme)
      ensures sheet == CurrentTheme()
      ensures sheet == (if old(isDarkTheme) then lightTheme else darkTheme)
    {
      isDarkTheme := !isDarkTheme;
      sheet := CurrentTheme();
    }

    /** `set_dark_theme` */
    method SetDarkTheme() returns (sheet: string)
      modifies this
      ensures isDarkTheme && sheet == darkTheme && sheet == CurrentTheme()
    {
      isDarkTheme := true;
      sheet := darkTheme;
    }

    /** `set_light_theme` */
    method SetLightTheme() returns (sheet: string)
      modifies this
      ensures !isDarkTheme && sheet == lightTheme && sheet == CurrentTheme()
    {
      isDarkTheme := false;
      sheet := lightTheme;
    }
  }
}
