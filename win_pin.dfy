/** The window pinner (src/utils/win_pin.py): which top-level windows are offered, and the
    record of the windows the user pinned above all others.

    The Win32 calls are not modelled: what `EnumWindows` and the window queries report about
    each window is a `WindowInfo` value, and whether a handle is still a window or whether
    `SetWindowPos` raises is passed in. */
module WinPin {
  import opened Wrappers
  import opened PyStr
  import opened PyDict

  /** What the filter in `iter_visible_windows` learns about one window. `rect` is `None` when
      `GetWindowRect` raises and `className` is `None` when `GetClassName` raises. */
  datatype WindowInfo = WindowInfo(
    hwnd: int,
    visible: bool,
    text: string,
    style: int,
    iconic: bool,
    rect: Option<(int, int, int, int)>,
    className: Option<string>)

  /** `win32con.WS_VISIBLE` */
  const WS_VISIBLE: int := 0x1000_0000

  /** `style & WS_VISIBLE` is non-zero. `GetWindowLong` gives a signed value; Python's `&` on a
      negative int works on its two's complement, which floored division reproduces. */
  predicate HasVisibleStyle(style: int) {
    (style / WS_VISIBLE) % 2 == 1
  }

  /** The three lists `enum_cb` filters by: the browser window classes accepted without the
      class and title filters, the system window classes that are never offered, and the words
      that mark a system window by its lower-cased title. */
  datatype WindowFilter = WindowFilter(browserClasses: seq<string>, systemClasses: seq<string>, titleWords: seq<string>)

  /** The lists written out in `enum_cb`. */
  const ENUM_FILTER: WindowFilter := WindowFilter(
    ["Chrome_WidgetWin_1", "MozillaWindowClass", "ApplicationFrameWindow"],
    ["Shell_TrayWnd", "Progman", "WorkerW", "Windows.UI.Core.CoreWindow",
     "Windows.UI.Input.InputSite.WindowClass",
     "TaskListThumbnailWnd", "MSTaskListWClass", "TrayNotifyWnd",
     "SysPager", "ToolbarWindow32", "ReBarWindow32"],
    ["windows input experience", "text input", "program manager",
     "system tray", "notification area", "start menu", "taskbar",
     "settings", "action center", "search", "cortana", "explorer"])

  /** `any(sys_name in title.lower() for sys_name in [...])` */
  predicate HasSystemTitle(f: WindowFilter, title: string) {
    exists i :: 0 <= i < |f.titleWords| && Contains(Lower(title), f.titleWords[i])
  }

  /** The rectangle is not degenerate and reaches into the screen. */
  predicate GoodRect(rect: (int, int, int, int)) {
    rect.0 < rect.2 && rect.1 < rect.3 && rect.2 > 0 && rect.3 > 0
  }

  /** The checks `enum_cb` makes before it looks at the class name. */
  predicate ShownOnScreen(w: WindowInfo) {
    && w.visible && !IsBlank(w.text) && HasVisibleStyle(w.style) && !w.iconic
    && w.rect.Some? && GoodRect(w.rect.value)
  }

  /** `enum_cb`: whether the window is offered, each check returning early as the source does. */
  predicate Listed(f: WindowFilter, w: WindowInfo) {
    if !w.visible then false
    else if IsBlank(w.text) then false
    else if !HasVisibleStyle(w.style) then false
    else if w.iconic then false
    else match w.rect {
      case None => false
      case Some(rect) =>
        if rect.0 >= rect.2 || rect.1 >= rect.3 then false
        else if rect.2 <= 0 || rect.3 <= 0 then false
        else match w.className {
          case None => false
          case Some(name) =>
            if name in f.browserClasses then true
            else if name in f.systemClasses then false
            else !HasSystemTitle(f, Strip(w.text))
        }
    }
  }

  /** A window is offered exactly when it is shown on screen with a title, its class name can
      be read, and it is a browser window, or else neither its class nor its title mark it as a
      system window. */
  lemma ListedIff(f: WindowFilter, w: WindowInfo)
    ensures Listed(f, w) <==>
      (ShownOnScreen(w) && w.className.Some?
       && (w.className.value in f.browserClasses
           || (w.className.value !in f.systemClasses && !HasSystemTitle(f, Strip(w.text)))))
  {
  }

  /** A browser window shown on screen is offered whatever its title says, while the same
      window under another class name is dropped exactly when its title marks it as a system
      window. */
  lemma BrowserBypassesTitleFilter(w: WindowInfo)
    requires ShownOnScreen(w) && w.className == Some("Chrome_WidgetWin_1")
    ensures Listed(ENUM_FILTER, w)
    ensures !Listed(ENUM_FILTER, w.(className := Some("Notepad"))) <==> HasSystemTitle(ENUM_FILTER, Strip(w.text))
  {
    assert "Chrome_WidgetWin_1" in ENUM_FILTER.browserClasses;
    assert "Notepad" !in ENUM_FILTER.browserClasses && "Notepad" !in ENUM_FILTER.systemClasses;
  }

  /** The pair `enum_cb` appends for an offered window. */
  function Entry(w: WindowInfo): (int, string) {
    (w.hwnd, Strip(w.text))
  }

  /** The verdict of `enum_cb` on each window. */
  function Verdicts(f: WindowFilter, windows: seq<WindowInfo>): (listed: seq<bool>)
    ensures |listed| == |windows|
    ensures forall j :: 0 <= j < |windows| ==> listed[j] == Listed(f, windows[j])
  {
    seq(|windows|, j requires 0 <= j < |windows| => Listed(f, windows[j]))
  }

  /** The pair each window would be appended as. */
  function Entries(windows: seq<WindowInfo>): (entries: seq<(int, string)>)
    ensures |entries| == |windows|
    ensures forall j :: 0 <= j < |windows| ==> entries[j] == Entry(windows[j])
  {
    seq(|windows|, j requires 0 <= j < |windows| => Entry(windows[j]))
  }

  /** The list `enum_cb` appends to, in the order `EnumWindows` calls it: the entries whose
      verdict is `true`. */
  function Appended(entries: seq<(int, string)>, listed: seq<bool>): (r: seq<(int, string)>)
    requires |listed| == |entries|
    ensures |r| <= |entries|
  {
    if entries == [] then []
    else
      var n := |entries| - 1;
      var rest := Appended(entries[..n], listed[..n]);
      if listed[n] then rest + [entries[n]] else rest
  }

  /** Every appended entry is the entry of a window whose verdict is `true`. */
  lemma {:induction false} AppendedSound(entries: seq<(int, string)>, listed: seq<bool>, k: int)
    requires |listed| == |entries| && 0 <= k < |Appended(entries, listed)|
    ensures exists j :: 0 <= j < |entries| && listed[j] && Appended(entries, listed)[k] == entries[j]
  {
    var n := |entries| - 1;
    var rest := Appended(entries[..n], listed[..n]);
    var r := Appended(entries, listed);
    assert r == if listed[n] then rest + [entries[n]] else rest;
    if k == |rest| {
      assert r[k] == entries[n];
    } else {
      assert r[k] == rest[k];
      AppendedSound(entries[..n], listed[..n], k);
      var j :| 0 <= j < n && listed[..n][j] && rest[k] == entries[..n][j];
      assert entries[j] == entries[..n][j];
    }
  }

  /** Every entry whose verdict is `true` is appended. */
  lemma {:induction false} AppendedComplete(entries: seq<(int, string)>, listed: seq<bool>, j: int)
    requires |listed| == |entries| && 0 <= j < |entries| && listed[j]
    ensures entries[j] in Appended(entries, listed)
  {
    var n := |entries| - 1;
    var rest := Appended(entries[..n], listed[..n]);
    assert Appended(entries, listed) == if listed[n] then rest + [entries[n]] else rest;
    if j < n {
      assert entries[..n][j] == entries[j] && listed[..n][j];
      AppendedComplete(entries[..n], listed[..n], j);
    }
  }

  /** `iter_visible_windows`: the handles and stripped titles of the offered windows, in the
      order `EnumWindows` reports them. */
  function VisibleWindows(f: WindowFilter, windows: seq<WindowInfo>): (r: seq<(int, string)>)
    ensures |r| <= |windows|
  {
    Appended(Entries(windows), Verdicts(f, windows))
  }

  /** A window is listed only if `enum_cb` accepts it: every entry is the handle and stripped
      title of an offered window. */
  lemma ListedOnlyIfOffered(f: WindowFilter, windows: seq<WindowInfo>, k: int)
    requires 0 <= k < |VisibleWindows(f, windows)|
    ensures exists j :: 0 <= j < |windows| && Listed(f, windows[j]) && VisibleWindows(f, windows)[k] == Entry(windows[j])
  {
    var listed, entries := Verdicts(f, windows), Entries(windows);
    AppendedSound(entries, listed, k);
    var j :| 0 <= j < |entries| && listed[j] && Appended(entries, listed)[k] == entries[j];
    assert Listed(f, windows[j]) && entries[j] == Entry(windows[j]);
  }

  /** Every offered window is in the list. */
  lemma ListedWindowShown(f: WindowFilter, windows: seq<WindowInfo>, j: int)
    requires 0 <= j < |windows| && Listed(f, windows[j])
    ensures Entry(windows[j]) in VisibleWindows(f, windows)
  {
    AppendedComplete(Entries(windows), Verdicts(f, windows), j);
  }

  /** The handles of the offered windows, in order and possibly repeated: what
      `cleanup_invalid_windows` builds its set `current_windows` from. */
  function ListedHandles(f: WindowFilter, windows: seq<WindowInfo>): (hs: seq<int>)
    ensures |hs| == |VisibleWindows(f, windows)| <= |windows|
    ensures forall k :: 0 <= k < |hs| ==> hs[k] == VisibleWindows(f, windows)[k].0
  {
    var r := VisibleWindows(f, windows);
    seq(|r|, k requires 0 <= k < |r| => r[k].0)
  }

  /** A handle is current exactly when some offered window has it. */
  lemma ListedHandlesIff(f: WindowFilter, windows: seq<WindowInfo>, h: int)
    ensures h in ListedHandles(f, windows) <==>
      exists j :: 0 <= j < |windows| && Listed(f, windows[j]) && windows[j].hwnd == h
  {
    var r, hs := VisibleWindows(f, windows), ListedHandles(f, windows);
    if h in hs {
      var k :| 0 <= k < |hs| && hs[k] == h;
      ListedOnlyIfOffered(f, windows, k);
      var j :| 0 <= j < |windows| && Listed(f, windows[j]) && r[k] == Entry(windows[j]);
      assert windows[j].hwnd == h;
    }
    if exists j :: 0 <= j < |windows| && Listed(f, windows[j]) && windows[j].hwnd == h {
      var j :| 0 <= j < |windows| && Listed(f, windows[j]) && windows[j].hwnd == h;
      ListedWindowShown(f, windows, j);
      var k :| 0 <= k < |r| && r[k] == Entry(windows[j]);
      assert hs[k] == h;
    }
  }

  /** A window that is minimised, hidden or off-screen loses its pin record at the next
      cleanup: its handle is not current unless another window reported under the same handle
      is offered. */
  lemma UnlistedWindowDropped(f: WindowFilter, windows: seq<WindowInfo>, h: int)
    requires forall j :: 0 <= j < |windows| && windows[j].hwnd == h ==> !Listed(f, windows[j])
    ensures h !in ListedHandles(f, windows)
  {
    ListedHandlesIff(f, windows, h);
  }

  /** `topped.get(hwnd, False)` */
  predicate PinnedIn(topped: DictOf<int, bool>, h: int) {
    Get(topped, h) == Some(true)
  }

  /** The record after a successful toggle of `h`: the entry for `h` holds the opposite of what
      `get` gave, in its old place or, for a new handle, at the end; no other entry changes. */
  function Flipped(topped: DictOf<int, bool>, h: int): (t: DictOf<int, bool>)
    ensures PinnedIn(t, h) == !PinnedIn(topped, h) && Get(t, h).Some?
    ensures forall k :: k != h ==> Get(t, k) == Get(topped, k)
    ensures Get(topped, h).Some? ==> Keys(t) == Keys(topped)
    ensures Get(topped, h).None? ==> Keys(t) == Keys(topped) + [h]
  {
    var v := !PinnedIn(topped, h);
    SetGet(topped, h, v);
    SetKeys(topped, h, v);
    Set(topped, h, v)
  }

  /** Two successful toggles give every handle its pinned state back, and give back the record
      itself when `h` had an entry; otherwise an explicit `False` is left at the end. */
  lemma ToggleTwiceRestores(topped: DictOf<int, bool>, h: int)
    ensures forall k :: PinnedIn(Flipped(Flipped(topped, h), h), k) == PinnedIn(topped, k)
    ensures Get(topped, h).Some? ==> Flipped(Flipped(topped, h), h) == topped
    ensures Get(topped, h).None? ==> Flipped(Flipped(topped, h), h) == topped + [(h, false)]
  {
    var once := Flipped(topped, h);
    var b := PinnedIn(topped, h);
    SetSet(topped, h, !b, b);
    assert Flipped(once, h) == Set(topped, h, b);
    match Get(topped, h) {
      case Some(v) =>
        assert v == b;
        SetUnchanged(topped, h, v);
      case None =>
        SetAbsent(topped, h, false);
    }
  }

  /** The handles, in the record's order, whose entry is `True` and that `isWindow` reports as
      windows. */
  function PinnedWindows(topped: DictOf<int, bool>, isWindow: int -> bool): (hs: seq<int>)
    ensures |hs| <= |topped|
  {
    if topped == [] then []
    else
      var n := |topped| - 1;
      var (h, p) := topped[n];
      PinnedWindows(topped[..n], isWindow) + (if p && isWindow(h) then [h] else [])
  }

  /** In a record with distinct keys, a handle is among the pinned windows exactly when it is
      pinned and still a window. */
  lemma {:induction false} PinnedWindowsIff(topped: DictOf<int, bool>, isWindow: int -> bool, h: int)
    requires DistinctKeys(topped)
    ensures h in PinnedWindows(topped, isWindow) <==> PinnedIn(topped, h) && isWindow(h)
  {
    if topped != [] {
      var n := |topped| - 1;
      var front := topped[..n];
      assert topped == front + [topped[n]];
      assert forall i :: 0 <= i < n ==> front[i] == topped[i];
      PinnedWindowsIff(front, isWindow, h);
      GetAt(topped, n);
      if h == topped[n].0 {
        assert Get(front, h) == None;
      } else {
        GetSnoc(front, topped[n], h);
      }
    }
  }

  /** Looking up a key other than the last entry's ignores that entry. */
  lemma {:induction false} GetSnoc(es: DictOf<int, bool>, e: (int, bool), h: int)
    requires h != e.0
    ensures Get(es + [e], h) == Get(es, h)
  {
    if es != [] {
      assert (es + [e])[1..] == es[1..] + [e];
      GetSnoc(es[1..], e, h);
    }
  }

  /** The deletion loop of `cleanup_invalid_windows` over `list(d.keys())`: every entry whose
      handle is not in `current` is deleted, and the rest keep their order. */
  method DropAbsent<V>(d: DictOf<int, V>, current: seq<int>) returns (r: DictOf<int, V>)
    requires DistinctKeys(d)
    ensures r == Restrict(d, current) && DistinctKeys(r)
  {
    var keys := Keys(d);
    r := d;
    RestrictAll(d, current + keys);
    assert keys[0..] == keys;
    for i := 0 to |keys|
      invariant r == Restrict(d, current + keys[i..]) && DistinctKeys(r)
    {
      RestrictStep(d, current, i);
      if keys[i] !in current {
        DeleteDistinct(r, keys[i]);
        r := Delete(r, keys[i]);
      }
    }
    assert current + keys[|keys|..] == current;
  }

  /** `list(current_windows)`: every current handle once. The source takes the order of a
      set; the model keeps the first occurrences in enumeration order, and its contract fixes
      no order. */
  method ListOf(hs: seq<int>) returns (listed: seq<int>)
    ensures forall h :: h in listed <==> h in hs
    ensures forall i, j :: 0 <= i < j < |listed| ==> listed[i] != listed[j]
  {
    listed := [];
    for i := 0 to |hs|
      invariant forall h :: h in listed <==> h in hs[..i]
      invariant forall a, b :: 0 <= a < b < |listed| ==> listed[a] != listed[b]
    {
      assert hs[..i + 1] == hs[..i] + [hs[i]];
      if hs[i] !in listed {
        listed := listed + [hs[i]];
      }
    }
    assert hs[..|hs|] == hs;
  }

  /** The argument of `toggle_pin`, which checks `isinstance(hwnd, int)` first. */
  datatype HandleArg = IntArg(hwnd: int) | OtherArg

  class WindowPinner {
    /** `topped`: handle to whether the window was pinned. */
    var topped: DictOf<int, bool>
    /** `menu_callbacks`: handle to the names of the cached menu callbacks; the callables
        themselves are not modelled. */
    var menuCallbacks: DictOf<int, set<string>>
    /** `last_window_list` */
    var lastWindowList: seq<int>

    /** Both records are dicts: no handle has two entries. */
    ghost predicate Valid()
      reads this
    {
      DistinctKeys(topped) && DistinctKeys(menuCallbacks)
    }

    /** `__init__`: no record yet. */
    constructor()
      ensures Valid()
      ensures topped == [] && menuCallbacks == [] && lastWindowList == []
    {
      topped := [];
      menuCallbacks := [];
      lastWindowList := [];
    }

    /** `is_pinned`: a handle without an entry, or with the entry `False`, is not pinned. */
    function IsPinned(h: int): (p: bool)
      requires Valid()
      reads this
      ensures Get(topped, h).None? ==> !p
      ensures p <==> exists i :: 0 <= i < |topped| && topped[i] == (h, true)
    {
      GetIffEntry(topped, h, true);
      PinnedIn(topped, h)
    }

    /** `toggle_pin(hwnd)`. `isWindow` is what `IsWindow(hwnd)` reports and `setPosRaises`
        whether the `SetWindowPos` call raises. A handle that is not an int gives `false` and
        changes nothing; a handle that is no longer a window loses its entries and gives
        `false`; otherwise the pin flips and the new state is returned, unless `SetWindowPos`
        raises, which leaves the record as it was and returns the old state. */
    method TogglePin(arg: HandleArg, isWindow: bool, setPosRaises: bool) returns (pinned: bool)
      requires Valid()
      modifies this
      ensures Valid()
      ensures arg.OtherArg? ==> !pinned && topped == old(topped) && menuCallbacks == old(menuCallbacks)
      ensures (arg.IntArg? && !isWindow) ==>
        && !pinned
        && topped == Delete(old(topped), arg.hwnd)
        && menuCallbacks == Delete(old(menuCallbacks), arg.hwnd)
      ensures (arg.IntArg? && isWindow && !setPosRaises) ==>
        && topped == Flipped(old(topped), arg.hwnd)
        && pinned == IsPinned(arg.hwnd) == !old(IsPinned(arg.hwnd))
        && menuCallbacks == old(menuCallbacks)
      ensures (arg.IntArg? && isWindow && setPosRaises) ==>
        && topped == old(topped) && menuCallbacks == old(menuCallbacks)
        && pinned == old(IsPinned(arg.hwnd))
      ensures lastWindowList == old(lastWindowList)
    {
      if arg.OtherArg? {
        return false;
      }
      var hwnd := arg.hwnd;
      if !isWindow {
        if Get(topped, hwnd).Some? {
          DeleteDistinct(topped, hwnd);
          topped := Delete(topped, hwnd);
        } else {
          DeleteAbsent(topped, hwnd);
        }
        if Get(menuCallbacks, hwnd).Some? {
          DeleteDistinct(menuCallbacks, hwnd);
          menuCallbacks := Delete(menuCallbacks, hwnd);
        } else {
          DeleteAbsent(menuCallbacks, hwnd);
        }
        return false;
      }
      var oldState := PinnedIn(topped, hwnd);
      if setPosRaises {
        return oldState;
      }
      SetDistinct(topped, hwnd, !oldState);
      if oldState {
        topped := Set(topped, hwnd, false);
      } else {
        topped := Set(topped, hwnd, true);
      }
      pinned := PinnedIn(topped, hwnd);
    }

    /** `cleanup_invalid_windows`, given what the window enumeration reports: the callback
        cache and the pin record keep exactly the entries of the handles offered now, in their
        order, and `last_window_list` lists those handles, each once. */
    method CleanupInvalidWindows(windows: seq<WindowInfo>)
      requires Valid()
      modifies this
      ensures Valid()
      ensures menuCallbacks == Restrict(old(menuCallbacks), ListedHandles(ENUM_FILTER, windows))
      ensures topped == Restrict(old(topped), ListedHandles(ENUM_FILTER, windows))
      ensures forall h :: h in lastWindowList <==> h in ListedHandles(ENUM_FILTER, windows)
      ensures forall i, j :: 0 <= i < j < |lastWindowList| ==> lastWindowList[i] != lastWindowList[j]
    {
      var current := ListedHandles(ENUM_FILTER, windows);
      menuCallbacks := DropAbsent(menuCallbacks, current);
      topped := DropAbsent(topped, current);
      lastWindowList := ListOf(current);
    }

    /** `cleanup_topped_windows`, run at exit: the record ends empty, and `attempted` lists, in
        the record's order, the handles it asked `SetWindowPos` to unpin: the entries marked
        pinned whose handle `isWindow` still reports as a window. A failing unpin is reported
        and skipped, so it changes neither. */
    method CleanupToppedWindows(isWindow: int -> bool) returns (attempted: seq<int>)
      requires Valid()
      modifies this
      ensures Valid()
      ensures topped == []
      ensures attempted == PinnedWindows(old(topped), isWindow)
      ensures menuCallbacks == old(menuCallbacks) && lastWindowList == old(lastWindowList)
    {
      attempted := [];
      var t := topped;
      var keys := Keys(t);
      for i := 0 to |keys|
        invariant attempted == PinnedWindows(t[..i], isWindow)
        modifies {}
      {
        var h := keys[i];
        GetAt(t, i);
        assert t[..i + 1][..i] == t[..i];
        if PinnedIn(t, h) && isWindow(h) {
          attempted := attempted + [h];
        }
      }
      assert t[..|keys|] == t;
      topped := [];
    }
  }
}
