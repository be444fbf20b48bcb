/** The editing rules both settings views share (src/views/toolbox_views/setting_view.py and
    src/views/setting_view.py): how an edited value is coerced, how colours are read and
    written, how a list row is removed, and which card each configuration entry gets; and the
    shape of the configuration the views hold.

    A view's configuration is a dict whose dict values are objects of their own: `copy()` of
    the configuration copies the top level only, so both copies hold the same nested dicts.
    The top level is a `Dict<Value>` value and each nested dict a `NestedDict` object. */
module ConfigEdits {
  import opened Wrappers
  import opened PyStr
  import opened PyDict
  import opened Json

  // ---------------------------------------------------------------------------------------------
  // Edited values and their coercion

  /** What an edit passes to `on_config_changed`: the text of a line edit, or the texts of the
      rows of a list group. */
  datatype Edit = Text(text: string) | Texts(texts: seq<string>)

  /** The edit as a stored value: a string, or a list of strings. */
  function EditValue(e: Edit): (r: Json)
    ensures e.Text? ==> r == JStr(e.text)
    ensures e.Texts? ==> r.JList? && |r.items| == |e.texts|
    ensures e.Texts? ==> forall i :: 0 <= i < |e.texts| ==> r.items[i] == JStr(e.texts[i])
  {
    match e
    case Text(s) => JStr(s)
    case Texts(xs) => JList(seq(|xs|, i requires 0 <= i < |xs| => JStr(xs[i])))
  }

  /** `isinstance(x, int)` for the original value (`None` when the key is absent). A Python
      `bool` is an `int`, so booleans pass too. */
  predicate IsPyInt(original: Option<Json>) {
    original.Some? && (original.value.JInt? || original.value.JBool?)
  }

  /** The coercion `on_config_changed` and `on_config_changed_in_dict` apply, by the type of the
      original value: `int(value)` when that is an int (a failed parse keeps the text; `int` of
      a list raises `TypeError`, which is not caught), the value as it is otherwise. Python's
      `int()` on a string is the oracle `parseInt`. The branch for boolean originals in the source
      is never reached, because the int test takes booleans first; the model has no such branch. */
  function Coerce(originalIsInt: bool, e: Edit, parseInt: string -> Option<int>): Result<Json> {
    if originalIsInt then
      match e
      case Text(s) => if parseInt(s).Some? then Ok(JInt(parseInt(s).value)) else Ok(JStr(s))
      case Texts(_) => Err("TypeError")
    else Ok(EditValue(e))
  }

  /** What coercion can give: the edit as it is, or for an int original the integer its text
      parses to; it fails exactly for a list edit of an int original. */
  lemma CoerceOutcomes(originalIsInt: bool, e: Edit, parseInt: string -> Option<int>)
    ensures Coerce(originalIsInt, e, parseInt).Err? <==> originalIsInt && e.Texts?
    ensures Coerce(originalIsInt, e, parseInt).Ok? ==>
      || Coerce(originalIsInt, e, parseInt).value == EditValue(e)
      || (originalIsInt && e.Text? && parseInt(e.text).Some?
          && Coerce(originalIsInt, e, parseInt).value == JInt(parseInt(e.text).value))
    ensures !originalIsInt ==> Coerce(originalIsInt, e, parseInt) == Ok(EditValue(e))
    ensures originalIsInt && e.Text? && parseInt(e.text).None? ==> Coerce(originalIsInt, e, parseInt) == Ok(JStr(e.text))
  {
  }

  /** A boolean original is coerced exactly like an int one: typing `true` into a boolean
      setting stores the string `"true"` unless `int()` accepts the text. */
  lemma BoolOriginalTakesIntBranch(b: bool, n: int, e: Edit, parseInt: string -> Option<int>)
    ensures Coerce(IsPyInt(Some(JBool(b))), e, parseInt) == Coerce(IsPyInt(Some(JInt(n))), e, parseInt)
    ensures e.Text? && parseInt(e.text).None? ==> Coerce(IsPyInt(Some(JBool(b))), e, parseInt) == Ok(JStr(e.text))
  {
  }

  // ---------------------------------------------------------------------------------------------
  // Colours

  /** A `QColor`: from components, or from a `#...` name (Qt's parsing of names is not
      modelled). */
  datatype QColor = Rgba(red: int, green: int, blue: int, alpha: int) | FromName(name: string)

  const WHITE: QColor := Rgba(255, 255, 255, 255)

  /** A component `QColor(...)` accepts: an int, or a bool, which is an int in Python. */
  predicate IsComponent(j: Json) {
    j.JInt? || j.JBool?
  }

  /** The int a component stands for: `True` is 1 and `False` is 0. */
  function ComponentValue(j: Json): int
    requires IsComponent(j)
  {
    if j.JInt? then j.i else if j.b then 1 else 0
  }

  predicate AllInts(xs: seq<Json>) {
    forall i :: 0 <= i < |xs| ==> IsComponent(xs[i])
  }

  /** `convert_to_qcolor`: a list of three components is opaque, a list of four carries alpha,
      a string starting with `#` is a colour name, and anything else is white. Components that
      are not ints (or bools) make `QColor(...)` raise `TypeError`. */
  function ConvertToQColor(v: Json): (r: Result<QColor>)
    ensures v.JList? && |v.items| == 3 && AllInts(v.items) ==>
      r == Ok(Rgba(ComponentValue(v.items[0]), ComponentValue(v.items[1]), ComponentValue(v.items[2]), 255))
    ensures v.JList? && |v.items| == 4 && AllInts(v.items) ==>
      r == Ok(Rgba(ComponentValue(v.items[0]), ComponentValue(v.items[1]), ComponentValue(v.items[2]), ComponentValue(v.items[3])))
    ensures v.JList? && (|v.items| == 3 || |v.items| == 4) && !AllInts(v.items) ==> r.Err?
    ensures v.JList? && |v.items| != 3 && |v.items| != 4 ==> r == Ok(WHITE)
    ensures v.JStr? ==> r == Ok(if StartsWith(v.s, "#") then FromName(v.s) else WHITE)
    ensures !v.JList? && !v.JStr? ==> r == Ok(WHITE)
  {
    match v
    case JList(xs) =>
      if |xs| == 3 || |xs| == 4 then
        if !AllInts(xs) then Err("TypeError")
        else if |xs| == 3 then Ok(Rgba(ComponentValue(xs[0]), ComponentValue(xs[1]), ComponentValue(xs[2]), 255))
        else Ok(Rgba(ComponentValue(xs[0]), ComponentValue(xs[1]), ComponentValue(xs[2]), ComponentValue(xs[3])))
      else Ok(WHITE)
    case JStr(s) => if StartsWith(s, "#") then Ok(FromName(s)) else Ok(WHITE)
    case _ => Ok(WHITE)
  }

  /** The list `select_color` stores for the chosen colour: its components, with alpha only
      when the colour is not opaque. */
  function SelectedColorList(red: int, green: int, blue: int, alpha: int): Json {
    JList([JInt(red), JInt(green), JInt(blue)] + (if alpha != 255 then [JInt(alpha)] else []))
  }

  /** The list `update_alpha` stores: the button's components with the new alpha, always four. */
  function AlphaColorList(red: int, green: int, blue: int, alpha: int): Json {
    JList([JInt(red), JInt(green), JInt(blue), JInt(alpha)])
  }

  /** A colour stored by `select_color` reads back as the same colour. */
  lemma SelectedColorRoundTrip(red: int, green: int, blue: int, alpha: int)
    ensures ConvertToQColor(SelectedColorList(red, green, blue, alpha)) == Ok(Rgba(red, green, blue, alpha))
    ensures |SelectedColorList(red, green, blue, alpha).items| == (if alpha == 255 then 3 else 4)
  {
    var l := SelectedColorList(red, green, blue, alpha);
    assert AllInts(l.items);
  }

  /** So does a colour stored by `update_alpha`, with the new alpha. */
  lemma AlphaColorRoundTrip(red: int, green: int, blue: int, alpha: int)
    ensures ConvertToQColor(AlphaColorList(red, green, blue, alpha)) == Ok(Rgba(red, green, blue, alpha))
  {
    assert AllInts(AlphaColorList(red, green, blue, alpha).items);
  }

  // ---------------------------------------------------------------------------------------------
  // List rows

  /** An item of a list group's container layout: a row layout with `count` widgets whose first
      is a line edit showing `text`, or a plain widget. */
  datatype LayoutItem = RowLayout(count: nat, text: string) | WidgetItem

  /** The texts `remove_list_item` collects: the first widget's text of every row layout with
      at least two widgets, in layout order. */
  function RowTexts(rows: seq<LayoutItem>): (r: seq<string>)
    ensures |r| <= |rows|
  {
    if rows == [] then []
    else
      var last := rows[|rows| - 1];
      RowTexts(rows[..|rows| - 1]) + (if last.RowLayout? && last.count >= 2 then [last.text] else [])
  }

  lemma {:induction false} RowTextsMembers(rows: seq<LayoutItem>)
    ensures forall t :: t in RowTexts(rows) <==>
      exists i :: 0 <= i < |rows| && rows[i].RowLayout? && rows[i].count >= 2 && rows[i].text == t
  {
    if rows != [] {
      var n := |rows| - 1;
      RowTextsMembers(rows[..n]);
      forall i | 0 <= i < n ensures rows[..n][i] == rows[i] { }
    }
  }

  /** The collecting loop of `remove_list_item`. */
  method CollectRowTexts(rows: seq<LayoutItem>) returns (items: seq<string>)
    ensures items == RowTexts(rows)
  {
    items := [];
    var i := 0;
    while i < |rows|
      invariant 0 <= i <= |rows|
      invariant items == RowTexts(rows[..i])
    {
      assert rows[..i + 1][..i] == rows[..i];
      var item := rows[i];
      if item.RowLayout? {
        if item.count >= 2 {
          items := items + [item.text];
        }
      }
      i := i + 1;
    }
    assert rows[..|rows|] == rows;
  }

  /** `items.pop(index)` guarded by `0 <= index < len(items)`. */
  function RemovedAt(items: seq<string>, index: int): (r: seq<string>)
    ensures 0 <= index < |items| ==> |r| == |items| - 1
    ensures 0 <= index < |items| ==> forall k :: 0 <= k < |r| ==> r[k] == (if k < index then items[k] else items[k + 1])
    ensures !(0 <= index < |items|) ==> r == items
  {
    if 0 <= index < |items| then items[..index] + items[index + 1..] else items
  }

  /** Removal takes out exactly the entry at `index`. */
  lemma RemovedAtPermutes(items: seq<string>, index: int)
    requires 0 <= index < |items|
    ensures multiset(RemovedAt(items, index)) + multiset{items[index]} == multiset(items)
  {
    assert items == items[..index] + [items[index]] + items[index + 1..];
  }

  // ---------------------------------------------------------------------------------------------
  // Cards

  /** A group `create_cards` builds. */
  datatype Card = ColorsCard | GeneralCard(key: string) | ListCard(key: string) | DictCard(key: string)

  /** The card for one entry: the `colors` key gets the colour group whatever its value; str,
      int and bool values the general group; lists the list group; dicts the dict group; any
      other value (a float, `null`) none. */
  function CardFor(key: string, v: Json): Option<Card> {
    if key == "colors" then Some(ColorsCard)
    else if v.JStr? || v.JInt? || v.JBool? then Some(GeneralCard(key))
    else if v.JList? then Some(ListCard(key))
    else if v.JObj? then Some(DictCard(key))
    else None
  }

  /** `create_colors_group(colors)` gets through its loop: every colour converts. */
  predicate ColorsConvert(colors: Entries) {
    forall j :: 0 <= j < |colors| ==> ConvertToQColor(colors[j].1).Ok?
  }

  /** What `create_colors_group` needs of the value under `colors`: a dict whose colours all
      convert. */
  predicate ColorsBuildable(v: Json) {
    v.JObj? && ColorsConvert(v.entries)
  }

  /** `create_cards`: one card per entry that has one, in the dict's order. The colour group
      iterates its value with `.items()`, which raises `AttributeError` when that value is not
      a dict, and converts each colour, which raises `TypeError` for a list of three or four
      items that are not all ints. */
  function Cards(es: Entries): (r: Result<seq<Card>>)
    ensures r.Ok? ==> |r.value| <= |es|
  {
    if es == [] then Ok([])
    else
      var n := |es| - 1;
      var (key, v) := es[n];
      match Cards(es[..n])
      case Err(e) => Err(e)
      case Ok(cs) =>
        if key == "colors" && !v.JObj? then Err("AttributeError")
        else if key == "colors" && !ColorsConvert(v.entries) then Err("TypeError")
        else Ok(cs + (match CardFor(key, v) case Some(c) => [c] case None => []))
  }

  /** The cards are built unless `colors` holds something that is not a dict, or a colour that
      does not convert; then each card belongs to an entry whose value has the card's type, and
      each entry of such a type has its card. */
  lemma {:induction false} CardsSpec(es: Entries)
    ensures Cards(es).Ok? <==> forall i :: 0 <= i < |es| && es[i].0 == "colors" ==> ColorsBuildable(es[i].1)
    ensures Cards(es).Ok? ==> forall c :: c in Cards(es).value <==>
      exists i :: 0 <= i < |es| && CardFor(es[i].0, es[i].1) == Some(c)
  {
    if es != [] {
      var n := |es| - 1;
      CardsSpec(es[..n]);
      forall i | 0 <= i < n ensures es[..n][i] == es[i] { }
    }
  }

  /** A colour list with a string component stops the cards from being built at all, while a
      boolean component is taken as 0 or 1. */
  lemma UnconvertibleColorRaises(name: string, red: int, blue: int)
    ensures Cards([("colors", JObj([(name, JList([JInt(red), JStr("x"), JInt(blue)]))]))]) == Err("TypeError")
    ensures ConvertToQColor(JList([JBool(true), JInt(red), JBool(false)])) == Ok(Rgba(1, red, 0, 255))
  {
    var colors: Entries := [(name, JList([JInt(red), JStr("x"), JInt(blue)]))];
    assert !IsComponent(colors[0].1.items[1]);
    assert !ColorsConvert(colors);
    var es: Entries := [("colors", JObj(colors))];
    assert es[..0] == [];
  }

  /** Floats and nulls get no card of their own. */
  lemma OtherTypesSkipped(key: string, v: Json)
    requires key != "colors" && (v.JFloat? || v.JNull?)
    ensures CardFor(key, v) == None
  {
  }

  // ---------------------------------------------------------------------------------------------
  // The configuration held by a view

  /** A nested dict of the configuration: a Python object, shared by every copy of the top
      level. */
  class NestedDict {
    var entries: Entries

    constructor(entries: Entries)
      ensures this.entries == entries
    {
      this.entries := entries;
    }
  }

  /** A top-level value: a plain JSON value, or a nested dict object. */
  datatype Value = Plain(json: Json) | Nested(dict: NestedDict)

  /** The nested dicts a configuration refers to. */
  function DictsOf(cfg: Dict<Value>): set<NestedDict> {
    set i | 0 <= i < |cfg| && cfg[i].1.Nested? :: cfg[i].1.dict
  }

  function ValueJson(v: Value): Json
    reads if v.Nested? then {v.dict} else {}
  {
    match v
    case Plain(j) => j
    case Nested(d) => JObj(d.entries)
  }

  /** The entries of `cfg` as JSON, each nested dict as it is now. */
  function SnapshotEntries(cfg: Dict<Value>): (r: Entries)
    reads DictsOf(cfg)
    ensures |r| == |cfg| && forall i :: 0 <= i < |cfg| ==> r[i] == (cfg[i].0, ValueJson(cfg[i].1))
  {
    if cfg == [] then []
    else
      var n := |cfg| - 1;
      assert DictsOf(cfg[..n]) <= DictsOf(cfg) by {
        forall d | d in DictsOf(cfg[..n]) ensures d in DictsOf(cfg) {
          var i :| 0 <= i < n && cfg[..n][i].1.Nested? && cfg[..n][i].1.dict == d;
          assert cfg[i] == cfg[..n][i];
        }
      }
      SnapshotEntries(cfg[..n]) + [(cfg[n].0, ValueJson(cfg[n].1))]
  }

  /** The configuration as `json.dump` / `json.dumps` see it. */
  function Snapshot(cfg: Dict<Value>): Json
    reads DictsOf(cfg)
  {
    JObj(SnapshotEntries(cfg))
  }

  /** What `json.load` builds for a dict: a fresh object for every dict value. */
  method FreshValues(es: Entries) returns (cfg: Dict<Value>)
    ensures |cfg| == |es|
    ensures forall i :: 0 <= i < |es| ==> cfg[i].0 == es[i].0 && (es[i].1.JObj? <==> cfg[i].1.Nested?)
    ensures forall i :: 0 <= i < |es| && !es[i].1.JObj? ==> cfg[i].1 == Plain(es[i].1)
    ensures forall d :: d in DictsOf(cfg) ==> fresh(d)
    ensures forall i, j :: 0 <= i < j < |cfg| && cfg[i].1.Nested? && cfg[j].1.Nested? ==> cfg[i].1.dict != cfg[j].1.dict
    ensures Snapshot(cfg) == JObj(es)
  {
    cfg := [];
    var i := 0;
    while i < |es|
      invariant 0 <= i <= |es| && |cfg| == i
      invariant forall k :: 0 <= k < i ==> cfg[k].0 == es[k].0 && (es[k].1.JObj? <==> cfg[k].1.Nested?)
      invariant forall k :: 0 <= k < i && !es[k].1.JObj? ==> cfg[k].1 == Plain(es[k].1)
      invariant forall k :: 0 <= k < i && es[k].1.JObj? ==> fresh(cfg[k].1.dict) && cfg[k].1.dict.entries == es[k].1.entries
      invariant forall k, j :: 0 <= k < j < i && cfg[k].1.Nested? && cfg[j].1.Nested? ==> cfg[k].1.dict != cfg[j].1.dict
    {
      var (key, v) := es[i];
      if v.JObj? {
        var d := new NestedDict(v.entries);
        cfg := cfg + [(key, Nested(d))];
      } else {
        cfg := cfg + [(key, Plain(v))];
      }
      i := i + 1;
    }
    forall d | d in DictsOf(cfg) ensures fresh(d) {
      var k :| 0 <= k < |cfg| && cfg[k].1.Nested? && cfg[k].1.dict == d;
    }
    var s := SnapshotEntries(cfg);
    forall k | 0 <= k < |es| ensures s[k] == es[k] {
      if es[k].1.JObj? {
        assert ValueJson(cfg[k].1) == JObj(es[k].1.entries);
      }
    }
    assert s == es;
  }

  // ---------------------------------------------------------------------------------------------
  // Looking up and assigning inside nested dicts

  const COLORS_KEY: string := "colors"

  /** The text of an edit coerced by the original value `original`: text is never rejected. */
  function TextValue(original: Option<Json>, text: string, parseInt: string -> Option<int>): (v: Json)
    ensures Coerce(IsPyInt(original), Text(text), parseInt) == Ok(v)
  {
    Coerce(IsPyInt(original), Text(text), parseInt).value
  }

  /** `original.get(key)` is an int (a bool included). */
  predicate IntOriginal(original: Dict<Value>, key: string) {
    Get(original, key).Some? && Get(original, key).value.Plain? && IsPyInt(Some(Get(original, key).value.json))
  }

  /** The value found under `key` is a plain value other than a dict. */
  predicate HoldsNonDict(cfg: Dict<Value>, key: string) {
    Get(cfg, key).Some? && Get(cfg, key).value.Plain? && !Get(cfg, key).value.json.JObj?
  }

  /** A dict value's entry for `d` is one of the configuration's nested dicts. */
  lemma NestedIn(cfg: Dict<Value>, key: string)
    requires Get(cfg, key).Some? && Get(cfg, key).value.Nested?
    ensures Get(cfg, key).value.dict in DictsOf(cfg)
  {
    var i :| 0 <= i < |cfg| && cfg[i] == (key, Get(cfg, key).value);
    assert cfg[i].1.Nested? && cfg[i].1.dict == Get(cfg, key).value.dict;
  }

  /** `cfg.get(dict_key, {}).get(sub_key)`: the nested value, `None` when either key is absent;
      `.get` on a value that is not a dict raises `AttributeError`. */
  function NestedGet(cfg: Dict<Value>, dictKey: string, subKey: string): (r: Result<Option<Json>>)
    reads DictsOf(cfg)
    ensures r.Err? <==> HoldsNonDict(cfg, dictKey)
    ensures Get(cfg, dictKey).None? ==> r == Ok(None)
  {
    var v: Option<Value> := Get(cfg, dictKey);
    match v
    case None => Ok(None)
    case Some(Nested(d)) =>
      NestedIn(cfg, dictKey);
      Ok(Get(d.entries, subKey))
    case Some(Plain(j)) =>
      if j.JObj? then Ok(Get(j.entries, subKey)) else Err("AttributeError")
  }

  /** `current = cfg.get(dict_key, {})`, `current[sub_key] = value`, `cfg[dict_key] = current`:
      an existing nested dict is updated in place and stays where it is; an absent key gets a
      new dict holding the one entry; assigning into a value that is not a dict raises
      `TypeError` and changes nothing. The result is the new top level. */
  method AssignIn(cfg: Dict<Value>, dictKey: string, subKey: string, value: Json) returns (r: Result<Dict<Value>>)
    modifies DictsOf(cfg)
    ensures r.Err? <==> HoldsNonDict(cfg, dictKey)
    ensures r.Ok? ==> NestedGet(r.value, dictKey, subKey) == Ok(Some(value))
    ensures r.Ok? ==> forall k :: k != subKey ==> NestedGet(r.value, dictKey, k) == old(NestedGet(cfg, dictKey, k))
    ensures Get(cfg, dictKey).None? ==>
      && r.Ok? && Get(r.value, dictKey).Some? && Get(r.value, dictKey).value.Nested?
      && fresh(Get(r.value, dictKey).value.dict)
      && Get(r.value, dictKey).value.dict.entries == [(subKey, value)]
      && r.value == Set(cfg, dictKey, Get(r.value, dictKey).value)
      && unchanged(DictsOf(cfg))
    ensures Get(cfg, dictKey).Some? && Get(cfg, dictKey).value.Nested? ==>
      var d := Get(cfg, dictKey).value.dict;
      && r == Ok(cfg)
      && d.entries == Set(old(d.entries), subKey, value)
      && unchanged(DictsOf(cfg) - {d})
    ensures Get(cfg, dictKey).Some? && Get(cfg, dictKey).value.Plain? && Get(cfg, dictKey).value.json.JObj? ==>
      && r == Ok(Set(cfg, dictKey, Plain(JObj(Set(Get(cfg, dictKey).value.json.entries, subKey, value)))))
      && unchanged(DictsOf(cfg))
    ensures r.Err? ==> unchanged(DictsOf(cfg))
  {
    var current: Option<Value> := Get(cfg, dictKey);
    match current
    case None =>
      var d := new NestedDict([(subKey, value)]);
      SetGet(cfg, dictKey, Nested(d));
      r := Ok(Set(cfg, dictKey, Nested(d)));
    case Some(Nested(d)) =>
      SetGet(d.entries, subKey, value);
      SetUnchanged(cfg, dictKey, Nested(d));
      d.entries := Set(d.entries, subKey, value);
      r := Ok(cfg);
    case Some(Plain(j)) =>
      if !j.JObj? {
        return Err("TypeError");
      }
      var updated := Plain(JObj(Set(j.entries, subKey, value)));
      SetGet(cfg, dictKey, updated);
      SetGet(j.entries, subKey, value);
      r := Ok(Set(cfg, dictKey, updated));
  }
}
