/** `TodoPanel`, `TodoItemWidget` and `TagRefreshWorker` (src/components/todo_panel.py): the
    to-do list, its tag buttons and the tag filter.

    The Qt layout becomes the sequence `items`, in layout order (the trailing stretch left out);
    each item widget becomes an `Item` value. A tag refresh is two steps: `RefreshTags` starts
    it (the single-flight flag is set and the worker captures the non-blank texts), and
    `CompleteRefresh` runs the worker and delivers its result to `OnTagsRefreshed`. */
module TodoPanel {
  import opened Wrappers
  import opened PyStr
  import TTE = TodoTagExtractor

  /** `max_length` of `auto_wrap_tip`. */
  const MAX_LINE: int := 25

  function Flatten(groups: seq<seq<string>>): seq<string> {
    if groups == [] then [] else Flatten(groups[..|groups| - 1]) + groups[|groups| - 1]
  }

  /** The well-formedness of finished lines: each is a non-empty group of words joined by single
      spaces, longer than 25 characters only when it is a single word, and no line could have
      taken the first word of the next. */
  ghost predicate LinesOf(groups: seq<seq<string>>, lines: seq<string>) {
    && |groups| == |lines|
    && (forall k :: 0 <= k < |groups| ==> groups[k] != [] && lines[k] == Join(groups[k], " "))
    && (forall k :: 0 <= k < |groups| ==> |groups[k]| == 1 || |lines[k]| <= MAX_LINE)
    && (forall k :: 0 <= k < |groups| - 1 ==> NoRoomAfter(groups, lines, k))
  }

  /** Line `k` has no room for the first word of line `k + 1` (a separate predicate, so that it
      is the only trigger of the quantifier above). */
  ghost predicate NoRoomAfter(groups: seq<seq<string>>, lines: seq<string>, k: int) {
    0 <= k < |lines| && k + 1 < |groups| && groups[k + 1] != []
    && |lines[k]| + 1 + |groups[k + 1][0]| > MAX_LINE
  }

  /** `lines` is the greedy wrap of `words` into lines of at most 25 characters. */
  ghost predicate WrapGroups(words: seq<string>, groups: seq<seq<string>>, lines: seq<string>) {
    Flatten(groups) == words && LinesOf(groups, lines)
  }

  ghost predicate GreedyWrap(words: seq<string>, lines: seq<string>) {
    exists groups :: WrapGroups(words, groups, lines)
  }

  /** The tooltip `auto_wrap_tip` shows for `text`. */
  ghost predicate TooltipFor(text: string, tip: string) {
    if |text| <= MAX_LINE || Words(text) == [] then tip == text
    else exists lines :: GreedyWrap(Words(text), lines) && tip == Join(lines, "\n")
  }

  /** A joined line starts with its first word and ends with its last. */
  lemma JoinEnds(ws: seq<string>, sep: string)
    requires ws != [] && |ws[0]| > 0 && |ws[|ws| - 1]| > 0
    ensures Join(ws, sep) != [] && Join(ws, sep)[0] == ws[0][0]
    ensures Join(ws, sep)[|Join(ws, sep)| - 1] == ws[|ws| - 1][|ws[|ws| - 1]| - 1]
  {
    var n := |ws|;
    if n > 1 {
      assert ws[..n - 1] + [ws[n - 1]] == ws;
      JoinAppend(ws[..n - 1], ws[n - 1], sep);
    }
  }

  lemma StripLine(ws: seq<string>)
    requires ws != [] && IsWord(ws[0]) && IsWord(ws[|ws| - 1])
    ensures Strip(Join(ws, " ") + " ") == Join(ws, " ")
  {
    var j := Join(ws, " ");
    JoinEnds(ws, " ");
    StripTrailingBlank(j);
  }

  /** Closing the current line keeps the finished lines well formed. */
  lemma CloseLine(groups: seq<seq<string>>, lines: seq<string>, current: seq<string>)
    requires LinesOf(groups, lines) && current != []
    requires |current| == 1 || |Join(current, " ")| <= MAX_LINE
    requires groups != [] ==> |lines[|lines| - 1]| + 1 + |current[0]| > MAX_LINE
    ensures LinesOf(groups + [current], lines + [Join(current, " ")])
    ensures Flatten(groups + [current]) == Flatten(groups) + current
  {
    var g := groups + [current];
    var l := lines + [Join(current, " ")];
    assert g[..|groups|] == groups;
    forall k | 0 <= k < |g| ensures g[k] != [] && l[k] == Join(g[k], " ") && (|g[k]| == 1 || |l[k]| <= MAX_LINE) {
      if k < |groups| {
        assert g[k] == groups[k] && l[k] == lines[k];
      }
    }
    forall k | 0 <= k < |g| - 1 ensures NoRoomAfter(g, l, k) {
      assert g[k] == groups[k] && l[k] == lines[k];
      if k + 1 < |groups| {
        assert NoRoomAfter(groups, lines, k);
        assert g[k + 1] == groups[k + 1];
      }
    }
  }

  /** The state of the wrapping loop after `i` words: `current` is the group of the line being
      built, and `currentLine` its text with the trailing space. */
  ghost predicate WrapState(words: seq<string>, i: int, groups: seq<seq<string>>, lines: seq<string>,
                            current: seq<string>, currentLine: string) {
    && 0 <= i <= |words|
    && Flatten(groups) + current == words[..i]
    && (current == [] <==> i == 0)
    && (current != [] ==> IsWord(current[0]) && IsWord(current[|current| - 1]))
    && (i == 0 ==> groups == [] && lines == [])
    && currentLine == (if current == [] then "" else Join(current, " ") + " ")
    && LinesOf(groups, lines)
    && (current != [] ==> |current| == 1 || |Join(current, " ")| <= MAX_LINE)
    && (groups != [] ==> current != [] && |lines[|lines| - 1]| + 1 + |current[0]| > MAX_LINE)
  }

  lemma ExtendLine(words: seq<string>, i: int, groups: seq<seq<string>>, lines: seq<string>,
                   current: seq<string>, currentLine: string)
    requires WrapState(words, i, groups, lines, current, currentLine) && i < |words| && IsWord(words[i])
    requires |currentLine + words[i]| <= MAX_LINE
    ensures WrapState(words, i + 1, groups, lines, current + [words[i]], currentLine + words[i] + " ")
  {
    assert words[..i + 1] == words[..i] + [words[i]];
    if current != [] {
      JoinAppend(current, words[i], " ");
    }
  }

  lemma BreakLine(words: seq<string>, i: int, groups: seq<seq<string>>, lines: seq<string>,
                  current: seq<string>, currentLine: string)
    requires WrapState(words, i, groups, lines, current, currentLine) && i < |words| && IsWord(words[i])
    requires |currentLine + words[i]| > MAX_LINE && currentLine != ""
    ensures Strip(currentLine) == Join(current, " ")
    ensures WrapState(words, i + 1, groups + [current], lines + [Join(current, " ")], [words[i]], words[i] + " ")
  {
    var w := words[i];
    assert words[..i + 1] == words[..i] + [w];
    StripLine(current);
    CloseLine(groups, lines, current);
    assert Flatten(groups + [current]) + [w] == words[..i + 1];
    assert Join([w], " ") == w;
    assert (lines + [Join(current, " ")])[|lines|] == Join(current, " ");
  }

  lemma FirstWord(words: seq<string>)
    requires 0 < |words| && IsWord(words[0])
    ensures WrapState(words, 1, [], [], [words[0]], words[0] + " ")
  {
    assert words[..1] == [words[0]];
  }

  lemma FinishWrap(words: seq<string>, groups: seq<seq<string>>, lines: seq<string>,
                   current: seq<string>, currentLine: string)
    requires WrapState(words, |words|, groups, lines, current, currentLine)
    ensures currentLine != "" ==> Strip(currentLine) == Join(current, " ")
    ensures currentLine != "" ==> WrapGroups(words, groups + [current], lines + [Join(current, " ")])
    ensures currentLine == "" ==> words == [] && WrapGroups(words, groups, lines) && lines == []
  {
    assert words[..|words|] == words;
    if currentLine != "" {
      StripLine(current);
      CloseLine(groups, lines, current);
    } else {
      assert Flatten(groups) == [];
      assert groups == [] by {
        if groups != [] { EmptyFlatten(groups); }
      }
    }
  }

  lemma EmptyFlatten(groups: seq<seq<string>>)
    requires groups != [] && groups[|groups| - 1] != []
    ensures Flatten(groups) != []
  {
  }

  lemma StartWrap(words: seq<string>)
    ensures WrapState(words, 0, [], [], [], "")
  {
    assert words[..0] == [];
  }

  /** One iteration of the wrapping loop: `word` either extends the current line or starts a
      new one, closing the current line if there is one. */
  method WrapWord(ghost words: seq<string>, ghost i: int, lines: seq<string>, ghost groups: seq<seq<string>>,
                  currentLine: string, ghost current: seq<string>, word: string)
    returns (lines': seq<string>, ghost groups': seq<seq<string>>, currentLine': string, ghost current': seq<string>)
    requires WrapState(words, i, groups, lines, current, currentLine) && i < |words| && word == words[i]
    requires IsWord(word)
    ensures WrapState(words, i + 1, groups', lines', current', currentLine')
  {
    if |currentLine + word| <= MAX_LINE {
      ExtendLine(words, i, groups, lines, current, currentLine);
      lines', groups' := lines, groups;
      currentLine', current' := currentLine + word + " ", current + [word];
    } else {
      if currentLine != "" {
        BreakLine(words, i, groups, lines, current, currentLine);
        lines', groups' := lines + [Strip(currentLine)], groups + [current];
      } else {
        FirstWord(words);
        lines', groups' := lines, groups;
      }
      currentLine', current' := word + " ", [word];
    }
  }

  /** Every element is a word; recursive, so that it unfolds only where it is needed. */
  ghost predicate AllWords(words: seq<string>)
  {
    words == [] || (IsWord(words[0]) && AllWords(words[1..]))
  }

  lemma {:induction false} AllWordsAt(words: seq<string>, i: int)
    requires AllWords(words) && 0 <= i < |words|
    ensures IsWord(words[i])
    decreases i
  {
    if i > 0 {
      AllWordsAt(words[1..], i - 1);
    }
  }

  lemma {:induction false} AllWordsOf(words: seq<string>)
    requires forall k :: 0 <= k < |words| ==> IsWord(words[k])
    ensures AllWords(words)
    decreases |words|
  {
    if words != [] {
      AllWordsOf(words[1..]);
    }
  }

  /** The wrapping loop of `auto_wrap_tip` over the words of the text. */
  method WrapLines(words: seq<string>) returns (lines: seq<string>, ghost groups: seq<seq<string>>)
    requires AllWords(words)
    ensures WrapGroups(words, groups, lines)
    ensures lines == [] <==> words == []
  {
    lines := [];
    groups := [];
    var currentLine := "";
    ghost var current: seq<string> := [];
    var i := 0;
    StartWrap(words);
    while i < |words|
      invariant 0 <= i <= |words|
      invariant WrapState(words, i, groups, lines, current, currentLine)
      decreases |words| - i
    {
      AllWordsAt(words, i);
      lines, groups, currentLine, current := WrapWord(words, i, lines, groups, currentLine, current, words[i]);
      i := i + 1;
    }
    var finished;
    ghost var finishedGroups;
    finished, finishedGroups := CloseLastLine(words, lines, groups, currentLine, current);
    lines, groups := finished, finishedGroups;
  }

  /** After the loop: the line being built, if any, is closed. */
  method CloseLastLine(ghost words: seq<string>, lines: seq<string>, ghost groups: seq<seq<string>>,
                       currentLine: string, ghost current: seq<string>)
    returns (lines': seq<string>, ghost groups': seq<seq<string>>)
    requires WrapState(words, |words|, groups, lines, current, currentLine)
    ensures WrapGroups(words, groups', lines')
    ensures lines' == [] <==> words == []
  {
    FinishWrap(words, groups, lines, current, currentLine);
    if currentLine != "" {
      lines', groups' := lines + [Strip(currentLine)], groups + [current];
    } else {
      lines', groups' := lines, groups;
    }
  }

  lemma LinesOfPrefix(groups: seq<seq<string>>, lines: seq<string>, n: int)
    requires LinesOf(groups, lines) && 0 <= n <= |groups|
    ensures LinesOf(groups[..n], lines[..n])
  {
    var g, l := groups[..n], lines[..n];
    forall k | 0 <= k < |g| - 1 ensures NoRoomAfter(g, l, k) {
      assert NoRoomAfter(groups, lines, k);
      assert g[k + 1] == groups[k + 1];
    }
  }

  /** Wrapping only regroups the words: the lines joined by single spaces are the words joined
      by single spaces. */
  lemma {:induction false} WrapKeepsWords(words: seq<string>, groups: seq<seq<string>>, lines: seq<string>)
    requires WrapGroups(words, groups, lines) && words != []
    ensures Join(lines, " ") == Join(words, " ")
    decreases |groups|
  {
    var n := |groups| - 1;
    var g := groups[n];
    if n == 0 {
      assert groups[..0] == [];
      assert Flatten(groups) == Flatten(groups[..0]) + g;
      assert words == g && lines == [Join(g, " ")];
    } else {
      LinesOfPrefix(groups, lines, n);
      assert groups[..n][n - 1] == groups[n - 1];
      assert Flatten(groups[..n]) != [] by { EmptyFlatten(groups[..n]); }
      WrapKeepsWords(Flatten(groups[..n]), groups[..n], lines[..n]);
      assert lines == lines[..n] + [lines[n]];
      JoinAppend(lines[..n], lines[n], " ");
      JoinConcat(Flatten(groups[..n]), g, " ");
    }
  }

  /** `auto_wrap_tip`: the tooltip text (the memo of the last tooltip is not modelled). */
  method AutoWrapTip(text: string) returns (tip: string)
    ensures TooltipFor(text, tip)
    ensures |text| <= MAX_LINE ==> tip == text
    ensures |text| > MAX_LINE && Words(text) != [] ==>
      exists lines :: GreedyWrap(Words(text), lines) && tip == Join(lines, "\n") && Join(lines, " ") == Join(Words(text), " ")
  {
    if |text| > MAX_LINE {
      var words := Words(text);
      AllWordsOf(words);
      var lines, groups := WrapLines(words);
      if words != [] {
        WrapKeepsWords(words, groups, lines);
      }
      tip := if lines != [] then Join(lines, "\n") else text;
    } else {
      tip := text;
    }
  }

  // ---------------------------------------------------------------------------------------------
  // Items, the stored file and their pure model

  /** A `TodoItemWidget`: its `content_text`, its checkbox, whether its line edit accepts edits
      (not read-only), its tag cache `_cached_tags`, and whether it is shown. */
  datatype Item = Item(text: string, completed: bool, editable: bool, cachedTags: Option<seq<string>>, visible: bool)

  /** A widget made by `add_todo_item`: unchecked, editable (a line edit starts editable), no
      cached tags, shown. */
  function NewItem(text: string): (r: Item)
    ensures r.text == text && !r.completed && r.editable && r.cachedTags == None && r.visible
  {
    Item(text, false, true, None, true)
  }

  /** One element of the stored JSON list: its `"text"` when that is a string (`None` stands
      for an element whose `todo["text"]` raises), and its `"completed"`. */
  datatype StoredTodo = StoredTodo(text: Option<string>, completed: bool)

  /** The to-do file: absent, not a readable JSON list, or a list. */
  datatype TodoFile = Missing | Unreadable | Stored(todos: seq<StoredTodo>)

  /** `TodoTagExtractor.extract_tags` as the panel calls it, on a text, under `cfg`. */
  function Extractor(cfg: TTE.ExtractorConfig): string -> seq<string> {
    text => TTE.Tags(cfg, Some(text))
  }

  /** A present tag cache holds the tags of the item's current text. */
  predicate CacheCoherent(extract: string -> seq<string>, item: Item) {
    item.cachedTags.Some? ==> item.cachedTags.value == extract(item.text)
  }

  /** The non-blank texts, in layout order. */
  function NonBlankTexts(items: seq<Item>): seq<string> {
    if items == [] then []
    else (if IsBlank(items[0].text) then [] else [items[0].text]) + NonBlankTexts(items[1..])
  }

  /** The non-blank texts are exactly the texts of the items that are not blank. */
  lemma {:induction false} NonBlankTextsMembers(items: seq<Item>)
    ensures |NonBlankTexts(items)| <= |items|
    ensures forall k :: 0 <= k < |NonBlankTexts(items)| ==> !IsBlank(NonBlankTexts(items)[k])
    ensures forall t :: t in NonBlankTexts(items) <==> exists k :: 0 <= k < |items| && items[k].text == t && !IsBlank(t)
  {
    if items != [] {
      NonBlankTextsMembers(items[1..]);
      forall t | t in NonBlankTexts(items[1..]) ensures exists k :: 0 <= k < |items| && items[k].text == t && !IsBlank(t) {
        var k :| 0 <= k < |items[1..]| && items[1..][k].text == t && !IsBlank(t);
        assert items[k + 1] == items[1..][k];
      }
      forall k | 1 <= k < |items| && !IsBlank(items[k].text) ensures items[k].text in NonBlankTexts(items[1..]) {
        assert items[1..][k - 1] == items[k];
      }
    }
  }

  /** The list `save_todos` writes: the non-blank items in layout order, text unstripped. */
  function SavedTodos(items: seq<Item>): seq<StoredTodo> {
    if items == [] then []
    else
      (if IsBlank(items[0].text) then [] else [StoredTodo(Some(items[0].text), items[0].completed)])
      + SavedTodos(items[1..])
  }

  /** The items `load_todos` adds for a stored list: one fresh item per element, up to the first
      element without a text, where the exception ends the loading. */
  function LoadedItems(todos: seq<StoredTodo>): (r: seq<Item>)
    ensures |r| <= |todos|
    ensures forall k :: 0 <= k < |r| ==> todos[k].text.Some? && r[k] == NewItem(todos[k].text.value)
    ensures |r| < |todos| ==> todos[|r|].text.None?
  {
    if todos == [] || todos[0].text.None? then []
    else [NewItem(todos[0].text.value)] + LoadedItems(todos[1..])
  }

  /** The loop of `load_todos` over a stored list: a fresh item for each element, until the
      first element without a text. */
  method AppendLoaded(ghost extract: string -> seq<string>, items: seq<Item>, todos: seq<StoredTodo>)
    returns (loaded: seq<Item>)
    requires forall k :: 0 <= k < |items| ==> CacheCoherent(extract, items[k])
    ensures loaded == items + LoadedItems(todos)
    ensures forall k :: 0 <= k < |loaded| ==> CacheCoherent(extract, loaded[k])
  {
    loaded := items;
    var i := 0;
    while i < |todos| && todos[i].text.Some?
      invariant 0 <= i <= |todos|
      invariant loaded + LoadedItems(todos[i..]) == items + LoadedItems(todos)
      invariant forall k :: 0 <= k < |loaded| ==> CacheCoherent(extract, loaded[k])
    {
      assert todos[i..][1..] == todos[i + 1..];
      loaded := loaded + [NewItem(todos[i].text.value)];
      i := i + 1;
    }
    assert LoadedItems(todos[i..]) == [];
  }

  /** The items the constructor's `load_todos` finds in the file. */
  function ItemsIn(file: TodoFile): seq<Item> {
    if file.Stored? then LoadedItems(file.todos) else []
  }

  /** Saving and then loading gives back the non-blank texts in layout order, each as a fresh
      unchecked item: the completed flag is written but never read back. */
  lemma {:induction false} SaveThenLoad(items: seq<Item>)
    ensures |SavedTodos(items)| == |NonBlankTexts(items)|
    ensures forall k :: 0 <= k < |SavedTodos(items)| ==> SavedTodos(items)[k].text == Some(NonBlankTexts(items)[k])
    ensures |LoadedItems(SavedTodos(items))| == |NonBlankTexts(items)|
    ensures forall k :: 0 <= k < |NonBlankTexts(items)| ==>
      LoadedItems(SavedTodos(items))[k] == NewItem(NonBlankTexts(items)[k])
  {
    if items != [] {
      SaveThenLoad(items[1..]);
      if !IsBlank(items[0].text) {
        var saved := SavedTodos(items);
        assert saved == [StoredTodo(Some(items[0].text), items[0].completed)] + SavedTodos(items[1..]);
        assert saved[1..] == SavedTodos(items[1..]);
      }
    }
  }

  /** An item `update_todo_list` keeps: unchecked and not blank. */
  predicate Kept(item: Item) {
    !item.completed && !IsBlank(item.text)
  }

  /** The items left by `update_todo_list`'s pruning, in their relative order. */
  function Pruned(items: seq<Item>): seq<Item> {
    if items == [] then []
    else (if Kept(items[0]) then [items[0]] else []) + Pruned(items[1..])
  }

  /** Pruning removes exactly the completed or blank items, and removes something iff there is
      such an item. */
  lemma {:induction false} PrunedMembers(items: seq<Item>)
    ensures |Pruned(items)| <= |items|
    ensures forall x :: x in Pruned(items) <==> x in items && Kept(x)
    ensures Pruned(items) == items <==> forall k :: 0 <= k < |items| ==> Kept(items[k])
  {
    if items != [] {
      PrunedMembers(items[1..]);
      assert items == [items[0]] + items[1..];
      if !Kept(items[0]) {
        assert |Pruned(items)| < |items|;
      } else {
        assert forall k :: 1 <= k < |items| ==> items[k] == items[1..][k - 1];
      }
    }
  }

  /** Pruning keeps the relative order: what is left is a subsequence of the items. */
  lemma {:induction false} PrunedIsSubsequence(items: seq<Item>)
    ensures IsSubsequence(Pruned(items), items)
  {
    if items != [] {
      PrunedIsSubsequence(items[1..]);
      var p := Pruned(items);
      if Kept(items[0]) {
        assert p[0] == items[0] && p[1..] == Pruned(items[1..]);
      } else if p != [] {
        PrunedMembers(items);
        assert p == Pruned(items[1..]) && p[0] in p;
      }
    }
  }

  /** `sub` is `s` with some elements left out. */
  ghost predicate IsSubsequence<T>(sub: seq<T>, s: seq<T>)
    decreases |s|
  {
    if sub == [] then true
    else if s == [] then false
    else if sub[0] == s[0] then IsSubsequence(sub[1..], s[1..])
    else IsSubsequence(sub, s[1..])
  }

  /** Pruning twice prunes nothing more. */
  lemma PrunedIdempotent(items: seq<Item>)
    ensures Pruned(Pruned(items)) == Pruned(items)
  {
    var p := Pruned(items);
    PrunedMembers(items);
    PrunedMembers(p);
    assert forall k :: 0 <= k < |p| ==> p[k] in p;
  }

  /** One item after `filter_todos_by_tags`: with nothing selected it is shown; otherwise its
      cache is filled when absent and it is shown iff one of its tags is selected. */
  function FilterItem(extract: string -> seq<string>, selected: set<string>, item: Item): (r: Item)
    ensures r.text == item.text && r.completed == item.completed && r.editable == item.editable
    ensures CacheCoherent(extract, item) ==> CacheCoherent(extract, r)
    ensures selected != {} ==> r.cachedTags.Some?
    ensures selected == {} ==> r.cachedTags == item.cachedTags
    ensures CacheCoherent(extract, item) ==>
      (r.visible <==> selected == {} || exists t :: t in selected && t in extract(item.text))
  {
    if selected == {} then item.(visible := true)
    else
      var tags := if item.cachedTags.Some? then item.cachedTags.value else extract(item.text);
      item.(cachedTags := Some(tags), visible := exists t :: t in selected && t in tags)
  }

  function FilterItems(extract: string -> seq<string>, selected: set<string>, items: seq<Item>): seq<Item> {
    seq(|items|, k requires 0 <= k < |items| => FilterItem(extract, selected, items[k]))
  }

  /** Filtering twice with the same selection is filtering once. */
  lemma FilterIdempotent(extract: string -> seq<string>, selected: set<string>, item: Item)
    requires CacheCoherent(extract, item)
    ensures FilterItem(extract, selected, FilterItem(extract, selected, item)) == FilterItem(extract, selected, item)
  {
  }

  /** `s` with its elements at `i` and `j` exchanged. */
  function Swap<T>(s: seq<T>, i: int, j: int): (r: seq<T>)
    requires 0 <= i < |s| && 0 <= j < |s|
    ensures |r| == |s| && r[i] == s[j] && r[j] == s[i]
    ensures forall k :: 0 <= k < |s| && k != i && k != j ==> r[k] == s[k]
  {
    s[i := s[j]][j := s[i]]
  }

  /** Swapping keeps the multiset of items, and swapping back restores the order. */
  lemma SwapPermutes<T>(s: seq<T>, i: int, j: int)
    requires 0 <= i < |s| && 0 <= j < |s|
    ensures multiset(Swap(s, i, j)) == multiset(s)
    ensures Swap(Swap(s, i, j), i, j) == s
  {
    assert Swap(Swap(s, i, j), i, j) == s;
  }

  lemma SwapCoherent(extract: string -> seq<string>, s: seq<Item>, i: int, j: int)
    requires 0 <= i < |s| && 0 <= j < |s|
    requires forall k :: 0 <= k < |s| ==> CacheCoherent(extract, s[k])
    ensures forall k :: 0 <= k < |s| ==> CacheCoherent(extract, Swap(s, i, j)[k])
  {
  }

  /** `s` with its element at `i` taken out. */
  function RemoveAt<T>(s: seq<T>, i: int): (r: seq<T>)
    requires 0 <= i < |s|
    ensures |r| == |s| - 1
    ensures forall k :: 0 <= k < i ==> r[k] == s[k]
    ensures forall k :: i <= k < |r| ==> r[k] == s[k + 1]
  {
    s[..i] + s[i + 1..]
  }

  /** The union of the worker's tags over the captured texts that are not blank. */
  function TagUnion(extract: string -> seq<string>, texts: seq<string>): (r: set<string>)
    ensures forall t :: t in r <==> exists k :: 0 <= k < |texts| && !IsBlank(texts[k]) && t in extract(texts[k])
  {
    if texts == [] then {}
    else
      var here := if IsBlank(texts[0]) then {} else set t | t in extract(texts[0]);
      var rest := TagUnion(extract, texts[1..]);
      assert forall t :: t in rest <==> exists k :: 1 <= k < |texts| && !IsBlank(texts[k]) && t in extract(texts[k]) by {
        forall t ensures t in rest ==> exists k :: 1 <= k < |texts| && !IsBlank(texts[k]) && t in extract(texts[k]) {
          if t in rest {
            var k :| 0 <= k < |texts[1..]| && !IsBlank(texts[1..][k]) && t in extract(texts[1..][k]);
            assert texts[k + 1] == texts[1..][k];
          }
        }
        forall t, k | 1 <= k < |texts| && !IsBlank(texts[k]) && t in extract(texts[k]) ensures t in rest {
          assert texts[1..][k - 1] == texts[k];
        }
      }
      here + rest
  }

  /** A refresh over the items' non-blank texts yields exactly the tags of the non-blank items. */
  lemma RefreshCoversItems(extract: string -> seq<string>, items: seq<Item>)
    ensures forall t :: t in TagUnion(extract, NonBlankTexts(items)) <==>
      exists k :: 0 <= k < |items| && !IsBlank(items[k].text) && t in extract(items[k].text)
  {
    var texts := NonBlankTexts(items);
    NonBlankTextsMembers(items);
    forall t | t in TagUnion(extract, texts)
      ensures exists k :: 0 <= k < |items| && !IsBlank(items[k].text) && t in extract(items[k].text)
    {
      var j :| 0 <= j < |texts| && !IsBlank(texts[j]) && t in extract(texts[j]);
      assert texts[j] in texts;
    }
    forall t, k | 0 <= k < |items| && !IsBlank(items[k].text) && t in extract(items[k].text)
      ensures t in TagUnion(extract, texts)
    {
      assert items[k].text in texts;
      var j :| 0 <= j < |texts| && texts[j] == items[k].text;
    }
  }

  /** `TagRefreshWorker.run`: the union of the tags of the captured texts that are not blank. */
  method WorkerRun(extract: string -> seq<string>, texts: seq<string>) returns (allTags: set<string>)
    ensures allTags == TagUnion(extract, texts)
  {
    allTags := {};
    var i := |texts|;
    while i > 0
      invariant 0 <= i <= |texts|
      invariant allTags == TagUnion(extract, texts[i..])
    {
      i := i - 1;
      assert texts[i..][1..] == texts[i + 1..];
      if !IsBlank(texts[i]) {
        var tags := extract(texts[i]);
        allTags := allTags + set t | t in tags;
      }
    }
  }

  /** `selected_tags` after `toggle_tag_filter(tag)`: the tag's membership is flipped. */
  function Toggled(selected: set<string>, tag: string): (r: set<string>)
    ensures tag in r <==> tag !in selected
    ensures forall x :: x != tag ==> (x in r <==> x in selected)
  {
    if tag in selected then selected - {tag} else selected + {tag}
  }

  /** Toggling a tag twice restores the selection. */
  lemma ToggleTwice(selected: set<string>, tag: string)
    ensures Toggled(Toggled(selected, tag), tag) == selected
  {
    assert forall x :: x in Toggled(Toggled(selected, tag), tag) <==> x in selected;
  }

  /** The collection loop of `refresh_tags`: the texts of the items that are not blank. */
  method CollectTexts(items: seq<Item>) returns (texts: seq<string>)
    ensures texts == NonBlankTexts(items)
  {
    texts := [];
    var i := 0;
    while i < |items|
      invariant 0 <= i <= |items|
      invariant texts + NonBlankTexts(items[i..]) == NonBlankTexts(items)
    {
      assert items[i..][1..] == items[i + 1..];
      if !IsBlank(items[i].text) {
        ConcatAssoc(texts, [items[i].text], NonBlankTexts(items[i + 1..]));
        texts := texts + [items[i].text];
      }
      i := i + 1;
    }
    assert items[i..] == [];
  }

  /** The detection loop of `update_todo_list`: the items to keep, and whether any is removed. */
  method PruneItems(items: seq<Item>) returns (kept: seq<Item>, changed: bool)
    ensures kept == Pruned(items)
    ensures changed <==> exists k :: 0 <= k < |items| && !Kept(items[k])
  {
    kept := [];
    changed := false;
    var i := 0;
    while i < |items|
      invariant 0 <= i <= |items|
      invariant kept + Pruned(items[i..]) == Pruned(items)
      invariant changed <==> exists k :: 0 <= k < i && !Kept(items[k])
    {
      assert items[i..][1..] == items[i + 1..];
      if items[i].completed || IsBlank(items[i].text) {
        changed := true;
      } else {
        ConcatAssoc(kept, [items[i]], Pruned(items[i + 1..]));
        kept := kept + [items[i]];
      }
      i := i + 1;
    }
    assert items[i..] == [];
  }

  /** The collection loop of `save_todos`. */
  method SaveRecords(items: seq<Item>) returns (todos: seq<StoredTodo>)
    ensures todos == SavedTodos(items)
  {
    todos := [];
    var i := 0;
    while i < |items|
      invariant 0 <= i <= |items|
      invariant todos + SavedTodos(items[i..]) == SavedTodos(items)
    {
      assert items[i..][1..] == items[i + 1..];
      if !IsBlank(items[i].text) {
        var todo := StoredTodo(Some(items[i].text), items[i].completed);
        ConcatAssoc(todos, [todo], SavedTodos(items[i + 1..]));
        todos := todos + [todo];
      }
      i := i + 1;
    }
    assert items[i..] == [];
  }

  // ---------------------------------------------------------------------------------------------
  // Tag buttons

  /** A checkable tag button: its text, its checked state, and an identity telling a reused
      button from a newly created one. */
  datatype TagButton = TagButton(tag: string, checked: bool, id: nat)

  /** The existing button showing `tag`, if any. */
  function FindButton(buttons: seq<TagButton>, tag: string): (r: Option<TagButton>)
    ensures r.Some? ==> r.value in buttons && r.value.tag == tag
    ensures r.None? <==> forall k :: 0 <= k < |buttons| ==> buttons[k].tag != tag
  {
    if buttons == [] then None
    else if buttons[0].tag == tag then Some(buttons[0])
    else FindButton(buttons[1..], tag)
  }

  ghost predicate ButtonsSorted(buttons: seq<TagButton>) {
    forall j, k {:trigger LexLess(buttons[j].tag, buttons[k].tag)} :: 0 <= j < k < |buttons| ==> LexLess(buttons[j].tag, buttons[k].tag)
  }

  ghost predicate IdsDistinct(buttons: seq<TagButton>) {
    forall j, k :: 0 <= j < k < |buttons| ==> buttons[j].id != buttons[k].id
  }

  ghost predicate IdsBelow(buttons: seq<TagButton>, bound: nat) {
    forall k :: 0 <= k < |buttons| ==> buttons[k].id < bound
  }

  /** Buttons with distinct identities and distinct tags: a tag names one of them. */
  lemma FoundDistinct(buttons: seq<TagButton>, a: string, b: string)
    requires IdsDistinct(buttons) && a != b
    requires FindButton(buttons, a).Some? && FindButton(buttons, b).Some?
    ensures FindButton(buttons, a).value.id != FindButton(buttons, b).value.id
  {
    var x := FindButton(buttons, a).value;
    var y := FindButton(buttons, b).value;
    var i :| 0 <= i < |buttons| && buttons[i] == x;
    var j :| 0 <= j < |buttons| && buttons[j] == y;
    assert i != j;
  }

  /** The placement loop of `on_tags_refreshed`: one button per sorted tag, in order, an
      existing button reused for a tag that had one, a new one otherwise, each checked iff its
      tag is selected. */
  method Reconcile(buttons: seq<TagButton>, sorted: seq<string>, selected: set<string>, firstId: nat)
    returns (result: seq<TagButton>, nextId: nat)
    requires StrictlySortedBy(sorted, Id)
    requires IdsDistinct(buttons) && IdsBelow(buttons, firstId)
    ensures |result| == |sorted| && firstId <= nextId
    ensures forall k :: 0 <= k < |result| ==> result[k].tag == sorted[k] && result[k].checked == (sorted[k] in selected)
    ensures forall k :: 0 <= k < |result| ==>
      if FindButton(buttons, result[k].tag).Some? then result[k].id == FindButton(buttons, result[k].tag).value.id
      else firstId <= result[k].id
    ensures ButtonsSorted(result) && IdsDistinct(result) && IdsBelow(result, nextId)
  {
    result := [];
    nextId := firstId;
    var i := 0;
    while i < |sorted|
      invariant 0 <= i <= |sorted| && |result| == i && firstId <= nextId
      invariant forall k :: 0 <= k < i ==> result[k].tag == sorted[k] && result[k].checked == (sorted[k] in selected)
      invariant forall k :: 0 <= k < i ==>
        if FindButton(buttons, result[k].tag).Some? then result[k].id == FindButton(buttons, result[k].tag).value.id
        else firstId <= result[k].id
      invariant IdsDistinct(result) && IdsBelow(result, nextId)
    {
      var tag := sorted[i];
      var button;
      match FindButton(buttons, tag) {
        case Some(b) =>
          button := b.(checked := tag in selected);
          forall k | 0 <= k < i ensures result[k].id != button.id {
            SortedAt(sorted, Id, k, i);
            LexIrreflexive(sorted[k]);
            if FindButton(buttons, sorted[k]).Some? {
              FoundDistinct(buttons, sorted[k], tag);
            }
          }
        case None =>
          button := TagButton(tag, tag in selected, nextId);
          nextId := nextId + 1;
      }
      result := result + [button];
      i := i + 1;
    }
    forall j, k | 0 <= j < k < |result| ensures LexLess(result[j].tag, result[k].tag) {
      SortedAt(sorted, Id, j, k);
    }
  }

  /** `result` has a button for each tag of `tags` and for no other tag, each checked iff its
      tag is selected; a tag that had a button among `buttons` keeps its id, a new tag gets an
      id from `firstId` on. With `ButtonsSorted`, no tag has two buttons. */
  ghost predicate ButtonsForTags(buttons: seq<TagButton>, tags: set<string>, selected: set<string>, firstId: nat,
                                 result: seq<TagButton>)
  {
    && (forall t :: t in tags <==> exists k :: 0 <= k < |result| && result[k].tag == t)
    && (forall k :: 0 <= k < |result| ==> result[k].checked == (result[k].tag in selected))
    && (forall k :: 0 <= k < |result| ==>
         if FindButton(buttons, result[k].tag).Some? then result[k].id == FindButton(buttons, result[k].tag).value.id
         else firstId <= result[k].id)
  }

  /** The buttons `on_tags_refreshed` leaves for the tags `tags`: one per tag, in sorted order,
      each checked iff its tag is selected, reusing the existing button of a tag. */
  method ButtonsFor(buttons: seq<TagButton>, tags: set<string>, selected: set<string>, firstId: nat)
    returns (result: seq<TagButton>, nextId: nat)
    requires IdsDistinct(buttons) && IdsBelow(buttons, firstId)
    ensures ButtonsForTags(buttons, tags, selected, firstId, result) && firstId <= nextId
    ensures ButtonsSorted(result) && IdsDistinct(result) && IdsBelow(result, nextId)
  {
    var sorted := SortedList(tags);
    result, nextId := Reconcile(buttons, sorted, selected, firstId);
    ButtonsCoverTags(tags, sorted, result);
  }

  lemma ButtonsCoverTags(tags: set<string>, sorted: seq<string>, buttons: seq<TagButton>)
    requires forall x :: x in sorted <==> x in tags
    requires |buttons| == |sorted| && forall k :: 0 <= k < |buttons| ==> buttons[k].tag == sorted[k]
    ensures forall t :: t in tags <==> exists k :: 0 <= k < |buttons| && buttons[k].tag == t
  {
    forall t | t in tags ensures exists k :: 0 <= k < |buttons| && buttons[k].tag == t {
      var k :| 0 <= k < |sorted| && sorted[k] == t;
      assert buttons[k].tag == t;
    }
  }

  /** Pruning keeps only items that were there, so their caches stay coherent. */
  lemma PrunedCoherent(extract: string -> seq<string>, items: seq<Item>)
    requires forall k :: 0 <= k < |items| ==> CacheCoherent(extract, items[k])
    ensures forall k :: 0 <= k < |Pruned(items)| ==> CacheCoherent(extract, Pruned(items)[k])
  {
    PrunedMembers(items);
    forall k | 0 <= k < |Pruned(items)| ensures CacheCoherent(extract, Pruned(items)[k]) {
      assert Pruned(items)[k] in items;
    }
  }

  // ---------------------------------------------------------------------------------------------
  // The panel

  class Panel {
    /** `TodoTagExtractor.extract_tags` on a text. */
    const extract: string -> seq<string>
    /** The item widgets, in layout order. */
    var items: seq<Item>
    var selectedTags: set<string>
    var allTags: set<string>
    var refreshInProgress: bool
    /** The texts the running `TagRefreshWorker` has captured, while a refresh is in flight. */
    var worker: Option<seq<string>>
    /** The tag buttons, in layout order. */
    var tagButtons: seq<TagButton>
    /** The identity the next new tag button gets. */
    var nextButtonId: nat
    /** The contents of `resources/todos.json`. */
    var file: TodoFile

    ghost predicate Valid()
      reads this
    {
      && (refreshInProgress <==> worker.Some?)
      && (forall k :: 0 <= k < |items| ==> CacheCoherent(extract, items[k]))
      && ButtonsSorted(tagButtons) && IdsDistinct(tagButtons) && IdsBelow(tagButtons, nextButtonId)
    }

    /** Every button is checked iff its tag is selected. */
    ghost predicate ButtonsMatchSelection()
      reads this
    {
      forall k :: 0 <= k < |tagButtons| ==> tagButtons[k].checked == (tagButtons[k].tag in selectedTags)
    }

    /** The refresh state after `refresh_tags` ran on `itemsThen`, given the state before: a
        refresh already in flight drops the request; no non-blank item clears the tags and
        the buttons at once; otherwise a worker starts on the non-blank texts. */
    ghost predicate RefreshedFrom(wasWorker: Option<seq<string>>, wasAllTags: set<string>,
                                  wasButtons: seq<TagButton>, itemsThen: seq<Item>)
      reads this
    {
      if wasWorker.Some? then worker == wasWorker && allTags == wasAllTags && tagButtons == wasButtons
      else if NonBlankTexts(itemsThen) == [] then worker == None && allTags == {} && tagButtons == []
      else worker == Some(NonBlankTexts(itemsThen)) && allTags == wasAllTags && tagButtons == wasButtons
    }

    /** `TodoPanel.__init__`: empty state, then `load_todos`. */
    constructor(config: TTE.ExtractorConfig, stored: TodoFile)
      ensures Valid() && file == stored
      ensures extract == Extractor(config)
      ensures items == ItemsIn(stored) && selectedTags == {}
      ensures RefreshedFrom(None, {}, [], ItemsIn(stored))
    {
      extract := Extractor(config);
      items := [];
      selectedTags := {};
      allTags := {};
      refreshInProgress := false;
      worker := None;
      tagButtons := [];
      nextButtonId := 0;
      file := stored;
      new;
      LoadTodos();
    }

    /** `add_todo_item`: a fresh item after the last one. */
    method AddTodoItem(text: string)
      requires Valid()
      modifies this
      ensures Valid() && items == old(items) + [NewItem(text)]
      ensures selectedTags == old(selectedTags) && allTags == old(allTags) && worker == old(worker)
      ensures tagButtons == old(tagButtons) && nextButtonId == old(nextButtonId) && file == old(file)
    {
      items := items + [NewItem(text)];
    }

    /** `load_todos`: the stored items are appended (a missing or unreadable file adds none),
        then the tags are refreshed. */
    method LoadTodos()
      requires Valid()
      modifies this
      ensures Valid() && items == old(items) + ItemsIn(file)
      ensures RefreshedFrom(old(worker), old(allTags), old(tagButtons), items)
      ensures selectedTags == old(selectedTags) && file == old(file) && nextButtonId == old(nextButtonId)
    {
      if file.Stored? {
        var loaded := AppendLoaded(extract, items, file.todos);
        items := loaded;
      }
      RefreshTags();
    }

    /** `save_todos`: the file is overwritten with the non-blank items. */
    method SaveTodos()
      requires Valid()
      modifies this
      ensures Valid() && file == Stored(SavedTodos(items))
      ensures items == old(items) && selectedTags == old(selectedTags) && allTags == old(allTags)
      ensures worker == old(worker) && tagButtons == old(tagButtons) && nextButtonId == old(nextButtonId)
    {
      var todos := SaveRecords(items);
      file := Stored(todos);
    }

    /** `filter_todos_by_tags` */
    method FilterTodosByTags()
      requires Valid()
      modifies this
      ensures Valid() && items == FilterItems(extract, selectedTags, old(items))
      ensures selectedTags == old(selectedTags) && allTags == old(allTags) && worker == old(worker)
      ensures tagButtons == old(tagButtons) && nextButtonId == old(nextButtonId) && file == old(file)
    {
      var result := items;
      var i := 0;
      while i < |result|
        invariant 0 <= i <= |result| == |items|
        invariant forall k :: 0 <= k < i ==> result[k] == FilterItem(extract, selectedTags, items[k])
        invariant forall k :: i <= k < |result| ==> result[k] == items[k]
      {
        var item := result[i];
        if selectedTags == {} {
          item := item.(visible := true);
        } else {
          if item.cachedTags.None? {
            item := item.(cachedTags := Some(extract(item.text)));
          }
          var tags := item.cachedTags.value;
          item := item.(visible := exists t :: t in selectedTags && t in tags);
        }
        result := result[i := item];
        i := i + 1;
      }
      items := result;
    }

    /** `toggle_tag_filter(tag)` */
    method ToggleTagFilter(tag: string)
      requires Valid()
      modifies this
      ensures Valid() && selectedTags == Toggled(old(selectedTags), tag)
      ensures items == FilterItems(extract, selectedTags, old(items))
      ensures allTags == old(allTags) && worker == old(worker)
      ensures tagButtons == old(tagButtons) && nextButtonId == old(nextButtonId) && file == old(file)
    {
      if tag in selectedTags {
        selectedTags := selectedTags - {tag};
      } else {
        selectedTags := selectedTags + {tag};
      }
      FilterTodosByTags();
    }

    /** A click on tag button `k`: the checkable button flips its checked state, then
        `toggle_tag_filter` runs for its tag. Buttons that matched the selection still do. */
    method ClickTagButton(k: int)
      requires Valid() && 0 <= k < |tagButtons|
      modifies this
      ensures Valid() && selectedTags == Toggled(old(selectedTags), old(tagButtons)[k].tag)
      ensures items == FilterItems(extract, selectedTags, old(items))
      ensures tagButtons == old(tagButtons)[k := old(tagButtons)[k].(checked := !old(tagButtons)[k].checked)]
      ensures old(ButtonsMatchSelection()) ==> ButtonsMatchSelection()
      ensures allTags == old(allTags) && worker == old(worker) && nextButtonId == old(nextButtonId) && file == old(file)
    {
      var b := tagButtons[k];
      tagButtons := tagButtons[k := b.(checked := !b.checked)];
      forall j | 0 <= j < |tagButtons| && j != k ensures tagButtons[j].tag != b.tag {
        if j < k {
          LexIrreflexive(tagButtons[j].tag);
        } else {
          LexIrreflexive(b.tag);
        }
      }
      ToggleTagFilter(b.tag);
    }

    /** `move_item_up`: the item at `i` changes place with its predecessor, if it has one. */
    method MoveItemUp(i: int)
      requires Valid() && 0 <= i < |items|
      modifies this
      ensures Valid() && items == if i > 0 then Swap(old(items), i - 1, i) else old(items)
      ensures multiset(items) == multiset(old(items))
      ensures selectedTags == old(selectedTags) && allTags == old(allTags) && worker == old(worker)
      ensures tagButtons == old(tagButtons) && nextButtonId == old(nextButtonId) && file == old(file)
    {
      if i > 0 {
        SwapPermutes(items, i - 1, i);
        SwapCoherent(extract, items, i - 1, i);
        items := Swap(items, i - 1, i);
      }
    }

    /** `move_item_down`: the item at `i` changes place with its successor, unless it is the
        last item (the stretch after it is not an item). */
    method MoveItemDown(i: int)
      requires Valid() && 0 <= i < |items|
      modifies this
      ensures Valid() && items == if i < |old(items)| - 1 then Swap(old(items), i, i + 1) else old(items)
      ensures multiset(items) == multiset(old(items))
      ensures selectedTags == old(selectedTags) && allTags == old(allTags) && worker == old(worker)
      ensures tagButtons == old(tagButtons) && nextButtonId == old(nextButtonId) && file == old(file)
    {
      if i < |items| - 1 {
        SwapPermutes(items, i, i + 1);
        SwapCoherent(extract, items, i, i + 1);
        items := Swap(items, i, i + 1);
      }
    }

    /** `refresh_tags`: the single-flight start of a tag refresh. */
    method RefreshTags()
      requires Valid()
      modifies this
      ensures Valid() && RefreshedFrom(old(worker), old(allTags), old(tagButtons), items)
      ensures items == old(items) && selectedTags == old(selectedTags)
      ensures nextButtonId == old(nextButtonId) && file == old(file)
    {
      if refreshInProgress {
        return;
      }
      refreshInProgress := true;
      var texts := CollectTexts(items);
      if texts == [] {
        allTags := {};
        refreshInProgress := false;
        tagButtons := [];
        return;
      }
      worker := Some(texts);
    }

    /** `on_tags_refreshed(result)`: the tags become `result`, the flag is cleared, and the
        buttons become one per tag of `result` in sorted order, each checked iff selected; a
        tag that had a button keeps it, a new tag gets a new button. */
    method OnTagsRefreshed(result: set<string>)
      requires Valid()
      modifies this
      ensures Valid() && allTags == result && !refreshInProgress
      ensures ButtonsForTags(old(tagButtons), result, selectedTags, old(nextButtonId), tagButtons)
      ensures items == old(items) && selectedTags == old(selectedTags) && file == old(file)
    {
      var buttons, next := ButtonsFor(tagButtons, result, selectedTags, nextButtonId);
      allTags, refreshInProgress, worker, tagButtons, nextButtonId := result, false, None, buttons, next;
    }

    /** The worker runs on its captured texts and its `finished` signal reaches
        `on_tags_refreshed`. */
    method CompleteRefresh()
      requires Valid() && worker.Some?
      modifies this
      ensures Valid() && allTags == TagUnion(extract, old(worker).value) && worker == None
      ensures ButtonsMatchSelection()
      ensures forall t :: t in allTags <==> exists k :: 0 <= k < |tagButtons| && tagButtons[k].tag == t
      ensures items == old(items) && selectedTags == old(selectedTags) && file == old(file)
    {
      var tags := WorkerRun(extract, worker.value);
      OnTagsRefreshed(tags);
    }

    /** `update_todo_list`: a refresh is requested for the current items; then the completed
        or blank items are removed, and only if some were, the file is saved and the filter
        is applied again. */
    method UpdateTodoList()
      requires Valid()
      modifies this
      ensures Valid() && RefreshedFrom(old(worker), old(allTags), old(tagButtons), old(items))
      ensures Pruned(old(items)) == old(items) ==> items == old(items) && file == old(file)
      ensures Pruned(old(items)) != old(items) ==>
        items == FilterItems(extract, selectedTags, Pruned(old(items))) && file == Stored(SavedTodos(Pruned(old(items))))
      ensures selectedTags == old(selectedTags) && nextButtonId == old(nextButtonId)
    {
      RefreshTags();
      var kept, changed := PruneItems(items);
      PrunedMembers(items);
      PrunedCoherent(extract, items);
      if changed {
        ReplaceItems(kept);
      }
    }

    /** The pruned list replaces the items, is saved, and the filter is applied to it. */
    method ReplaceItems(kept: seq<Item>)
      requires Valid() && forall k :: 0 <= k < |kept| ==> CacheCoherent(extract, kept[k])
      modifies this
      ensures Valid() && items == FilterItems(extract, selectedTags, kept) && file == Stored(SavedTodos(kept))
      ensures selectedTags == old(selectedTags) && allTags == old(allTags) && worker == old(worker)
      ensures tagButtons == old(tagButtons) && nextButtonId == old(nextButtonId)
    {
      items := kept;
      SaveTodos();
      FilterTodosByTags();
    }

    /** `on_return_pressed(item)` for the item at `i`: a non-blank item saves and updates the
        list; a blank one is removed and the rest saved. */
    method OnReturnPressed(i: int)
      requires Valid() && 0 <= i < |items|
      modifies this
      ensures Valid() && selectedTags == old(selectedTags) && nextButtonId == old(nextButtonId)
      ensures !IsBlank(old(items)[i].text) ==>
        && RefreshedFrom(old(worker), old(allTags), old(tagButtons), old(items))
        && file == Stored(SavedTodos(Pruned(old(items))))
        && items == if Pruned(old(items)) == old(items) then old(items) else FilterItems(extract, selectedTags, Pruned(old(items)))
      ensures IsBlank(old(items)[i].text) ==>
        && items == RemoveAt(old(items), i) && file == Stored(SavedTodos(items))
        && worker == old(worker) && allTags == old(allTags) && tagButtons == old(tagButtons)
    {
      if !IsBlank(items[i].text) {
        SaveTodos();
        UpdateTodoList();
      } else {
        items := RemoveAt(items, i);
        SaveTodos();
      }
    }

    /** `remove_completed_item(item)` for the item at `i`: a completed item is removed, the rest
        saved, and the tags refreshed. */
    method RemoveCompletedItem(i: int)
      requires Valid() && 0 <= i < |items|
      modifies this
      ensures Valid() && selectedTags == old(selectedTags) && nextButtonId == old(nextButtonId)
      ensures old(items)[i].completed ==>
        && items == RemoveAt(old(items), i) && file == Stored(SavedTodos(items))
        && RefreshedFrom(old(worker), old(allTags), old(tagButtons), items)
      ensures !old(items)[i].completed ==>
        items == old(items) && file == old(file) && worker == old(worker) && allTags == old(allTags) && tagButtons == old(tagButtons)
    {
      if items[i].completed {
        items := RemoveAt(items, i);
        SaveTodos();
        RefreshTags();
      }
    }

    /** `TodoItemWidget.on_text_changed` for the item at `i`, whose line edit now shows
        `fieldText`: in edit mode the text is taken over and the tag cache dropped. */
    method ItemTextChanged(i: int, fieldText: string)
      requires Valid() && 0 <= i < |items|
      modifies this
      ensures Valid()
      ensures items == if old(items)[i].editable then old(items)[i := old(items)[i].(text := fieldText, cachedTags := None)] else old(items)
      ensures selectedTags == old(selectedTags) && allTags == old(allTags) && worker == old(worker)
      ensures tagButtons == old(tagButtons) && nextButtonId == old(nextButtonId) && file == old(file)
    {
      if items[i].editable {
        items := items[i := items[i].(text := fieldText, cachedTags := None)];
      }
    }

    /** A click on the checkbox of the item at `i`: the checkbox flips, then
        `TodoItemWidget.on_checkbox_clicked` drops the tag cache. */
    method ItemCheckboxClicked(i: int)
      requires Valid() && 0 <= i < |items|
      modifies this
      ensures Valid()
      ensures items == old(items)[i := old(items)[i].(completed := !old(items)[i].completed, cachedTags := None)]
      ensures selectedTags == old(selectedTags) && allTags == old(allTags) && worker == old(worker)
      ensures tagButtons == old(tagButtons) && nextButtonId == old(nextButtonId) && file == old(file)
    {
      items := items[i := items[i].(completed := !items[i].completed, cachedTags := None)];
    }

    /** `TodoItemWidget.handle_return_pressed` for the item at `i`: edit mode ends. */
    method ItemEditingFinished(i: int)
      requires Valid() && 0 <= i < |items|
      modifies this
      ensures Valid() && items == old(items)[i := old(items)[i].(editable := false)]
      ensures selectedTags == old(selectedTags) && allTags == old(allTags) && worker == old(worker)
      ensures tagButtons == old(tagButtons) && nextButtonId == old(nextButtonId) && file == old(file)
    {
      items := items[i := items[i].(editable := false)];
    }

    /** `TodoItemWidget.handle_double_click` for the item at `i`: edit mode starts again. */
    method ItemDoubleClicked(i: int)
      requires Valid() && 0 <= i < |items|
      modifies this
      ensures Valid() && items == old(items)[i := old(items)[i].(editable := true)]
      ensures selectedTags == old(selectedTags) && allTags == old(allTags) && worker == old(worker)
      ensures tagButtons == old(tagButtons) && nextButtonId == old(nextButtonId) && file == old(file)
    {
      items := items[i := items[i].(editable := true)];
    }

    /** `TodoPanel.on_text_changed(text)`: a non-blank text saves the list. */
    method OnTextChanged(text: string)
      requires Valid()
      modifies this
      ensures Valid() && file == if IsBlank(text) then old(file) else Stored(SavedTodos(items))
      ensures items == old(items) && selectedTags == old(selectedTags) && allTags == old(allTags) && worker == old(worker)
      ensures tagButtons == old(tagButtons) && nextButtonId == old(nextButtonId)
    {
      if !IsBlank(text) {
        SaveTodos();
      }
    }

    /** `TodoPanel.on_checkbox_clicked(item)`: the tags are refreshed. */
    method OnCheckboxClicked()
      requires Valid()
      modifies this
      ensures Valid() && RefreshedFrom(old(worker), old(allTags), old(tagButtons), items)
      ensures items == old(items) && selectedTags == old(selectedTags) && file == old(file)
    {
      RefreshTags();
    }

    /** `create_new_todo_item`: the list is updated, then an empty item is added. */
    method CreateNewTodoItem()
      requires Valid()
      modifies this
      ensures Valid() && |items| > 0 && items[|items| - 1] == NewItem("")
      ensures items[..|items| - 1] ==
        if Pruned(old(items)) == old(items) then old(items) else FilterItems(extract, selectedTags, Pruned(old(items)))
      ensures RefreshedFrom(old(worker), old(allTags), old(tagButtons), old(items))
      ensures selectedTags == old(selectedTags)
    {
      UpdateTodoList();
      AddTodoItem("");
    }

    /** `handle_all_area_click`: save, then update the list. */
    method HandleAllAreaClick()
      requires Valid()
      modifies this
      ensures Valid() && file == Stored(SavedTodos(Pruned(old(items))))
      ensures items == if Pruned(old(items)) == old(items) then old(items) else FilterItems(extract, selectedTags, Pruned(old(items)))
      ensures RefreshedFrom(old(worker), old(allTags), old(tagButtons), old(items))
      ensures selectedTags == old(selectedTags)
    {
      SaveTodos();
      UpdateTodoList();
    }
  }
}
