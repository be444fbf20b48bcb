# SMT2 desktop helper: a verified model of its core

SMT2 is a small Windows desktop helper written in Python with PySide6. It has a to-do panel
whose items are tagged automatically, a toolbox window with a settings page, a theme switch,
calendar progress read-outs and a "pin on top" service for other windows. This project models
the logic of those parts in Dafny and proves what the code promises about them.

- **Tag extraction.** `LightweightTagExtractor` is the regex-and-frequency extractor. It takes
  bracketed labels `[like_this]` first, then CJK runs of 2–4 characters and ASCII words of two
  letters or more. It drops stop words and words containing one, and ranks the rest by
  frequency (`Frequency` holds the `Counter` and stable-sort semantics and the capped merge loop
  both extractors share). `TodoTagExtractor` is the dispatcher: it uses jieba segmentation when
  the configured model is `jieba` and falls back to the lightweight extractor when jieba is
  unavailable or raises. jieba's segmentation is an oracle parameter.
- **To-do panel.** `TodoPanel` models the `TodoPanel` widget, its `TodoItemWidget` items and the
  `TagRefreshWorker`:
  - loading and saving `resources/todos.json`;
  - pruning of completed and blank items;
  - moving items;
  - the greedy tooltip wrap;
  - the single-flight tag refresh and the reconciliation of tag buttons (reuse, sorted order,
    checked state);
  - the tag filter.
- **Configuration.** `BaseConfig` is the lazily loaded, load-once properties file with its
  three getters. `ConfigEdits` holds what both settings pages share: coercion of edited text by
  the type of the original value, colour lists, list rows, and the cards built per entry. Nested
  dicts are heap objects, so the aliasing of the shallow `copy()` is visible.
  `SettingView` models the toolbox settings page and `LegacySettingView` the older one.
  `Json` gives JSON values with Python's insertion-ordered dicts and the canonical form that
  `json.dumps(..., sort_keys=True)` compares.
- **Toolbox window.** `ToolBoxWindow`, `Switch` and `ThemeManager` cover the theme flag and
  switch, the page shown, and the apply button.
- **Calendar progress.** `PerformanceMonitor` has the day, week, month and year progress as
  exact fractions.
- **Window pinning.** `WinPin` covers the window filter of `iter_visible_windows`, the pin
  dictionary (`toggle_pin`, `is_pinned`) and the two cleanups.

`PyStr` and `PyDict` model the Python `str` and `dict` operations the code relies on: `strip`,
`split`, ASCII `lower`, `in`, ordering, and insertion-ordered `get`/`[k] =`/`del`.
`Wrappers` holds `Option` and `Result`.

Three facts about the code shape the model:
- The to-do file is always `resources/todos.json` (src/components/todo_panel.py:619,639). The
  `todo_file_name` getter exists but the panel does not use it.
- A tag refresh requested while one is in flight is dropped with no follow-up refresh
  (src/components/todo_panel.py:448-469).
- The two extractors keep different stop-word sets (src/utils/todo_tag_extractor.py:18-25 and
  src/utils/lightweight_tag_extractor.py:7).

## Model

| member | source | states |
|---|---|---|
| PyStr.StripLeft | src/utils/lightweight_tag_extractor.py:32 | the result is a suffix of the input that is empty or starts with a non-space, and everything removed is whitespace |
| PyStr.StripRight | src/utils/lightweight_tag_extractor.py:32 | the result is a prefix of the input that is empty or ends with a non-space, and everything removed is whitespace |
| PyStr.BlankIffAllSpace | src/components/todo_panel.py:633 | `s.strip()` is empty exactly when every character of `s` is whitespace |
| PyStr.BlankIffStripEmpty | src/components/todo_panel.py:24 | `IsBlank(s)` holds exactly when `Strip(s)` is empty |
| PyStr.Words | src/components/todo_panel.py:135 | `str.split()` yields whitespace-free, non-empty words; with WordsSplitAtSpace, WordsOfWord and WordsOfBlank this fixes the result for every text |
| PyStr.WordsSplitAtSpace | src/components/todo_panel.py:135 | `split()` cuts at every whitespace character: the words of `a + c + b` for a space `c` are the words of `a`, then those of `b` |
| PyStr.WordsOfWord | src/components/todo_panel.py:135 | a non-empty text without whitespace splits into itself alone |
| PyStr.WordsOfBlank | src/components/todo_panel.py:135 | a text of whitespace only has no words |
| PyStr.Lower | src/utils/lightweight_tag_extractor.py:52 | lower-casing keeps the length and lowers each character by the ASCII rule |
| PyStr.SortedList | src/components/todo_panel.py:518 | `sorted(list(s))` of a set: strictly increasing, holding exactly the set's elements, as many as the set has |
| PyStr.StrictlySortedUnique | src/components/todo_panel.py:518 | two strictly sorted sequences with the same elements are equal, so the sorted order of a set is unique |
| PyDict.Get | src/utils/win_pin.py:146 | `d.get(k)`: `None` exactly when the key is absent, otherwise a value stored under it |
| PyDict.GetIffEntry | src/utils/win_pin.py:146 | with distinct keys, `d.get(k) == v` exactly when `(k, v)` is an entry |
| PyDict.SetGet | src/utils/win_pin.py:124-127 | after `d[k] = v`, `k` maps to `v` and every other key keeps its value |
| PyDict.SetUnchanged | src/utils/win_pin.py:124-127 | assigning the value a key already has changes nothing |
| PyDict.SetKeys | src/utils/win_pin.py:124-127 | assignment keeps the key order of a present key and appends a new key at the end |
| PyDict.SetDistinct | src/utils/win_pin.py:124-127 | assignment keeps the keys distinct |
| PyDict.SetAbsent | src/utils/win_pin.py:124-127 | assigning to an absent key appends one entry |
| PyDict.SetSet | src/utils/win_pin.py:124-127 | assigning twice to the same key is the second assignment alone |
| PyDict.DeleteGet | src/utils/win_pin.py:119-121 | after `del d[k]`, `k` is absent and every other key keeps its value |
| PyDict.DeleteAbsent | src/utils/win_pin.py:119-121 | deleting an absent key changes nothing |
| PyDict.DeleteDistinct | src/utils/win_pin.py:119-121 | deletion keeps the keys distinct |
| PyDict.RestrictGet | src/utils/win_pin.py:152-158 | after restriction a kept key has its old value and any other key is absent |
| PyDict.RestrictAll | src/utils/win_pin.py:152-158 | restricting to every key changes nothing |
| PyDict.RestrictStep | src/utils/win_pin.py:152-158 | one step of the deletion loop: deleting an absent key is restriction to a smaller list, and skipping a present one keeps it |
| Json.SortedValues | src/views/toolbox_views/toolbox_window.py:310 | sorting the nested values keeps the key order and the length of the entries |
| Json.SortByKeyCanonical | src/views/toolbox_views/toolbox_window.py:310 | entries with distinct keys and the same elements sort by key into one order |
| Json.ReorderedSerialisesAlike | src/views/toolbox_views/toolbox_window.py:310 | with `sort_keys=True`, the same entries in any order serialise alike |
| Frequency.FirstIndex | src/utils/lightweight_tag_extractor.py:64 | the index of the first occurrence of a word: it holds the word and no earlier index does |
| Frequency.PrecedesTotal | src/utils/lightweight_tag_extractor.py:67 | the frequency ranking orders any two words one way or the other |
| Frequency.Dedup | src/utils/lightweight_tag_extractor.py:64 | the keys of `Counter(ws)`: distinct, and exactly the words of `ws` |
| Frequency.InsertRanked | src/utils/lightweight_tag_extractor.py:67 | one insertion step adds exactly one element |
| Frequency.SortRanked | src/utils/lightweight_tag_extractor.py:67 | the ranking sort is a permutation |
| Frequency.InsertRankedOrdered | src/utils/lightweight_tag_extractor.py:67 | inserting into a ranked sequence keeps it ranked |
| Frequency.SortRankedOrdered | src/utils/lightweight_tag_extractor.py:67 | the sort's output is ranked: higher count first, ties in first-occurrence order (Python's stable sort) |
| Frequency.RankOrderedDistinct | src/utils/lightweight_tag_extractor.py:67 | a ranked sequence holds each word at most once |
| Frequency.Ranked | src/utils/lightweight_tag_extractor.py:64-67 | `sorted(Counter(ws).items(), key=count, reverse=True)`: each word once, exactly the words of `ws`, ranked |
| Frequency.FilterOut | src/utils/lightweight_tag_extractor.py:74 | keeps exactly the words not already in the result |
| Frequency.Take | src/utils/lightweight_tag_extractor.py:39 | a prefix of length `min(n, len)` |
| Frequency.MergeTakesFirstNew | src/utils/lightweight_tag_extractor.py:70-78 | with distinct candidates, the merge is the accumulator followed by the first new words up to the cap |
| Frequency.FilterOutOrdered | src/utils/lightweight_tag_extractor.py:73-74 | dropping seen words keeps the ranked order |
| Frequency.TakeOrdered | src/utils/lightweight_tag_extractor.py:77-78 | a prefix of a ranked sequence is ranked |
| Frequency.MergeOfRanked | src/utils/lightweight_tag_extractor.py:70-80 | the merge keeps the accumulator unchanged in front, appends distinct unseen words of the text in rank order and stays within the cap, and it stops short of the cap only when every ranked word is already in it |
| Frequency.MergeUnseen | src/utils/lightweight_tag_extractor.py:70-80 | the merge loop with its `seen` set computes the merge |
| LightweightTagExtractor.Run | src/utils/lightweight_tag_extractor.py:21 | the longest prefix whose characters satisfy a class: all of it satisfies the class and the next character does not |
| LightweightTagExtractor.BracketMatches | src/utils/lightweight_tag_extractor.py:21-22 | every `findall` match of `\[([一-鿿\w]+)\]` is a non-empty run of word characters; completeness and order are BracketMatchesAroundLabel |
| LightweightTagExtractor.BracketMatchesOccur | src/utils/lightweight_tag_extractor.py:21-22 | every match really stands between `[` and `]` in the text |
| LightweightTagExtractor.NoBracketNoMatches | src/utils/lightweight_tag_extractor.py:21-22 | a text without `[` has no matches |
| LightweightTagExtractor.BracketConcat | src/utils/lightweight_tag_extractor.py:21-22 | no match reaches across a character that can neither continue nor close a label: the matches of `a + t` are those of `a`, then those of `t` |
| LightweightTagExtractor.BracketLabel | src/utils/lightweight_tag_extractor.py:21-22 | a text starting with `[m]` for a label `m` matches `m` first, then goes on after the `]` |
| LightweightTagExtractor.BracketMatchesAroundLabel | src/utils/lightweight_tag_extractor.py:21-22 | every bracketed label is matched, in order of appearance: the matches of `a[m]b` are those of `a`, then `m`, then those of `b` |
| LightweightTagExtractor.LongOnly | src/utils/lightweight_tag_extractor.py:24 | keeps exactly the matches of length at least two; order and repeats are LongOnlyAround |
| LightweightTagExtractor.LongOnlyAround | src/utils/lightweight_tag_extractor.py:24 | the comprehension keeps order and repeats: around one label, the kept labels before it, the label when it has two characters or more, and the kept labels after it |
| LightweightTagExtractor.ExtractHashtagTags | src/utils/lightweight_tag_extractor.py:15-24 | every tag has at least two characters and is bracketed in the text; completeness and order are HashtagsAroundLabel |
| LightweightTagExtractor.HashtagsAroundLabel | src/utils/lightweight_tag_extractor.py:15-24 | every bracketed label of two characters or more is a tag, in order of appearance: the tags of `a[m]b` are those of `a`, then `m` if long enough, then those of `b`; a text without `[` has none |
| LightweightTagExtractor.CjkWords | src/utils/lightweight_tag_extractor.py:43 | every match of `[一-鿿]{2,4}` is two to four CJK characters; the scan itself is CjkWordsSplit and CjkRunPieces |
| LightweightTagExtractor.CjkWordsSplit | src/utils/lightweight_tag_extractor.py:43 | no match reaches across a character outside the CJK block: the matches of `a + c + b` are those of `a`, then those of `b` |
| LightweightTagExtractor.CjkRunPieces | src/utils/lightweight_tag_extractor.py:43 | a CJK run is cut left to right into non-overlapping pieces of four, a last piece of two or three kept and one of a single character dropped |
| LightweightTagExtractor.EnglishWords | src/utils/lightweight_tag_extractor.py:45 | every match of `[a-zA-Z]{2,}` is two or more ASCII letters; the scan itself is EnglishWordsSplit and EnglishRunWord |
| LightweightTagExtractor.EnglishWordsSplit | src/utils/lightweight_tag_extractor.py:45 | no match reaches across a character that is not an ASCII letter: the matches of `a + c + b` are those of `a`, then those of `b` |
| LightweightTagExtractor.EnglishRunWord | src/utils/lightweight_tag_extractor.py:45 | a run of ASCII letters is one match, the whole run, when it has two letters or more, and none otherwise |
| LightweightTagExtractor.Candidates | src/utils/lightweight_tag_extractor.py:43-47 | every candidate is a CJK word or an English word, and every CJK word comes before every English word |
| LightweightTagExtractor.CandidatesSplit | src/utils/lightweight_tag_extractor.py:43-47 | at a character that is neither CJK nor an ASCII letter, the candidates are the CJK words of both sides in order, then the English words of both sides |
| LightweightTagExtractor.Filtered | src/utils/lightweight_tag_extractor.py:50-58 | keeps exactly the admissible words, each as often as it occurs; order is FilteredConcat and FilteredAround |
| LightweightTagExtractor.FilteredConcat | src/utils/lightweight_tag_extractor.py:50-58 | the filter keeps order: the filtered words of `a + b` are those of `a`, then those of `b` |
| LightweightTagExtractor.FilteredAround | src/utils/lightweight_tag_extractor.py:50-58 | around one word: the filtered words before it, the word when it is admissible, and the filtered words after it |
| LightweightTagExtractor.PyPrefix | src/utils/lightweight_tag_extractor.py:39 | Python's `s[:n]`, including a negative `n` counting from the end |
| LightweightTagExtractor.FilterStopwords | src/utils/lightweight_tag_extractor.py:50-58 | the filter loop computes `Filtered` |
| LightweightTagExtractor.ExtractTags | src/utils/lightweight_tag_extractor.py:27-80 | the method computes the extractor's result `Tags(text, max_tags)` |
| LightweightTagExtractor.StopwordStartsCjk | src/utils/lightweight_tag_extractor.py:7-12 | every stop word starts with a CJK character |
| LightweightTagExtractor.AsciiWordAdmissible | src/utils/lightweight_tag_extractor.py:54-56 | a word of ASCII letters passes a filter whose stop words all start with a CJK character |
| LightweightTagExtractor.EnglishWordsAdmissible | src/utils/lightweight_tag_extractor.py:54-56 | English candidates are never dropped by the stop-word filter |
| LightweightTagExtractor.ContainedStopwordRejected | src/utils/lightweight_tag_extractor.py:56 | a word that merely contains a stop word (`可以做`) is rejected |
| LightweightTagExtractor.TagsWhenHashtagsSuffice | src/utils/lightweight_tag_extractor.py:37-39 | with at least `max_tags` bracketed labels the result is the first `max_tags` of them |
| LightweightTagExtractor.FilteredCandidate | src/utils/lightweight_tag_extractor.py:50-58 | a filtered word is a candidate of the text and admissible |
| LightweightTagExtractor.TagsFrequencyRanked | src/utils/lightweight_tag_extractor.py:27-80 | the result starts with the bracketed labels and stays within `max_tags`; after them come distinct, admissible candidates in frequency order, and it falls short only when none is left |
| LightweightTagExtractor.NoLabelsInLetters | src/utils/lightweight_tag_extractor.py:21-22 | a text without brackets has no labels |
| LightweightTagExtractor.NoCjkWordsInLetters | src/utils/lightweight_tag_extractor.py:43 | a text of ASCII letters has no CJK words |
| LightweightTagExtractor.StripLetters | src/utils/lightweight_tag_extractor.py:32 | stripping an ASCII word changes nothing |
| LightweightTagExtractor.LettersCandidates | src/utils/lightweight_tag_extractor.py:43-47 | a single ASCII word is its own only candidate, with no labels |
| LightweightTagExtractor.RankedSingle | src/utils/lightweight_tag_extractor.py:64-67 | ranking a single word gives that word |
| LightweightTagExtractor.FilteredSingle | src/utils/lightweight_tag_extractor.py:50-58 | an admissible word passes the filter alone |
| LightweightTagExtractor.SingleEnglishWord | src/utils/lightweight_tag_extractor.py:27-80 | a text that is one English word is tagged with exactly that word |
| LightweightTagExtractor.TagsBounded | src/utils/lightweight_tag_extractor.py:27-80 | `extract_tags` never returns more than `max_tags` tags |
| TodoTagExtractor.KeptWords | src/utils/todo_tag_extractor.py:91-100 | the token loop keeps exactly the words of tokens that are not stop words, have a selected part of speech or are education words, and are long enough |
| TodoTagExtractor.SelectWords | src/utils/todo_tag_extractor.py:91-100 | the loop gives the kept words, or fails exactly when `get_todo_poses()` raises on a token it reaches |
| TodoTagExtractor.Extractor.constructor | src/utils/todo_tag_extractor.py:6-15 | the class starts with jieba's dictionary not loaded |
| TodoTagExtractor.Extractor.LoadEducationWords | src/utils/todo_tag_extractor.py:80-85 | after the once-only block the dictionary is loaded |
| TodoTagExtractor.Extractor.ExtractWithJieba | src/utils/todo_tag_extractor.py:62-122 | the jieba path's tags, or the lightweight extractor's on any exception; the loaded flag is set unless the import failed |
| TodoTagExtractor.Extractor.ExtractTags | src/utils/todo_tag_extractor.py:33-59 | the dispatch: `[]` for a non-string or blank text, jieba when configured, and the lightweight extractor otherwise; the jieba flag never goes back to false, and is set exactly when jieba was tried and its import succeeded |
| TodoTagExtractor.LongEnoughShortWords | src/utils/todo_tag_extractor.py:99 | a word of at most one character passes the length test exactly when it is one CJK character |
| TodoTagExtractor.JiebaTagsRanked | src/utils/todo_tag_extractor.py:103-117 | the jieba tags are at most ten distinct kept words in frequency order, never stop words |
| TodoTagExtractor.JiebaTagsBounded | src/utils/todo_tag_extractor.py:114-115 | the jieba path returns at most ten tags |
| TodoTagExtractor.TagsAtMostTen | src/utils/todo_tag_extractor.py:33-59 | `extract_tags` returns at most ten tags on every path |
| TodoPanel.WrapLines | src/components/todo_panel.py:135-148 | the wrap loop's lines are a greedy wrap of the words, and there are none only when there are no words |
| TodoPanel.WrapWord | src/components/todo_panel.py:139-145 | one pass of the wrap loop keeps the greedy-wrap state: the closed lines are a greedy grouping of the words so far, and the open line holds the rest |
| TodoPanel.WrapKeepsWords | src/components/todo_panel.py:135-150 | the wrapped lines joined by spaces give back the words joined by spaces |
| TodoPanel.AutoWrapTip | src/components/todo_panel.py:125-156 | the tooltip is the text itself up to 25 characters, and otherwise the greedy wrap of its words joined by newlines |
| TodoPanel.NewItem | src/components/todo_panel.py:37-117 | a new item widget holds its text, is unchecked and editable, has no cached tags and is visible |
| TodoPanel.NonBlankTextsMembers | src/components/todo_panel.py:457-461 | the collected texts are exactly the non-blank item texts |
| TodoPanel.LoadedItems | src/components/todo_panel.py:619-620 | loading adds one item per record and stops at the first record without a `text` key |
| TodoPanel.AppendLoaded | src/components/todo_panel.py:614-622 | the loop appends the loaded items, each with its tag cache coherent |
| TodoPanel.SaveThenLoad | src/components/todo_panel.py:614-641 | saving then loading gives back one fresh item per non-blank text, in order |
| TodoPanel.PrunedMembers | src/components/todo_panel.py:650-661 | pruning keeps exactly the unchecked non-blank items, and changes nothing exactly when all are kept |
| TodoPanel.PrunedIsSubsequence | src/components/todo_panel.py:650-661 | pruning keeps the order of the kept items |
| TodoPanel.PrunedIdempotent | src/components/todo_panel.py:650-661 | pruning twice is pruning once |
| TodoPanel.FilterItem | src/components/todo_panel.py:589-612 | an item is shown exactly when no tag is selected or one of its tags is selected; the cache is filled when tags are selected |
| TodoPanel.FilterIdempotent | src/components/todo_panel.py:589-612 | filtering twice is filtering once |
| TodoPanel.Swap | src/components/todo_panel.py:433-446 | moving an item exchanges it with its neighbour and leaves the rest |
| TodoPanel.SwapPermutes | src/components/todo_panel.py:433-446 | a move is a permutation, and moving back restores the order |
| TodoPanel.RemoveAt | src/components/todo_panel.py:679-681 | removing an item shifts the later ones down by one |
| TodoPanel.TagUnion | src/components/todo_panel.py:22-27 | the worker's tag set: exactly the tags of the non-blank texts |
| TodoPanel.RefreshCoversItems | src/components/todo_panel.py:457-461 | the refresh's tags are exactly the tags of the non-blank items |
| TodoPanel.WorkerRun | src/components/todo_panel.py:20-27 | the worker loop computes the union of the tags |
| TodoPanel.Toggled | src/components/todo_panel.py:580-585 | toggling a tag flips its selection and no other |
| TodoPanel.ToggleTwice | src/components/todo_panel.py:580-585 | toggling a tag twice restores the selection |
| TodoPanel.CollectTexts | src/components/todo_panel.py:457-461 | the collecting loop gives the non-blank texts |
| TodoPanel.PruneItems | src/components/todo_panel.py:646-661 | the removal loop gives the pruned items, and `items_changed` holds exactly when an item was removed |
| TodoPanel.SaveRecords | src/components/todo_panel.py:627-641 | the saving loop gives one record per non-blank item |
| TodoPanel.FindButton | src/components/todo_panel.py:499-503 | the lookup finds a button for the tag exactly when one exists |
| TodoPanel.Reconcile | src/components/todo_panel.py:493-535 | one button per sorted tag, checked iff selected; an existing button is reused, otherwise a fresh one is made; the result is sorted with distinct identities |
| TodoPanel.ButtonsFor | src/components/todo_panel.py:493-535 | the buttons after a refresh cover exactly the tags, in sorted order, with reused identities |
| TodoPanel.ButtonsCoverTags | src/components/todo_panel.py:505-535 | each tag has a button and each button has a tag |
| TodoPanel.PrunedCoherent | src/components/todo_panel.py:650-661 | pruning keeps every remaining item's tag cache coherent |
| TodoPanel.Panel.constructor | src/components/todo_panel.py:284-389 | a new panel holds the stored items, selects no tag and has run `refresh_tags` on them |
| TodoPanel.Panel.AddTodoItem | src/components/todo_panel.py:411-431 | a new item goes at the end and nothing else changes |
| TodoPanel.Panel.LoadTodos | src/components/todo_panel.py:614-625 | the stored items are appended and a refresh starts |
| TodoPanel.Panel.SaveTodos | src/components/todo_panel.py:627-641 | the file holds one record per non-blank item and nothing else changes |
| TodoPanel.Panel.FilterTodosByTags | src/components/todo_panel.py:589-612 | every item is filtered by the selection and nothing else changes |
| TodoPanel.Panel.ToggleTagFilter | src/components/todo_panel.py:580-587 | the selection is flipped for the tag and the items are refiltered |
| TodoPanel.Panel.ClickTagButton | src/components/todo_panel.py:552 | a click flips the button and the tag's selection, and buttons matching the selection keep matching it |
| TodoPanel.Panel.MoveItemUp | src/components/todo_panel.py:433-438 | an item other than the first is swapped with the one above; the items are permuted |
| TodoPanel.Panel.MoveItemDown | src/components/todo_panel.py:440-446 | an item other than the last is swapped with the one below; the items are permuted |
| TodoPanel.Panel.RefreshTags | src/components/todo_panel.py:448-484 | a request during a refresh is dropped; with no non-blank item the tags and buttons clear; otherwise a worker starts on the non-blank texts |
| TodoPanel.Panel.OnTagsRefreshed | src/components/todo_panel.py:493-535 | the tags become the worker's result, the flag clears, and the buttons are reconciled with the tags |
| TodoPanel.Panel.CompleteRefresh | src/components/todo_panel.py:20-27 | a finished worker delivers the union of its texts' tags, and the buttons then match tags and selection |
| TodoPanel.Panel.UpdateTodoList | src/components/todo_panel.py:643-666 | completed and blank items go; only when one went is the file saved and the list refiltered |
| TodoPanel.Panel.ReplaceItems | src/components/todo_panel.py:658-666 | the kept items are saved and shown filtered |
| TodoPanel.Panel.OnReturnPressed | src/components/todo_panel.py:672-683 | a non-blank item saves and updates the list; a blank item is removed and the rest saved |
| TodoPanel.Panel.RemoveCompletedItem | src/components/todo_panel.py:693-701 | a completed item is removed, the rest saved and a refresh started; otherwise nothing changes |
| TodoPanel.Panel.ItemTextChanged | src/components/todo_panel.py:174-179 | an editable item takes the field's text and drops its cached tags; a read-only one is unchanged |
| TodoPanel.Panel.ItemCheckboxClicked | src/components/todo_panel.py:197-222 | a click flips the item's check and drops its cached tags |
| TodoPanel.Panel.ItemEditingFinished | src/components/todo_panel.py:181-186 | finishing an edit makes the item read-only |
| TodoPanel.Panel.ItemDoubleClicked | src/components/todo_panel.py:189-195 | a double click makes the item editable |
| TodoPanel.Panel.OnTextChanged | src/components/todo_panel.py:668-670 | a non-blank text saves, a blank one does not |
| TodoPanel.Panel.OnCheckboxClicked | src/components/todo_panel.py:685-691 | a checkbox click starts a refresh |
| TodoPanel.Panel.CreateNewTodoItem | src/components/todo_panel.py:400-409 | the list is updated, then an empty editable item is appended |
| TodoPanel.Panel.HandleAllAreaClick | src/components/todo_panel.py:391-394 | a click on the panel saves, then updates the list |
| BaseConfig.Lookup | src/configs/base_config.py:22 | `_properties.get(key, default)`: the stored value when present, the default otherwise, and an error when the file held no object |
| BaseConfig.AfterLoad | src/configs/base_config.py:9-18 | a loaded state stays; a missing file loads `{}`; a parsed file loads its value; any other error escapes and leaves the state unloaded |
| BaseConfig.LoadedIgnoresFile | src/configs/base_config.py:11 | once loaded, every getter answers the same whatever the file now holds |
| BaseConfig.LoadIsOnce | src/configs/base_config.py:11-18 | a successful load sets the flag, and loading again changes nothing |
| BaseConfig.MissingFileGivesDefaults | src/configs/base_config.py:16-18 | with no file every getter returns its default |
| BaseConfig.PresentKeyWins | src/configs/base_config.py:20-30 | a present key is returned whatever the default |
| BaseConfig.Properties.constructor | src/configs/base_config.py:5-7 | the globals start as an empty dict, not loaded |
| BaseConfig.Properties.LoadProperties | src/configs/base_config.py:9-18 | the globals become the state after loading, and stay as they were when the load raises |
| BaseConfig.Properties.Get | src/configs/base_config.py:20-30 | a getter loads, then looks up its key with its default |
| BaseConfig.Properties.GetTodoFileName | src/configs/base_config.py:20-22 | `todo_file_name`, by default `resources/todos.json` |
| BaseConfig.Properties.GetTodoPoses | src/configs/base_config.py:24-26 | `todo_poses`, by default `NOUN`, `VERB`, `ADJ`, `PROPN` |
| BaseConfig.Properties.GetExtractorModel | src/configs/base_config.py:28-30 | `extractor_model`, by default `jieba` |
| ConfigEdits.EditValue | src/views/toolbox_views/setting_view.py:149 | an edit is stored as its string, or as the list of its strings |
| ConfigEdits.CoerceOutcomes | src/views/toolbox_views/setting_view.py:408-418 | coercion keeps the edit or, for an int original, takes the parsed integer; text that does not parse stays a string; it fails exactly for a list edit of an int original |
| ConfigEdits.BoolOriginalTakesIntBranch | src/views/toolbox_views/setting_view.py:408-418 | a boolean original is coerced exactly like an int one, because `bool` is an `int` in Python |
| ConfigEdits.ConvertToQColor | src/views/toolbox_views/setting_view.py:367-379 | three components are opaque, four carry alpha, a `#` string is a colour name, anything else is white; components are ints or bools (as 0 and 1), and any other component raises |
| ConfigEdits.SelectedColorRoundTrip | src/views/toolbox_views/setting_view.py:386-395 | a colour stored by `select_color` reads back as the same colour, with alpha only when not opaque |
| ConfigEdits.AlphaColorRoundTrip | src/views/toolbox_views/setting_view.py:346-356 | a colour stored by `update_alpha` reads back with the new alpha |
| ConfigEdits.RowTextsMembers | src/views/toolbox_views/setting_view.py:232-239 | the collected texts are exactly those of row layouts with at least two widgets |
| ConfigEdits.CollectRowTexts | src/views/toolbox_views/setting_view.py:232-239 | the collecting loop gives the row texts |
| ConfigEdits.RemovedAt | src/views/toolbox_views/setting_view.py:242-243 | `items.pop(index)` on a valid index removes that entry; any other index changes nothing |
| ConfigEdits.RemovedAtPermutes | src/views/toolbox_views/setting_view.py:242-243 | removal takes out exactly the entry at the index |
| ConfigEdits.CardsSpec | src/views/toolbox_views/setting_view.py:128-138 | cards are built exactly when `colors`, if present, is a dict whose colours all convert; then each card comes from one entry by its type |
| ConfigEdits.UnconvertibleColorRaises | src/views/toolbox_views/setting_view.py:288 | a colour list with a string component stops the cards with `TypeError`; a boolean component converts as 0 or 1 |
| ConfigEdits.OtherTypesSkipped | src/views/toolbox_views/setting_view.py:133-138 | floats and nulls get no card |
| ConfigEdits.FreshValues | src/views/toolbox_views/setting_view.py:110-115 | `json.load` makes a fresh, unshared object for every nested dict, and the snapshot is the loaded JSON |
| ConfigEdits.TextValue | src/views/toolbox_views/setting_view.py:431-441 | coercing a text never fails |
| ConfigEdits.NestedGet | src/views/toolbox_views/setting_view.py:430 | `cfg.get(k, {}).get(sk)`: `None` when a key is absent, an error when the value is not a dict |
| ConfigEdits.AssignIn | src/views/toolbox_views/setting_view.py:427-445 | the nested key gets the value and the other nested keys keep theirs; a shared nested dict is updated in place; a missing dict is created; a non-dict raises |
| SettingView.SettingView.constructor | src/views/toolbox_views/setting_view.py:18-43 | the loaded configuration, its shallow copy as the original, the flag clear and the cards built |
| SettingView.SettingView.SaveConfig | src/views/toolbox_views/setting_view.py:117-120 | the file holds the configuration as it is now |
| SettingView.SettingView.ApplyChanges | src/views/toolbox_views/setting_view.py:122-126 | saves and clears the modified flag |
| SettingView.SettingView.OnConfigChanged | src/views/toolbox_views/setting_view.py:405-422 | the coerced edit becomes the key's value, the other keys are unchanged and the flag is set; a failed coercion changes nothing |
| SettingView.SettingView.AssignInDict | src/views/toolbox_views/setting_view.py:427-445 | the nested assignment on `config_data`, seen through the original too when the dict is shared |
| SettingView.SettingView.OnConfigChangedInDict | src/views/toolbox_views/setting_view.py:424-447 | the text is coerced by the original nested value and stored under the nested key, and the flag is set; the errors change nothing |
| SettingView.SettingView.SelectColor | src/views/toolbox_views/setting_view.py:381-403 | a chosen colour is stored under `colors` and reads back as chosen; a cancelled dialog changes nothing |
| SettingView.SettingView.UpdateAlpha | src/views/toolbox_views/setting_view.py:346-365 | the colour is stored with the new alpha and the file saved |
| SettingView.SettingView.RemoveListItem | src/views/toolbox_views/setting_view.py:229-247 | the row texts without the deleted index become the key's value and the flag is set |
| SettingView.SettingView.ResetToDefault | src/views/toolbox_views/setting_view.py:58-80 | the configuration becomes the defaults and the cards are rebuilt; the flag is cleared only when the cards build, and stays as it was when building them raises |
| LegacySettingView.ClearedItems | src/views/setting_view.py:107-108 | the clearing loop fails exactly when the container holds a row layout |
| LegacySettingView.ClearListItems | src/views/setting_view.py:107-108 | the loop computes `ClearedItems` |
| LegacySettingView.NothingToDeleteOrFails | src/views/setting_view.py:146-164 | whenever there is an entry to delete, the clearing raises |
| LegacySettingView.ClearedIsFirstRowFromEnd | src/views/setting_view.py:107-108 | the error is `AttributeError` |
| LegacySettingView.NoRowsNoTexts | src/views/setting_view.py:149-156 | a container without row layouts shows no texts |
| LegacySettingView.DeletingFromTwoRowsFails | src/views/setting_view.py:104-108 | a list showing `a` and `b`: deleting raises and the list stays |
| LegacySettingView.LegacySettingView.constructor | src/views/setting_view.py:16-32 | the loaded configuration, its shallow copy and the cards built |
| LegacySettingView.LegacySettingView.ApplyChanges | src/views/setting_view.py:41-48 | the file holds the configuration as it is now |
| LegacySettingView.LegacySettingView.OnConfigChanged | src/views/setting_view.py:283-299 | the coerced edit becomes the key's value and the other keys are unchanged; a failed coercion changes nothing |
| LegacySettingView.LegacySettingView.AssignInDict | src/views/setting_view.py:303-322 | the nested assignment on `config_data`, seen through the original when the dict is shared |
| LegacySettingView.LegacySettingView.OnConfigChangedInDict | src/views/setting_view.py:301-323 | the text is coerced by the original nested value and stored under the nested key; the errors change nothing |
| LegacySettingView.LegacySettingView.SelectColor | src/views/setting_view.py:259-281 | a chosen colour is stored and reads back as chosen; a cancelled dialog changes nothing |
| LegacySettingView.LegacySettingView.RemoveListItem | src/views/setting_view.py:146-164 | as written: with any row shown, the deletion raises `AttributeError` and the configuration is unchanged |
| Switch.Switch.constructor | src/views/components/switch.py:14-20 | a new switch is unchecked and has emitted nothing |
| Switch.Switch.Toggle | src/views/components/switch.py:70-74 | toggling flips the state and emits the new value |
| Switch.Switch.SetChecked | src/views/components/switch.py:76-81 | the switch takes the value, emitting only on a change |
| Switch.Switch.IsChecked | src/views/components/switch.py:83-85 | the state is returned |
| ThemeManager.LoadTheme | src/utils/theme_manager.py:12-22 | a missing file gives the empty stylesheet, otherwise its text |
| ThemeManager.ThemeManager.constructor | src/utils/theme_manager.py:6-10 | light mode, both stylesheets loaded |
| ThemeManager.ThemeManager.CurrentTheme | src/utils/theme_manager.py:24-29 | the stylesheet of the theme in force |
| ThemeManager.ThemeManager.ToggleTheme | src/utils/theme_manager.py:31-34 | the other theme, returning its stylesheet |
| ThemeManager.ThemeManager.SetDarkTheme | src/utils/theme_manager.py:36-39 | dark mode, returning the dark stylesheet |
| ThemeManager.ThemeManager.SetLightTheme | src/utils/theme_manager.py:41-44 | light mode, returning the light stylesheet |
| ToolBoxWindow.SheetFor | src/views/toolbox_views/toolbox_window.py:341-346 | the dark stylesheet exactly in dark mode |
| ToolBoxWindow.BoolEditIsModified | src/views/toolbox_views/toolbox_window.py:310 | `true` edited to `1` counts as modified |
| ToolBoxWindow.ToolBoxWindow.constructor | src/views/toolbox_views/toolbox_window.py:91-193 | light theme, unchecked switch with no emission, home page, apply button hidden |
| ToolBoxWindow.ToolBoxWindow.SetLightTheme | src/views/toolbox_views/toolbox_window.py:348-351 | light mode and the light stylesheet |
| ToolBoxWindow.ToolBoxWindow.SetDarkTheme | src/views/toolbox_views/toolbox_window.py:500-503 | dark mode and the dark stylesheet |
| ToolBoxWindow.ToolBoxWindow.ToggleTheme | src/views/toolbox_views/toolbox_window.py:330-339 | the other theme with its stylesheet |
| ToolBoxWindow.ToolBoxWindow.ApplyStylesheet | src/views/toolbox_views/toolbox_window.py:341-346 | the stylesheet of the theme in force, which stays |
| ToolBoxWindow.ToolBoxWindow.ClickThemeSwitch | src/views/toolbox_views/toolbox_window.py:272-274 | the switch emits its new value and the theme follows it |
| ToolBoxWindow.ToolBoxWindow.SwitchView | src/views/toolbox_views/toolbox_window.py:286-292 | row 0 is home, row 1 settings, any other row keeps the page |
| ToolBoxWindow.ToolBoxWindow.ShowApplyButton | src/views/toolbox_views/toolbox_window.py:294-300 | the button shows exactly when the configuration differs from the original |
| ToolBoxWindow.ToolBoxWindow.ApplyChanges | src/views/toolbox_views/toolbox_window.py:312-316 | the page saves and clears its flag and the button hides |
| ToolBoxWindow.ToolBoxWindow.EditNested | src/views/toolbox_views/toolbox_window.py:179 | a nested edit on a shared top level leaves the button hidden although the page counts itself modified |
| PerformanceMonitor.DaysInMonth | src/utils/performance_monitor.py:64-72 | 30 for April, June, September and November; 29 or 28 for February by the leap rule; 31 otherwise |
| PerformanceMonitor.DaysInYear | src/utils/performance_monitor.py:79 | 366 exactly in leap years, 365 otherwise |
| PerformanceMonitor.MonthsMakeYear | src/utils/performance_monitor.py:79-80 | the month lengths add up to the year's length |
| PerformanceMonitor.DaysBeforeGrows | src/utils/performance_monitor.py:80 | the days before a month grow with the month |
| PerformanceMonitor.DayProgress | src/utils/performance_monitor.py:49-52 | seconds since midnight over a day: 0 at midnight, always below 1 |
| PerformanceMonitor.WeekProgress | src/utils/performance_monitor.py:55-59 | `(weekday + 1) / 7`: 1/7 on Monday, 1 on Sunday |
| PerformanceMonitor.MonthProgress | src/utils/performance_monitor.py:62-73 | the day over the month's length, reaching 1 exactly on the last day |
| PerformanceMonitor.YearProgress | src/utils/performance_monitor.py:76-81 | the days gone plus the day's fraction over the year's length, always below 1 |
| PerformanceMonitor.DayOfYearInYear | src/utils/performance_monitor.py:80 | `tm_yday` lies between 1 and the year's length |
| PerformanceMonitor.LastSecondOfYear | src/utils/performance_monitor.py:76-81 | the last second of a year stands one second short of 1 |
| PerformanceMonitor.LeapCycle | src/utils/performance_monitor.py:69 | the leap-year rule repeats every 400 years, month lengths included, and a leap year is followed by three common years |
| WinPin.ListedIff | src/utils/win_pin.py:39-103 | a window is listed exactly when it is shown on screen, its class is known, and it is a browser or neither a system class nor a system title |
| WinPin.BrowserBypassesTitleFilter | src/utils/win_pin.py:74-102 | a browser window is listed whatever its title; the same window as another class is listed exactly when its title is not a system title |
| WinPin.Verdicts | src/utils/win_pin.py:39-103 | one verdict per window offered |
| WinPin.Entries | src/utils/win_pin.py:103 | one `(hwnd, stripped title)` pair per window offered, the title stripped as at line 47 and appended as at line 82 |
| WinPin.AppendedSound | src/utils/win_pin.py:103 | every appended entry belongs to a listed window |
| WinPin.AppendedComplete | src/utils/win_pin.py:103 | every listed window's entry is appended |
| WinPin.ListedOnlyIfOffered | src/utils/win_pin.py:39-110 | every entry of the window list comes from a listed window that was offered |
| WinPin.ListedWindowShown | src/utils/win_pin.py:39-110 | every listed window appears in the window list |
| WinPin.ListedHandles | src/utils/win_pin.py:150 | the handles of the window list, in order |
| WinPin.ListedHandlesIff | src/utils/win_pin.py:150 | a handle is current exactly when a listed window has it |
| WinPin.UnlistedWindowDropped | src/utils/win_pin.py:150-158 | a pinned window that is minimised or otherwise not listed is not current, so its record is dropped |
| WinPin.Flipped | src/utils/win_pin.py:124-127 | the pin flips and every other record is unchanged; a new handle is appended |
| WinPin.ToggleTwiceRestores | src/utils/win_pin.py:112-142 | toggling twice restores every pin state, and the dict itself when the handle was already recorded |
| WinPin.PinnedWindows | src/utils/win_pin.py:27-35 | the windows the cleanup un-tops, no more than the records |
| WinPin.PinnedWindowsIff | src/utils/win_pin.py:27-35 | the cleanup un-tops exactly the pinned handles that are still windows |
| WinPin.DropAbsent | src/utils/win_pin.py:152-158 | the deletion loop leaves the dict restricted to the current handles |
| WinPin.ListOf | src/utils/win_pin.py:159 | `list(set(...))`: exactly the handles, each once |
| WinPin.WindowPinner.constructor | src/utils/win_pin.py:11-21 | no records and an empty window list |
| WinPin.WindowPinner.IsPinned | src/utils/win_pin.py:144-146 | pinned exactly when recorded as pinned; an unrecorded window is not pinned |
| WinPin.WindowPinner.TogglePin | src/utils/win_pin.py:112-142 | a non-int changes nothing; a dead window's records are deleted; otherwise the pin flips and is returned, unless `SetWindowPos` raises, which keeps the old state |
| WinPin.WindowPinner.CleanupInvalidWindows | src/utils/win_pin.py:148-159 | both dicts keep only the listed handles, and the window list holds each of them once |
| WinPin.WindowPinner.CleanupToppedWindows | src/utils/win_pin.py:23-37 | the pinned live windows are un-topped, and the records cleared |

## Left out

- The Qt widgets themselves are not modelled: layouts, painting, animation, fonts, focus, drag
  gestures, scroll areas and the window's title bar and dragging. Their state appears only as
  sequences and flags.
- Text elision in `handle_text_show` is not modelled: it depends on Qt font metrics. Without
  it, the field an item shows always holds `content_text`, so TodoPanel.Panel.ItemEditingFinished
  keeps the text where the source re-reads the field (src/components/todo_panel.py:184). With
  elision, a loaded long item is editable and shows its elided text before any handler is
  connected (src/components/todo_panel.py:103,115-117), so finishing an edit on it without typing
  would store the elided text. The model does not capture that.
- The tooltip memo (`_cached_tooltip`) is not modelled. The tooltip is recomputed, which gives
  the same result.
- File I/O, JSON parsing and `os.path.exists` are not modelled: every file is an input value
  (present, missing or unreadable) and every write is a field holding what was written.
- Threads are not modelled. `TagRefreshWorker` runs in two steps (`RefreshTags` and
  `CompleteRefresh`). The worker holds the item widgets and reads `content_text` when it runs
  (src/components/todo_panel.py:20-27); TodoPanel.WorkerRun instead takes the texts as they are
  when `RefreshTags` starts, so an edit made while the worker runs is not seen. The window
  pinner's `refresh_loop`, `start_auto_refresh` and
  `stop_auto_refresh` are left out.
- The Win32 calls `IsWindow`, `SetWindowPos`, `EnumWindows`, `GetWindowText`, `GetClassName`,
  `GetWindowRect` and `IsIconic` are not made: their results are parameters or fields of
  `WindowInfo`.
- Menu callbacks are abstracted to sets of names.
- Signal wiring per item is not modelled. TodoPanel.Panel.OnTextChanged,
  TodoPanel.Panel.OnReturnPressed and TodoPanel.Panel.OnCheckboxClicked can be called on any
  item, but the source connects them only for an item made by `create_new_todo_item`
  (src/components/todo_panel.py:405-408). Items added by `load_todos` (:620) never get them.
  TodoPanel.Panel.RemoveCompletedItem runs in the source only through the `editingFinished`
  connection that `on_checkbox_clicked` adds, one more per click on a completed item
  (:689-691). So in the source, Return on a loaded item neither saves nor prunes, and a loaded
  completed item is not removed when it loses focus. The model does not restrict these
  handlers to the items they are wired to. It also does not count repeated connections.
- When `create_cards` raises, `SettingView.__init__` raises
  (src/views/toolbox_views/setting_view.py:43), and so does `ToolBoxWindow.__init__`, which
  builds the page (src/views/toolbox_views/toolbox_window.py:176).
  SettingView.SettingView.constructor and ToolBoxWindow.ToolBoxWindow.constructor instead record
  `cards == Err(..)` and finish. A window or page built with failed cards is not reachable in
  the source.
- Console output is left out: the messages printed at src/utils/todo_tag_extractor.py:121,
  src/utils/win_pin.py:25,33,35,37,139 and src/components/todo_panel.py:622 change no state.
- jieba is not modelled: its segmentation is an oracle, which also stands for segmentation with
  the education words added to the dictionary.
- `src/utils/todo_tag_extractor.py` imports `get_color` from `src/configs/base_config.py`, which
  does not define it, so that import raises. The model assumes the module loads.
- `src/configs/defaul_config.py` is not part of this model. `ResetToDefault` takes the default
  entries as a parameter.
- Python's `\w` is approximated by ASCII letters, digits, `_` and the CJK range U+4E00–U+9FFF.
- `str.lower()` is ASCII only. That is exact for candidate words, and an approximation for
  window titles.
- QColor name parsing and the colour-dialog interaction are left out: the colour chosen (or
  `None`) is a parameter.
- `int()` on a string is a parameter `parseInt`.
- Floating point is left out: the progress values are exact fractions, and their rounding for
  display is not modelled.
- The CPU, memory, disk and battery read-outs of `src/utils/performance_monitor.py` are left
  out. They read the machine.
- The weekday is an input, as `datetime.now()` gives it.
- The `bool` branch of the two `on_config_changed` functions is unreachable, because the `int`
  test takes booleans first. The model has no such branch.
- A top-level JSON value other than an object in the settings file is left out.
- The order `list(set(...))` gives in `cleanup_invalid_windows` is unspecified in Python.
  WinPin.WindowPinner.CleanupInvalidWindows keeps the first occurrences, and its contract
  fixes no order.
- ToolBoxWindow.ToolBoxWindow.SwitchView does not model `setCurrentIndex` of the stacked
  widget, only `current_view`.
- The toolbox window's two stylesheet texts are not modelled, only which of the two is set.
- TodoPanel.Panel.ClickTagButton models Qt's flip of a checkable button on a click; Qt itself
  is not modelled.
- LegacySettingView.LegacySettingView.RemoveListItem models the deletion as written: it
  raises. The working deletion is `SettingView.SettingView.RemoveListItem`.

## Findings

| source | as written | input that shows it | evidently intended | confidence | as-written member | corrected member |
|---|---|---|---|---|---|---|
| src/views/setting_view.py:104-108 | `create_list_items`, called by `remove_list_item` (146-164), clears the container with `layout.itemAt(i).widget().setParent(None)`. A row is a layout item whose `widget()` is `None`, so the call raises `AttributeError` before the list is rebuilt or the configuration written | a list group showing two rows `"a"` and `"b"`, and delete pressed on row 0 | clear every row, then store the list without the deleted entry, as `src/views/toolbox_views/setting_view.py:182-191` does by also clearing nested layouts | high (not executed) | LegacySettingView.DeletingFromTwoRowsFails | SettingView.SettingView.RemoveListItem |
