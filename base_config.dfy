/** `base_config` (src/configs/base_config.py): the properties file is read at most once, on
    the first getter call that finds it readable or absent, and each getter looks its key up
    with a default.

    The module's globals `_properties` and `_properties_loaded` are the fields of `Properties`.
    The file is not read here: every call is given what opening and parsing
    `resources/properties.json` would yield at that moment. */
module BaseConfig {
  import opened Wrappers
  import opened PyDict
  import opened Json

  /** What `open` plus `json.load` yield: no such file, another failure (a decoding error, no
      permission, ...), or the parsed value. */
  datatype PropertiesFile = NotFound | Unreadable(reason: string) | Parsed(value: Json)

  const TODO_FILE_NAME_KEY: string := "todo_file_name"
  const TODO_POSES_KEY: string := "todo_poses"
  const EXTRACTOR_MODEL_KEY: string := "extractor_model"

  const DEFAULT_TODO_FILE_NAME: Json := JStr("resources/todos.json")
  const DEFAULT_TODO_POSES: Json := JList([JStr("NOUN"), JStr("VERB"), JStr("ADJ"), JStr("PROPN")])
  const DEFAULT_EXTRACTOR_MODEL: Json := JStr("jieba")

  /** `_properties.get(key, default)`: the stored value for a present key, the default for an
      absent one; when the loaded value is not an object, `.get` raises `AttributeError`. */
  function Lookup(properties: Json, key: string, default: Json): (r: Result<Json>)
    ensures r.Ok? <==> properties.JObj?
    ensures properties.JObj? && Get(properties.entries, key).Some? ==> r == Ok(Get(properties.entries, key).value)
    ensures properties.JObj? && Get(properties.entries, key).None? ==> r == Ok(default)
  {
    if !properties.JObj? then Err("AttributeError")
    else
      match Get(properties.entries, key)
      case Some(v) => Ok(v)
      case None => Ok(default)
  }

  /** The globals after `_load_properties`: nothing happens once loaded; otherwise a parsed file
      is kept, a missing file counts as an empty one, and any other failure raises and leaves
      both globals as they were. */
  datatype LoadState = LoadState(properties: Json, loaded: bool)

  function AfterLoad(s: LoadState, file: PropertiesFile): (r: Result<LoadState>)
    ensures s.loaded ==> r == Ok(s)
    ensures !s.loaded && file.Unreadable? ==> r.Err?
    ensures !s.loaded && file.NotFound? ==> r == Ok(LoadState(JObj([]), true))
    ensures !s.loaded && file.Parsed? ==> r == Ok(LoadState(file.value, true))
  {
    if s.loaded then Ok(s)
    else
      match file
      case NotFound => Ok(LoadState(JObj([]), true))
      case Unreadable(reason) => Err(reason)
      case Parsed(v) => Ok(LoadState(v, true))
  }

  /** The value a getter returns from state `s` when the file reads as `file`. */
  function Getter(s: LoadState, file: PropertiesFile, key: string, default: Json): (r: Result<Json>)
  {
    match AfterLoad(s, file)
    case Err(e) => Err(e)
    case Ok(t) => Lookup(t.properties, key, default)
  }

  /** Once loaded, the file is never consulted again: every getter gives the same answer
      whatever the file now holds. */
  lemma LoadedIgnoresFile(s: LoadState, f1: PropertiesFile, f2: PropertiesFile, key: string, default: Json)
    requires s.loaded
    ensures Getter(s, f1, key, default) == Getter(s, f2, key, default)
    ensures AfterLoad(s, f1) == AfterLoad(s, f2) == Ok(s)
  {
  }

  /** A successful load, with the file present or absent, sets the flag for good: loading again
      changes nothing. */
  lemma LoadIsOnce(s: LoadState, f1: PropertiesFile, f2: PropertiesFile)
    requires AfterLoad(s, f1).Ok?
    ensures AfterLoad(s, f1).value.loaded
    ensures AfterLoad(AfterLoad(s, f1).value, f2) == AfterLoad(s, f1)
  {
  }

  /** With no file every getter returns its default. */
  lemma MissingFileGivesDefaults(file: PropertiesFile, key: string, default: Json)
    requires file.NotFound?
    ensures Getter(LoadState(JObj([]), false), file, key, default) == Ok(default)
  {
  }

  /** A present key is returned unchanged, whatever its default. */
  lemma PresentKeyWins(entries: Entries, key: string, v: Json, d1: Json, d2: Json)
    requires DistinctKeys(entries) && (key, v) in entries
    ensures Getter(LoadState(JObj([]), false), Parsed(JObj(entries)), key, d1) == Ok(v)
    ensures Getter(LoadState(JObj([]), false), Parsed(JObj(entries)), key, d2) == Ok(v)
  {
    var i :| 0 <= i < |entries| && entries[i] == (key, v);
    GetAt(entries, i);
  }

  /** The module's globals. */
  class Properties {
    /** `_properties` */
    var properties: Json
    /** `_properties_loaded` */
    var loaded: bool

    /** The globals at import: an empty dict, not loaded. */
    constructor()
      ensures properties == JObj([]) && !loaded
    {
      properties := JObj([]);
      loaded := false;
    }

    function State(): LoadState
      reads this
    {
      LoadState(properties, loaded)
    }

    /** `_load_properties()`; an error result is the exception it lets through. */
    method LoadProperties(file: PropertiesFile) returns (r: Result<()>)
      modifies this
      ensures r.Ok? <==> AfterLoad(old(State()), file).Ok?
      ensures r.Err? ==> AfterLoad(old(State()), file) == Err(r.error)
      ensures r.Ok? ==> State() == AfterLoad(old(State()), file).value
      ensures r.Err? ==> State() == old(State())
    {
      if !loaded {
        match file {
          case NotFound =>
            properties := JObj([]);
            loaded := true;
          case Unreadable(reason) =>
            return Err(reason);
          case Parsed(v) =>
            properties := v;
            loaded := true;
        }
      }
      return Ok(());
    }

    method Get(file: PropertiesFile, key: string, default: Json) returns (r: Result<Json>)
      modifies this
      ensures r == Getter(old(State()), file, key, default)
      ensures AfterLoad(old(State()), file).Ok? ==> State() == AfterLoad(old(State()), file).value
      ensures AfterLoad(old(State()), file).Err? ==> State() == old(State())
    {
      var loadResult := LoadProperties(file);
      if loadResult.Err? {
        return Err(loadResult.error);
      }
      r := Lookup(properties, key, default);
    }

    /** `get_todo_file_name()` */
    method GetTodoFileName(file: PropertiesFile) returns (r: Result<Json>)
      modifies this
      ensures r == Getter(old(State()), file, TODO_FILE_NAME_KEY, DEFAULT_TODO_FILE_NAME)
      ensures AfterLoad(old(State()), file).Ok? ==> State() == AfterLoad(old(State()), file).value
      ensures AfterLoad(old(State()), file).Err? ==> State() == old(State())
    {
      r := Get(file, TODO_FILE_NAME_KEY, DEFAULT_TODO_FILE_NAME);
    }

    /** `get_todo_poses()` */
    method GetTodoPoses(file: PropertiesFile) returns (r: Result<Json>)
      modifies this
      ensures r == Getter(old(State()), file, TODO_POSES_KEY, DEFAULT_TODO_POSES)
      ensures AfterLoad(old(State()), file).Ok? ==> State() == AfterLoad(old(State()), file).value
      ensures AfterLoad(old(State()), file).Err? ==> State() == old(State())
    {
      r := Get(file, TODO_POSES_KEY, DEFAULT_TODO_POSES);
    }

    /** `get_extractor_model()` */
    method GetExtractorModel(file: PropertiesFile) returns (r: Result<Json>)
      modifies this
      ensures r == Getter(old(State()), file, EXTRACTOR_MODEL_KEY, DEFAULT_EXTRACTOR_MODEL)
      ensures AfterLoad(old(State()), file).Ok? ==> State() == AfterLoad(old(State()), file).value
      ensures AfterLoad(old(State()), file).Err? ==> State() == old(State())
    {
      r := Get(file, EXTRACTOR_MODEL_KEY, DEFAULT_EXTRACTOR_MODEL);
    }
  }
}
