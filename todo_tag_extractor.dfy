/** `TodoTagExtractor` (src/utils/todo_tag_extractor.py): tags of a to-do text by jieba
    part-of-speech segmentation when the configured extractor model is `jieba`, and by the
    lightweight extractor otherwise or whenever the jieba path raises.

    jieba itself is not modelled: its segmentation is the oracle `segment` of the configuration,
    which either fails to import, fails while cutting, or yields (word, flag) pairs. It is
    consulted only after the education words have been registered, so it stands for
    segmentation with those words in the dictionary. */
module TodoTagExtractor {
  import opened Wrappers
  import opened PyStr
  import opened Frequency
  import LW = LightweightTagExtractor

  /** `CHINESE_STOPWORDS` (the display lists '到' and '要' twice). */
  const CHINESE_STOPWORDS: set<string> := {
    "的", "了", "在", "是", "我", "有", "和", "就", "不", "人", "都", "一", "一个",
    "上", "也", "很", "到", "说", "要", "去", "你", "会", "着", "没有", "看", "好",
    "自己", "这", "那", "还", "把", "又", "来", "对", "但", "从", "给", "到", "等",
    "可以", "要", "需要", "可能", "应该", "想要", "打算", "计划"}

  /** `ENGLISH_STOPWORDS` */
  const ENGLISH_STOPWORDS: set<string> := {
    "a", "an", "the", "and", "or", "but", "in", "on", "at", "to", "for", "of",
    "with", "by", "is", "am", "are", "was", "were", "be", "been", "being",
    "have", "has", "had", "do", "does", "did", "will", "would", "shall", "should",
    "may", "might", "must", "can", "could", "i", "you", "he", "she", "it", "we", "they",
    "my", "your", "his", "her", "its", "our", "their"}

  /** `education_tech_words`, registered with jieba and always accepted as tags. */
  const EDUCATION_TECH_WORDS: seq<string> := [
    "课程开发", "教育应用", "教学设计", "微课", "慕课", "在线课程", "混合学习",
    "翻转课堂", "项目学习", "学习管理系统", "LMS", "SCORM", "xAPI", "EdTech",
    "教育技术", "数字学习", "智慧教育", "个性化学习", "适应性学习", "学习分析",
    "教学资源", "互动白板", "虚拟现实", "增强现实", "移动学习", "游戏化学习",
    "学习对象", "内容管理系统", "学习路径", "评估系统", "反馈机制", "协作学习",
    "同步教学", "异步教学", "视频会议", "远程教育", "网络课程", "电子教材",
    "学习平台", "教学平台", "教育软件", "学习软件", "教学工具", "学习工具"
  ]

  /** The jieba path returns at most this many tags, and so does the fallback. */
  const MAX_TAGS: int := 10

  /** One `(word, flag)` pair of `pseg.cut`. */
  datatype Token = Token(word: string, flag: string)

  /** What happens when the jieba path imports jieba and cuts the text. */
  datatype Segmentation = ImportFailed | CutFailed | Tokens(tokens: seq<Token>)

  /** The configuration the extractor reads: whether `extractor_model` is `jieba`, the result of
      `get_todo_poses()` (`None` when the lookup raises), and the segmentation oracle. */
  datatype ExtractorConfig = ExtractorConfig(
    jiebaAvailable: bool,
    poses: Option<seq<string>>,
    segment: string -> Segmentation)

  predicate IsStopword(w: string) {
    w in CHINESE_STOPWORDS || w in ENGLISH_STOPWORDS
  }

  /** `flag.startswith(tuple(poses))` */
  predicate StartsWithAny(flag: string, poses: seq<string>) {
    exists i :: 0 <= i < |poses| && StartsWith(flag, poses[i])
  }

  /** `'一' <= word <= '鿿'`, Python's comparison of strings. */
  predicate InCjkRange(w: string) {
    !LexLess(w, "\U{4E00}") && !LexLess("\U{9FFF}", w)
  }

  /** `len(word) > 1 or ('一' <= word <= '鿿')` */
  predicate LongEnough(w: string) {
    |w| > 1 || InCjkRange(w)
  }

  /** A token the loop keeps: no stop word, a selected part of speech or an education word, and
      long enough. */
  predicate Kept(t: Token, poses: seq<string>) {
    !IsStopword(t.word) && (StartsWithAny(t.flag, poses) || t.word in EDUCATION_TECH_WORDS) && LongEnough(t.word)
  }

  /** The `tags` list the token loop builds. */
  function KeptWords(tokens: seq<Token>, poses: seq<string>): (ws: seq<string>)
    ensures forall w :: w in ws <==> exists i :: 0 <= i < |tokens| && tokens[i].word == w && Kept(tokens[i], poses)
  {
    if tokens == [] then []
    else
      var init := tokens[..|tokens| - 1];
      var last := tokens[|tokens| - 1];
      assert forall i :: 0 <= i < |init| ==> init[i] == tokens[i];
      KeptWords(init, poses) + (if Kept(last, poses) then [last.word] else [])
  }

  /** The token loop reaches `get_todo_poses()` at the first token that is not a stop word; if
      that lookup raises, so does the jieba path. */
  predicate PosesLookupRaises(tokens: seq<Token>, poses: Option<seq<string>>) {
    poses.None? && exists i :: 0 <= i < |tokens| && !IsStopword(tokens[i].word)
  }

  function PosesOrEmpty(poses: Option<seq<string>>): seq<string> {
    if poses.Some? then poses.value else []
  }

  /** What `_extract_with_jieba` returns, `None` when it raises and falls back. */
  function JiebaTags(segmentation: Segmentation, poses: Option<seq<string>>): Option<seq<string>> {
    match segmentation
    case ImportFailed => None
    case CutFailed => None
    case Tokens(tokens) =>
      if PosesLookupRaises(tokens, poses) then None
      else Some(Merge([], Ranked(KeptWords(tokens, PosesOrEmpty(poses))), MAX_TAGS))
  }

  /** What `extract_tags(text)` returns; `None` stands for an argument that is not a `str`. */
  function Tags(cfg: ExtractorConfig, input: Option<string>): seq<string> {
    if input.None? then []
    else
      var t := Strip(input.value);
      if t == [] then []
      else if !cfg.jiebaAvailable then LW.Tags(t, MAX_TAGS)
      else
        match JiebaTags(cfg.segment(t), cfg.poses)
        case Some(tags) => tags
        case None => LW.Tags(t, MAX_TAGS)
  }

  lemma KeptWordsStep(tokens: seq<Token>, i: int, poses: seq<string>)
    requires 0 <= i < |tokens|
    ensures KeptWords(tokens[..i + 1], poses) ==
      KeptWords(tokens[..i], poses) + (if Kept(tokens[i], poses) then [tokens[i].word] else [])
  {
    assert tokens[..i + 1][..i] == tokens[..i];
  }

  /** The token loop of `_extract_with_jieba`; `None` when its `get_todo_poses()` lookup
      raises. */
  method SelectWords(tokens: seq<Token>, poses: Option<seq<string>>) returns (words: Option<seq<string>>)
    ensures words == if PosesLookupRaises(tokens, poses) then None else Some(KeptWords(tokens, PosesOrEmpty(poses)))
  {
    var tags: seq<string> := [];
    var i := 0;
    while i < |tokens|
      invariant 0 <= i <= |tokens|
      invariant poses.None? ==> forall k :: 0 <= k < i ==> IsStopword(tokens[k].word)
      invariant tags == KeptWords(tokens[..i], PosesOrEmpty(poses))
    {
      var token := tokens[i];
      KeptWordsStep(tokens, i, PosesOrEmpty(poses));
      if IsStopword(token.word) {
        i := i + 1;
        continue;
      }
      if poses.None? {
        return None;
      }
      if Kept(token, poses.value) {
        tags := tags + [token.word];
      }
      i := i + 1;
    }
    assert tokens[..i] == tokens;
    return Some(tags);
  }

  /** The class state of `TodoTagExtractor`: the `_jieba_loaded` flag, and the words it has
      registered with jieba so far. */
  class Extractor {
    var jiebaLoaded: bool
    var registeredWords: seq<string>
    const config: ExtractorConfig

    ghost predicate Valid()
      reads this
    {
      registeredWords == if jiebaLoaded then EDUCATION_TECH_WORDS else []
    }

    constructor (config: ExtractorConfig)
      ensures Valid() && !jiebaLoaded && this.config == config
    {
      jiebaLoaded := false;
      registeredWords := [];
      this.config := config;
    }

    /** The once-only block of `_extract_with_jieba`: registers every education word with
        jieba and sets `_jieba_loaded`, unless it is set already. */
    method LoadEducationWords()
      requires Valid()
      modifies this
      ensures Valid() && jiebaLoaded
    {
      if !jiebaLoaded {
        var k := 0;
        while k < |EDUCATION_TECH_WORDS|
          invariant 0 <= k <= |EDUCATION_TECH_WORDS|
          invariant registeredWords == EDUCATION_TECH_WORDS[..k]
        {
          registeredWords := registeredWords + [EDUCATION_TECH_WORDS[k]];
          k := k + 1;
        }
        jiebaLoaded := true;
      }
    }

    /** `_extract_with_jieba(text)`: registers the education words once, then runs the token
        loop and the merge loop; anything raised falls back to the lightweight extractor. */
    method ExtractWithJieba(text: string) returns (tags: seq<string>)
      requires Valid()
      modifies this
      ensures Valid()
      ensures jiebaLoaded == (old(jiebaLoaded) || !config.segment(text).ImportFailed?)
      ensures tags == match JiebaTags(config.segment(text), config.poses)
                      case Some(t) => t
                      case None => LW.Tags(text, MAX_TAGS)
    {
      var segmentation := config.segment(text);
      if segmentation.ImportFailed? {
        tags := LW.ExtractTags(text, MAX_TAGS);
        return;
      }
      LoadEducationWords();
      if segmentation.CutFailed? {
        tags := LW.ExtractTags(text, MAX_TAGS);
        return;
      }
      var words := SelectWords(segmentation.tokens, config.poses);
      if words.None? {
        tags := LW.ExtractTags(text, MAX_TAGS);
        return;
      }
      var ranked := Ranked(words.value);
      tags := MergeUnseen([], ranked, MAX_TAGS);
    }

    /** `extract_tags(text)` */
    method ExtractTags(input: Option<string>) returns (tags: seq<string>)
      requires Valid()
      modifies this
      ensures Valid()
      ensures tags == Tags(config, input)
      ensures old(jiebaLoaded) ==> jiebaLoaded
      ensures jiebaLoaded == (old(jiebaLoaded) || (input.Some? && Strip(input.value) != []
        && config.jiebaAvailable && !config.segment(Strip(input.value)).ImportFailed?))
    {
      if input.None? || input.value == [] {
        return [];
      }
      var t := Strip(input.value);
      if t == [] {
        return [];
      }
      if config.jiebaAvailable {
        tags := ExtractWithJieba(t);
      } else {
        tags := LW.ExtractTags(t, MAX_TAGS);
      }
    }
  }

  /** The length test on one-character words is a CJK range test, and the empty word fails
      it. */
  lemma LongEnoughShortWords(w: string)
    requires |w| <= 1
    ensures LongEnough(w) <==> |w| == 1 && LW.IsCjk(w[0])
  {
    if |w| == 1 {
      var lo: string := "\U{4E00}";
      var hi: string := "\U{9FFF}";
      assert |lo| == 1 && lo[0] == '\U{4E00}' && |hi| == 1 && hi[0] == '\U{9FFF}';
      assert w[1..] == [] && lo[1..] == [] && hi[1..] == [];
      assert LexLess(w, lo) <==> w[0] < lo[0];
      assert LexLess(hi, w) <==> hi[0] < w[0];
    }
  }

  /** When the jieba path returns, its tags are at most ten words of kept tokens (never a stop
      word), each once, by decreasing frequency among the kept tokens, ties by first
      occurrence; and with fewer than ten, every kept word is among them. */
  lemma JiebaTagsRanked(tokens: seq<Token>, poses: Option<seq<string>>)
    requires !PosesLookupRaises(tokens, poses)
    ensures var kept := KeptWords(tokens, PosesOrEmpty(poses));
      var r := JiebaTags(Tokens(tokens), poses).value;
      && |r| <= MAX_TAGS
      && Distinct(r)
      && (forall i :: 0 <= i < |r| ==> !IsStopword(r[i]) && LongEnough(r[i]))
      && RankOrdered(kept, r)
      && (|r| < MAX_TAGS ==> forall w :: w in kept ==> w in r)
  {
    var kept := KeptWords(tokens, PosesOrEmpty(poses));
    MergeOfRanked([], kept, MAX_TAGS);
    var r := JiebaTags(Tokens(tokens), poses).value;
    assert r[0..] == r;
    forall i | 0 <= i < |r| ensures !IsStopword(r[i]) && LongEnough(r[i]) {
      assert r[i] in kept;
    }
  }

  lemma JiebaTagsBounded(segmentation: Segmentation, poses: Option<seq<string>>)
    ensures JiebaTags(segmentation, poses).Some? ==> |JiebaTags(segmentation, poses).value| <= MAX_TAGS
  {
    if segmentation.Tokens? && !PosesLookupRaises(segmentation.tokens, poses) {
      JiebaTagsRanked(segmentation.tokens, poses);
    }
  }

  /** `extract_tags` returns at most ten tags, on every path. */
  lemma TagsAtMostTen(cfg: ExtractorConfig, input: Option<string>)
    ensures |Tags(cfg, input)| <= MAX_TAGS
  {
    if input.Some? {
      var t := Strip(input.value);
      LW.TagsBounded(t, MAX_TAGS);
      JiebaTagsBounded(cfg.segment(t), cfg.poses);
    }
  }
}
