/** `LightweightTagExtractor` (src/utils/lightweight_tag_extractor.py): tags from bracketed
    labels such as `[课程开发]` first, then the most frequent CJK and English candidate words
    that contain no stop word.

    The three regular expressions of the source become scanning functions with the semantics of
    `re.findall`: matches are found left to right and do not overlap; where no match starts at a
    position the scan moves on by one character. */
module LightweightTagExtractor {
  import opened PyStr
  import opened Frequency

  /** The class `STOPWORDS`, written as the union of the four lines of its display. */
  const STOPWORDS: set<string> := STOPWORDS_LINE0 + STOPWORDS_LINE1 + STOPWORDS_LINE2 + STOPWORDS_LINE3
  const STOPWORDS_LINE0: set<string> := {"的", "了", "在", "是", "我", "有", "和", "就", "不", "人", "都", "一", "一个"}
  const STOPWORDS_LINE1: set<string> := {"上", "也", "很", "到", "说", "要", "去", "你", "会", "着", "没有", "看", "好"}
  const STOPWORDS_LINE2: set<string> := {"自己", "这", "那", "还", "把", "又", "来", "对", "但", "从", "给", "等"}
  const STOPWORDS_LINE3: set<string> := {"可以", "需要", "可能", "应该", "想要", "打算", "计划", "完成", "进行", "与"}

  /** The regex class `[一-鿿]`. */
  predicate IsCjk(c: char) {
    '\U{4E00}' <= c <= '\U{9FFF}'
  }

  /** The regex class `[a-zA-Z]`. */
  predicate IsAsciiLetter(c: char) {
    ('a' <= c <= 'z') || ('A' <= c <= 'Z')
  }

  /** The regex class `[一-鿿\w]`, Python's Unicode `\w` restricted to ASCII letters,
      digits, the underscore and the CJK block. */
  predicate IsWordChar(c: char) {
    IsCjk(c) || IsAsciiLetter(c) || ('0' <= c <= '9') || c == '_'
  }

  /** Length of the longest prefix of `s` whose characters all satisfy `p`. */
  function Run(s: string, p: char -> bool): (n: nat)
    ensures n <= |s|
    ensures forall i :: 0 <= i < n ==> p(s[i])
    ensures n < |s| ==> !p(s[n])
  {
    if |s| == 0 || !p(s[0]) then 0 else 1 + Run(s[1..], p)
  }

  /** A run continues across a concatenation only when it fills the first part. */
  lemma {:induction false} RunConcat(x: string, y: string, p: char -> bool)
    ensures Run(x + y, p) == if Run(x, p) < |x| then Run(x, p) else |x| + Run(y, p)
  {
    if x == [] {
      assert x + y == y;
    } else {
      assert (x + y)[0] == x[0];
      if p(x[0]) {
        assert (x + y)[1..] == x[1..] + y;
        RunConcat(x[1..], y, p);
      }
    }
  }

  /** `re.findall(r'\[([一-鿿\w]+)\]', s)`: the group of every bracketed label.
      The class holds neither bracket, so the greedy run is the only run that can be followed
      by `]`. */
  function BracketMatches(s: string): (ms: seq<string>)
    ensures forall k :: 0 <= k < |ms| ==> IsLabel(ms[k])
    decreases |s|
  {
    if |s| == 0 then []
    else if s[0] == '[' then
      var n := Run(s[1..], IsWordChar);
      if n >= 1 && n + 1 < |s| && s[n + 1] == ']' then [s[1..n + 1]] + BracketMatches(s[n + 2..])
      else BracketMatches(s[1..])
    else BracketMatches(s[1..])
  }

  lemma {:induction false} ContainsSuffix(s: string, sub: string, k: nat)
    requires k <= |s| && Contains(s[k..], sub)
    ensures Contains(s, sub)
    decreases k
  {
    if k > 0 {
      assert s[1..][k - 1..] == s[k..];
      ContainsSuffix(s[1..], sub, k - 1);
    }
  }

  /** The label `m` stands between brackets somewhere in `s`. */
  predicate Bracketed(s: string, m: string) {
    Contains(s, "[" + m + "]")
  }

  lemma BracketedSuffix(s: string, m: string, k: nat)
    requires k <= |s| && Bracketed(s[k..], m)
    ensures Bracketed(s, m)
  {
    ContainsSuffix(s, "[" + m + "]", k);
  }

  lemma BracketedHead(s: string, n: nat)
    requires n + 1 < |s| && s[0] == '[' && s[n + 1] == ']'
    ensures Bracketed(s, s[1..n + 1])
  {
    assert s[0..n + 2] == "[" + s[1..n + 1] + "]";
    ContainsAt(s, "[" + s[1..n + 1] + "]", 0);
  }

  /** Every match is a label that really stands between brackets in `s`. */
  lemma {:induction false} BracketMatchesOccur(s: string)
    ensures forall k :: 0 <= k < |BracketMatches(s)| ==> Bracketed(s, BracketMatches(s)[k])
    decreases |s|
  {
    if s != [] {
      var j := BracketStepLength(s);
      BracketMatchesOccur(s[j..]);
      BracketOccurStep(s, j);
    }
  }

  lemma BracketOccurStep(s: string, j: nat)
    requires s != [] && j == BracketStepLength(s)
    requires forall k :: 0 <= k < |BracketMatches(s[j..])| ==> Bracketed(s[j..], BracketMatches(s[j..])[k])
    ensures forall k :: 0 <= k < |BracketMatches(s)| ==> Bracketed(s, BracketMatches(s)[k])
  {
    var rest := BracketMatches(s[j..]);
    forall k | 0 <= k < |rest| ensures Bracketed(s, rest[k]) {
      BracketedSuffix(s, rest[k], j);
    }
    if LabelAtStart(s) {
      var n := Run(s[1..], IsWordChar);
      assert j == n + 2;
      assert BracketMatches(s) == [s[1..n + 1]] + rest;
      BracketedHead(s, n);
    } else {
      assert j == 1;
      assert BracketMatches(s) == rest;
    }
  }

  /** A label the pattern's group can match: one or more characters of the class. */
  predicate IsLabel(m: string) {
    |m| >= 1 && forall i :: 0 <= i < |m| ==> IsWordChar(m[i])
  }

  /** Without an opening bracket there is nothing to match. */
  lemma {:induction false} NoBracketNoMatches(s: string)
    requires '[' !in s
    ensures BracketMatches(s) == []
    decreases |s|
  {
    if s != [] {
      assert s[0] != '[' && '[' !in s[1..];
      NoBracketNoMatches(s[1..]);
    }
  }

  /** The scan of `re.findall` finds a match at the start of `a`: an opening bracket, a label,
      and the closing bracket. */
  predicate LabelAtStart(a: string) {
    var n := if a == [] then 0 else Run(a[1..], IsWordChar);
    a != [] && a[0] == '[' && n >= 1 && n + 1 < |a| && a[n + 1] == ']'
  }

  /** Matching starts afresh after a cut before a character that can neither continue a label
      nor close one: no match reaches across it. */
  lemma {:induction false} BracketConcat(a: string, t: string)
    requires t == [] || (!IsWordChar(t[0]) && t[0] != ']')
    ensures BracketMatches(a + t) == BracketMatches(a) + BracketMatches(t)
    decreases |a|
  {
    if a == [] {
      assert a + t == t;
    } else if LabelAtStart(a) {
      var n := Run(a[1..], IsWordChar);
      BracketConcat(a[n + 2..], t);
      BracketStepLabel(a, t, n);
    } else {
      BracketConcat(a[1..], t);
      BracketStepSkip(a, t);
    }
  }

  /** How far one step of the scan of `BracketMatches` moves: past the closing bracket of a
      match, or by one character. */
  function BracketStepLength(a: string): (k: nat)
    requires a != []
    ensures 1 <= k <= |a|
  {
    if LabelAtStart(a) then Run(a[1..], IsWordChar) + 2 else 1
  }

  /** The step of `BracketConcat` at a match: the scans of `a + t` and of `a` both emit the
      label, so the claim for the rest after `]` gives the claim for `a`. */
  lemma BracketStepLabel(a: string, t: string, n: nat)
    requires LabelAtStart(a) && n == Run(a[1..], IsWordChar)
    requires t == [] || (!IsWordChar(t[0]) && t[0] != ']')
    requires BracketMatches(a[n + 2..] + t) == BracketMatches(a[n + 2..]) + BracketMatches(t)
    ensures BracketMatches(a + t) == BracketMatches(a) + BracketMatches(t)
  {
    BracketScanLabel(a, t, n);
    BracketHead(a, n);
    ConsSplits([a[1..n + 1]], BracketMatches(a + t), BracketMatches(a[n + 2..] + t), BracketMatches(a),
               BracketMatches(a[n + 2..]), BracketMatches(t));
  }

  /** At a match, the scan of `a + t` emits the label and goes on after `]`. */
  lemma BracketScanLabel(a: string, t: string, n: nat)
    requires LabelAtStart(a) && n == Run(a[1..], IsWordChar)
    requires t == [] || (!IsWordChar(t[0]) && t[0] != ']')
    ensures n + 2 <= |a|
    ensures BracketMatches(a + t) == [a[1..n + 1]] + BracketMatches(a[n + 2..] + t)
  {
    var s := a + t;
    SliceConcat(a, t, 1);
    RunConcat(a[1..], t, IsWordChar);
    assert Run(s[1..], IsWordChar) == n;
    SubConcat(a, t, 1, n + 1);
    SliceConcat(a, t, n + 2);
    assert s[0] == a[0] && s[n + 1] == a[n + 1];
  }

  lemma BracketHead(a: string, n: nat)
    requires LabelAtStart(a) && n == Run(a[1..], IsWordChar)
    ensures n + 2 <= |a|
    ensures BracketMatches(a) == [a[1..n + 1]] + BracketMatches(a[n + 2..])
  {
  }

  /** The step of `BracketConcat` where no match starts: both scans move on by one
      character. */
  lemma BracketStepSkip(a: string, t: string)
    requires a != [] && !LabelAtStart(a)
    requires t == [] || (!IsWordChar(t[0]) && t[0] != ']')
    requires BracketMatches(a[1..] + t) == BracketMatches(a[1..]) + BracketMatches(t)
    ensures BracketMatches(a + t) == BracketMatches(a) + BracketMatches(t)
  {
    BracketSkip(a, t);
  }

  lemma BracketSkip(a: string, t: string)
    requires a != [] && !LabelAtStart(a)
    requires t == [] || (!IsWordChar(t[0]) && t[0] != ']')
    ensures BracketMatches(a + t) == BracketMatches(a[1..] + t)
    ensures BracketMatches(a) == BracketMatches(a[1..])
  {
    var s := a + t;
    SliceConcat(a, t, 1);
    assert s[0] == a[0];
    if a[0] == '[' {
      var n := Run(s[1..], IsWordChar);
      RunConcat(a[1..], t, IsWordChar);
      assert t != [] ==> Run(t, IsWordChar) == 0;
      assert n == Run(a[1..], IsWordChar);
      assert !(n >= 1 && n + 1 < |s| && s[n + 1] == ']') by {
        if n + 1 >= |a| {
          assert n + 1 == |a|;
          assert t != [] ==> s[n + 1] == t[0];
        } else {
          assert s[n + 1] == a[n + 1];
        }
      }
    }
  }

  /** A bracketed label is matched, and matching goes on after its closing bracket. */
  lemma BracketLabel(m: string, b: string)
    requires IsLabel(m)
    ensures BracketMatches("[" + m + "]" + b) == [m] + BracketMatches(b)
  {
    var s := "[" + m + "]" + b;
    var y := "]" + b;
    assert s[1..] == m + y;
    RunConcat(m, y, IsWordChar);
    assert Run(m, IsWordChar) == |m|;
    assert Run(y, IsWordChar) == 0;
    var n := |m|;
    assert s[n + 1] == ']' && s[1..n + 1] == m && s[n + 2..] == b;
  }

  /** `re.findall` finds every bracketed label, in order of appearance: a label between the
      text `a` before it and the text `b` after it comes after the matches in `a` and before
      those in `b`. */
  lemma BracketMatchesAroundLabel(a: string, m: string, b: string)
    requires IsLabel(m)
    ensures BracketMatches(a + "[" + m + "]" + b) == BracketMatches(a) + [m] + BracketMatches(b)
  {
    var t := "[" + m + "]" + b;
    assert a + "[" + m + "]" + b == a + t;
    BracketConcat(a, t);
    BracketLabel(m, b);
    ConcatAssoc(BracketMatches(a), [m], BracketMatches(b));
  }

  function LongOnly(ms: seq<string>): (r: seq<string>)
    ensures forall k :: 0 <= k < |r| ==> |r[k]| >= 2
    ensures forall w :: w in r <==> w in ms && |w| >= 2
  {
    if ms == [] then []
    else
      assert ms == [ms[0]] + ms[1..];
      (if |ms[0]| >= 2 then [ms[0]] else []) + LongOnly(ms[1..])
  }

  /** `extract_hashtag_tags`: bracketed labels of at least two characters, in order. */
  function ExtractHashtagTags(text: string): (tags: seq<string>)
    ensures forall k :: 0 <= k < |tags| ==> |tags[k]| >= 2 && Bracketed(text, tags[k])
  {
    BracketMatchesOccur(text);
    var ms := BracketMatches(text);
    var r := LongOnly(ms);
    assert forall k :: 0 <= k < |r| ==> r[k] in ms;
    r
  }

  /** The comprehension keeps the long labels in their order, repeats included: around one
      label, the kept labels of the two sides and the label itself when it is long enough. */
  lemma {:induction false} LongOnlyAround(a: seq<string>, m: string, b: seq<string>)
    ensures LongOnly(a + [m] + b) == LongOnly(a) + (if |m| >= 2 then [m] else []) + LongOnly(b)
    decreases |a|
  {
    var s := a + [m] + b;
    var keep := if |m| >= 2 then [m] else [];
    if a == [] {
      assert s == [m] + b && s[0] == m && s[1..] == b;
    } else {
      assert s[0] == a[0] && s[1..] == a[1..] + [m] + b;
      LongOnlyAround(a[1..], m, b);
      var head := if |a[0]| >= 2 then [a[0]] else [];
      ConcatAssoc(head, LongOnly(a[1..]) + keep, LongOnly(b));
      ConcatAssoc(head, LongOnly(a[1..]), keep);
    }
  }

  /** `extract_hashtag_tags` returns every bracketed label of two characters or more, in order
      of appearance, and nothing for a text without an opening bracket. */
  lemma HashtagsAroundLabel(a: string, m: string, b: string)
    requires IsLabel(m)
    ensures ExtractHashtagTags(a + "[" + m + "]" + b) ==
      ExtractHashtagTags(a) + (if |m| >= 2 then [m] else []) + ExtractHashtagTags(b)
    ensures '[' !in b ==> ExtractHashtagTags(b) == []
  {
    BracketMatchesAroundLabel(a, m, b);
    LongOnlyAround(BracketMatches(a), m, BracketMatches(b));
    if '[' !in b {
      NoBracketNoMatches(b);
    }
  }

  /** `re.findall(r'[一-鿿]{2,4}', s)`: a CJK run is cut into pieces of four, the
      last piece kept if it has at least two characters. */
  function CjkWords(s: string): (ws: seq<string>)
    ensures forall k :: 0 <= k < |ws| ==> 2 <= |ws[k]| <= 4 && forall i :: 0 <= i < |ws[k]| ==> IsCjk(ws[k][i])
    decreases |s|
  {
    if |s| == 0 then []
    else
      var n := Run(s, IsCjk);
      if n >= 2 then
        var m := if n < 4 then n else 4;
        [s[..m]] + CjkWords(s[m..])
      else CjkWords(s[1..])
  }

  /** `re.findall(r'[a-zA-Z]{2,}', s)`: ASCII letter runs of length at least two. */
  function EnglishWords(s: string): (ws: seq<string>)
    ensures forall k :: 0 <= k < |ws| ==> |ws[k]| >= 2 && forall i :: 0 <= i < |ws[k]| ==> IsAsciiLetter(ws[k][i])
    decreases |s|
  {
    if |s| == 0 then []
    else
      var n := Run(s, IsAsciiLetter);
      if n >= 2 then [s[..n]] + EnglishWords(s[n..]) else EnglishWords(s[1..])
  }

  /** How far one step of the scan of `CjkWords` moves: over the piece found at the start of
      `s`, or by one character when no piece starts there. */
  function CjkStepLength(s: string): nat {
    var n := Run(s, IsCjk);
    if n >= 2 then (if n < 4 then n else 4) else 1
  }

  /** The piece found at the start of `s`, if any. */
  function CjkHead(s: string): seq<string>
    requires CjkStepLength(s) <= |s|
  {
    if Run(s, IsCjk) >= 2 then [s[..CjkStepLength(s)]] else []
  }

  /** One step of the scan over `a`, the same whether `[c] + b` follows or not. */
  lemma CjkScan(a: string, c: char, b: string)
    requires a != [] && !IsCjk(c)
    ensures CjkStepLength(a) <= |a|
    ensures CjkWords(a + [c] + b) == CjkHead(a) + CjkWords(a[CjkStepLength(a)..] + [c] + b)
    ensures CjkWords(a) == CjkHead(a) + CjkWords(a[CjkStepLength(a)..])
  {
    var y := [c] + b;
    ConcatAssoc(a, [c], b);
    RunConcat(a, y, IsCjk);
    assert y[0] == c;
    assert Run(y, IsCjk) == 0;
    var m := CjkStepLength(a);
    SliceConcat(a, y, m);
    ConcatAssoc(a[m..], [c], b);
  }

  lemma CjkStep(a: string, c: char, b: string)
    requires a != [] && !IsCjk(c)
    requires CjkStepLength(a) <= |a|
    requires CjkWords(a[CjkStepLength(a)..] + [c] + b) == CjkWords(a[CjkStepLength(a)..]) + CjkWords(b)
    ensures CjkWords(a + [c] + b) == CjkWords(a) + CjkWords(b)
  {
    CjkScan(a, c, b);
    var m := CjkStepLength(a);
    ConcatAssoc(CjkHead(a), CjkWords(a[m..]), CjkWords(b));
  }

  /** No piece reaches across a character outside the CJK block: the pieces on either side of
      one are the pieces of the two parts. */
  lemma {:induction false} CjkWordsSplit(a: string, c: char, b: string)
    requires !IsCjk(c)
    ensures CjkWords(a + [c] + b) == CjkWords(a) + CjkWords(b)
    decreases |a|
  {
    if a == [] {
      var s := a + [c] + b;
      assert s == [c] + b && s[1..] == b && Run(s, IsCjk) == 0;
    } else {
      CjkScan(a, c, b);
      CjkWordsSplit(a[CjkStepLength(a)..], c, b);
      CjkStep(a, c, b);
    }
  }

  /** A run of CJK characters is cut left to right into pieces of four; a last piece of two or
      three is kept, one of a single character dropped. */
  lemma {:induction false} CjkRunPieces(s: string)
    requires forall i :: 0 <= i < |s| ==> IsCjk(s[i])
    ensures |CjkWords(s)| == |s| / 4 + (if |s| % 4 >= 2 then 1 else 0)
    ensures forall k :: 0 <= k < |CjkWords(s)| ==>
      CjkWords(s)[k] == s[4 * k..if 4 * k + 4 <= |s| then 4 * k + 4 else |s|]
    decreases |s|
  {
    assert Run(s, IsCjk) == |s|;
    if |s| == 1 {
      assert s[1..] == [];
    } else if 2 <= |s| <= 4 {
      assert s[..|s|] == s && s[|s|..] == [];
    } else if |s| > 4 {
      var r := s[4..];
      CjkRunPieces(r);
      CjkRunPiecesStep(s);
    }
  }

  lemma CjkRunPiecesStep(s: string)
    requires |s| > 4 && forall i :: 0 <= i < |s| ==> IsCjk(s[i])
    requires var r := s[4..];
      && |CjkWords(r)| == |r| / 4 + (if |r| % 4 >= 2 then 1 else 0)
      && forall k :: 0 <= k < |CjkWords(r)| ==> CjkWords(r)[k] == r[4 * k..if 4 * k + 4 <= |r| then 4 * k + 4 else |r|]
    ensures |CjkWords(s)| == |s| / 4 + (if |s| % 4 >= 2 then 1 else 0)
    ensures forall k :: 0 <= k < |CjkWords(s)| ==>
      CjkWords(s)[k] == s[4 * k..if 4 * k + 4 <= |s| then 4 * k + 4 else |s|]
  {
    var r := s[4..];
    assert Run(s, IsCjk) == |s|;
    assert CjkWords(s) == [s[..4]] + CjkWords(r);
    assert |r| / 4 == |s| / 4 - 1 && |r| % 4 == |s| % 4;
    CjkRunPiecesShift(s, CjkWords(s), CjkWords(r));
  }

  /** The pieces of `s` are its first four characters, then the pieces of the rest, each four
      further on. */
  lemma CjkRunPiecesShift(s: string, ws: seq<string>, rs: seq<string>)
    requires |s| > 4 && ws == [s[..4]] + rs
    requires var r := s[4..];
      && |rs| == |r| / 4 + (if |r| % 4 >= 2 then 1 else 0)
      && forall k :: 0 <= k < |rs| ==> rs[k] == r[4 * k..if 4 * k + 4 <= |r| then 4 * k + 4 else |r|]
    ensures forall k :: 0 <= k < |ws| ==> ws[k] == s[4 * k..if 4 * k + 4 <= |s| then 4 * k + 4 else |s|]
  {
    var r := s[4..];
    forall k | 0 <= k < |ws|
      ensures ws[k] == s[4 * k..if 4 * k + 4 <= |s| then 4 * k + 4 else |s|]
    {
      if k > 0 {
        assert ws[k] == rs[k - 1];
        var hi := if 4 * k + 4 <= |s| then 4 * k + 4 else |s|;
        assert r[4 * (k - 1)..hi - 4] == s[4 * k..hi];
      }
    }
  }

  /** How far one step of the scan of `EnglishWords` moves. */
  function EnglishStepLength(s: string): nat {
    var n := Run(s, IsAsciiLetter);
    if n >= 2 then n else 1
  }

  function EnglishHead(s: string): seq<string>
    requires EnglishStepLength(s) <= |s|
  {
    if Run(s, IsAsciiLetter) >= 2 then [s[..EnglishStepLength(s)]] else []
  }

  lemma EnglishScan(a: string, c: char, b: string)
    requires a != [] && !IsAsciiLetter(c)
    ensures EnglishStepLength(a) <= |a|
    ensures EnglishWords(a + [c] + b) == EnglishHead(a) + EnglishWords(a[EnglishStepLength(a)..] + [c] + b)
    ensures EnglishWords(a) == EnglishHead(a) + EnglishWords(a[EnglishStepLength(a)..])
  {
    var y := [c] + b;
    ConcatAssoc(a, [c], b);
    RunConcat(a, y, IsAsciiLetter);
    assert y[0] == c;
    assert Run(y, IsAsciiLetter) == 0;
    var m := EnglishStepLength(a);
    SliceConcat(a, y, m);
    ConcatAssoc(a[m..], [c], b);
  }

  lemma EnglishStep(a: string, c: char, b: string)
    requires a != [] && !IsAsciiLetter(c)
    requires EnglishStepLength(a) <= |a|
    requires EnglishWords(a[EnglishStepLength(a)..] + [c] + b) == EnglishWords(a[EnglishStepLength(a)..]) + EnglishWords(b)
    ensures EnglishWords(a + [c] + b) == EnglishWords(a) + EnglishWords(b)
  {
    EnglishScan(a, c, b);
    var m := EnglishStepLength(a);
    ConcatAssoc(EnglishHead(a), EnglishWords(a[m..]), EnglishWords(b));
  }

  /** No English word reaches across a character that is not an ASCII letter. */
  lemma {:induction false} EnglishWordsSplit(a: string, c: char, b: string)
    requires !IsAsciiLetter(c)
    ensures EnglishWords(a + [c] + b) == EnglishWords(a) + EnglishWords(b)
    decreases |a|
  {
    if a == [] {
      var s := a + [c] + b;
      assert s == [c] + b && s[1..] == b && Run(s, IsAsciiLetter) == 0;
    } else {
      EnglishScan(a, c, b);
      EnglishWordsSplit(a[EnglishStepLength(a)..], c, b);
      EnglishStep(a, c, b);
    }
  }

  /** A run of ASCII letters is one English word when it has two letters or more, and none
      otherwise: the pattern is greedy. */
  lemma EnglishRunWord(s: string)
    requires forall i :: 0 <= i < |s| ==> IsAsciiLetter(s[i])
    ensures EnglishWords(s) == if |s| >= 2 then [s] else []
  {
    assert Run(s, IsAsciiLetter) == |s|;
    if |s| == 1 {
      assert s[1..] == [];
    } else if |s| >= 2 {
      assert s[..|s|] == s && s[|s|..] == [];
    }
  }

  /** A CJK candidate: two to four CJK characters. */
  predicate IsCjkPiece(w: string) {
    2 <= |w| <= 4 && forall i :: 0 <= i < |w| ==> IsCjk(w[i])
  }

  /** A candidate word: two to four CJK characters, or two or more ASCII letters. */
  predicate IsCandidate(w: string) {
    IsCjkPiece(w) || (|w| >= 2 && forall i :: 0 <= i < |w| ==> IsAsciiLetter(w[i]))
  }

  /** `all_words`: the CJK words, then the English words. */
  function Candidates(text: string): (ws: seq<string>)
    ensures forall k :: 0 <= k < |ws| ==> IsCandidate(ws[k])
    ensures forall i, j :: 0 <= i < j < |ws| && IsCjkPiece(ws[j]) ==> IsCjkPiece(ws[i])
  {
    var c := CjkWords(text);
    var e := EnglishWords(text);
    assert forall k :: 0 <= k < |c| + |e| ==> (c + e)[k] == if k < |c| then c[k] else e[k - |c|];
    assert forall k :: 0 <= k < |c| ==> IsCjkPiece(c[k]);
    assert forall k :: 0 <= k < |e| ==> !IsCjkPiece(e[k]) by {
      forall k | 0 <= k < |e| ensures !IsCjkPiece(e[k]) {
        assert IsAsciiLetter(e[k][0]);
      }
    }
    c + e
  }

  /** At a character that is neither CJK nor an ASCII letter, the candidates split: the CJK
      pieces of both sides, in order, and then the English words of both sides. */
  lemma CandidatesSplit(a: string, c: char, b: string)
    requires !IsCjk(c) && !IsAsciiLetter(c)
    ensures Candidates(a + [c] + b) == CjkWords(a) + CjkWords(b) + (EnglishWords(a) + EnglishWords(b))
  {
    CjkWordsSplit(a, c, b);
    EnglishWordsSplit(a, c, b);
  }

  /** The stop-word test of the filter loop: neither the word nor its lower-case form is a stop
      word, and no stop word occurs inside it. */
  predicate Admissible(w: string, stop: set<string>) {
    w !in stop && Lower(w) !in stop && !(exists sw :: sw in stop && Contains(w, sw))
  }

  /** `filtered_words`: the admissible words, in order, repetitions kept. */
  function Filtered(ws: seq<string>, stop: set<string>): (r: seq<string>)
    ensures forall k :: 0 <= k < |r| ==> Admissible(r[k], stop)
    ensures forall w :: w in r <==> w in ws && Admissible(w, stop)
    ensures forall w :: Admissible(w, stop) ==> Count(r, w) == Count(ws, w)
  {
    if ws == [] then []
    else
      var init := ws[..|ws| - 1];
      var last := ws[|ws| - 1];
      assert ws == init + [last];
      Filtered(init, stop) + (if Admissible(last, stop) then [last] else [])
  }

  /** The filter loop keeps the admissible words in their order, repeats included: it works
      on the two parts of a concatenation separately. */
  lemma {:induction false} FilteredConcat(a: seq<string>, b: seq<string>, stop: set<string>)
    ensures Filtered(a + b, stop) == Filtered(a, stop) + Filtered(b, stop)
    decreases |b|
  {
    if b == [] {
      assert a + b == a;
    } else {
      var n := |b| - 1;
      FilteredConcat(a, b[..n], stop);
      FilteredStep(a, b, stop);
    }
  }

  lemma FilteredStep(a: seq<string>, b: seq<string>, stop: set<string>)
    requires b != []
    requires Filtered(a + b[..|b| - 1], stop) == Filtered(a, stop) + Filtered(b[..|b| - 1], stop)
    ensures Filtered(a + b, stop) == Filtered(a, stop) + Filtered(b, stop)
  {
    var n := |b| - 1;
    var last := b[n];
    var keep := if Admissible(last, stop) then [last] else [];
    ConcatDropLast(a, b);
    assert Filtered(b, stop) == Filtered(b[..n], stop) + keep;
    ConcatAssoc(Filtered(a, stop), Filtered(b[..n], stop), keep);
  }

  /** Around one word: the admissible words before it, the word itself when it is admissible,
      and the admissible words after it. */
  lemma FilteredAround(a: seq<string>, w: string, b: seq<string>, stop: set<string>)
    ensures Filtered(a + [w] + b, stop) ==
      Filtered(a, stop) + (if Admissible(w, stop) then [w] else []) + Filtered(b, stop)
  {
    FilteredConcat(a + [w], b, stop);
    assert (a + [w])[..|a|] == a;
  }

  /** Python's `s[:n]`, a negative `n` counting from the end. */
  function PyPrefix(s: seq<string>, n: int): (r: seq<string>)
    ensures r <= s
    ensures n >= 0 ==> |r| == if n < |s| then n else |s|
    ensures n < 0 ==> |r| == if |s| + n > 0 then |s| + n else 0
  {
    if n >= 0 then Take(s, n) else if |s| + n > 0 then s[..|s| + n] else []
  }

  /** What `extract_tags(text, max_tags)` returns. */
  function Tags(text: string, maxTags: int): seq<string> {
    var t := Strip(text);
    if t == [] then []
    else
      var hashtags := ExtractHashtagTags(t);
      if |hashtags| >= maxTags then PyPrefix(hashtags, maxTags)
      else
        var filtered := Filtered(Candidates(t), STOPWORDS);
        if filtered == [] then hashtags else Merge(hashtags, Ranked(filtered), maxTags)
  }

  /** The filter loop of `extract_tags`, over the stop words `stop`. */
  method FilterStopwords(allWords: seq<string>, stop: set<string>) returns (filtered: seq<string>)
    ensures filtered == Filtered(allWords, stop)
  {
    filtered := [];
    var i := 0;
    while i < |allWords|
      invariant 0 <= i <= |allWords|
      invariant filtered == Filtered(allWords[..i], stop)
    {
      var word := allWords[i];
      assert allWords[..i + 1][..i] == allWords[..i];
      if Admissible(word, stop) {
        filtered := filtered + [word];
      }
      i := i + 1;
    }
    assert allWords[..i] == allWords;
  }

  /** `extract_tags(text, max_tags)` */
  method ExtractTags(text: string, maxTags: int) returns (tags: seq<string>)
    ensures tags == Tags(text, maxTags)
  {
    var t := Strip(text);
    if t == [] {
      return [];
    }
    var hashtags := ExtractHashtagTags(t);
    if |hashtags| >= maxTags {
      return PyPrefix(hashtags, maxTags);
    }
    var allWords := Candidates(t);
    var filtered := FilterStopwords(allWords, STOPWORDS);
    if filtered == [] {
      return hashtags;
    }
    var sortedWords := Ranked(filtered);
    tags := MergeUnseen(hashtags, sortedWords, maxTags);
  }


  predicate StartsCjk(w: string) {
    |w| > 0 && IsCjk(w[0])
  }

  /** Every stop word starts with a CJK character. */
  lemma StopwordStartsCjk(sw: string)
    requires sw in STOPWORDS
    ensures StartsCjk(sw)
  {
    StopwordLine0();
    StopwordLine1();
    StopwordLine2();
    StopwordLine3();
  }

  lemma StopwordLine0()
    ensures forall sw :: sw in STOPWORDS_LINE0 ==> StartsCjk(sw)
  {
  }

  lemma StopwordLine1()
    ensures forall sw :: sw in STOPWORDS_LINE1 ==> StartsCjk(sw)
  {
  }

  lemma StopwordLine2()
    ensures forall sw :: sw in STOPWORDS_LINE2 ==> StartsCjk(sw)
  {
  }

  lemma StopwordLine3()
    ensures forall sw :: sw in STOPWORDS_LINE3 ==> StartsCjk(sw)
  {
  }

  lemma {:induction false} ContainsIndex(s: string, sub: string) returns (k: nat)
    requires Contains(s, sub) && |sub| > 0
    ensures k < |s| && s[k] == sub[0]
  {
    if sub <= s {
      k := 0;
    } else {
      k := ContainsIndex(s[1..], sub);
      k := k + 1;
    }
  }

  /** When every stop word starts with a CJK character, a word of ASCII letters passes the
      filter. */
  lemma AsciiWordAdmissible(w: string, stop: set<string>)
    requires forall i :: 0 <= i < |w| ==> IsAsciiLetter(w[i])
    requires forall sw :: sw in stop ==> StartsCjk(sw)
    ensures Admissible(w, stop)
  {
    forall sw | sw in stop ensures !Contains(w, sw) {
      if Contains(w, sw) {
        var k := ContainsIndex(w, sw);
      }
    }
    if w != [] {
      assert IsAsciiLetter(w[0]) && IsAsciiLetter(Lower(w)[0]);
    }
  }

  /** English candidates are never dropped by the stop-word filter. */
  lemma EnglishWordsAdmissible(w: string)
    requires forall i :: 0 <= i < |w| ==> IsAsciiLetter(w[i])
    ensures Admissible(w, STOPWORDS)
  {
    forall sw | sw in STOPWORDS ensures StartsCjk(sw) {
      StopwordStartsCjk(sw);
    }
    AsciiWordAdmissible(w, STOPWORDS);
  }

  /** The filter also rejects a word that merely contains a stop word. */
  lemma ContainedStopwordRejected()
    ensures !Admissible("可以做", STOPWORDS)
  {
    assert "可以" in STOPWORDS;
    ContainsAt("可以做", "可以", 0);
  }

  /** With `max_tags` bracketed labels or more, the result is the first `max_tags` of them. */
  lemma TagsWhenHashtagsSuffice(text: string, maxTags: nat)
    requires Strip(text) != [] && |ExtractHashtagTags(Strip(text))| >= maxTags
    ensures Tags(text, maxTags) == ExtractHashtagTags(Strip(text))[..maxTags]
  {
  }

  lemma FilteredCandidate(t: string, w: string, stop: set<string>)
    requires w in Filtered(Candidates(t), stop)
    ensures w in Candidates(t) && IsCandidate(w) && Admissible(w, stop)
  {
    var k :| 0 <= k < |Candidates(t)| && Candidates(t)[k] == w;
  }

  /** The result of `extract_tags` for a non-blank text when the bracketed labels do not fill
      it: the labels first, in order; then at most `max_tags` minus their number further
      candidate words of the text that pass the stop-word filter, each once, none of them a
      label, by decreasing frequency among the filtered words (ties in order of first
      occurrence); and if the result is not full, every filtered word is in it. */
  lemma TagsFrequencyRanked(text: string, maxTags: int)
    requires Strip(text) != []
    requires |ExtractHashtagTags(Strip(text))| < maxTags
    ensures var t := Strip(text);
      var hashtags := ExtractHashtagTags(t);
      var words := Filtered(Candidates(t), STOPWORDS);
      var r := Tags(text, maxTags);
      && |r| <= maxTags
      && hashtags <= r
      && Distinct(r[|hashtags|..])
      && (forall i :: |hashtags| <= i < |r| ==>
            r[i] !in hashtags && r[i] in Candidates(t) && IsCandidate(r[i]) && Admissible(r[i], STOPWORDS))
      && RankOrdered(words, r[|hashtags|..])
      && (|r| < maxTags ==> forall w :: w in words ==> w in r)
  {
    var t := Strip(text);
    var hashtags := ExtractHashtagTags(t);
    var words := Filtered(Candidates(t), STOPWORDS);
    var r := Tags(text, maxTags);
    if words != [] {
      MergeOfRanked(hashtags, words, maxTags);
      forall i | |hashtags| <= i < |r|
        ensures r[i] !in hashtags && r[i] in Candidates(t) && IsCandidate(r[i]) && Admissible(r[i], STOPWORDS)
      {
        FilteredCandidate(t, r[i], STOPWORDS);
      }
    }
  }

  lemma {:induction false} NoLabelsInLetters(s: string)
    requires forall i :: 0 <= i < |s| ==> IsAsciiLetter(s[i])
    ensures BracketMatches(s) == []
    decreases |s|
  {
    if |s| > 0 {
      NoLabelsInLetters(s[1..]);
    }
  }

  lemma {:induction false} NoCjkWordsInLetters(s: string)
    requires forall i :: 0 <= i < |s| ==> IsAsciiLetter(s[i])
    ensures CjkWords(s) == []
    decreases |s|
  {
    if |s| > 0 {
      assert !IsCjk(s[0]);
      NoCjkWordsInLetters(s[1..]);
    }
  }

  lemma StripLetters(w: string)
    requires |w| > 0 && forall i :: 0 <= i < |w| ==> IsAsciiLetter(w[i])
    ensures Strip(w) == w
  {
    assert !IsSpace(w[0]) && !IsSpace(w[|w| - 1]);
    assert StripRight(w) == w;
  }

  lemma LettersCandidates(w: string)
    requires |w| >= 2 && forall i :: 0 <= i < |w| ==> IsAsciiLetter(w[i])
    ensures Candidates(w) == [w]
    ensures ExtractHashtagTags(w) == []
  {
    NoLabelsInLetters(w);
    NoCjkWordsInLetters(w);
    assert Run(w, IsAsciiLetter) == |w|;
    assert w[|w|..] == [] && w[..|w|] == w;
    assert EnglishWords(w) == [w] + EnglishWords([]);
  }

  lemma RankedSingle(w: string)
    ensures Ranked([w]) == [w]
  {
    assert [w][..0] == [];
    assert Dedup([w]) == [w];
  }

  /** A text that is a single English word is tagged with exactly that word. */
  lemma SingleEnglishWord(w: string)
    requires |w| >= 2 && forall i :: 0 <= i < |w| ==> IsAsciiLetter(w[i])
    ensures Tags(w, 10) == [w]
  {
    StripLetters(w);
    LettersCandidates(w);
    EnglishWordsAdmissible(w);
    FilteredSingle(w, STOPWORDS);
    RankedSingle(w);
    assert Merge([], [w], 10) == [w];
  }

  lemma FilteredSingle(w: string, stop: set<string>)
    requires Admissible(w, stop)
    ensures Filtered([w], stop) == [w]
  {
    assert [w][..0] == [];
  }

  /** `extract_tags(text, max_tags)` never returns more than `max_tags` tags. */
  lemma TagsBounded(text: string, maxTags: nat)
    ensures |Tags(text, maxTags)| <= maxTags
  {
    var t := Strip(text);
    if t != [] && |ExtractHashtagTags(t)| < maxTags {
      TagsFrequencyRanked(text, maxTags);
    }
  }
}
