/** Python `str` behaviour that the core relies on, over Dafny strings.
    A Dafny `string` is a sequence of Unicode scalar values, so `|s|` is Python's `len(s)`
    and `s[i]` is a one-character Python string. */
module PyStr {

  /** The characters Python's `str.isspace()` accepts: what `strip()` removes and what
      `split()` without arguments splits on. */
  predicate IsSpace(c: char) {
    ('\U{9}' <= c <= '\U{D}') || ('\U{1C}' <= c <= '\U{20}') || c == '\U{85}' || c == '\U{A0}'
    || c == '\U{1680}' || ('\U{2000}' <= c <= '\U{200A}') || c == '\U{2028}' || c == '\U{2029}'
    || c == '\U{202F}' || c == '\U{205F}' || c == '\U{3000}'
  }

  /** `s.lstrip()` */
  function StripLeft(s: string): (r: string)
    ensures |r| <= |s| && r == s[|s| - |r|..]
    ensures forall i :: 0 <= i < |s| - |r| ==> IsSpace(s[i])
    ensures r == [] || !IsSpace(r[0])
  {
    if |s| > 0 && IsSpace(s[0]) then StripLeft(s[1..]) else s
  }

  /** `s.rstrip()` */
  function StripRight(s: string): (r: string)
    ensures |r| <= |s| && r == s[..|r|]
    ensures forall i :: |r| <= i < |s| ==> IsSpace(s[i])
    ensures r == [] || !IsSpace(r[|r| - 1])
  {
    if |s| > 0 && IsSpace(s[|s| - 1]) then StripRight(s[..|s| - 1]) else s
  }

  /** `s.strip()` */
  function Strip(s: string): string {
    StripLeft(StripRight(s))
  }

  /** `not s.strip()`: the string is empty or only whitespace. */
  predicate IsBlank(s: string) {
    |s| == 0 || (IsSpace(s[0]) && IsBlank(s[1..]))
  }

  lemma {:induction false} BlankIffAllSpace(s: string)
    ensures IsBlank(s) <==> forall i :: 0 <= i < |s| ==> IsSpace(s[i])
  {
    if |s| > 0 {
      BlankIffAllSpace(s[1..]);
      assert forall i :: 1 <= i < |s| ==> s[i] == s[1..][i - 1];
    }
  }

  /** Blank is exactly what `strip()` reduces to the empty string. */
  lemma BlankIffStripEmpty(s: string)
    ensures IsBlank(s) <==> Strip(s) == []
  {
    BlankIffAllSpace(s);
    var t := StripRight(s);
    if Strip(s) == [] {
      forall i | 0 <= i < |s| ensures IsSpace(s[i]) {
        if i < |t| {
          assert IsSpace(t[i]);
        }
      }
    } else {
      var r := Strip(s);
      var k := |t| - |r|;
      assert t[k] == r[0] && !IsSpace(s[k]);
    }
  }

  /** Stripping a string that starts and ends with non-whitespace, once one trailing blank
      is appended, gives the string back. */
  lemma StripTrailingBlank(s: string)
    requires s != [] && !IsSpace(s[0]) && !IsSpace(s[|s| - 1])
    ensures Strip(s + " ") == s
  {
    var t := s + " ";
    assert t[..|t| - 1] == s;
    assert StripRight(t) == StripRight(s) == s;
  }

  /** A word of `split()`: non-empty, with no whitespace in it. */
  predicate IsWord(w: string) {
    |w| > 0 && forall i :: 0 <= i < |w| ==> !IsSpace(w[i])
  }

  function LeadingWordLength(s: string): (n: nat)
    ensures n <= |s|
    ensures forall i :: 0 <= i < n ==> !IsSpace(s[i])
    ensures n < |s| ==> IsSpace(s[n])
  {
    if |s| == 0 || IsSpace(s[0]) then 0 else 1 + LeadingWordLength(s[1..])
  }

  /** `s.split()`: the maximal runs of non-whitespace, left to right. */
  function Words(s: string): (ws: seq<string>)
    ensures forall k :: 0 <= k < |ws| ==> IsWord(ws[k])
    decreases |s|
  {
    var t := StripLeft(s);
    if t == [] then []
    else
      var n := LeadingWordLength(t);
      LeadingWordIsWord(t);
      var rest := Words(t[n..]);
      AllWordsCons(t[..n], rest);
      [t[..n]] + rest
  }

  lemma AllWordsCons(w: string, rest: seq<string>)
    requires IsWord(w) && forall k :: 0 <= k < |rest| ==> IsWord(rest[k])
    ensures forall k :: 0 <= k < |[w] + rest| ==> IsWord(([w] + rest)[k])
  {
    forall k | 0 <= k < |[w] + rest| ensures IsWord(([w] + rest)[k]) {
      if k > 0 {
        assert ([w] + rest)[k] == rest[k - 1];
      }
    }
  }

  /** A string that starts with non-whitespace starts with a word. */
  lemma LeadingWordIsWord(t: string)
    requires t != [] && !IsSpace(t[0])
    ensures 0 < LeadingWordLength(t) && IsWord(t[..LeadingWordLength(t)])
  {
    var n := LeadingWordLength(t);
    assert forall i :: 0 <= i < n ==> t[..n][i] == t[i];
  }

  /** Whitespace in front of the text is skipped. */
  lemma WordsSkipSpace(s: string)
    requires s != [] && IsSpace(s[0])
    ensures Words(s) == Words(s[1..])
  {
    assert StripLeft(s) == StripLeft(s[1..]);
  }

  lemma {:induction false} LeadingWordConcat(x: string, y: string)
    ensures LeadingWordLength(x + y) ==
      if LeadingWordLength(x) < |x| then LeadingWordLength(x) else |x| + LeadingWordLength(y)
  {
    if x == [] {
      assert x + y == y;
    } else {
      assert (x + y)[0] == x[0];
      if !IsSpace(x[0]) {
        assert (x + y)[1..] == x[1..] + y;
        LeadingWordConcat(x[1..], y);
      }
    }
  }

  /** `split()` cuts at every whitespace character: the words on either side of one are the
      words of the two parts. */
  lemma {:induction false} WordsSplitAtSpace(a: string, c: char, b: string)
    requires IsSpace(c)
    ensures Words(a + [c] + b) == Words(a) + Words(b)
    decreases |a|
  {
    if a == [] {
      var s := a + [c] + b;
      assert s == [c] + b && s[1..] == b;
      WordsSkipSpace(s);
    } else {
      WordsSplitAtSpace(a[WordsStepLength(a)..], c, b);
      WordsSplitStep(a, c, b);
    }
  }

  /** How far one step of `split()` moves: over one whitespace character, or over a word. */
  function WordsStepLength(a: string): (k: nat)
    requires a != []
    ensures 1 <= k <= |a|
  {
    if IsSpace(a[0]) then 1 else LeadingWordLength(a)
  }

  lemma WordsSplitStep(a: string, c: char, b: string)
    requires IsSpace(c) && a != []
    requires Words(a[WordsStepLength(a)..] + [c] + b) == Words(a[WordsStepLength(a)..]) + Words(b)
    ensures Words(a + [c] + b) == Words(a) + Words(b)
  {
    if IsSpace(a[0]) {
      WordsSplitStepSpace(a, c, b);
    } else {
      WordsSplitStepWord(a, c, b);
    }
  }

  lemma WordsSplitStepSpace(a: string, c: char, b: string)
    requires IsSpace(c) && a != [] && IsSpace(a[0])
    requires Words(a[1..] + [c] + b) == Words(a[1..]) + Words(b)
    ensures Words(a + [c] + b) == Words(a) + Words(b)
  {
    var y := [c] + b;
    ConcatAssoc(a, [c], b);
    SliceConcat(a, y, 1);
    ConcatAssoc(a[1..], [c], b);
    var s := a + y;
    assert s[0] == a[0];
    WordsSkipSpace(s);
    WordsSkipSpace(a);
  }

  lemma WordsSplitStepWord(a: string, c: char, b: string)
    requires IsSpace(c) && a != [] && !IsSpace(a[0])
    requires var n := LeadingWordLength(a);
      Words(a[n..] + [c] + b) == Words(a[n..]) + Words(b)
    ensures Words(a + [c] + b) == Words(a) + Words(b)
  {
    var n := LeadingWordLength(a);
    WordsSplitAfterWord(a, c, b);
    ConcatAssoc([a[..n]], Words(a[n..]), Words(b));
  }

  /** The step of `WordsSplitAtSpace` at a leading word of `a`: the word is cut off both sides
      alike. */
  lemma WordsSplitAfterWord(a: string, c: char, b: string)
    requires IsSpace(c) && a != [] && !IsSpace(a[0])
    ensures 0 < LeadingWordLength(a)
    ensures Words(a + [c] + b) == [a[..LeadingWordLength(a)]] + Words(a[LeadingWordLength(a)..] + [c] + b)
    ensures Words(a) == [a[..LeadingWordLength(a)]] + Words(a[LeadingWordLength(a)..])
  {
    var y := [c] + b;
    ConcatAssoc(a, [c], b);
    var s := a + y;
    LeadingWordConcat(a, y);
    assert y[0] == c;
    assert LeadingWordLength(y) == 0;
    var n := LeadingWordLength(a);
    assert s[0] == a[0];
    WordsAtWord(s);
    WordsAtWord(a);
    SliceConcat(a, y, n);
    ConcatAssoc(a[n..], [c], b);
  }

  lemma SliceConcat<T>(x: seq<T>, y: seq<T>, n: int)
    requires 0 <= n <= |x|
    ensures (x + y)[..n] == x[..n] && (x + y)[n..] == x[n..] + y
  {
  }

  /** When a scan of `x + y` and a scan of `x` both emit `head` and then go on with what is
      left, and the rest splits, so does the whole. */
  lemma ConsSplits<T>(head: seq<T>, whole: seq<T>, restWhole: seq<T>, first: seq<T>, restFirst: seq<T>,
                      second: seq<T>)
    requires whole == head + restWhole && first == head + restFirst
    requires restWhole == restFirst + second
    ensures whole == first + second
  {
    ConcatAssoc(head, restFirst, second);
  }

  lemma SubConcat<T>(x: seq<T>, y: seq<T>, i: int, j: int)
    requires 0 <= i <= j <= |x|
    ensures (x + y)[i..j] == x[i..j]
  {
  }

  lemma ConcatAssoc<T>(x: seq<T>, y: seq<T>, z: seq<T>)
    ensures (x + y) + z == x + (y + z)
  {
  }

  lemma ConcatDropLast<T>(x: seq<T>, y: seq<T>)
    requires y != []
    ensures (x + y)[..|x + y| - 1] == x + y[..|y| - 1] && (x + y)[|x + y| - 1] == y[|y| - 1]
  {
  }

  /** A text that starts with a word: that word, then the words of the rest. */
  lemma WordsAtWord(s: string)
    requires s != [] && !IsSpace(s[0])
    ensures 0 < LeadingWordLength(s)
    ensures Words(s) == [s[..LeadingWordLength(s)]] + Words(s[LeadingWordLength(s)..])
  {
    assert StripLeft(s) == s;
  }

  /** A single word is split into itself. */
  lemma WordsOfWord(w: string)
    requires IsWord(w)
    ensures Words(w) == [w]
  {
    assert StripLeft(w) == w;
    assert LeadingWordLength(w) == |w|;
    assert w[..|w|] == w && w[|w|..] == [];
  }

  /** Whitespace alone has no words. */
  lemma WordsOfBlank(s: string)
    requires forall i :: 0 <= i < |s| ==> IsSpace(s[i])
    ensures Words(s) == []
  {
  }

  /** `sep.join(ws)` */
  function Join(ws: seq<string>, sep: string): string {
    if |ws| == 0 then "" else if |ws| == 1 then ws[0] else ws[0] + sep + Join(ws[1..], sep)
  }

  lemma JoinAppend(ws: seq<string>, w: string, sep: string)
    requires ws != []
    ensures Join(ws + [w], sep) == Join(ws, sep) + sep + w
  {
    if |ws| == 1 {
      assert ws + [w] == [ws[0], w];
    } else {
      assert (ws + [w])[1..] == ws[1..] + [w];
      JoinAppend(ws[1..], w, sep);
    }
  }

  lemma JoinConcat(a: seq<string>, b: seq<string>, sep: string)
    requires a != [] && b != []
    ensures Join(a + b, sep) == Join(a, sep) + sep + Join(b, sep)
  {
    if |a| == 1 {
      assert a + b == [a[0]] + b;
      assert (a + b)[1..] == b;
    } else {
      assert (a + b)[1..] == a[1..] + b;
      JoinConcat(a[1..], b, sep);
    }
  }

  /** Python's `lower()` on ASCII letters; every other character is left as it is. */
  function LowerChar(c: char): char {
    if 'A' <= c <= 'Z' then (c as int + 32) as char else c
  }

  function Lower(s: string): (r: string)
    ensures |r| == |s| && forall i :: 0 <= i < |s| ==> r[i] == LowerChar(s[i])
  {
    seq(|s|, i requires 0 <= i < |s| => LowerChar(s[i]))
  }

  /** `s.startswith(p)` */
  predicate StartsWith(s: string, p: string) {
    p <= s
  }

  /** `sub in s` for strings (substring test). */
  predicate Contains(s: string, sub: string) {
    sub <= s || (|s| > 0 && Contains(s[1..], sub))
  }

  lemma ContainsAt(s: string, sub: string, i: nat)
    requires i + |sub| <= |s| && s[i..i + |sub|] == sub
    ensures Contains(s, sub)
  {
    if i > 0 {
      assert s[1..][i - 1..i - 1 + |sub|] == sub;
      ContainsAt(s[1..], sub, i - 1);
    }
  }

  /** Python's ordering of strings: lexicographic by code point, a proper prefix first. */
  predicate LexLess(a: string, b: string) {
    if |a| == 0 then |b| > 0
    else if |b| == 0 then false
    else if a[0] != b[0] then a[0] < b[0]
    else LexLess(a[1..], b[1..])
  }

  lemma {:induction false} LexIrreflexive(a: string)
    ensures !LexLess(a, a)
  {
    if |a| > 0 { LexIrreflexive(a[1..]); }
  }

  lemma {:induction false} LexTransitive(a: string, b: string, c: string)
    requires LexLess(a, b) && LexLess(b, c)
    ensures LexLess(a, c)
  {
    if |a| > 0 && a[0] == b[0] && b[0] == c[0] {
      LexTransitive(a[1..], b[1..], c[1..]);
    }
  }

  lemma {:induction false} LexTotal(a: string, b: string)
    ensures a == b || LexLess(a, b) || LexLess(b, a)
  {
    if |a| > 0 && |b| > 0 && a[0] == b[0] {
      LexTotal(a[1..], b[1..]);
      if a[1..] == b[1..] {
        assert a == [a[0]] + a[1..] && b == [b[0]] + b[1..];
      }
    }
  }

  lemma {:induction false} LexAsymmetric(a: string, b: string)
    requires LexLess(a, b)
    ensures !LexLess(b, a)
  {
    if |a| > 0 && |b| > 0 && a[0] == b[0] {
      LexAsymmetric(a[1..], b[1..]);
    }
  }

  /** Elements in strictly increasing order of their keys (which are therefore distinct). */
  ghost predicate StrictlySortedBy<T>(s: seq<T>, key: T -> string) {
    forall i, j {:trigger LexLess(key(s[i]), key(s[j]))} :: 0 <= i < j < |s| ==> LexLess(key(s[i]), key(s[j]))
  }

  /** Two positions of a strictly sorted sequence are in order. */
  lemma SortedAt<T>(s: seq<T>, key: T -> string, i: int, j: int)
    requires StrictlySortedBy(s, key) && 0 <= i < j < |s|
    ensures LexLess(key(s[i]), key(s[j]))
  {
    assert LexLess(key(s[i]), key(s[j]));
  }

  /** One step of insertion sort by key. */
  function InsertByKey<T>(x: T, s: seq<T>, key: T -> string): seq<T> {
    if s == [] || LexLess(key(x), key(s[0])) then [x] + s else [s[0]] + InsertByKey(x, s[1..], key)
  }

  /** Sorting by key, as `sorted(..., key=...)` does when the keys are distinct. */
  function SortByKey<T>(s: seq<T>, key: T -> string): seq<T> {
    if s == [] then [] else InsertByKey(s[0], SortByKey(s[1..], key), key)
  }

  lemma {:induction false} InsertByKeySorted<T>(x: T, s: seq<T>, key: T -> string)
    requires StrictlySortedBy(s, key)
    requires forall e :: e in s ==> key(e) != key(x)
    ensures StrictlySortedBy(InsertByKey(x, s, key), key)
    ensures multiset(InsertByKey(x, s, key)) == multiset(s) + multiset{x}
  {
    if s == [] {
    } else if LexLess(key(x), key(s[0])) {
      var r := [x] + s;
      forall i, j | 0 <= i < j < |r| ensures LexLess(key(r[i]), key(r[j])) {
        if i == 0 && j > 1 {
          LexTransitive(key(x), key(s[0]), key(s[j - 1]));
        }
      }
    } else {
      assert s[0] in s;
      LexTotal(key(x), key(s[0]));
      var t := InsertByKey(x, s[1..], key);
      InsertByKeySorted(x, s[1..], key);
      assert s == [s[0]] + s[1..];
      var r := [s[0]] + t;
      forall i, j | 0 <= i < j < |r| ensures LexLess(key(r[i]), key(r[j])) {
        if i == 0 {
          assert r[j] in multiset(t);
          if r[j] != x {
            assert r[j] in s[1..];
            var k :| 0 <= k < |s[1..]| && s[1..][k] == r[j];
            assert s[k + 1] == r[j];
          }
        }
      }
    }
  }

  lemma {:induction false} SortByKeySorted<T>(s: seq<T>, key: T -> string)
    requires forall i, j :: 0 <= i < j < |s| ==> key(s[i]) != key(s[j])
    ensures StrictlySortedBy(SortByKey(s, key), key)
    ensures multiset(SortByKey(s, key)) == multiset(s)
  {
    if s != [] {
      SortByKeySorted(s[1..], key);
      var t := SortByKey(s[1..], key);
      forall e | e in t ensures key(e) != key(s[0]) {
        assert e in multiset(s[1..]);
        var k :| 0 <= k < |s[1..]| && s[1..][k] == e;
        assert s[k + 1] == e;
      }
      InsertByKeySorted(s[0], t, key);
      assert s == [s[0]] + s[1..];
    }
  }

  /** Two sequences sorted strictly by the same key, holding the same elements, are equal. */
  lemma {:induction false} StrictlySortedUnique<T>(a: seq<T>, b: seq<T>, key: T -> string)
    requires StrictlySortedBy(a, key) && StrictlySortedBy(b, key)
    requires forall x :: x in a <==> x in b
    ensures a == b
  {
    if a != [] && b != [] {
      assert a[0] in b && b[0] in a;
      var i :| 0 <= i < |b| && b[i] == a[0];
      var j :| 0 <= j < |a| && a[j] == b[0];
      if i != 0 {
        assert LexLess(key(b[0]), key(a[0]));
        if j == 0 { LexIrreflexive(key(a[0])); } else { LexAsymmetric(key(a[0]), key(b[0])); }
        assert false;
      }
      forall x ensures x in a[1..] <==> x in b[1..] {
        if x in a[1..] {
          var k :| 0 <= k < |a[1..]| && a[1..][k] == x;
          assert LexLess(key(a[0]), key(x));
          if x == a[0] { LexIrreflexive(key(x)); }
          assert x in b && b == [b[0]] + b[1..];
        }
        if x in b[1..] {
          var k :| 0 <= k < |b[1..]| && b[1..][k] == x;
          assert LexLess(key(b[0]), key(x));
          if x == b[0] { LexIrreflexive(key(x)); }
          assert x in a && a == [a[0]] + a[1..];
        }
      }
      StrictlySortedUnique(a[1..], b[1..], key);
      assert a == [a[0]] + a[1..] && b == [b[0]] + b[1..];
    } else {
      SameElementsNonEmpty(a, b);
      SameElementsNonEmpty(b, a);
    }
  }

  lemma SameElementsNonEmpty<T>(a: seq<T>, b: seq<T>)
    requires forall x :: x in a <==> x in b
    ensures a != [] ==> b != []
  {
    if a != [] {
      assert a[0] in b;
    }
  }

  function Id(s: string): string { s }

  /** `sorted(list(s))` for a set of strings: its elements in increasing order. */
  method SortedList(s: set<string>) returns (r: seq<string>)
    ensures StrictlySortedBy(r, Id)
    ensures forall x :: x in r <==> x in s
    ensures |r| == |s|
  {
    r := [];
    var rest := s;
    while rest != {}
      invariant rest <= s
      invariant StrictlySortedBy(r, Id)
      invariant forall x :: x in r <==> x in s && x !in rest
      invariant |r| + |rest| == |s|
      decreases |rest|
    {
      var x :| x in rest;
      InsertByKeySorted(x, r, Id);
      var r' := InsertByKey(x, r, Id);
      assert forall y :: y in r' <==> y in multiset(r) + multiset{x};
      r := r';
      rest := rest - {x};
    }
  }
}
