/** Word-frequency ranking shared by both tag extractors: `Counter(words)` followed by
    `sorted(counter.items(), key=lambda x: x[1], reverse=True)`, and the loop that appends the
    ranked words not seen yet to a result list until it holds a given number of tags.

    `Counter` lists its keys in order of first occurrence and Python's sort is stable (also with
    `reverse=True`), so two words with the same count keep their first-occurrence order. The
    ranking is therefore the strict order `Precedes`: larger count first, then earlier first
    occurrence. */
module Frequency {
  import opened PyStr

  /** `Counter(ws)[w]` */
  function Count(ws: seq<string>, w: string): nat {
    multiset(ws)[w]
  }

  predicate Distinct(s: seq<string>) {
    forall i, j :: 0 <= i < j < |s| ==> s[i] != s[j]
  }

  /** Index of the first occurrence of `w` in `ws`. */
  function FirstIndex(ws: seq<string>, w: string): (k: nat)
    requires w in ws
    ensures k < |ws| && ws[k] == w
    ensures forall i :: 0 <= i < k ==> ws[i] != w
  {
    if ws[0] == w then 0 else 1 + FirstIndex(ws[1..], w)
  }

  /** `a` comes before `b` in the ranking of the words `ws`. */
  predicate Precedes(ws: seq<string>, a: string, b: string)
    requires a in ws && b in ws
  {
    Count(ws, a) > Count(ws, b) || (Count(ws, a) == Count(ws, b) && FirstIndex(ws, a) < FirstIndex(ws, b))
  }

  lemma PrecedesTotal(ws: seq<string>, a: string, b: string)
    requires a in ws && b in ws && a != b
    ensures Precedes(ws, a, b) || Precedes(ws, b, a)
  {
    assert FirstIndex(ws, a) != FirstIndex(ws, b);
  }

  /** All of `s` are words of `ws`, ranked pairwise. */
  ghost predicate RankOrdered(ws: seq<string>, s: seq<string>) {
    (forall i :: 0 <= i < |s| ==> s[i] in ws)
    && forall i, j :: 0 <= i < j < |s| ==> Precedes(ws, s[i], s[j])
  }

  /** The keys of `Counter(ws)`: every word once. */
  function Dedup(ws: seq<string>): (r: seq<string>)
    ensures Distinct(r)
    ensures forall w :: w in r <==> w in ws
  {
    if ws == [] then []
    else
      var init := ws[..|ws| - 1];
      var last := ws[|ws| - 1];
      assert ws == init + [last];
      var d := Dedup(init);
      if last in d then d else d + [last]
  }

  /** One step of the ranking sort. */
  function InsertRanked(ws: seq<string>, x: string, s: seq<string>): (r: seq<string>)
    requires x in ws && forall i :: 0 <= i < |s| ==> s[i] in ws
    ensures multiset(r) == multiset(s) + multiset{x}
  {
    if s == [] || Precedes(ws, x, s[0]) then [x] + s
    else
      assert s == [s[0]] + s[1..];
      [s[0]] + InsertRanked(ws, x, s[1..])
  }

  function SortRanked(ws: seq<string>, s: seq<string>): (r: seq<string>)
    requires forall i :: 0 <= i < |s| ==> s[i] in ws
    ensures multiset(r) == multiset(s)
  {
    if s == [] then []
    else
      assert s == [s[0]] + s[1..];
      var t := SortRanked(ws, s[1..]);
      assert forall i :: 0 <= i < |t| ==> t[i] in multiset(s[1..]);
      InsertRanked(ws, s[0], t)
  }

  lemma {:induction false} InsertRankedOrdered(ws: seq<string>, x: string, s: seq<string>)
    requires x in ws && x !in s && RankOrdered(ws, s)
    ensures RankOrdered(ws, InsertRanked(ws, x, s))
  {
    if s == [] {
    } else if Precedes(ws, x, s[0]) {
      forall j | 0 <= j < |s| ensures Precedes(ws, x, s[j]) {
        if j > 0 {
          assert Precedes(ws, s[0], s[j]);
        }
      }
      RankedCons(ws, x, s);
    } else {
      assert s[0] in s;
      PrecedesTotal(ws, x, s[0]);
      var t := InsertRanked(ws, x, s[1..]);
      assert s == [s[0]] + s[1..];
      InsertRankedOrdered(ws, x, s[1..]);
      forall j | 0 <= j < |t| ensures Precedes(ws, s[0], t[j]) {
        assert t[j] in multiset(s[1..]) + multiset{x};
        if t[j] != x {
          assert t[j] in s[1..];
          var k :| 0 <= k < |s[1..]| && s[1..][k] == t[j];
          assert s[k + 1] == t[j];
        }
      }
      RankedCons(ws, s[0], t);
    }
  }

  /** A word ranked before every word of a ranked sequence can lead it. */
  lemma RankedCons(ws: seq<string>, y: string, t: seq<string>)
    requires y in ws && RankOrdered(ws, t)
    requires forall j :: 0 <= j < |t| ==> Precedes(ws, y, t[j])
    ensures RankOrdered(ws, [y] + t)
  {
    var r := [y] + t;
    forall i, j | 0 <= i < j < |r| ensures Precedes(ws, r[i], r[j]) {
      assert r[j] == t[j - 1];
      if i > 0 {
        assert r[i] == t[i - 1];
      }
    }
  }

  lemma {:induction false} SortRankedOrdered(ws: seq<string>, s: seq<string>)
    requires Distinct(s) && forall i :: 0 <= i < |s| ==> s[i] in ws
    ensures RankOrdered(ws, SortRanked(ws, s))
  {
    if s != [] {
      assert s == [s[0]] + s[1..];
      SortRankedOrdered(ws, s[1..]);
      var t := SortRanked(ws, s[1..]);
      DistinctHead(s);
      assert s[0] !in multiset(t);
      InsertRankedOrdered(ws, s[0], t);
    }
  }

  lemma DistinctHead(s: seq<string>)
    requires Distinct(s) && s != []
    ensures s[0] !in s[1..]
  {
  }

  /** A sequence ranked pairwise holds every word at most once. */
  lemma RankOrderedDistinct(ws: seq<string>, s: seq<string>)
    requires RankOrdered(ws, s)
    ensures Distinct(s)
  {
    forall i, j | 0 <= i < j < |s| ensures s[i] != s[j] {
      assert Precedes(ws, s[i], s[j]);
    }
  }

  /** `sorted(Counter(ws).items(), key=lambda x: x[1], reverse=True)`, keys only: every word of
      `ws` exactly once, by decreasing count, ties by first occurrence. */
  function Ranked(ws: seq<string>): (r: seq<string>)
    ensures Distinct(r)
    ensures forall w :: w in r <==> w in ws
    ensures RankOrdered(ws, r)
  {
    var d := Dedup(ws);
    SortRankedOrdered(ws, d);
    var r := SortRanked(ws, d);
    assert forall w :: w in r <==> w in multiset(d);
    RankOrderedDistinct(ws, r);
    r
  }

  /** The words of `ws` not in `acc`, in order. */
  function FilterOut(ws: seq<string>, acc: seq<string>): (r: seq<string>)
    ensures forall w :: w in r <==> w in ws && w !in acc
  {
    if ws == [] then []
    else
      assert ws == [ws[0]] + ws[1..];
      (if ws[0] in acc then [] else [ws[0]]) + FilterOut(ws[1..], acc)
  }

  /** `s[:n]` for `n >= 0` */
  function Take(s: seq<string>, n: nat): (r: seq<string>)
    ensures |r| == if n < |s| then n else |s|
    ensures r <= s
  {
    if n < |s| then s[..n] else s
  }

  /** The merge loop: appends each word of `ws` not yet in the result, and stops as soon as the
      result holds `cap` words. */
  function Merge(acc: seq<string>, ws: seq<string>, cap: int): seq<string>
    decreases |ws|
  {
    if ws == [] then acc
    else if ws[0] in acc then Merge(acc, ws[1..], cap)
    else if |acc| + 1 >= cap then acc + [ws[0]]
    else Merge(acc + [ws[0]], ws[1..], cap)
  }

  lemma {:induction false} FilterOutIgnores(ws: seq<string>, acc: seq<string>, x: string)
    requires x !in ws
    ensures FilterOut(ws, acc + [x]) == FilterOut(ws, acc)
  {
    if ws != [] {
      FilterOutIgnores(ws[1..], acc, x);
    }
  }

  /** When the words are distinct and the result is not full yet, merging appends the first
      `cap - |acc|` words of `ws` that `acc` does not hold. */
  lemma {:induction false} MergeTakesFirstNew(acc: seq<string>, ws: seq<string>, cap: int)
    requires Distinct(ws) && |acc| < cap
    ensures Merge(acc, ws, cap) == acc + Take(FilterOut(ws, acc), cap - |acc|)
    decreases |ws|
  {
    if ws != [] {
      var x := ws[0];
      assert Distinct(ws[1..]);
      var rest := FilterOut(ws[1..], acc);
      if x in acc {
        MergeTakesFirstNew(acc, ws[1..], cap);
        assert FilterOut(ws, acc) == rest;
      } else {
        assert FilterOut(ws, acc) == [x] + rest;
        TakeCons(x, rest, cap - |acc|);
        if |acc| + 1 < cap {
          DistinctHead(ws);
          MergeTakesFirstNew(acc + [x], ws[1..], cap);
          FilterOutIgnores(ws[1..], acc, x);
          MergeStep(acc, ws, cap);
          ConcatAssoc(acc, [x], Take(rest, cap - |acc| - 1));
        } else {
          assert Take(rest, 0) == [];
        }
      }
    }
  }

  lemma MergeStep(acc: seq<string>, ws: seq<string>, cap: int)
    requires ws != [] && ws[0] !in acc && |acc| + 1 < cap
    ensures Merge(acc, ws, cap) == Merge(acc + [ws[0]], ws[1..], cap)
  {
  }

  lemma TakeCons(x: string, s: seq<string>, n: nat)
    requires n >= 1
    ensures Take([x] + s, n) == [x] + Take(s, n - 1)
  {
  }

  lemma {:induction false} FilterOutOrdered(ws: seq<string>, s: seq<string>, acc: seq<string>)
    requires RankOrdered(ws, s)
    ensures RankOrdered(ws, FilterOut(s, acc))
  {
    if s != [] {
      assert RankOrdered(ws, s[1..]);
      FilterOutOrdered(ws, s[1..], acc);
      var t := FilterOut(s[1..], acc);
      var r := FilterOut(s, acc);
      if s[0] !in acc {
        forall j | 0 < j < |r| ensures Precedes(ws, r[0], r[j]) {
          assert r[j] == t[j - 1] && t[j - 1] in s[1..];
          var k :| 0 <= k < |s[1..]| && s[1..][k] == r[j];
          assert s[k + 1] == r[j];
        }
        forall i, j | 0 <= i < j < |r| ensures Precedes(ws, r[i], r[j]) {
          if i > 0 {
            assert r[i] == t[i - 1] && r[j] == t[j - 1];
          }
        }
      }
    }
  }

  lemma TakeOrdered(ws: seq<string>, s: seq<string>, n: nat)
    requires RankOrdered(ws, s)
    ensures RankOrdered(ws, Take(s, n))
  {
  }

  /** The merge's summary: `acc` comes first and unchanged; after it come at most
      `cap - |acc|` new words, all from `ws`, none in `acc`, each once, in ranking order;
      and unless the result is full every word of `ws` is in it. */
  lemma MergeOfRanked(acc: seq<string>, ws: seq<string>, cap: int)
    requires |acc| < cap
    ensures var r := Merge(acc, Ranked(ws), cap);
      && |r| <= cap
      && acc <= r
      && Distinct(r[|acc|..])
      && (forall i :: |acc| <= i < |r| ==> r[i] in ws && r[i] !in acc)
      && RankOrdered(ws, r[|acc|..])
      && (|r| < cap ==> forall w :: w in ws ==> w in r)
  {
    var rk := Ranked(ws);
    MergeTakesFirstNew(acc, rk, cap);
    var f := FilterOut(rk, acc);
    FilterOutOrdered(ws, rk, acc);
    TakeOrdered(ws, f, cap - |acc|);
    var t := Take(f, cap - |acc|);
    var r := acc + t;
    assert r[|acc|..] == t;
    RankOrderedDistinct(ws, t);
    forall i | |acc| <= i < |r| ensures r[i] in ws && r[i] !in acc {
      assert r[i] == t[i - |acc|] && t[i - |acc|] in f;
    }
    if |r| < cap {
      assert t == f;
      forall w | w in ws ensures w in r {
        if w !in acc {
          assert w in f;
        }
      }
    }
  }

  /** The merge loop of both extractors: a result list starting as `acc`, a `seen` set of its
      words, and a `break` once the list holds `cap` words. */
  method MergeUnseen(acc: seq<string>, ws: seq<string>, cap: int) returns (result: seq<string>)
    requires |acc| < cap
    ensures result == Merge(acc, ws, cap)
  {
    result := acc;
    var seen := set w | w in acc;
    var j := 0;
    while j < |ws|
      invariant 0 <= j <= |ws|
      invariant seen == set w | w in result
      invariant |result| < cap
      invariant Merge(result, ws[j..], cap) == Merge(acc, ws, cap)
    {
      var word := ws[j];
      assert ws[j..] == [word] + ws[j + 1..];
      if word !in seen {
        result := result + [word];
        seen := seen + {word};
        if |result| >= cap {
          break;
        }
      }
      j := j + 1;
    }
  }
}
