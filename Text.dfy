/** Python's substring test and `str.replace`, on strings as sequences of
    characters: `p in s`, `s.find(p)`, `s.replace(old, new, 1)`,
    `s.replace(old, new)` and `s.count(p)`, including Python's treatment of the empty pattern. */
module Text {

  datatype Option<T> = None | Some(value: T)

  /** `p` occurs in `s` starting at index `i` (`s[i:i+len(p)] == p`). */
  predicate OccursAt(s: string, p: string, i: int)
  {
    0 <= i && i + |p| <= |s| && s[i..i + |p|] == p
  }

  /** `i` is the leftmost index at which `p` occurs in `s`. */
  ghost predicate Leftmost(s: string, p: string, i: int)
  {
    OccursAt(s, p, i) && forall j :: 0 <= j < i ==> !OccursAt(s, p, j)
  }

  /** The first index at or after `from` where `p` occurs in `s`. */
  function FindFrom(s: string, p: string, from: nat): (r: Option<nat>)
    requires from <= |s|
    ensures r.Some? ==> from <= r.value && OccursAt(s, p, r.value)
    ensures forall j :: from <= j && (r.None? || j < r.value) ==> !OccursAt(s, p, j)
    decreases |s| - from
  {
    if OccursAt(s, p, from) then Some(from)
    else if from == |s| then None
    else FindFrom(s, p, from + 1)
  }

  /** Python's `s.find(p)`: the leftmost occurrence, if any. The empty
      pattern is found at index 0. */
  function Find(s: string, p: string): (r: Option<nat>)
    ensures r.Some? ==> Leftmost(s, p, r.value)
    ensures r.None? ==> forall i :: !OccursAt(s, p, i)
    ensures p == [] ==> r == Some(0)
  {
    assert p == [] ==> OccursAt(s, p, 0);
    FindFrom(s, p, 0)
  }

  /** Python's `p in s`: it holds exactly when `p` occurs somewhere in
      `s`, so every string contains the empty string. */
  predicate Contains(s: string, p: string): (b: bool)
    ensures b <==> exists i :: OccursAt(s, p, i)
    ensures p == [] ==> b
  {
    assert Find(s, p).Some? ==> OccursAt(s, p, Find(s, p).value);
    Find(s, p).Some?
  }

  /** Any witness occurrence makes `Contains` true. */
  lemma OccurrenceContained(s: string, p: string, i: int)
    requires OccursAt(s, p, i)
    ensures Contains(s, p)
  {
  }

  /** A string containing `m` contains everything `m` contains. */
  lemma ContainsTransitive(s: string, m: string, p: string)
    requires Contains(s, m) && Contains(m, p)
    ensures Contains(s, p)
  {
    var i := Find(s, m).value;
    var j := Find(m, p).value;
    OccursInSlice(s, p, i, i + |m|, j);
    OccurrenceContained(s, p, i + j);
  }

  /** An occurrence inside a slice is an occurrence in the whole string,
      shifted by the slice's start. */
  lemma OccursInSlice(s: string, p: string, lo: nat, hi: nat, j: int)
    requires lo <= hi <= |s|
    requires OccursAt(s[lo..hi], p, j)
    ensures OccursAt(s, p, lo + j)
  {
    var t := s[lo..hi];
    assert forall k :: 0 <= k < |p| ==> p[k] == t[j + k] == s[lo + j + k];
  }

  /** An occurrence past `lo` is an occurrence in the suffix from `lo`. */
  lemma OccursInSuffix(s: string, p: string, lo: nat, j: int)
    requires lo <= j && OccursAt(s, p, j)
    ensures OccursAt(s[lo..], p, j - lo)
  {
    assert s[lo..][j - lo..j - lo + |p|] == s[j..j + |p|];
  }

  /** An occurrence in `t` is still one after a prefix is put in front. */
  lemma OccursAfterPrefix(pre: string, t: string, p: string, m: int)
    requires OccursAt(t, p, m)
    ensures OccursAt(pre + t, p, |pre| + m)
  {
    assert (pre + t)[|pre| + m..|pre| + m + |p|] == t[m..m + |p|];
  }

  /** An occurrence in `t` is still one after a suffix is appended. */
  lemma OccursBeforeSuffix(t: string, suf: string, p: string, m: int)
    requires OccursAt(t, p, m)
    ensures OccursAt(t + suf, p, m)
  {
    assert (t + suf)[m..m + |p|] == t[m..m + |p|];
  }

  /** There is only one leftmost occurrence. */
  lemma LeftmostUnique(s: string, p: string, i: int, k: int)
    requires Leftmost(s, p, i) && Leftmost(s, p, k)
    ensures i == k
  {
  }

  /** Python's `s.replace(old, new, 1)`: the leftmost occurrence of
      `oldText` is replaced by `newText`; with no occurrence the string is
      returned as it is. An empty `oldText` inserts `newText` at the front. */
  function ReplaceFirst(s: string, oldText: string, newText: string): (r: string)
    ensures forall i :: Leftmost(s, oldText, i) ==> r == s[..i] + newText + s[i + |oldText|..]
    ensures !Contains(s, oldText) ==> r == s
    ensures oldText == [] ==> r == newText + s
  {
    match Find(s, oldText)
    case None => s
    case Some(i) =>
      assert forall k :: Leftmost(s, oldText, k) ==> k == i by {
        forall k | Leftmost(s, oldText, k) ensures k == i {
          LeftmostUnique(s, oldText, i, k);
        }
      }
      s[..i] + newText + s[i + |oldText|..]
  }

  /** After replacing an occurrence, the replacement occurs in the result:
      it sits where the leftmost occurrence of `oldText` was. */
  lemma ReplaceFirstPlacesNew(s: string, oldText: string, newText: string)
    requires Contains(s, oldText)
    ensures OccursAt(ReplaceFirst(s, oldText, newText), newText, Find(s, oldText).value)
    ensures Contains(ReplaceFirst(s, oldText, newText), newText)
  {
    var i := Find(s, oldText).value;
    var r := ReplaceFirst(s, oldText, newText);
    assert r == s[..i] + newText + s[i + |oldText|..];
    assert r[i..i + |newText|] == newText;
    OccurrenceContained(r, newText, i);
  }

  /** Every occurrence of `oldText` that starts at or after the end of the
      replaced one is still an occurrence in the result, moved by the
      difference in length. An occurrence overlapping the replaced one
      need not survive. */
  lemma ReplaceFirstKeepsLater(s: string, oldText: string, newText: string, i: nat, j: int)
    requires Leftmost(s, oldText, i)
    requires i + |oldText| <= j
    requires OccursAt(s, oldText, j)
    ensures OccursAt(ReplaceFirst(s, oldText, newText), oldText, j + |newText| - |oldText|)
  {
    var tail := s[i + |oldText|..];
    OccursInSuffix(s, oldText, i + |oldText|, j);
    OccursAfterPrefix(s[..i] + newText, tail, oldText, j - (i + |oldText|));
  }

  /** `c` copies of `d` added up: multiplication spelled out, so that the
      length arithmetic below stays linear. */
  function Times(c: nat, d: int): int
  {
    if c == 0 then 0 else d + Times(c - 1, d)
  }

  lemma {:induction false} TimesIsProduct(c: nat, d: int)
    ensures Times(c, d) == c * d
  {
    if c != 0 {
      TimesIsProduct(c - 1, d);
    }
  }

  /** Python's `s.replace('', new)`: `newText` before every character and
      at the end, so `len(s) + 1` copies of it. */
  function Interleave(s: string, newText: string): (r: string)
    ensures |r| == |s| + Times(|s| + 1, |newText|)
  {
    if s == [] then newText else newText + [s[0]] + Interleave(s[1..], newText)
  }

  /** The layout of `s.replace('', new)`: copy `k` of `newText` starts at
      `k * (len(new) + 1)`, and character `k` of `s` follows it. With the
      length, this fixes every character of the result. */
  lemma {:induction false} InterleaveAt(s: string, newText: string, k: nat)
    requires k <= |s|
    ensures OccursAt(Interleave(s, newText), newText, Times(k, |newText| + 1))
    ensures k < |s| ==> OccursAt(Interleave(s, newText), [s[k]], Times(k, |newText| + 1) + |newText|)
    decreases k
  {
    var r := Interleave(s, newText);
    if s == [] {
      assert r[0..|newText|] == newText;
    } else {
      var pre := newText + [s[0]];
      var rest := Interleave(s[1..], newText);
      assert r == pre + rest;
      if k == 0 {
        assert r[0..|newText|] == newText;
        assert r[|newText|..|newText| + 1] == [s[0]];
      } else {
        InterleaveAt(s[1..], newText, k - 1);
        TimesStep(k, k - 1, |newText| + 1);
        OccursAfterPrefix(pre, rest, newText, Times(k - 1, |newText| + 1));
      }
    }
  }

  lemma InterleaveStartsWithNew(s: string, newText: string)
    ensures OccursAt(Interleave(s, newText), newText, 0)
  {
    InterleaveAt(s, newText, 0);
  }

  lemma {:induction false} InterleaveEmpty(s: string)
    ensures Interleave(s, []) == s
  {
    if s != [] {
      InterleaveEmpty(s[1..]);
      assert [s[0]] + s[1..] == s;
    }
  }

  /** `ms` lists windows of width `w` inside a string of length `len`, in
      increasing order, each ending before the next starts, the first not
      before `from`. */
  predicate Separated(ms: seq<nat>, from: nat, w: nat, len: nat)
  {
    (|ms| > 0 ==> from <= ms[0]) &&
    (forall k :: 0 <= k < |ms| ==> ms[k] + w <= len) &&
    (forall k :: 0 < k < |ms| ==> ms[k - 1] + w <= ms[k])
  }

  lemma SeparatedTail(ms: seq<nat>, from: nat, w: nat, len: nat)
    requires ms != [] && Separated(ms, from, w, len)
    ensures from <= ms[0] && ms[0] + w <= len && Separated(ms[1..], ms[0] + w, w, len)
  {
    var tl := ms[1..];
    assert forall k :: 0 <= k < |tl| ==> tl[k] == ms[k + 1];
    if |tl| > 0 {
      assert tl[0] == ms[1];
    }
  }

  lemma SeparatedCons(i: nat, rest: seq<nat>, from: nat, w: nat, len: nat)
    requires from <= i && i + w <= len && Separated(rest, i + w, w, len)
    ensures Separated([i] + rest, from, w, len)
  {
    var ms := [i] + rest;
    assert forall k :: 0 < k < |ms| ==> ms[k] == rest[k - 1];
  }

  /** The part of `s` from `from` on, with the window of width `w` at each
      position of `ms` replaced by `newText`. */
  function PutAt(s: string, from: nat, ms: seq<nat>, w: nat, newText: string): string
    requires from <= |s| && Separated(ms, from, w, |s|)
    decreases |ms|
  {
    if ms == [] then s[from..]
    else
      SeparatedTail(ms, from, w, |s|);
      s[from..ms[0]] + newText + PutAt(s, ms[0] + w, ms[1..], w, newText)
  }

  /** Splicing at the first position and then at the rest. */
  lemma PutAtHead(s: string, from: nat, ms: seq<nat>, w: nat, newText: string)
    requires from <= |s| && ms != [] && Separated(ms, from, w, |s|)
    ensures from <= ms[0] && ms[0] + w <= |s| && Separated(ms[1..], ms[0] + w, w, |s|)
    ensures PutAt(s, from, ms, w, newText) == s[from..ms[0]] + newText + PutAt(s, ms[0] + w, ms[1..], w, newText)
  {
    SeparatedTail(ms, from, w, |s|);
  }

  /** Each window replaced changes the length by `|newText| - w`. */
  lemma {:induction false} PutAtLength(s: string, from: nat, ms: seq<nat>, w: nat, newText: string)
    requires from <= |s| && Separated(ms, from, w, |s|)
    ensures |PutAt(s, from, ms, w, newText)| == |s| - from + Times(|ms|, |newText| - w)
    decreases |ms|
  {
    if ms != [] {
      PutAtHead(s, from, ms, w, newText);
      PutAtLength(s, ms[0] + w, ms[1..], w, newText);
      TimesStep(|ms|, |ms[1..]|, |newText| - w);
    }
  }

  /** Putting a pattern back in place of its own occurrences changes
      nothing. */
  lemma {:induction false} PutAtSelf(s: string, from: nat, ms: seq<nat>, p: string)
    requires from <= |s| && Separated(ms, from, |p|, |s|)
    requires forall k :: 0 <= k < |ms| ==> OccursAt(s, p, ms[k])
    ensures PutAt(s, from, ms, |p|, p) == s[from..]
    decreases |ms|
  {
    if ms != [] {
      var m := ms[0];
      PutAtHead(s, from, ms, |p|, p);
      assert forall k :: 0 <= k < |ms[1..]| ==> ms[1..][k] == ms[k + 1];
      PutAtSelf(s, m + |p|, ms[1..], p);
      assert OccursAt(s, p, m);
      assert s[from..m] + s[m..m + |p|] + s[m + |p|..] == s[from..];
    }
  }

  /** The positions at which the left-to-right scan of `s.replace(p, new)`
      and `s.count(p)` meets `p`, starting at `from`: each match is the
      leftmost occurrence at or after the end of the previous one, so the
      matches are occurrences that do not overlap. */
  function MatchesFrom(s: string, p: string, from: nat): (ms: seq<nat>)
    requires p != [] && from <= |s|
    ensures Separated(ms, from, |p|, |s|)
    ensures forall k :: 0 <= k < |ms| ==> OccursAt(s, p, ms[k])
    decreases |s| - from
  {
    match FindFrom(s, p, from)
    case None => []
    case Some(i) =>
      var rest := MatchesFrom(s, p, i + |p|);
      SeparatedCons(i, rest, from, |p|, |s|);
      assert forall k :: 1 <= k < |rest| + 1 ==> ([i] + rest)[k] == rest[k - 1];
      [i] + rest
  }

  /** One match of the scan. */
  lemma MatchesFromUnfold(s: string, p: string, from: nat)
    requires p != [] && from <= |s| && FindFrom(s, p, from).Some?
    ensures var ms := MatchesFrom(s, p, from);
      ms != [] && ms[0] == FindFrom(s, p, from).value && ms[1..] == MatchesFrom(s, p, ms[0] + |p|)
  {
    var i := FindFrom(s, p, from).value;
    assert ([i] + MatchesFrom(s, p, i + |p|))[1..] == MatchesFrom(s, p, i + |p|);
  }

  /** Position `j` lies in the window of width `w` of some element of `ms`. */
  predicate Covered(ms: seq<nat>, j: int, w: nat)
  {
    exists k :: 0 <= k < |ms| && ms[k] <= j < ms[k] + w
  }

  lemma CoveredByTail(ms: seq<nat>, j: int, w: nat)
    requires ms != [] && Covered(ms[1..], j, w)
    ensures Covered(ms, j, w)
  {
    var k :| 0 <= k < |ms[1..]| && ms[1..][k] <= j < ms[1..][k] + w;
    assert ms[k + 1] == ms[1..][k];
  }

  /** The scan misses no occurrence: every occurrence of `p` at or after
      `from` lies inside the window of a match (it is a match, or overlaps
      one that started before it). */
  lemma {:induction false} MatchesFromCover(s: string, p: string, from: nat, j: int)
    requires p != [] && from <= |s|
    requires from <= j && OccursAt(s, p, j)
    ensures Covered(MatchesFrom(s, p, from), j, |p|)
    decreases |s| - from
  {
    var ms := MatchesFrom(s, p, from);
    assert FindFrom(s, p, from).Some?;
    MatchesFromUnfold(s, p, from);
    if j < ms[0] + |p| {
      assert ms[0] <= j;
    } else {
      MatchesFromCover(s, p, ms[0] + |p|, j);
      CoveredByTail(ms, j, |p|);
    }
  }

  /** The matches of the scan over the whole string. */
  function Matches(s: string, p: string): (ms: seq<nat>)
    requires p != []
    ensures Separated(ms, 0, |p|, |s|)
    ensures forall k :: 0 <= k < |ms| ==> OccursAt(s, p, ms[k])
    ensures ms == [] <==> !Contains(s, p)
    ensures ms != [] ==> ms[0] == Find(s, p).value
  {
    MatchesFrom(s, p, 0)
  }

  /** The scan of the whole string misses no occurrence. */
  lemma MatchesCover(s: string, p: string, j: int)
    requires p != [] && OccursAt(s, p, j)
    ensures Covered(Matches(s, p), j, |p|)
  {
    assert Matches(s, p) == MatchesFrom(s, p, 0);
    MatchesFromCover(s, p, 0, j);
  }

  /** Python's `s.replace(old, new)`: `newText` put in place of every match
      of the left-to-right scan of `oldText`; for the empty pattern,
      `newText` before every character and at the end. */
  function ReplaceAll(s: string, oldText: string, newText: string): (r: string)
    ensures !Contains(s, oldText) ==> r == s
  {
    if oldText == [] then Interleave(s, newText)
    else PutAt(s, 0, Matches(s, oldText), |oldText|, newText)
  }

  /** Python's `s.count(p)`: the number of matches of the same scan;
      `len(s) + 1` for the empty pattern. */
  function Count(s: string, p: string): (n: nat)
    ensures n == 0 <==> !Contains(s, p)
  {
    if p == [] then |s| + 1 else |Matches(s, p)|
  }

  /** When at least one occurrence is replaced, the replacement occurs in
      the result, at the place of the leftmost occurrence. */
  lemma ReplaceAllPlacesNew(s: string, oldText: string, newText: string)
    requires Contains(s, oldText)
    ensures OccursAt(ReplaceAll(s, oldText, newText), newText, Find(s, oldText).value)
    ensures Contains(ReplaceAll(s, oldText, newText), newText)
  {
    var r := ReplaceAll(s, oldText, newText);
    var i := Find(s, oldText).value;
    if oldText == [] {
      InterleaveStartsWithNew(s, newText);
    } else {
      var ms := Matches(s, oldText);
      PutAtHead(s, 0, ms, |oldText|, newText);
      OccursAfterPrefix(s[0..i], newText, newText, 0);
      OccursBeforeSuffix(s[0..i] + newText, PutAt(s, i + |oldText|, ms[1..], |oldText|, newText), newText, i);
    }
    OccurrenceContained(r, newText, i);
  }

  /** Each replaced occurrence changes the length by `|newText| - |oldText|`;
      with an empty `oldText` there are `len(s) + 1` of them. */
  lemma ReplaceAllLength(s: string, oldText: string, newText: string)
    ensures |ReplaceAll(s, oldText, newText)| == |s| + Count(s, oldText) * (|newText| - |oldText|)
  {
    TimesIsProduct(Count(s, oldText), |newText| - |oldText|);
    if oldText != [] {
      PutAtLength(s, 0, Matches(s, oldText), |oldText|, newText);
    }
  }

  lemma TimesStep(c: nat, c0: nat, d: int)
    requires c == c0 + 1
    ensures Times(c, d) == d + Times(c0, d)
  {
  }

  /** When there is an occurrence to replace and the replacement is not
      shorter, the result is longer by at least the difference. */
  lemma ReplaceAllGrows(s: string, oldText: string, newText: string)
    requires Contains(s, oldText) && |newText| >= |oldText|
    ensures |ReplaceAll(s, oldText, newText)| >= |s| + |newText| - |oldText|
  {
    var c := Count(s, oldText);
    var d := |newText| - |oldText|;
    ReplaceAllLength(s, oldText, newText);
    TimesIsProduct(c, d);
    TimesAtLeast(c, d);
  }

  lemma {:induction false} TimesAtLeast(c: nat, d: nat)
    requires c >= 1
    ensures Times(c, d) >= d
  {
    if c > 1 {
      TimesAtLeast(c - 1, d);
    }
  }

  /** Replacing every occurrence of a pattern by itself gives the string back. */
  lemma ReplaceAllBySelf(s: string, p: string)
    ensures ReplaceAll(s, p, p) == s
  {
    if p == [] {
      InterleaveEmpty(s);
    } else {
      PutAtSelf(s, 0, Matches(s, p), p);
      assert s[0..] == s;
    }
  }

  /** Searching the suffix from `from` is searching `s` from `from`. */
  lemma FindInSuffix(s: string, p: string, from: nat)
    requires from <= |s|
    ensures FindFrom(s, p, from).None? <==> Find(s[from..], p).None?
    ensures FindFrom(s, p, from).Some? ==> Find(s[from..], p).value == FindFrom(s, p, from).value - from
  {
    var t := s[from..];
    assert s[from..|s|] == t;
    match FindFrom(s, p, from)
    case None =>
      if Find(t, p).Some? {
        OccursInSlice(s, p, from, |s|, Find(t, p).value);
      }
    case Some(i) =>
      OccursInSuffix(s, p, from, i);
      var m := Find(t, p).value;
      OccursInSlice(s, p, from, |s|, m);
  }
}
