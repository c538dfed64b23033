/**
 Fuzzy matching and the command palette, src/app/state.rs. Lower-casing is a parameter: nothing here
 depends on how Unicode does it.
 */
module Fuzzy {
  import opened Wrappers
  import opened Subsequences
  import Utf8
  import opened Text

  function ByteLen(s: string): nat {
    if s == [] then 0 else Utf8.Width(s[0] as int) + ByteLen(s[1..])
  }

  function Shifted(a: nat, b: Option<nat>): Option<nat> {
    match b case Some(v) => Some(a + v) case None => None
  }

  /** Where the needle ends when every character is matched as early as possible, and the score of that:
      twenty for each character, less the bytes skipped before it. */
  function GreedyEnd(haystack: string, needle: string): (r: Option<nat>)
    ensures r.Some? ==> r.value <= |haystack|
    decreases needle
  {
    if needle == [] then Some(0)
    else
      match IndexOf(haystack, needle[0])
      case None => None
      case Some(i) =>
        Shifted(i + 1, GreedyEnd(haystack[i + 1..], needle[1..]))
  }

  function Plus(a: int, b: Option<int>): Option<int> {
    match b case Some(v) => Some(a + v) case None => None
  }

  function GreedyScore(haystack: string, needle: string): (r: Option<int>)
    decreases needle
  {
    if needle == [] then Some(0)
    else
      match IndexOf(haystack, needle[0])
      case None => None
      case Some(i) =>
        Plus(20 - ByteLen(haystack[..i]), GreedyScore(haystack[i + 1..], needle[1..]))
  }

  function FuzzyScoreOf(lower: string -> string, haystack: string, needle: string): Option<int> {
    if IsBlank(needle) then Some(0)
    else
      match Find(lower(haystack), lower(needle))
      case Some(i) => Some(1000 - ByteLen(lower(haystack)[..i]))
      case None => GreedyScore(lower(haystack), lower(needle))
  }

  lemma GreedyUnfolds(h: string, n: string, pos: nat, k: nat)
    requires pos <= |h| && k < |n|
    ensures GreedyScore(h[pos..], n[k..])
            == match IndexOf(h[pos..], n[k])
               case None => None
               case Some(i) => Plus(20 - ByteLen(h[pos..][..i]), GreedyScore(h[pos + i + 1..], n[k + 1..]))
  {
    hide ByteLen, IndexOf, Plus;
    assert n[k..][1..] == n[k + 1..];
    match IndexOf(h[pos..], n[k]) {
      case None =>
      case Some(i) => assert h[pos..][i + 1..] == h[pos + i + 1..];
    }
  }

  method FuzzyScore(lower: string -> string, haystack: string, needle: string) returns (r: Option<int>)
    ensures r == FuzzyScoreOf(lower, haystack, needle)
  {
    hide ByteLen, IndexOf, Find, GreedyScore, IsBlank;
    if IsBlank(needle) {
      return Some(0);
    }
    var h, n := lower(haystack), lower(needle);
    match Find(h, n) {
      case Some(i) => return Some(1000 - ByteLen(h[..i]));
      case None =>
    }
    var score, pos := 0, 0;
    assert h[0..] == h && n[0..] == n;
    for k := 0 to |n|
      invariant pos <= |h|
      invariant GreedyScore(h, n) == Plus(score, GreedyScore(h[pos..], n[k..]))
    {
      GreedyUnfolds(h, n, pos, k);
      match IndexOf(h[pos..], n[k]) {
        case None => return None;
        case Some(found) =>
          score := score + 20 - ByteLen(h[pos..][..found]);
          pos := pos + found + 1;
      }
    }
    GreedyOfNothing(h[pos..]);
    assert n[|n|..] == [];
    r := Some(score);
  }

  lemma GreedyOfNothing(h: string)
    ensures GreedyScore(h, []) == Some(0)
  {
  }

  // ----- Completeness

  /** Text is found at its first occurrence. */
  lemma {:induction false} FirstOccurrence(s: string, t: string, i: nat)
    requires i + |t| <= |s| && s[i..][..|t|] == t && forall j: nat | j < i :: !(t <= s[j..])
    ensures Find(s, t) == Some(i)
    decreases s
  {
    if i == 0 {
      assert s[0..] == s;
    } else {
      assert s[0..] == s && s[1..][i - 1..] == s[i..];
      assert forall j: nat | j < i - 1 :: s[1..][j..] == s[j + 1..];
      FirstOccurrence(s[1..], t, i - 1);
    }
  }

  /** A needle that occurs whole scores a thousand less the bytes before it, a blank one nothing. */
  lemma WholeNeedleScore(lower: string -> string, haystack: string, needle: string, i: nat)
    requires var h, n := lower(haystack), lower(needle);
             i + |n| <= |h| && h[i..][..|n|] == n && forall j: nat | j < i :: !(n <= h[j..])
    ensures FuzzyScoreOf(lower, haystack, needle)
            == Some(if IsBlank(needle) then 0 else 1000 - ByteLen(lower(haystack)[..i]))
  {
    hide IsBlank, ByteLen, Find;
    FirstOccurrence(lower(haystack), lower(needle), i);
  }

  /** A needle is a subsequence exactly when its first character occurs and the rest is one after the
      first occurrence. */
  lemma {:induction false} SkipToFirst(haystack: string, needle: string)
    requires needle != []
    ensures IsSubsequence(needle, haystack)
            <==> match IndexOf(haystack, needle[0])
                 case None => false
                 case Some(i) => IsSubsequence(needle[1..], haystack[i + 1..])
    decreases haystack
  {
    if haystack != [] {
      if haystack[0] == needle[0] {
        EarliestIsBest(needle, haystack);
      } else {
        SkipToFirst(haystack[1..], needle);
        match IndexOf(haystack[1..], needle[0]) {
          case None =>
          case Some(i) => assert haystack[1..][i + 1..] == haystack[i + 2..];
        }
      }
    }
  }

  lemma {:induction false} IndexOfPrefix(s: string, m: nat, c: char)
    requires m <= |s|
    ensures IndexOf(s[..m], c) == if IndexOf(s, c).Some? && IndexOf(s, c).value < m then IndexOf(s, c) else None
  {
    if m > 0 && s[0] != c {
      IndexOfPrefix(s[1..], m - 1, c);
      assert s[..m][1..] == s[1..][..m - 1];
    }
  }

  lemma GreedyEndUnfolds(h: string, n: string)
    requires n != []
    ensures GreedyEnd(h, n) == match IndexOf(h, n[0])
                               case None => None
                               case Some(i) => Shifted(i + 1, GreedyEnd(h[i + 1..], n[1..]))
  {
    hide IndexOf, Shifted;
  }

  lemma GreedyEndsAtOnce(h: string)
    ensures GreedyEnd(h, []) == Some(0)
  {
  }

  lemma PrefixOfRest(h: string, i: nat, m: nat)
    requires i < m <= |h|
    ensures h[..m][i + 1..] == h[i + 1..][..m - i - 1]
  {
  }

  /** Matching early ends the needle in the shortest prefix of the haystack that holds it. */
  lemma {:induction false} GreedyFindsShortestPrefix(haystack: string, needle: string, m: nat)
    requires m <= |haystack|
    ensures IsSubsequence(needle, haystack[..m])
            <==> GreedyEnd(haystack, needle).Some? && GreedyEnd(haystack, needle).value <= m
    decreases needle
  {
    hide GreedyEnd, IndexOf;
    if needle == [] {
      GreedyEndsAtOnce(haystack);
    } else {
      GreedyEndUnfolds(haystack, needle);
      SkipToFirst(haystack[..m], needle);
      IndexOfPrefix(haystack, m, needle[0]);
      hide IsSubsequence;
      match IndexOf(haystack, needle[0]) {
        case None =>
        case Some(i) =>
          if i < m {
            GreedyFindsShortestPrefix(haystack[i + 1..], needle[1..], m - i - 1);
            PrefixOfRest(haystack, i, m);
          }
      }
    }
  }

  lemma {:induction false} ByteLenConcat(a: string, b: string)
    ensures ByteLen(a + b) == ByteLen(a) + ByteLen(b)
  {
    if a == [] {
      assert a + b == b;
    } else {
      assert (a + b)[1..] == a[1..] + b;
      ByteLenConcat(a[1..], b);
    }
  }

  lemma ByteLenAt(s: string, i: nat)
    requires i < |s|
    ensures ByteLen(s[..i + 1]) == ByteLen(s[..i]) + ByteLen([s[i]])
  {
    assert s[..i + 1] == s[..i] + [s[i]];
    ByteLenConcat(s[..i], [s[i]]);
  }

  /** The lengths of what one step matches, skips and leaves. */
  lemma StepLengths(h: string, n: string, i: nat, end: nat)
    requires n != [] && i < |h| && h[i] == n[0] && i + 1 + end <= |h|
    ensures ByteLen(n) == ByteLen([n[0]]) + ByteLen(n[1..])
    ensures ByteLen(h[..i + 1 + end]) == ByteLen(h[..i]) + ByteLen([n[0]]) + ByteLen(h[i + 1..][..end])
  {
    hide ByteLen;
    assert h[..i + 1 + end] == h[..i + 1] + h[i + 1..][..end];
    ByteLenConcat(h[..i + 1], h[i + 1..][..end]);
    ByteLenAt(h, i);
    assert n == [n[0]] + n[1..];
    ByteLenConcat([n[0]], n[1..]);
  }

  lemma GreedyScoreUnfolds(h: string, n: string)
    requires n != []
    ensures GreedyScore(h, n) == match IndexOf(h, n[0])
                                 case None => None
                                 case Some(i) => Plus(20 - ByteLen(h[..i]), GreedyScore(h[i + 1..], n[1..]))
  {
    hide IndexOf, ByteLen, Plus;
  }

  /** The score says how long that prefix is. */
  lemma {:induction false} GreedyScoreMeans(haystack: string, needle: string)
    ensures GreedyScore(haystack, needle)
            == match GreedyEnd(haystack, needle)
               case None => None
               case Some(end) => Some(20 * |needle| + ByteLen(needle) - ByteLen(haystack[..end]))
    decreases needle
  {
    hide ByteLen, IndexOf, GreedyEnd, GreedyScore;
    if needle == [] {
      GreedyEndsAtOnce(haystack);
      GreedyOfNothing(haystack);
      ByteLenConcat([], []);
      assert [] + [] == haystack[..0];
    } else {
      GreedyEndUnfolds(haystack, needle);
      GreedyScoreUnfolds(haystack, needle);
      match IndexOf(haystack, needle[0]) {
        case None =>
        case Some(i) =>
          var rest := haystack[i + 1..];
          GreedyScoreMeans(rest, needle[1..]);
          match GreedyEnd(rest, needle[1..]) {
            case None =>
            case Some(end) => StepLengths(haystack, needle, i, end);
          }
      }
    }
  }

  lemma {:induction false} SubstringIsSubsequence(s: string, t: string, i: nat)
    requires i + |t| <= |s| && s[i..][..|t|] == t
    ensures IsSubsequence(t, s)
  {
    assert s == s[..i] + t + s[i + |t|..];
    IsSuffix(t, s[..i]);
    Append(t, s[..i] + t, s[i + |t|..]);
    Prefixed(t, s[i + |t|..], s);
  }

  lemma {:induction false} Prefixed(t: string, rest: string, s: string)
    requires IsSubsequence(t + rest, s)
    ensures IsSubsequence(t, s)
  {
    if rest == [] {
      assert t + rest == t;
    } else {
      assert t + [rest[0]] + rest[1..] == t + rest;
      WithoutOne(t, rest[0], rest[1..], s);
      Prefixed(t, rest[1..], s);
    }
  }

  /** There is a score exactly for a blank needle and for one whose lower-case form is a subsequence of
      the lower-case haystack. */
  lemma MatchesExactlySubsequences(lower: string -> string, haystack: string, needle: string)
    ensures FuzzyScoreOf(lower, haystack, needle).Some?
            <==> IsBlank(needle) || IsSubsequence(lower(needle), lower(haystack))
  {
    var h, n := lower(haystack), lower(needle);
    hide IsSubsequence, GreedyEnd, GreedyScore, IsBlank;
    match Find(h, n) {
      case Some(i) => SubstringIsSubsequence(h, n, i);
      case None =>
        GreedyFindsShortestPrefix(h, n, |h|);
        assert h[..|h|] == h;
        GreedyScoreMeans(h, n);
    }
  }

  /** Scattered matches rank by the shortest prefix of the haystack that holds the needle. */
  lemma ScoreIsShortestPrefix(lower: string -> string, haystack: string, needle: string, m: nat)
    requires !IsBlank(needle) && Find(lower(haystack), lower(needle)).None?
    requires m <= |lower(haystack)|
    requires IsSubsequence(lower(needle), lower(haystack)[..m])
    requires m > 0 ==> !IsSubsequence(lower(needle), lower(haystack)[..m - 1])
    ensures FuzzyScoreOf(lower, haystack, needle)
            == Some(20 * |lower(needle)| + ByteLen(lower(needle)) - ByteLen(lower(haystack)[..m]))
  {
    var h, n := lower(haystack), lower(needle);
    hide IsSubsequence, GreedyEnd, GreedyScore, IsBlank;
    GreedyFindsShortestPrefix(h, n, m);
    if m > 0 {
      GreedyFindsShortestPrefix(h, n, m - 1);
    }
    GreedyScoreMeans(h, n);
  }

  // ----- The palette

  datatype Scored = Scored(index: nat, score: int)

  /** The order of the list: better scores first, then the order of the items. */
  predicate Before(a: Scored, b: Scored) { a.score > b.score || (a.score == b.score && a.index < b.index) }

  ghost predicate Ordered(s: seq<Scored>) { forall i, j | 0 <= i < j < |s| :: Before(s[i], s[j]) }

  function Inserted(s: seq<Scored>, x: Scored): seq<Scored> {
    if s == [] then [x]
    else if Before(x, s[0]) then [x] + s
    else [s[0]] + Inserted(s[1..], x)
  }

  /** `sort_by` with that order. */
  function Sorted(s: seq<Scored>): seq<Scored> {
    if s == [] then [] else Inserted(Sorted(s[..|s| - 1]), s[|s| - 1])
  }

  lemma {:induction false} InsertedMembers(s: seq<Scored>, x: Scored, y: Scored)
    ensures y in Inserted(s, x) <==> y in s || y == x
  {
    if s != [] && !Before(x, s[0]) {
      InsertedMembers(s[1..], x, y);
    }
  }

  lemma {:induction false} InsertedOrdered(s: seq<Scored>, x: Scored)
    requires Ordered(s) && forall y | y in s :: y.index != x.index
    ensures Ordered(Inserted(s, x))
  {
    if s != [] {
      if Before(x, s[0]) {
        forall j | 0 <= j < |s|
          ensures Before(x, s[j])
        {
        }
      } else {
        assert s[0] in s && Before(s[0], x);
        forall y | y in s[1..]
          ensures y in s && Before(s[0], y)
        {
          var i :| 0 <= i < |s[1..]| && s[1..][i] == y;
          assert s[i + 1] == y;
        }
        InsertedOrdered(s[1..], x);
        forall j | 0 <= j < |Inserted(s[1..], x)|
          ensures Before(s[0], Inserted(s[1..], x)[j])
        {
          InsertedMembers(s[1..], x, Inserted(s[1..], x)[j]);
        }
      }
    }
  }

  ghost predicate Increasing(s: seq<Scored>) { forall i, j | 0 <= i < j < |s| :: s[i].index < s[j].index }

  /** Sorting orders the list and keeps its members. */
  lemma {:induction false} SortedMeans(s: seq<Scored>)
    requires Increasing(s)
    ensures Ordered(Sorted(s)) && forall y :: y in Sorted(s) <==> y in s
  {
    if s != [] {
      var front, x := s[..|s| - 1], s[|s| - 1];
      SortedMeans(front);
      forall y | y in Sorted(front)
        ensures y.index != x.index
      {
        assert y in front;
      }
      InsertedOrdered(Sorted(front), x);
      forall y
        ensures y in Sorted(s) <==> y in s
      {
        InsertedMembers(Sorted(front), x, y);
        assert s == front + [x];
      }
    }
  }

  /** What the palette should list. */
  ghost predicate Lists(lower: string -> string, items: seq<string>, query: string, filtered: seq<nat>) {
    && (forall i: nat :: i in filtered <==> i < |items| && FuzzyScoreOf(lower, items[i], query).Some?)
    && (forall a, b | 0 <= a < b < |filtered| ::
          filtered[a] < |items| && filtered[b] < |items| && InOrder(lower, items, query, filtered[a], filtered[b]))
  }

  ghost predicate InOrder(lower: string -> string, items: seq<string>, query: string, i: nat, j: nat)
    requires i < |items| && j < |items|
  {
    var a, b := FuzzyScoreOf(lower, items[i], query), FuzzyScoreOf(lower, items[j], query);
    a.Some? && b.Some? && Before(Scored(i, a.value), Scored(j, b.value))
  }

  lemma NoRepeats(lower: string -> string, items: seq<string>, query: string, f: seq<nat>)
    requires Lists(lower, items, query, f)
    ensures forall a, b | 0 <= a < b < |f| :: f[a] != f[b]
  {
    hide FuzzyScoreOf;
  }

  /** There is only one such list. */
  lemma {:induction false} ListIsUnique(lower: string -> string, items: seq<string>, query: string,
                                        f: seq<nat>, g: seq<nat>, from: nat)
    requires Lists(lower, items, query, f) && Lists(lower, items, query, g)
    requires from <= |f| && from <= |g| && f[..from] == g[..from]
    ensures f == g
    decreases |f| - from
  {
    if from < |f| {
      AtSamePosition(lower, items, query, f, g, from);
      AtSamePosition(lower, items, query, g, f, from);
      hide FuzzyScoreOf;
      assert f[..from + 1] == f[..from] + [f[from]] && g[..from + 1] == g[..from] + [g[from]];
      ListIsUnique(lower, items, query, f, g, from + 1);
    } else if from < |g| {
      AtSamePosition(lower, items, query, g, f, from);
    }
  }

  /** What follows a common part in one list follows it in the other. */
  lemma AtSamePosition(lower: string -> string, items: seq<string>, query: string, f: seq<nat>, g: seq<nat>, from: nat)
    requires Lists(lower, items, query, f) && Lists(lower, items, query, g)
    requires from < |f| && from <= |g| && f[..from] == g[..from]
    ensures from < |g|
    ensures f[from] < |items| && g[from] < |items|
    ensures f[from] == g[from] || InOrder(lower, items, query, g[from], f[from])
  {
    hide FuzzyScoreOf;
    assert f[from] in f && f[from] in g;
    var i :| 0 <= i < |g| && g[i] == f[from];
    NoRepeats(lower, items, query, f);
    assert forall j | 0 <= j < from :: g[j] == g[..from][j] && f[j] == f[..from][j];
    assert g[i] in g;
  }

  class PaletteState {
    var items: seq<string>
    var filtered: seq<nat>
    var selected: nat

    method ApplyFilter(lower: string -> string, query: string)
      modifies this`filtered, this`selected
      ensures Lists(lower, items, query, filtered)
      ensures selected <= old(selected) && (filtered != [] ==> selected < |filtered|)
      ensures old(selected) < |filtered| ==> selected == old(selected)
      ensures old(selected) >= |filtered| > 0 ==> selected == |filtered| - 1
      ensures filtered == [] ==> selected == 0
    {
      hide FuzzyScoreOf, Inserted, Sorted;
      var scored: seq<Scored> := [];
      for index := 0 to |items|
        invariant selected == old(selected) && Increasing(scored)
        invariant forall y :: y in scored
                              <==> y.index < index && FuzzyScoreOf(lower, items[y.index], query) == Some(y.score)
      {
        var score := FuzzyScore(lower, items[index], query);
        if score.Some? {
          forall i | 0 <= i < |scored|
            ensures scored[i].index < index
          {
            assert scored[i] in scored;
          }
          scored := scored + [Scored(index, score.value)];
        }
      }
      SortedMeans(scored);
      scored := Sorted(scored);
      filtered := seq(|scored|, i requires 0 <= i < |scored| => scored[i].index);
      ListsSorted(lower, items, query, scored, filtered);
      var last := if |filtered| == 0 then 0 else |filtered| - 1;
      selected := if selected <= last then selected else last;
    }
  }

  lemma ListsSorted(lower: string -> string, items: seq<string>, query: string, scored: seq<Scored>, filtered: seq<nat>)
    requires Ordered(scored) && |filtered| == |scored|
    requires forall i | 0 <= i < |scored| :: filtered[i] == scored[i].index
    requires forall y :: y in scored <==> y.index < |items| && FuzzyScoreOf(lower, items[y.index], query) == Some(y.score)
    ensures Lists(lower, items, query, filtered)
  {
    hide FuzzyScoreOf;
    forall i: nat
      ensures i in filtered <==> i < |items| && FuzzyScoreOf(lower, items[i], query).Some?
    {
      if i in filtered {
        var k :| 0 <= k < |filtered| && filtered[k] == i;
        assert scored[k] in scored;
      }
      if i < |items| && FuzzyScoreOf(lower, items[i], query).Some? {
        var y := Scored(i, FuzzyScoreOf(lower, items[i], query).value);
        assert y in scored;
        var k :| 0 <= k < |scored| && scored[k] == y;
        assert filtered[k] == i;
      }
    }
    forall a, b | 0 <= a < b < |filtered|
      ensures filtered[a] < |items| && filtered[b] < |items| && InOrder(lower, items, query, filtered[a], filtered[b])
    {
      assert scored[a] in scored && scored[b] in scored;
    }
  }
}
