/** Text as the standard library sees it: Unicode white space, control characters, trimming. */
module Text {
  import opened Wrappers

  predicate IsWhitespace(c: char) {
    || '\t' <= c <= '\r' || c == ' ' || c == '\U{85}' || c == '\U{A0}' || c == '\U{1680}'
    || '\U{2000}' <= c <= '\U{200A}' || c == '\U{2028}' || c == '\U{2029}' || c == '\U{202F}'
    || c == '\U{205F}' || c == '\U{3000}'
  }

  /** `is_ascii_whitespace`. */
  predicate IsAsciiSpace(c: int) { c == 0x20 || c == 0x09 || c == 0x0A || c == 0x0C || c == 0x0D }

  predicate IsControl(c: char) { c <= '\U{1F}' || '\U{7F}' <= c <= '\U{9F}' }

  function TrimStart(s: string): (r: string)
    ensures |r| <= |s|
  {
    if s != [] && IsWhitespace(s[0]) then TrimStart(s[1..]) else s
  }

  function TrimEnd(s: string): (r: string)
    ensures |r| <= |s|
  {
    if s != [] && IsWhitespace(s[|s| - 1]) then TrimEnd(s[..|s| - 1]) else s
  }

  function Trim(s: string): string { TrimEnd(TrimStart(s)) }

  predicate IsBlank(s: string) { Trim(s) == [] }

  /** Text with ink at both ends is not trimmed. */
  lemma TrimKeeps(s: string)
    requires s != [] && !IsWhitespace(s[0]) && !IsWhitespace(s[|s| - 1])
    ensures Trim(s) == s
  {
  }

  lemma {:induction false} TrimStartEnds(s: string)
    ensures TrimStart(s) != [] ==> !IsWhitespace(TrimStart(s)[0])
  {
    if s != [] && IsWhitespace(s[0]) {
      TrimStartEnds(s[1..]);
    }
  }

  lemma {:induction false} TrimEndEnds(s: string)
    ensures TrimEnd(s) <= s && (TrimEnd(s) != [] ==> !IsWhitespace(TrimEnd(s)[|TrimEnd(s)| - 1]))
  {
    if s != [] && IsWhitespace(s[|s| - 1]) {
      TrimEndEnds(s[..|s| - 1]);
    }
  }

  /** Trimmed text has ink at both ends. */
  lemma TrimmedEnds(s: string)
    ensures Trim(s) != [] ==> !IsWhitespace(Trim(s)[0]) && !IsWhitespace(Trim(s)[|Trim(s)| - 1])
  {
    TrimStartEnds(s);
    TrimEndEnds(TrimStart(s));
  }

  predicate AllWhitespace(s: string) { forall i | 0 <= i < |s| :: IsWhitespace(s[i]) }

  lemma {:induction false} TrimEndBlank(s: string)
    requires AllWhitespace(s)
    ensures TrimEnd(s) == []
  {
    if s != [] {
      TrimEndBlank(s[..|s| - 1]);
    }
  }

  /** Blank means white space only. */
  lemma {:induction false} BlankIsWhitespace(s: string)
    ensures IsBlank(s) <==> AllWhitespace(s)
  {
    if s == [] {
    } else if IsWhitespace(s[0]) {
      BlankIsWhitespace(s[1..]);
      assert AllWhitespace(s) <==> AllWhitespace(s[1..]) by {
        assert forall i | 1 <= i < |s| :: s[i] == s[1..][i - 1];
      }
    } else {
      InkSurvivesTrimEnd(s);
    }
  }

  lemma {:induction false} InkSurvivesTrimEnd(s: string)
    requires s != [] && !IsWhitespace(s[0])
    ensures TrimEnd(s) != []
  {
    if IsWhitespace(s[|s| - 1]) {
      InkSurvivesTrimEnd(s[..|s| - 1]);
    }
  }

  // ----- Searching

  /** `find` of a character. */
  function IndexOf(s: string, c: char): (r: Option<nat>)
    ensures r.Some? ==> r.value < |s| && s[r.value] == c
  {
    if s == [] then None
    else if s[0] == c then Some(0)
    else match IndexOf(s[1..], c) case Some(i) => Some(i + 1) case None => None
  }

  /** `find` of a string. */
  function Find(s: string, t: string): (r: Option<nat>)
    ensures r.Some? ==> r.value + |t| <= |s| && s[r.value..][..|t|] == t
  {
    if t <= s then Some(0)
    else if s == [] then None
    else match Find(s[1..], t) case Some(i) => Some(i + 1) case None => None
  }

  /** `split_once`. */
  function SplitOnce(s: string, t: string): Option<(string, string)> {
    match Find(s, t)
    case Some(i) => Some((s[..i], s[i + |t|..]))
    case None => None
  }

  lemma {:induction false} IndexOfSkips(a: string, c: char, b: string)
    requires c !in a
    ensures IndexOf(a + [c] + b, c) == Some(|a|)
  {
    if a != [] {
      assert a[0] in a && (a + [c] + b)[1..] == a[1..] + [c] + b;
      IndexOfSkips(a[1..], c, b);
    }
  }

  lemma FindAfter(s: string, t: string)
    requires s != [] && !(t <= s)
    ensures Find(s, t) == match Find(s[1..], t) case Some(i) => Some(i + 1) case None => None
  {
  }

  lemma OtherStart(s: string, t: string)
    requires s != [] && t != [] && s[0] != t[0]
    ensures !(t <= s)
  {
  }

  /** Text that cannot begin a match is passed over. */
  lemma {:induction false} FindSkips(a: string, b: string, t: string)
    requires t != [] && t[0] !in a
    ensures Find(a + b, t) == match Find(b, t) case Some(i) => Some(|a| + i) case None => None
  {
    hide Find;
    if a == [] {
      assert a + b == b;
    } else {
      assert a[0] in a && (a + b)[1..] == a[1..] + b;
      OtherStart(a + b, t);
      FindAfter(a + b, t);
      FindSkips(a[1..], b, t);
    }
  }

  lemma FindHere(t: string, b: string)
    ensures Find(t + b, t) == Some(0)
  {
  }

  /** Splitting at a text right behind one that cannot begin it. */
  lemma SplitOnceAt(a: string, t: string, b: string)
    requires t != [] && t[0] !in a
    ensures SplitOnce(a + (t + b), t) == Some((a, b))
  {
    FindSkips(a, t + b, t);
    FindHere(t, b);
    assert (a + (t + b))[..|a|] == a && (a + (t + b))[|a| + |t|..] == b;
  }

  // ----- Lines

  /** `lines`: a line feed ends a line, with the carriage return before it. */
  function Lines(s: string): seq<string>
    decreases |s|
  {
    if s == [] then []
    else
      match IndexOf(s, '\n')
      case None => [s]
      case Some(i) => [if i > 0 && s[i - 1] == '\r' then s[..i - 1] else s[..i]] + Lines(s[i + 1..])
  }

  predicate IsLine(s: string) { '\n' !in s && (s == [] || s[|s| - 1] != '\r') }

  lemma LinesOf(line: string, rest: string)
    requires IsLine(line)
    ensures Lines(line + ['\n'] + rest) == [line] + Lines(rest)
  {
    var s := line + ['\n'] + rest;
    IndexOfSkips(line, '\n', rest);
    assert s[..|line|] == line && s[|line| + 1..] == rest;
    assert line != [] ==> s[|line| - 1] == line[|line| - 1];
  }

  // ----- Replacing

  /** `replace`: matches from the left, none overlapping. */
  function Replace(s: string, from: string, to: string): string
    requires from != []
    decreases |s|
  {
    if s == [] then []
    else if from <= s then to + Replace(s[|from|..], from, to)
    else [s[0]] + Replace(s[1..], from, to)
  }

  lemma {:induction false} ReplaceKeepsOut(s: string, from: string, to: string, c: char)
    requires from != [] && c !in s && c !in to
    ensures c !in Replace(s, from, to)
    decreases |s|
  {
    if s != [] {
      if from <= s {
        assert forall i | 0 <= i < |s[|from|..]| :: s[|from|..][i] in s;
        ReplaceKeepsOut(s[|from|..], from, to, c);
      } else {
        assert s[0] in s && forall i | 0 <= i < |s[1..]| :: s[1..][i] in s;
        ReplaceKeepsOut(s[1..], from, to, c);
      }
    }
  }

  lemma {:induction false} ReplaceRemoves(s: string, c: char, to: string)
    requires c !in to
    ensures c !in Replace(s, [c], to)
    decreases |s|
  {
    if s != [] {
      assert [c] <= s <==> s[0] == c;
      ReplaceRemoves(s[1..], c, to);
    }
  }

  /** Replacing a character by a text, one step. */
  lemma ReplaceOne(s: string, c: char, to: string)
    requires s != []
    ensures Replace(s, [c], to) == (if s[0] == c then to else [s[0]]) + Replace(s[1..], [c], to)
  {
    assert [c] <= s <==> s[0] == c;
  }

  lemma ReplaceAtFront(from: string, rest: string, to: string)
    requires from != []
    ensures Replace(from + rest, from, to) == to + Replace(rest, from, to)
  {
    assert (from + rest)[|from|..] == rest;
  }

  lemma ReplacePast(c: char, rest: string, from: string, to: string)
    requires from != [] && !(from <= [c] + rest)
    ensures Replace([c] + rest, from, to) == [c] + Replace(rest, from, to)
  {
    assert ([c] + rest)[1..] == rest;
  }

  // ----- Numbers, counting and splitting

  function Digits(n: nat): string {
    (if n < 10 then [] else Digits(n / 10)) + ['0' + (n % 10) as char]
  }

  function Count(s: string, c: char): nat {
    if s == [] then 0 else (if s[0] == c then 1 else 0) + Count(s[1..], c)
  }

  lemma {:induction false} CountConcat(a: string, b: string, c: char)
    ensures Count(a + b, c) == Count(a, c) + Count(b, c)
  {
    if a == [] {
      assert a + b == b;
    } else {
      assert (a + b)[1..] == a[1..] + b;
      CountConcat(a[1..], b, c);
    }
  }

  lemma {:induction false} CountNone(s: string, c: char)
    ensures Count(s, c) == 0 <==> c !in s
  {
    if s != [] {
      CountNone(s[1..], c);
      assert s == [s[0]] + s[1..];
    }
  }

  /** `split` at a character. */
  function Split(s: string, c: char): (parts: seq<string>)
    ensures parts != []
  {
    if s == [] then [[]]
    else
      var rest := Split(s[1..], c);
      if s[0] == c then [[]] + rest else [[s[0]] + rest[0]] + rest[1..]
  }

  function Join(parts: seq<string>, c: char): string
    requires parts != []
  {
    if |parts| == 1 then parts[0] else parts[0] + ([c] + Join(parts[1..], c))
  }

  lemma {:induction false} SplitNone(s: string, c: char)
    requires c !in s
    ensures Split(s, c) == [s]
  {
    if s != [] {
      assert s[0] in s;
      SplitNone(s[1..], c);
      assert [s[0]] + s[1..] == s;
    }
  }

  lemma {:induction false} SplitFirst(part: string, c: char, rest: string)
    requires c !in part
    ensures Split(part + ([c] + rest), c) == [part] + Split(rest, c)
  {
    var s := part + ([c] + rest);
    if part == [] {
      assert s[1..] == rest;
    } else {
      assert part[0] in part && s[1..] == part[1..] + ([c] + rest);
      SplitFirst(part[1..], c, rest);
      assert [part[0]] + part[1..] == part;
      assert ([part[1..]] + Split(rest, c))[1..] == Split(rest, c);
    }
  }

  lemma {:induction false} SplitJoined(parts: seq<string>, c: char)
    requires parts != [] && forall i | 0 <= i < |parts| :: c !in parts[i]
    ensures Split(Join(parts, c), c) == parts
  {
    if |parts| == 1 {
      SplitNone(parts[0], c);
    } else {
      SplitJoined(parts[1..], c);
      SplitFirst(parts[0], c, Join(parts[1..], c));
    }
  }
}
