/** SQL text as src/db/mutation.rs normalises it: words, single blanks, ASCII lower case. */
module Sql {
  import opened Text

  function WordLength(s: string): (n: nat)
    ensures n <= |s| && (s != [] && !IsWhitespace(s[0]) ==> n > 0)
  {
    if s == [] || IsWhitespace(s[0]) then 0 else 1 + WordLength(s[1..])
  }

  /** `split_whitespace`. */
  function Words(s: string): seq<string>
    decreases |s|
  {
    if s == [] then []
    else if IsWhitespace(s[0]) then Words(s[1..])
    else [s[..WordLength(s)]] + Words(s[WordLength(s)..])
  }

  function JoinWords(ws: seq<string>): string {
    if ws == [] then [] else if |ws| == 1 then ws[0] else ws[0] + (" " + JoinWords(ws[1..]))
  }

  function LowerChar(c: char): char { if 'A' <= c <= 'Z' then (c as int + 32) as char else c }

  /** `to_ascii_lowercase`. */
  function Lower(s: string): (r: string)
    ensures |r| == |s|
  {
    if s == [] then [] else [LowerChar(s[0])] + Lower(s[1..])
  }

  function LowerAll(ws: seq<string>): (r: seq<string>)
    ensures |r| == |ws|
  {
    if ws == [] then [] else [Lower(ws[0])] + LowerAll(ws[1..])
  }

  /** `normalize_sql`. */
  function Normalize(sql: string): string { Lower(JoinWords(Words(sql))) }

  // ----- Words

  predicate IsWord(w: string) { w != [] && forall i | 0 <= i < |w| :: !IsWhitespace(w[i]) }

  ghost predicate AllWords(ws: seq<string>) { forall i | 0 <= i < |ws| :: IsWord(ws[i]) }

  lemma {:induction false} WordLengthMeans(s: string)
    ensures forall i | 0 <= i < WordLength(s) :: !IsWhitespace(s[i])
  {
    if s != [] && !IsWhitespace(s[0]) {
      WordLengthMeans(s[1..]);
      assert forall i | 1 <= i < WordLength(s) :: s[i] == s[1..][i - 1];
    }
  }

  lemma {:induction false} WordsAreWords(s: string)
    ensures AllWords(Words(s))
    decreases |s|
  {
    if s != [] {
      if IsWhitespace(s[0]) {
        WordsAreWords(s[1..]);
      } else {
        WordLengthMeans(s);
        WordsAreWords(s[WordLength(s)..]);
      }
    }
  }

  lemma {:induction false} WordEnds(w: string, rest: string)
    requires (forall i | 0 <= i < |w| :: !IsWhitespace(w[i])) && (rest == [] || IsWhitespace(rest[0]))
    ensures WordLength(w + rest) == |w|
  {
    if w == [] {
      assert w + rest == rest;
    } else {
      assert (w + rest)[1..] == w[1..] + rest;
      WordEnds(w[1..], rest);
    }
  }

  /** A word at the front, up to the next white space. */
  lemma FirstWord(w: string, rest: string)
    requires IsWord(w) && (rest == [] || IsWhitespace(rest[0]))
    ensures Words(w + rest) == [w] + Words(rest)
  {
    WordEnds(w, rest);
    assert (w + rest)[..|w|] == w && (w + rest)[|w|..] == rest;
  }

  lemma BlankSeparates(rest: string)
    ensures Words(" " + rest) == Words(rest)
  {
    assert (" " + rest)[1..] == rest;
  }

  lemma {:induction false} WordsOfJoined(ws: seq<string>)
    requires AllWords(ws)
    ensures Words(JoinWords(ws)) == ws
  {
    if |ws| == 1 {
      FirstWord(ws[0], []);
      assert ws[0] + [] == ws[0];
    } else if |ws| > 1 {
      WordsOfJoined(ws[1..]);
      FirstWord(ws[0], " " + JoinWords(ws[1..]));
      BlankSeparates(JoinWords(ws[1..]));
    }
  }

  // ----- Case

  const CAPITALS := "ABCDEFGHIJKLMNOPQRSTUVWXYZ"
  const SMALL := "abcdefghijklmnopqrstuvwxyz"

  /** The 26 capitals become their small letters, and nothing else changes. */
  lemma LowerIsAscii(c: char)
    ensures |CAPITALS| == |SMALL| == 26
    ensures c in CAPITALS ==> exists i :: 0 <= i < 26 && CAPITALS[i] == c && LowerChar(c) == SMALL[i]
    ensures c !in CAPITALS ==> LowerChar(c) == c
  {
    if 'A' <= c <= 'Z' {
      var i := c as int - 'A' as int;
      assert CAPITALS[i] == c && SMALL[i] == LowerChar(c);
    }
  }

  lemma {:induction false} LowerAt(s: string, i: nat)
    requires i < |s|
    ensures Lower(s)[i] == LowerChar(s[i])
  {
    if i > 0 {
      LowerAt(s[1..], i - 1);
    }
  }

  lemma LowerKeepsWords(w: string)
    requires IsWord(w)
    ensures IsWord(Lower(w))
  {
    forall i | 0 <= i < |w|
      ensures !IsWhitespace(Lower(w)[i])
    {
      LowerAt(w, i);
    }
  }

  lemma {:induction false} LowerAllKeepsWords(ws: seq<string>)
    requires AllWords(ws)
    ensures AllWords(LowerAll(ws))
  {
    if ws != [] {
      LowerKeepsWords(ws[0]);
      LowerAllKeepsWords(ws[1..]);
    }
  }

  lemma {:induction false} LowerConcat(a: string, b: string)
    ensures Lower(a + b) == Lower(a) + Lower(b)
  {
    if a == [] {
      assert a + b == b;
    } else {
      assert (a + b)[1..] == a[1..] + b;
      LowerConcat(a[1..], b);
    }
  }

  lemma {:induction false} LowerJoined(ws: seq<string>)
    ensures Lower(JoinWords(ws)) == JoinWords(LowerAll(ws))
  {
    if |ws| == 1 {
      assert LowerAll(ws) == [Lower(ws[0])];
    } else if |ws| > 1 {
      var rest := JoinWords(ws[1..]);
      LowerConcat(ws[0], " " + rest);
      LowerConcat(" ", rest);
      assert Lower(" ") == " ";
      LowerJoined(ws[1..]);
      assert LowerAll(ws)[1..] == LowerAll(ws[1..]);
    }
  }

  /** The normal form is the words in lower case, one blank apart. */
  lemma WordsOfNormal(sql: string)
    ensures Normalize(sql) == JoinWords(LowerAll(Words(sql)))
    ensures Words(Normalize(sql)) == LowerAll(Words(sql))
  {
    hide Words, JoinWords, Lower, LowerAll, AllWords;
    WordsAreWords(sql);
    LowerAllKeepsWords(Words(sql));
    LowerJoined(Words(sql));
    WordsOfJoined(LowerAll(Words(sql)));
  }

  /** Two statements have one normal form exactly when they differ in case and white space only. */
  lemma NormalFormIsCanonical(a: string, b: string)
    ensures Normalize(a) == Normalize(b) <==> LowerAll(Words(a)) == LowerAll(Words(b))
  {
    hide *;
    WordsOfNormal(a);
    WordsOfNormal(b);
  }

  lemma {:induction false} LowerTwice(s: string)
    ensures Lower(Lower(s)) == Lower(s)
  {
    if s != [] {
      LowerTwice(s[1..]);
    }
  }

  lemma {:induction false} LowerAllTwice(ws: seq<string>)
    ensures LowerAll(LowerAll(ws)) == LowerAll(ws)
  {
    if ws != [] {
      LowerTwice(ws[0]);
      LowerAllTwice(ws[1..]);
    }
  }

  lemma NormalizingTwice(sql: string)
    ensures Normalize(Normalize(sql)) == Normalize(sql)
  {
    hide *;
    WordsOfNormal(sql);
    LowerAllTwice(Words(sql));
    NormalFormIsCanonical(Normalize(sql), sql);
  }

  // ----- Text that is in normal form already

  predicate IsNormal(s: string) {
    && s != [] && s[0] != ' ' && s[|s| - 1] != ' '
    && (forall i | 0 <= i < |s| :: !('A' <= s[i] <= 'Z') && (IsWhitespace(s[i]) ==> s[i] == ' '))
    && forall i | 0 < i < |s| :: s[i] == ' ' ==> s[i - 1] != ' '
  }

  lemma {:induction false} NormalIsLower(s: string)
    requires forall i | 0 <= i < |s| :: !('A' <= s[i] <= 'Z')
    ensures Lower(s) == s
  {
    if s != [] {
      NormalIsLower(s[1..]);
    }
  }

  /** Behind the first word of such text is one blank, and then such text again. */
  lemma RestIsNormal(s: string, n: nat)
    requires IsNormal(s) && n < |s| && IsWhitespace(s[n])
    ensures n + 1 < |s| && s[n] == ' ' && IsNormal(s[n + 1..])
  {
    var rest := s[n + 1..];
    assert s[n] == ' ' && s[n + 1] != ' ';
    assert forall i | 0 <= i < |rest| :: rest[i] == s[n + 1 + i];
  }

  lemma JoinWordBefore(w: string, ws: seq<string>)
    requires ws != []
    ensures JoinWords([w] + ws) == w + (" " + JoinWords(ws))
  {
    assert ([w] + ws)[1..] == ws;
  }

  lemma {:induction false} NormalIsJoined(s: string)
    requires IsNormal(s)
    ensures Words(s) != [] && JoinWords(Words(s)) == s
    decreases |s|
  {
    hide IsNormal, IsWhitespace, WordLength, Words, JoinWords;
    var n := WordLength(s);
    WordLengthMeans(s);
    WordStops(s);
    if n == |s| {
      LastWord(s);
    } else {
      var rest := s[n + 1..];
      RestIsNormal(s, n);
      NormalIsJoined(rest);
      InkFirst(s);
      FirstWord(s[..n], s[n..]);
      assert s[..n] + s[n..] == s;
      BlankSeparates(rest);
      assert s[n..] == " " + rest;
      JoinWordBefore(s[..n], Words(rest));
      assert s == s[..n] + (" " + rest);
    }
  }

  lemma InkFirst(s: string)
    requires IsNormal(s)
    ensures IsWord(s[..WordLength(s)])
  {
    WordLengthMeans(s);
  }

  lemma LastWord(s: string)
    requires IsNormal(s) && WordLength(s) == |s|
    ensures Words(s) == [s] && JoinWords(Words(s)) == s
  {
    assert s[..|s|] == s && Words(s[|s|..]) == [];
  }

  lemma {:induction false} WordStops(s: string)
    ensures WordLength(s) < |s| ==> IsWhitespace(s[WordLength(s)])
  {
    if s != [] && !IsWhitespace(s[0]) {
      WordStops(s[1..]);
    }
  }

  lemma NormalIsFixed(s: string)
    requires IsNormal(s)
    ensures Normalize(s) == s
  {
    hide Words, JoinWords, Lower;
    NormalIsJoined(s);
    NormalIsLower(s);
  }
}
