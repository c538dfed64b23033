/**
 Placing the cursor with the mouse, src/app/util.rs: from a line and column of the wrapped composer to a
 byte index of its buffer. The layout it inverts is defined here on its own, by division.
 */
module Display {
  import opened Utf8
  import opened Composer

  const NEWLINE: Scalar := 0x0A

  datatype Place = Place(line: nat, col: nat)

  predicate NotAfter(p: Place, q: Place) { p.line < q.line || (p.line == q.line && p.col <= q.col) }

  predicate Precedes(p: Place, q: Place) { p.line < q.line || (p.line == q.line && p.col < q.col) }

  // ----- The layout

  /** The start of the paragraph in which character `k` stands. */
  function ParagraphStart(text: seq<Scalar>, k: nat): (s: nat)
    requires k <= |text|
    ensures s <= k && (s == 0 || text[s - 1] == NEWLINE)
    decreases k
  {
    if k == 0 || text[k - 1] == NEWLINE then k else ParagraphStart(text, k - 1)
  }

  /** The first display line of that paragraph: the one below the newline before it. */
  function TopLine(text: seq<Scalar>, width: nat, k: nat): nat
    requires k <= |text| && width > 0
    decreases k, 0
  {
    var s := ParagraphStart(text, k);
    if s == 0 then 0 else AfterLast(text, width, s - 1).line + 1
  }

  /** The place right after the character before `k`; a newline stands there. */
  function AfterLast(text: seq<Scalar>, width: nat, k: nat): Place
    requires k <= |text| && width > 0
    decreases k, 1
  {
    var n := k - ParagraphStart(text, k);
    if n == 0 then Place(TopLine(text, width, k), 0)
    else Place(TopLine(text, width, k) + (n - 1) / width, (n - 1) % width + 1)
  }

  /** Where character `k` is displayed: every `width` characters of a paragraph make a line. */
  function PlaceOf(text: seq<Scalar>, width: nat, k: nat): Place
    requires k < |text| && width > 0
  {
    if text[k] == NEWLINE then AfterLast(text, width, k)
    else
      var n := k - ParagraphStart(text, k);
      Place(TopLine(text, width, k) + n / width, n % width)
  }

  lemma DivSteps(n: nat, width: nat)
    requires n > 0 && width > 0
    ensures if (n - 1) % width + 1 == width then n / width == (n - 1) / width + 1 && n % width == 0
            else n / width == (n - 1) / width && n % width == (n - 1) % width + 1
  {
    var q, r := (n - 1) / width, (n - 1) % width;
    assert n - 1 == q * width + r;
    if r + 1 == width {
      assert n == (q + 1) * width;
      DivUnique(n, width, q + 1, 0);
    } else {
      DivUnique(n, width, q, r + 1);
    }
  }

  lemma MultiplesAreApart(q: nat, q': nat, width: nat)
    requires q > q'
    ensures q * width >= q' * width + width
  {
    var d := q - q' - 1;
    assert q * width == (q' + 1 + d) * width == q' * width + width + d * width;
  }

  lemma DivUnique(n: nat, width: nat, q: nat, r: nat)
    requires 0 <= r < width && n == q * width + r
    ensures n / width == q && n % width == r
  {
    var q', r' := n / width, n % width;
    assert n == q' * width + r';
    if q > q' {
      MultiplesAreApart(q, q', width);
    } else if q < q' {
      MultiplesAreApart(q', q, width);
    }
  }

  lemma AfterLastFits(text: seq<Scalar>, width: nat, k: nat)
    requires k <= |text| && width > 0
    ensures AfterLast(text, width, k).col <= width
  {
    hide TopLine, ParagraphStart;
  }

  /** A character stands right after the one before it, or on the next line when that line is full. */
  lemma PlaceIsAfterLast(text: seq<Scalar>, width: nat, k: nat)
    requires k < |text| && width > 0
    ensures var a := AfterLast(text, width, k);
            && a.col <= width
            && PlaceOf(text, width, k)
               == if text[k] != NEWLINE && a.col == width then Place(a.line + 1, 0) else a
  {
    hide TopLine, ParagraphStart;
    AfterLastFits(text, width, k);
    var n := k - ParagraphStart(text, k);
    if n > 0 {
      DivSteps(n, width);
    } else {
      NothingWraps(width);
    }
  }

  lemma NothingWraps(width: nat)
    requires width > 0
    ensures 0 / width == 0 && 0 % width == 0
  {
  }

  lemma AfterLastSteps(text: seq<Scalar>, width: nat, k: nat)
    requires k < |text| && width > 0
    ensures var p := PlaceOf(text, width, k);
            AfterLast(text, width, k + 1) == if text[k] == NEWLINE then Place(p.line + 1, 0) else Place(p.line, p.col + 1)
  {
  }

  /** Later characters stand at later places, below any newline between. */
  lemma {:induction false} PlacesIncrease(text: seq<Scalar>, width: nat, j: nat, k: nat)
    requires j < k < |text| && width > 0
    ensures Precedes(PlaceOf(text, width, j), PlaceOf(text, width, k))
    ensures text[j] == NEWLINE ==> PlaceOf(text, width, j).line < PlaceOf(text, width, k).line
    decreases k
  {
    hide PlaceOf, AfterLast;
    AfterLastSteps(text, width, k - 1);
    PlaceIsAfterLast(text, width, k);
    if j < k - 1 {
      PlacesIncrease(text, width, j, k - 1);
    }
  }

  // ----- Clicking

  /** Character `k` stands at or after the click; a newline takes the rest of its line. */
  predicate Reached(text: seq<Scalar>, width: nat, target: Place, k: nat)
    requires k < |text| && width > 0
  {
    var p := PlaceOf(text, width, k);
    p.line > target.line || (p.line == target.line && (p.col >= target.col || text[k] == NEWLINE))
  }

  /** The first such character from `k` on, or the end. */
  function FirstReached(text: seq<Scalar>, width: nat, target: Place, k: nat): (r: nat)
    requires k <= |text| && width > 0
    ensures k <= r <= |text|
    decreases |text| - k
  {
    if k == |text| || Reached(text, width, target, k) then k else FirstReached(text, width, target, k + 1)
  }

  function Clicked(text: seq<Scalar>, width: nat, target: Place): (r: nat)
    ensures r <= |text|
  {
    FirstReached(text, if width == 0 then 1 else width, target, 0)
  }

  /** Up to character `k` the loop has not passed the line it looks for. */
  lemma StillAbove(text: seq<Scalar>, width: nat, target: Place, k: nat)
    requires k < |text| && width > 0 && AfterLast(text, width, k).line <= target.line
    ensures var a, p := AfterLast(text, width, k), PlaceOf(text, width, k);
            Reached(text, width, target, k)
            <==> (a.line == target.line && (text[k] == NEWLINE || a.col >= width))
                 || (p.line == target.line && p.col >= target.col)
  {
    hide AfterLast, PlaceOf;
    PlaceIsAfterLast(text, width, k);
  }

  lemma NextCharacter(text: seq<Scalar>, k: nat)
    requires k < |text|
    ensures Offset(text, k) < |Encode(text)|
    ensures FrontOf(Encode(text)[Offset(text, k)..]) == Good(Width(text[k]), text[k])
    ensures Offset(text, k + 1) == Offset(text, k) + Width(text[k]) <= |Encode(text)|
  {
    hide Encode, Offset, FrontOf;
    OffsetSplits(text, k);
    OffsetSplits(text, k + 1);
    OffsetNext(text, k);
    assert text[k..] == [text[k]] + text[k + 1..];
    EncodeCons(text[k], text[k + 1..]);
    FrontOfEncoded(text[k], Encode(text[k + 1..]));
  }

  method CursorForDisplayPosition(buffer: seq<Byte>, width: nat, targetLine: nat, targetCol: nat) returns (index: nat)
    requires Valid(buffer)
    ensures index == Offset(Decode(buffer), Clicked(Decode(buffer), width, Place(targetLine, targetCol)))
  {
    hide Offset, Encode, Decode, FrontOf, AfterLast, PlaceOf, Reached;
    var w := if width == 0 then 1 else width;
    var line, col := 0, 0;
    index := 0;
    ghost var text, target, k := Decode(buffer), Place(targetLine, targetCol), 0;
    EncodeDecode(buffer);
    OffsetSplits(text, 0);
    StartsAtOrigin(text, w);
    while index < |buffer|
      invariant k <= |text| && index == Offset(text, k) <= |buffer|
      invariant index == |buffer| <==> k == |text|
      invariant Place(line, col) == AfterLast(text, w, k) && line <= targetLine
      invariant FirstReached(text, w, target, k) == FirstReached(text, w, target, 0)
      decreases |text| - k
    {
      NextCharacter(text, k);
      OffsetSplits(text, k + 1);
      StillAbove(text, w, target, k);
      PlaceIsAfterLast(text, w, k);
      AfterLastSteps(text, w, k);
      var ch := FrontOf(buffer[index..]).scalar;
      if ch == NEWLINE {
        if line == targetLine {
          return;
        }
        line := line + 1;
        col := 0;
      } else {
        if col >= w {
          if line == targetLine {
            return;
          }
          line := line + 1;
          col := 0;
        }
        if line == targetLine && col >= targetCol {
          return;
        }
        col := col + 1;
      }
      index := index + FrontOf(buffer[index..]).width;
      k := k + 1;
    }
  }

  lemma StartsAtOrigin(text: seq<Scalar>, width: nat)
    requires width > 0
    ensures AfterLast(text, width, 0) == Place(0, 0)
  {
  }

  lemma {:induction false} FirstReachedIs(text: seq<Scalar>, width: nat, target: Place, from: nat, k: nat)
    requires from <= k < |text| && width > 0 && Reached(text, width, target, k)
    requires forall j | from <= j < k :: !Reached(text, width, target, j)
    ensures FirstReached(text, width, target, from) == k
    decreases k - from
  {
    hide Reached;
    if from < k {
      FirstReachedIs(text, width, target, from + 1, k);
    }
  }

  /** Clicking undoes the layout that breaks every `width` characters: at the place of any character,
      newlines included, the click finds that character. */
  lemma ClickingInvertsLayout(text: seq<Scalar>, width: nat, k: nat)
    requires k < |text| && width > 0
    ensures Clicked(text, width, PlaceOf(text, width, k)) == k
  {
    hide PlaceOf;
    var target := PlaceOf(text, width, k);
    forall j | 0 <= j < k
      ensures !Reached(text, width, target, j)
    {
      PlacesIncrease(text, width, j, k);
    }
    FirstReachedIs(text, width, target, 0, k);
  }

  // ----- With the cursor in the text

  const GLYPH: Scalar := 0x258C

  /** What is shown: the cursor is a character of its own. */
  function Shown(text: seq<Scalar>, c: nat): (shown: seq<Scalar>)
    requires c <= |text|
    ensures |shown| == |text| + 1 && shown[c] == GLYPH
    ensures forall k | 0 <= k < c :: shown[k] == text[k]
    ensures forall k | c <= k < |text| :: shown[k + 1] == text[k]
  {
    text[..c] + [GLYPH] + text[c..]
  }

  /** The newline that ends the paragraph of the cursor, or the end of the text. */
  function ParagraphEnd(text: seq<Scalar>, c: nat): (e: nat)
    requires c <= |text|
    ensures c <= e <= |text| && (forall k | c <= k < e :: text[k] != NEWLINE) && (e < |text| ==> text[e] == NEWLINE)
    decreases |text| - c
  {
    if c == |text| || text[c] == NEWLINE then c else ParagraphEnd(text, c + 1)
  }

  function Put(width: nat, a: Place): Place { if a.col == width then Place(a.line + 1, 0) else a }

  function Lower(p: Place, lines: nat): Place { Place(p.line + lines, p.col) }

  /** The layout as a walk over the characters. */
  lemma LayoutSteps(text: seq<Scalar>, width: nat, k: nat)
    requires k < |text| && width > 0
    ensures var a := AfterLast(text, width, k);
            var p := if text[k] == NEWLINE then a else Put(width, a);
            && a.col <= width && PlaceOf(text, width, k) == p
            && AfterLast(text, width, k + 1) == if text[k] == NEWLINE then Place(p.line + 1, 0) else Place(p.line, p.col + 1)
  {
    hide AfterLast, PlaceOf;
    PlaceIsAfterLast(text, width, k);
    AfterLastSteps(text, width, k);
  }

  lemma {:induction false} SameBeforeCursor(text: seq<Scalar>, width: nat, c: nat, k: nat)
    requires k <= c <= |text| && width > 0
    ensures AfterLast(Shown(text, c), width, k) == AfterLast(text, width, k)
    decreases k
  {
    hide AfterLast, PlaceOf, Shown;
    if k == 0 {
      StartsAtOrigin(text, width);
      StartsAtOrigin(Shown(text, c), width);
    } else {
      SameBeforeCursor(text, width, c, k - 1);
      LayoutSteps(text, width, k - 1);
      LayoutSteps(Shown(text, c), width, k - 1);
    }
  }

  /** In its paragraph the cursor moves every character behind it by one. */
  lemma {:induction false} MovedByOne(text: seq<Scalar>, width: nat, c: nat, k: nat)
    requires c <= |text| && c <= k <= ParagraphEnd(text, c) && width > 0
    ensures var p := Put(width, AfterLast(text, width, k));
            AfterLast(Shown(text, c), width, k + 1) == Place(p.line, p.col + 1)
    decreases k
  {
    hide AfterLast, PlaceOf, Shown, ParagraphEnd;
    if k == c {
      SameBeforeCursor(text, width, c, c);
      LayoutSteps(Shown(text, c), width, c);
    } else {
      MovedByOne(text, width, c, k - 1);
      LayoutSteps(text, width, k - 1);
      LayoutSteps(Shown(text, c), width, k);
    }
  }

  /** Behind its paragraph everything stays in its column, one line further down if the paragraph is full. */
  lemma {:induction false} MovedDown(text: seq<Scalar>, width: nat, c: nat, k: nat)
    requires c <= |text| && ParagraphEnd(text, c) < k <= |text| && width > 0
    ensures AfterLast(Shown(text, c), width, k + 1)
            == Lower(AfterLast(text, width, k), if AfterLast(text, width, ParagraphEnd(text, c)).col == width then 1 else 0)
    decreases k
  {
    hide AfterLast, PlaceOf, Shown, ParagraphEnd;
    LayoutSteps(text, width, k - 1);
    LayoutSteps(Shown(text, c), width, k);
    if k - 1 == ParagraphEnd(text, c) {
      MovedByOne(text, width, c, k - 1);
    } else {
      MovedDown(text, width, c, k - 1);
    }
  }

  /** The cursor's paragraph fills its last line, so the cursor takes another. */
  predicate IsFull(text: seq<Scalar>, width: nat, c: nat)
    requires c <= |text| && width > 0
  {
    var n := ParagraphEnd(text, c) - ParagraphStart(text, c);
    n > 0 && n % width == 0
  }

  lemma {:induction false} SameParagraph(text: seq<Scalar>, c: nat, k: nat)
    requires c <= |text| && c <= k <= ParagraphEnd(text, c)
    ensures ParagraphStart(text, k) == ParagraphStart(text, c)
    decreases k
  {
    hide ParagraphEnd;
    if c < k {
      SameParagraph(text, c, k - 1);
    }
  }

  lemma FullLine(text: seq<Scalar>, width: nat, c: nat)
    requires c <= |text| && width > 0
    ensures IsFull(text, width, c) <==> AfterLast(text, width, ParagraphEnd(text, c)).col == width
  {
    hide TopLine, ParagraphStart, ParagraphEnd;
    var e := ParagraphEnd(text, c);
    SameParagraph(text, c, e);
    var n := e - ParagraphStart(text, c);
    if n > 0 {
      DivSteps(n, width);
    }
  }

  lemma {:induction false} FoundIsReached(text: seq<Scalar>, width: nat, target: Place, k: nat)
    requires k <= |text| && width > 0
    ensures var r := FirstReached(text, width, target, k); r < |text| ==> Reached(text, width, target, r)
    decreases |text| - k
  {
    hide Reached;
    if k < |text| && !Reached(text, width, target, k) {
      FoundIsReached(text, width, target, k + 1);
    }
  }

  /** Where character `k` is shown. */
  function ShownPlace(text: seq<Scalar>, width: nat, c: nat, k: nat): Place
    requires c <= |text| && k < |text| && width > 0
  {
    PlaceOf(Shown(text, c), width, if k < c then k else k + 1)
  }

  lemma ShownBefore(text: seq<Scalar>, width: nat, c: nat, k: nat)
    requires k < c <= |text| && width > 0
    ensures ShownPlace(text, width, c, k) == PlaceOf(text, width, k)
  {
    hide AfterLast, PlaceOf, Shown;
    SameBeforeCursor(text, width, c, k);
    LayoutSteps(text, width, k);
    LayoutSteps(Shown(text, c), width, k);
  }

  lemma ShownInParagraph(text: seq<Scalar>, width: nat, c: nat, k: nat)
    requires c <= |text| && c <= k < ParagraphEnd(text, c) && width > 0
    ensures ShownPlace(text, width, c, k) == Put(width, AfterLast(text, width, k + 1))
    ensures !Reached(text, width, ShownPlace(text, width, c, k), k)
  {
    hide AfterLast, PlaceOf, Shown, ParagraphEnd;
    MovedByOne(text, width, c, k);
    LayoutSteps(text, width, k);
    LayoutSteps(Shown(text, c), width, k + 1);
  }

  lemma ShownEnd(text: seq<Scalar>, width: nat, c: nat)
    requires c <= |text| && ParagraphEnd(text, c) < |text| && width > 0
    ensures var e := ParagraphEnd(text, c);
            var a := AfterLast(text, width, e);
            && PlaceOf(text, width, e) == a && a.col <= width
            && ShownPlace(text, width, c, e) == if a.col == width then Place(a.line + 1, 1) else Place(a.line, a.col + 1)
  {
    hide AfterLast, PlaceOf, Shown, ParagraphEnd;
    var e := ParagraphEnd(text, c);
    MovedByOne(text, width, c, e);
    LayoutSteps(text, width, e);
    LayoutSteps(Shown(text, c), width, e + 1);
  }

  lemma ShownBehind(text: seq<Scalar>, width: nat, c: nat, k: nat)
    requires c <= |text| && ParagraphEnd(text, c) < k < |text| && width > 0
    ensures ShownPlace(text, width, c, k) == Lower(PlaceOf(text, width, k), if IsFull(text, width, c) then 1 else 0)
  {
    hide AfterLast, PlaceOf, Shown, ParagraphEnd, IsFull;
    FullLine(text, width, c);
    MovedDown(text, width, c, k);
    LayoutSteps(text, width, k);
    LayoutSteps(Shown(text, c), width, k + 1);
  }

  lemma EndIsFound(text: seq<Scalar>, width: nat, c: nat)
    requires c <= |text| && ParagraphEnd(text, c) < |text| && width > 0 && !IsFull(text, width, c)
    ensures Clicked(text, width, ShownPlace(text, width, c, ParagraphEnd(text, c))) == ParagraphEnd(text, c)
  {
    hide AfterLast, PlaceOf, Shown, ParagraphEnd, IsFull;
    var e := ParagraphEnd(text, c);
    var target := ShownPlace(text, width, c, e);
    FullLine(text, width, c);
    ShownEnd(text, width, c);
    forall j | 0 <= j < e
      ensures !Reached(text, width, target, j)
    {
      PlacesIncrease(text, width, j, e);
    }
    FirstReachedIs(text, width, target, 0, e);
  }

  /** With the cursor shown in the text, a click on a character finds that character if and only if it
      stands before the cursor, or from the end of the cursor's paragraph on while that paragraph leaves
      room for the cursor on its last line. */
  lemma ShownCharacterIsFoundExactly(text: seq<Scalar>, width: nat, c: nat, k: nat)
    requires c <= |text| && k < |text| && width > 0
    ensures Clicked(text, width, ShownPlace(text, width, c, k)) == k
            <==> k < c || (ParagraphEnd(text, c) <= k && !IsFull(text, width, c))
  {
    hide PlaceOf, AfterLast, ParagraphEnd, IsFull, Reached, Shown, ShownPlace;
    var e, target := ParagraphEnd(text, c), ShownPlace(text, width, c, k);
    FoundIsReached(text, width, target, 0);
    if k < c {
      ShownBefore(text, width, c, k);
      ClickingInvertsLayout(text, width, k);
    } else if k < e {
      ShownInParagraph(text, width, c, k);
    } else if IsFull(text, width, c) {
      FullIsMissed(text, width, c, k);
    } else if k == e {
      EndIsFound(text, width, c);
    } else {
      ShownBehind(text, width, c, k);
      ClickingInvertsLayout(text, width, k);
    }
  }

  lemma FullIsMissed(text: seq<Scalar>, width: nat, c: nat, k: nat)
    requires c <= |text| && ParagraphEnd(text, c) <= k < |text| && width > 0 && IsFull(text, width, c)
    ensures !Reached(text, width, ShownPlace(text, width, c, k), k)
  {
    hide PlaceOf, AfterLast, ParagraphEnd, IsFull, Shown, ShownPlace;
    if k == ParagraphEnd(text, c) {
      FullLine(text, width, c);
      ShownEnd(text, width, c);
    } else {
      ShownBehind(text, width, c, k);
    }
  }

  /** Behind the cursor, up to the end of its paragraph, the click finds the next character. */
  lemma NextCharacterIsFound(text: seq<Scalar>, width: nat, c: nat, k: nat)
    requires c <= |text| && c <= k && k + 1 < ParagraphEnd(text, c) && width > 0
    ensures Clicked(text, width, ShownPlace(text, width, c, k)) == k + 1
  {
    hide PlaceOf, AfterLast, ParagraphEnd, Shown, ShownPlace;
    ShownInParagraph(text, width, c, k);
    LayoutSteps(text, width, k + 1);
    ClickingInvertsLayout(text, width, k + 1);
  }

  /** A later click never lands on an earlier byte, and every click lands on a character boundary. */
  lemma {:induction false} ClicksAreMonotone(text: seq<Scalar>, width: nat, p: Place, q: Place, k: nat)
    requires k <= |text| && width > 0 && NotAfter(p, q)
    ensures FirstReached(text, width, p, k) <= FirstReached(text, width, q, k)
    decreases |text| - k
  {
    hide PlaceOf;
    if k < |text| {
      ClicksAreMonotone(text, width, p, q, k + 1);
    }
  }

  lemma OffsetsNeverDecrease(text: seq<Scalar>, i: nat, j: nat)
    requires i <= j <= |text|
    ensures Offset(text, i) <= Offset(text, j) <= |Encode(text)|
  {
    hide Offset, Encode;
    if i < j {
      OffsetsIncrease(text, i, j);
    }
    OffsetSplits(text, j);
  }

  lemma ClickedBytesAreMonotone(text: seq<Scalar>, width: nat, p: Place, q: Place)
    requires NotAfter(p, q)
    ensures Offset(text, Clicked(text, width, p)) <= Offset(text, Clicked(text, width, q)) <= |Encode(text)|
    ensures IsCharBoundary(Encode(text), Offset(text, Clicked(text, width, p)))
  {
    hide Offset, FirstReached, Encode, IsCharBoundary, NotAfter;
    ClicksAreMonotone(text, if width == 0 then 1 else width, p, q, 0);
    var i, j := Clicked(text, width, p), Clicked(text, width, q);
    OffsetsNeverDecrease(text, i, j);
    BoundariesAreOffsets(text, Offset(text, i));
  }
}
