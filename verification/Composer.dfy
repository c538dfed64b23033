/**
 The message composer of src/app/state.rs: UTF-8 text indexed by bytes, with a cursor and a command
 history. It is proved against a list of characters with a cursor between them.
 */
module Composer {
  import opened Utf8
  import opened Wrappers
  import Text

  // ----- Characters and their byte offsets

  /** Where character `k` starts. */
  function Offset(cs: seq<Scalar>, k: nat): nat
    requires k <= |cs|
  {
    |Encode(cs[..k])|
  }

  lemma OffsetSplits(cs: seq<Scalar>, k: nat)
    requires k <= |cs|
    ensures Offset(cs, k) <= |Encode(cs)|
    ensures Encode(cs)[..Offset(cs, k)] == Encode(cs[..k]) && Encode(cs)[Offset(cs, k)..] == Encode(cs[k..])
    ensures Offset(cs, k) == 0 <==> k == 0
    ensures Offset(cs, k) == |Encode(cs)| <==> k == |cs|
  {
    hide Encode;
    EncodeConcat(cs[..k], cs[k..]);
    assert cs == cs[..k] + cs[k..];
    NonEmptyEncodes(cs[..k]);
    NonEmptyEncodes(cs[k..]);
  }

  lemma NonEmptyEncodes(cs: seq<Scalar>)
    ensures Encode(cs) == [] <==> cs == []
  {
  }

  lemma OffsetNext(cs: seq<Scalar>, k: nat)
    requires k < |cs|
    ensures Offset(cs, k + 1) == Offset(cs, k) + Width(cs[k])
    ensures Offset(cs[k..], 1) == Width(cs[k])
  {
    assert cs[..k + 1] == cs[..k] + [cs[k]] && cs[k..][..1] == [cs[k]];
    EncodeConcat(cs[..k], [cs[k]]);
    EncodeOne(cs[k]);
  }

  /** `char_indices`: where the characters of `bs` from `from` on start. */
  function CharIndices(bs: seq<Byte>, from: nat): seq<nat>
    requires from <= |bs| && Valid(bs[from..])
    decreases |bs| - from
  {
    if from == |bs| then []
    else
      var w := FrontOf(bs[from..]).width;
      assert bs[from..][w..] == bs[from + w..];
      [from] + CharIndices(bs, from + w)
  }

  /** Character `k` stands first behind its offset, and the next one follows it. */
  lemma IndicesUnfold(cs: seq<Scalar>, k: nat)
    requires k < |cs|
    ensures Offset(cs, k) < Offset(cs, k + 1) <= |Encode(cs)|
    ensures Valid(Encode(cs)[Offset(cs, k)..]) && Valid(Encode(cs)[Offset(cs, k + 1)..])
    ensures CharIndices(Encode(cs), Offset(cs, k)) == [Offset(cs, k)] + CharIndices(Encode(cs), Offset(cs, k + 1))
  {
    hide Offset, Encode, FrontOf;
    OffsetSplits(cs, k);
    OffsetSplits(cs, k + 1);
    DecodeEncode(cs[k..]);
    DecodeEncode(cs[k + 1..]);
    EncodeCons(cs[k], cs[k + 1..]);
    assert cs[k..] == [cs[k]] + cs[k + 1..];
    FrontOfEncoded(cs[k], Encode(cs[k + 1..]));
    OffsetNext(cs, k);
  }

  lemma IndicesEnd(cs: seq<Scalar>)
    ensures Offset(cs, |cs|) == |Encode(cs)| && Valid(Encode(cs)[Offset(cs, |cs|)..])
    ensures CharIndices(Encode(cs), Offset(cs, |cs|)) == []
  {
    hide Encode;
    OffsetSplits(cs, |cs|);
    DecodeEncode([]);
    assert cs[|cs|..] == [];
  }

  /** Those are the offsets. */
  lemma {:induction false} IndicesAreOffsets(cs: seq<Scalar>, k: nat)
    requires k <= |cs|
    ensures Offset(cs, k) <= |Encode(cs)| && Valid(Encode(cs)[Offset(cs, k)..])
    ensures |CharIndices(Encode(cs), Offset(cs, k))| == |cs| - k
    ensures forall i | 0 <= i < |cs| - k :: CharIndices(Encode(cs), Offset(cs, k))[i] == Offset(cs, k + i)
    decreases |cs| - k
  {
    hide Offset, Encode, FrontOf, CharIndices, Valid;
    if k == |cs| {
      IndicesEnd(cs);
    } else {
      IndicesUnfold(cs, k);
      IndicesAreOffsets(cs, k + 1);
      var next := CharIndices(Encode(cs), Offset(cs, k + 1));
      forall i | 0 <= i < |cs| - k
        ensures ([Offset(cs, k)] + next)[i] == Offset(cs, k + i)
      {
        if i > 0 {
          assert next[i - 1] == Offset(cs, k + 1 + (i - 1));
        }
      }
    }
  }

  /** `is_char_boundary`. */
  predicate IsCharBoundary(bs: seq<Byte>, k: nat) {
    k == |bs| || (k < |bs| && !IsCont(bs[k]))
  }

  lemma OnlyLeadsLead(c: Scalar)
    ensures !IsCont(EncodeScalar(c)[0])
    ensures forall k | 0 < k < Width(c) :: IsCont(EncodeScalar(c)[k])
  {
  }

  /** The boundaries are exactly the offsets of characters. */
  lemma {:induction false} BoundariesAreOffsets(cs: seq<Scalar>, k: nat)
    ensures IsCharBoundary(Encode(cs), k) <==> exists i: nat | i <= |cs| :: Offset(cs, i) == k
  {
    hide EncodeScalar, Width, Offset;
    if cs == [] {
      OffsetSplits(cs, 0);
    } else {
      OnlyLeadsLead(cs[0]);
      OffsetSplits(cs, 0);
      var w := Width(cs[0]);
      if k == 0 {
        assert Offset(cs, 0) == 0;
      } else {
        forall i: nat | 1 <= i <= |cs|
          ensures Offset(cs, i) == w + Offset(cs[1..], i - 1)
        {
          OffsetOfRest(cs, i);
        }
        if k >= w {
          BoundariesAreOffsets(cs[1..], k - w);
          if j: nat :| j <= |cs[1..]| && Offset(cs[1..], j) == k - w {
            assert Offset(cs, j + 1) == k;
          }
        }
      }
    }
  }

  lemma OffsetOfRest(cs: seq<Scalar>, i: nat)
    requires 1 <= i <= |cs|
    ensures Offset(cs, i) == Width(cs[0]) + Offset(cs[1..], i - 1)
  {
    assert cs[..i] == [cs[0]] + cs[1..][..i - 1];
    EncodeCons(cs[0], cs[1..][..i - 1]);
  }

  // ----- The composer on characters

  datatype Line = Line(
    text: seq<Scalar>, at: nat,
    history: seq<seq<Scalar>>, position: Option<nat>, draft: Option<seq<Scalar>>)

  ghost predicate Fine(l: Line) {
    && l.at <= |l.text|
    && (l.position.Some? ==> l.position.value < |l.history|)
    && (l.position.Some? <==> l.draft.Some?)
  }

  /** Replaces the characters from `i` to `j`, which leaves the cursor after the new ones. */
  function Replaced(l: Line, i: nat, j: nat, text: seq<Scalar>): Line
    requires i <= j <= |l.text|
  {
    Line(l.text[..i] + text + l.text[j..], i + |text|, l.history, None, None)
  }

  function Backspaced(l: Line): Line
    requires l.at <= |l.text|
  {
    if l.at == 0 then l else Replaced(l, l.at - 1, l.at, [])
  }

  function Deleted(l: Line): Line
    requires l.at <= |l.text|
  {
    if l.at == |l.text| then l else Replaced(l, l.at, l.at + 1, [])
  }

  /** Walks left over characters that are spaces, or over ones that are not. */
  function BackWhile(text: seq<Scalar>, at: nat, spaces: bool): nat
    requires at <= |text|
    decreases at
  {
    if at > 0 && Text.IsAsciiSpace(text[at - 1]) == spaces then BackWhile(text, at - 1, spaces) else at
  }

  function AheadWhile(text: seq<Scalar>, at: nat, spaces: bool): nat
    requires at <= |text|
    decreases |text| - at
  {
    if at < |text| && Text.IsAsciiSpace(text[at]) == spaces then AheadWhile(text, at + 1, spaces) else at
  }

  lemma {:induction false} BackWhileMeans(text: seq<Scalar>, at: nat, spaces: bool)
    requires at <= |text|
    ensures var r := BackWhile(text, at, spaces);
            && r <= at
            && (forall i | r <= i < at :: Text.IsAsciiSpace(text[i]) == spaces)
            && (r > 0 ==> Text.IsAsciiSpace(text[r - 1]) != spaces)
    decreases at
  {
    if at > 0 && Text.IsAsciiSpace(text[at - 1]) == spaces {
      BackWhileMeans(text, at - 1, spaces);
    }
  }

  lemma {:induction false} AheadWhileMeans(text: seq<Scalar>, at: nat, spaces: bool)
    requires at <= |text|
    ensures var r := AheadWhile(text, at, spaces);
            && at <= r <= |text|
            && (forall i | at <= i < r :: Text.IsAsciiSpace(text[i]) == spaces)
            && (r < |text| ==> Text.IsAsciiSpace(text[r]) != spaces)
    decreases |text| - at
  {
    if at < |text| && Text.IsAsciiSpace(text[at]) == spaces {
      AheadWhileMeans(text, at + 1, spaces);
    }
  }

  function WordLeft(text: seq<Scalar>, at: nat): (r: nat)
    requires at <= |text|
    ensures r <= at
  {
    BackWhileMeans(text, at, true);
    BackWhileMeans(text, BackWhile(text, at, true), false);
    BackWhile(text, BackWhile(text, at, true), false)
  }

  function WordRight(text: seq<Scalar>, at: nat): (r: nat)
    requires at <= |text|
    ensures at <= r <= |text|
  {
    AheadWhileMeans(text, at, false);
    AheadWhileMeans(text, AheadWhile(text, at, false), true);
    AheadWhile(text, AheadWhile(text, at, false), true)
  }

  lemma BackStep(text: seq<Scalar>, at: nat, spaces: bool)
    requires at <= |text|
    ensures at > 0 && Text.IsAsciiSpace(text[at - 1]) == spaces ==>
              BackWhile(text, at, spaces) == BackWhile(text, at - 1, spaces)
    ensures !(at > 0 && Text.IsAsciiSpace(text[at - 1]) == spaces) ==> BackWhile(text, at, spaces) == at
    ensures BackWhile(text, at, spaces) <= at
  {
    BackWhileMeans(text, at, spaces);
  }

  lemma WordLeftIs(text: seq<Scalar>, at: nat)
    requires at <= |text|
    ensures BackWhile(text, at, true) <= at
    ensures WordLeft(text, at) == BackWhile(text, BackWhile(text, at, true), false)
  {
    BackWhileMeans(text, at, true);
  }

  ghost predicate Between(text: seq<Scalar>, i: nat, j: nat, spaces: bool)
    requires i <= j <= |text|
  {
    forall k | i <= k < j :: Text.IsAsciiSpace(text[k]) == spaces
  }

  /** Word motion stops at the start of a word, over exactly one word and the spaces after it; it
      stands still only at the ends of the text. */
  lemma WordMotionStopsAtWords(text: seq<Scalar>, at: nat)
    requires at <= |text|
    ensures var r := WordLeft(text, at);
            && (r == at ==> at == 0)
            && (r > 0 ==> Text.IsAsciiSpace(text[r - 1]) && !Text.IsAsciiSpace(text[r]))
            && exists m: nat | r <= m <= at :: Between(text, r, m, false) && Between(text, m, at, true)
    ensures var r := WordRight(text, at);
            && (r == at ==> at == |text|)
            && (r < |text| ==> Text.IsAsciiSpace(text[r - 1]) && !Text.IsAsciiSpace(text[r]))
            && exists m: nat | at <= m <= r :: Between(text, at, m, false) && Between(text, m, r, true)
  {
    var m := BackWhile(text, at, true);
    BackWhileMeans(text, at, true);
    BackWhileMeans(text, m, false);
    assert Between(text, WordLeft(text, at), m, false) && Between(text, m, at, true);
    var n := AheadWhile(text, at, false);
    AheadWhileMeans(text, at, false);
    AheadWhileMeans(text, n, true);
    assert Between(text, at, n, false) && Between(text, n, WordRight(text, at), true);
  }

  // ----- History on characters

  function Loaded(l: Line, position: nat): Line
    requires position < |l.history|
  {
    l.(text := l.history[position], at := |l.history[position]|, position := Some(position))
  }

  function Previous(l: Line): Line
    requires l.position.Some? ==> l.position.value < |l.history|
  {
    if l.history == [] then l
    else
      match l.position
      case Some(position) => Loaded(l, if position == 0 then 0 else position - 1)
      case None => Loaded(l.(draft := Some(l.text)), |l.history| - 1)
  }

  function Following(l: Line): Line {
    match l.position
    case None => l
    case Some(position) =>
      if position + 1 < |l.history| then Loaded(l, position + 1)
      else
        var draft := l.draft.GetOr([]);
        l.(text := draft, at := |draft|, position := None, draft := None)
  }

  function Ups(l: Line, k: nat): Line
    requires Fine(l)
    decreases k
  {
    if k == 0 then l else PreviousIsFine(l); Ups(Previous(l), k - 1)
  }

  function Downs(l: Line, k: nat): Line
    decreases k
  {
    if k == 0 then l else Downs(Following(l), k - 1)
  }

  lemma PreviousIsFine(l: Line)
    requires Fine(l)
    ensures Fine(Previous(l))
  {
  }

  /** Where `k` steps up through the history end. */
  lemma {:induction false} UpsEnd(l: Line, k: nat)
    requires Fine(l) && l.position.Some?
    ensures var up := Ups(l, k);
            && up.history == l.history && up.draft == l.draft
            && up.position == Some(if k <= l.position.value then l.position.value - k else 0)
    decreases k
  {
    if k > 0 {
      UpsEnd(Previous(l), k - 1);
    }
  }

  /** Stepping down past the last entry brings the draft back. */
  lemma {:induction false} DownsEnd(l: Line)
    requires Fine(l) && l.position.Some?
    ensures Downs(l, |l.history| - l.position.value)
            == Line(l.draft.value, |l.draft.value|, l.history, None, None)
    decreases |l.history| - l.position.value
  {
    var next := Following(l);
    if l.position.value + 1 < |l.history| {
      DownsEnd(next);
    } else {
      assert Downs(next, 0) == next;
    }
  }

  /** As many steps down as up, or as there are entries, restore what was being written, and put the
      cursor at its end. */
  lemma UpsThenDownsRestore(l: Line, k: nat)
    requires Fine(l) && l.position.None? && k > 0 && l.history != []
    ensures Downs(Ups(l, k), if k < |l.history| then k else |l.history|) == l.(at := |l.text|)
  {
    UpsEnd(Previous(l), k - 1);
    PreviousIsFine(l);
    UpsAreFine(l, k);
    DownsEnd(Ups(l, k));
  }

  lemma {:induction false} UpsAreFine(l: Line, k: nat)
    requires Fine(l)
    ensures Fine(Ups(l, k))
    decreases k
  {
    if k > 0 {
      PreviousIsFine(l);
      UpsAreFine(Previous(l), k - 1);
    }
  }

  // ----- The composer on bytes

  const SLASH: Byte := 0x2F

  function AsString(cs: seq<Scalar>): string { seq(|cs|, i requires 0 <= i < |cs| => cs[i] as char) }

  /** Only commands are remembered. */
  predicate IsRemembered(line: seq<Byte>)
    requires Valid(line)
  {
    line != [] && line[0] == SLASH && !Text.IsBlank(AsString(Decode(line)))
  }

  /** The second half of that test never decides. */
  lemma RememberedExactly(line: seq<Byte>)
    requires Valid(line)
    ensures IsRemembered(line) <==> line != [] && line[0] == SLASH
  {
    if line != [] && line[0] == SLASH {
      var s := AsString(Decode(line));
      assert s[0] == '/';
      Text.BlankIsWhitespace(s);
    }
  }

  ghost predicate AllValid(lines: seq<seq<Byte>>) { forall i | 0 <= i < |lines| :: Valid(lines[i]) }

  ghost function DecodeAll(lines: seq<seq<Byte>>): seq<seq<Scalar>>
    requires AllValid(lines)
  {
    seq(|lines|, i requires 0 <= i < |lines| => Decode(lines[i]))
  }

  /** Where a character's bytes stand. */
  lemma BytesOfCharacter(text: seq<Scalar>, k: nat)
    requires k < |text|
    ensures Offset(text, k + 1) == Offset(text, k) + Width(text[k]) <= |Encode(text)|
    ensures Encode(text)[Offset(text, k)..Offset(text, k + 1)] == EncodeScalar(text[k])
  {
    hide Encode, Offset, EncodeScalar;
    OffsetSplits(text, k);
    OffsetSplits(text, k + 1);
    OffsetNext(text, k);
    assert text[k..] == [text[k]] + text[k + 1..];
    EncodeCons(text[k], text[k + 1..]);
    var o, w := Offset(text, k), Width(text[k]);
    assert Encode(text)[o..][..w] == EncodeScalar(text[k]);
  }

  lemma EdgesTell(c: Scalar)
    ensures Text.IsAsciiSpace(EncodeScalar(c)[0]) <==> Text.IsAsciiSpace(c)
    ensures Text.IsAsciiSpace(EncodeScalar(c)[Width(c) - 1]) <==> Text.IsAsciiSpace(c)
  {
  }

  lemma LastByteTells(text: seq<Scalar>, at: nat)
    requires 0 < at <= |text|
    ensures 0 < Offset(text, at) <= |Encode(text)|
    ensures Text.IsAsciiSpace(Encode(text)[Offset(text, at) - 1]) <==> Text.IsAsciiSpace(text[at - 1])
  {
    hide Encode, Offset, EncodeScalar, Text.IsAsciiSpace, Width;
    BytesOfCharacter(text, at - 1);
    EdgesTell(text[at - 1]);
    var bytes := Encode(text)[Offset(text, at - 1)..Offset(text, at)];
    assert Encode(text)[Offset(text, at) - 1] == bytes[|bytes| - 1];
  }

  lemma FirstByteTells(text: seq<Scalar>, at: nat)
    requires at < |text|
    ensures Offset(text, at) < |Encode(text)|
    ensures Text.IsAsciiSpace(Encode(text)[Offset(text, at)]) <==> Text.IsAsciiSpace(text[at])
  {
    hide Encode, Offset, EncodeScalar, Text.IsAsciiSpace, Width;
    BytesOfCharacter(text, at);
    EdgesTell(text[at]);
    var bytes := Encode(text)[Offset(text, at)..Offset(text, at + 1)];
    assert Encode(text)[Offset(text, at)] == bytes[0];
  }

  /** Replacing bytes between two characters replaces the characters. */
  lemma ReplacedBytes(text: seq<Scalar>, i: nat, j: nat, fill: seq<Scalar>)
    requires i <= j <= |text|
    ensures var bs := Encode(text);
            && Offset(text, i) <= Offset(text, j) <= |bs|
            && bs[..Offset(text, i)] + Encode(fill) + bs[Offset(text, j)..] == Encode(text[..i] + fill + text[j..])
            && Offset(text[..i] + fill + text[j..], i + |fill|) == Offset(text, i) + |Encode(fill)|
  {
    hide Encode;
    OffsetSplits(text, i);
    OffsetSplits(text, j);
    OffsetSplits(text[..j], i);
    assert text[..j][..i] == text[..i];
    EncodeConcat(text[..i], fill);
    EncodeConcat(text[..i] + fill, text[j..]);
    assert (text[..i] + fill + text[j..])[..i + |fill|] == text[..i] + fill;
  }

  class ComposerState {
    var buffer: seq<Byte>
    var cursor: nat
    var history: seq<seq<Byte>>
    var historyPosition: Option<nat>
    var historyDraft: Option<seq<Byte>>
    ghost var text: seq<Scalar>
    ghost var at: nat

    ghost predicate StringsValid()
      reads this
    {
      AllValid(history) && (historyDraft.Some? ==> Valid(historyDraft.value))
    }

    ghost function Value(): Line
      requires StringsValid()
      reads this
    {
      Line(text, at, DecodeAll(history), historyPosition,
           match historyDraft case Some(draft) => Some(Decode(draft)) case None => None)
    }

    /** The buffer is UTF-8 and the cursor is between two characters, or at an end. */
    ghost predicate IsLine()
      reads this
    {
      && StringsValid() && Fine(Value())
      && buffer == Encode(text) && cursor == Offset(text, at)
    }

    /** The characters before the cursor, and those behind it. */
    ghost function Before(): seq<Scalar>
      requires at <= |text|
      reads this
    {
      text[..at]
    }

    ghost function Behind(): seq<Scalar>
      requires at <= |text|
      reads this
    {
      text[at..]
    }

    /** What that says of the bytes alone. */
    lemma CursorIsOnABoundary()
      requires IsLine()
      ensures Valid(buffer) && Decode(buffer) == text && cursor <= |buffer| && IsCharBoundary(buffer, cursor)
    {
      DecodeEncode(text);
      OffsetSplits(text, at);
      BoundariesAreOffsets(text, cursor);
    }

    constructor (value: seq<Byte>)
      requires Valid(value)
      ensures IsLine() && Value() == Line(Decode(value), |Decode(value)|, [], None, None)
    {
      buffer, cursor, history, historyPosition, historyDraft := value, |value|, [], None, None;
      text, at := Decode(value), |Decode(value)|;
      EncodeDecode(value);
      OffsetSplits(Decode(value), |Decode(value)|);
    }

    method Start(value: seq<Byte>)
      requires IsLine() && Valid(value)
      modifies this
      ensures IsLine()
      ensures Value() == Line(Decode(value), |Decode(value)|, old(Value()).history, None, None)
    {
      SetBuffer(value);
      CancelHistoryNavigation();
    }

    method CancelHistoryNavigation()
      requires StringsValid()
      modifies this`historyPosition, this`historyDraft
      ensures StringsValid() && Value() == old(Value()).(position := None, draft := None)
    {
      historyPosition, historyDraft := None, None;
    }

    /** The whole line is replaced and the cursor goes to its end. */
    method SetBuffer(value: seq<Byte>)
      requires StringsValid() && Valid(value)
      modifies this`buffer, this`cursor, this`text, this`at
      ensures StringsValid() && Value() == old(Value()).(text := Decode(value), at := |Decode(value)|)
      ensures buffer == Encode(text) && cursor == Offset(text, at)
    {
      buffer, cursor := value, |value|;
      text, at := Decode(value), |Decode(value)|;
      EncodeDecode(value);
      OffsetSplits(text, at);
    }

    /** The bytes from `from` to `to` are replaced. Every edit goes through here. */
    method Splice(from: nat, to: nat, bytes: seq<Byte>, ghost i: nat, ghost j: nat)
      requires IsLine() && Valid(bytes) && i <= j <= |text| && from == Offset(text, i) && to == Offset(text, j)
      modifies this
      ensures IsLine() && Value() == Replaced(old(Value()), i, j, Decode(bytes))
      ensures Before() == old(text)[..i] + Decode(bytes) && Behind() == old(text)[j..]
    {
      hide Encode, Decode;
      ReplacedBytes(text, i, j, Decode(bytes));
      EncodeDecode(bytes);
      CancelHistoryNavigation();
      buffer := buffer[..from] + bytes + buffer[to..];
      cursor := from + |bytes|;
      text := text[..i] + Decode(bytes) + text[j..];
      at := i + |Decode(bytes)|;
    }

    method Insert(ch: Scalar)
      requires IsLine()
      modifies this
      ensures IsLine() && Value() == Replaced(old(Value()), old(at), old(at), [ch])
      ensures Before() == old(Before()) + [ch] && Behind() == old(Behind())
    {
      DecodeEncode([ch]);
      EncodeOne(ch);
      Splice(cursor, cursor, EncodeScalar(ch), at, at);
    }

    method InsertStr(bytes: seq<Byte>)
      requires IsLine() && Valid(bytes)
      modifies this
      ensures IsLine() && Value() == Replaced(old(Value()), old(at), old(at), Decode(bytes))
      ensures Before() == old(Before()) + Decode(bytes) && Behind() == old(Behind())
    {
      Splice(cursor, cursor, bytes, at, at);
    }

    /** The source panics unless both ends are boundaries in order. */
    method ReplaceRange(from: nat, to: nat, bytes: seq<Byte>) returns (ghost i: nat, ghost j: nat)
      requires IsLine() && Valid(bytes) && from <= to
      requires IsCharBoundary(buffer, from) && IsCharBoundary(buffer, to)
      modifies this
      ensures i <= j <= |old(text)| && from == Offset(old(text), i) && to == Offset(old(text), j)
      ensures IsLine() && Value() == Replaced(old(Value()), i, j, Decode(bytes))
      ensures Before() == old(text)[..i] + Decode(bytes) && Behind() == old(text)[j..]
    {
      BoundariesAreOffsets(text, from);
      BoundariesAreOffsets(text, to);
      i :| i <= |text| && Offset(text, i) == from;
      j :| j <= |text| && Offset(text, j) == to;
      if j < i {
        OffsetsIncrease(text, j, i);
      }
      Splice(from, to, bytes, i, j);
    }

    /** `char_indices().last()` of the text before the cursor. */
    method PreviousBoundary() returns (prev: nat)
      requires IsLine() && at > 0
      ensures prev == Offset(text, at - 1)
    {
      hide Encode, CharIndices, Decode, AllValid, DecodeAll;
      OffsetSplits(text, at);
      IndicesAreOffsets(text[..at], 0);
      OffsetSplits(text[..at], 0);
      var indices := CharIndices(buffer[..cursor], 0);
      assert text[..at][..at - 1] == text[..at - 1];
      prev := if indices == [] then 0 else indices[|indices| - 1];
    }

    /** `char_indices().nth(1)` of the text after the cursor. */
    method NextBoundary() returns (next: nat)
      requires IsLine() && at < |text|
      ensures next == Offset(text, at + 1)
    {
      hide Encode, CharIndices, Decode, AllValid, DecodeAll;
      OffsetSplits(text, at);
      IndicesAreOffsets(text[at..], 0);
      OffsetSplits(text[at..], 0);
      OffsetNext(text, at);
      OffsetSplits(text, at + 1);
      var indices := CharIndices(buffer[cursor..], 0);
      next := if |indices| > 1 then cursor + indices[1] else |buffer|;
    }

    method BackspaceKey()
      requires IsLine()
      modifies this
      ensures IsLine() && Value() == Backspaced(old(Value()))
      ensures Before() == old(if at == 0 then [] else text[..at - 1]) && Behind() == old(Behind())
    {
      OffsetSplits(text, at);
      if cursor != 0 {
        var prev := PreviousBoundary();
        Splice(prev, cursor, [], at - 1, at);
      }
    }

    method DeleteKey()
      requires IsLine()
      modifies this
      ensures IsLine() && Value() == Deleted(old(Value()))
      ensures Before() == old(Before()) && Behind() == old(if at == |text| then [] else text[at + 1..])
    {
      OffsetSplits(text, at);
      if cursor < |buffer| {
        var next := NextBoundary();
        Splice(cursor, next, [], at, at + 1);
      }
    }

    method MoveLeft()
      requires IsLine()
      modifies this`cursor, this`at
      ensures IsLine() && Value() == old(Value()).(at := if old(at) == 0 then 0 else old(at) - 1)
    {
      OffsetSplits(text, at);
      if cursor != 0 {
        cursor := PreviousBoundary();
        at := at - 1;
      }
    }

    method MoveRight()
      requires IsLine()
      modifies this`cursor, this`at
      ensures IsLine() && Value() == old(Value()).(at := if old(at) == |text| then old(at) else old(at) + 1)
    {
      OffsetSplits(text, at);
      if cursor < |buffer| {
        cursor := NextBoundary();
        at := at + 1;
      }
    }

    /** What the byte before the cursor says of the character before it. */
    lemma BeforeCursor()
      requires IsLine()
      ensures Value().at == at <= |text| && Value().text == text
      ensures cursor <= |buffer| && (cursor == 0 <==> at == 0)
      ensures at > 0 ==> (Text.IsAsciiSpace(buffer[cursor - 1]) <==> Text.IsAsciiSpace(text[at - 1]))
    {
      OffsetSplits(text, at);
      if at > 0 {
        LastByteTells(text, at);
      }
    }

    lemma AfterCursor()
      requires IsLine()
      ensures Value().at == at <= |text| && Value().text == text
      ensures cursor <= |buffer| && (cursor == |buffer| <==> at == |text|)
      ensures at < |text| ==> (Text.IsAsciiSpace(buffer[cursor]) <==> Text.IsAsciiSpace(text[at]))
    {
      OffsetSplits(text, at);
      if at < |text| {
        FirstByteTells(text, at);
      }
    }

    method MoveWordLeft()
      requires IsLine()
      modifies this`cursor, this`at
      ensures IsLine() && Value() == old(Value()).(at := WordLeft(text, old(at)))
    {
      hide Encode, Decode, Offset, Text.IsAsciiSpace, AllValid, DecodeAll, Fine, BackWhile, WordLeft;
      BeforeCursor();
      WordLeftIs(text, at);
      while cursor > 0 && Text.IsAsciiSpace(buffer[cursor - 1])
        invariant IsLine() && Value() == old(Value()).(at := at) && at <= old(at)
        invariant BackWhile(text, at, true) == BackWhile(text, old(at), true)
        invariant cursor <= |buffer|
        decreases at
      {
        BeforeCursor();
        BackStep(text, at, true);
        MoveLeft();
        BeforeCursor();
      }
      BeforeCursor();
      BackStep(text, at, true);
      while cursor > 0 && !Text.IsAsciiSpace(buffer[cursor - 1])
        invariant IsLine() && Value() == old(Value()).(at := at) && at <= old(at)
        invariant BackWhile(text, at, false) == WordLeft(text, old(at))
        invariant cursor <= |buffer|
        decreases at
      {
        BeforeCursor();
        BackStep(text, at, false);
        MoveLeft();
        BeforeCursor();
      }
      BeforeCursor();
      BackStep(text, at, false);
    }

    method MoveWordRight()
      requires IsLine()
      modifies this`cursor, this`at
      ensures IsLine() && Value() == old(Value()).(at := WordRight(text, old(at)))
    {
      hide Encode, Decode, Offset, Text.IsAsciiSpace, AllValid, DecodeAll, Fine;
      AfterCursor();
      while cursor < |buffer| && !Text.IsAsciiSpace(buffer[cursor])
        invariant IsLine() && Value() == old(Value()).(at := at) && at <= |text|
        invariant AheadWhile(text, at, false) == AheadWhile(text, old(at), false)
        invariant cursor <= |buffer|
        decreases |text| - at
      {
        AfterCursor();
        MoveRight();
        AfterCursor();
      }
      AfterCursor();
      while cursor < |buffer| && Text.IsAsciiSpace(buffer[cursor])
        invariant IsLine() && Value() == old(Value()).(at := at) && at <= |text|
        invariant AheadWhile(text, at, true) == WordRight(text, old(at))
        invariant cursor <= |buffer|
        decreases |text| - at
      {
        AfterCursor();
        MoveRight();
        AfterCursor();
      }
      AfterCursor();
    }

    method ClearBeforeCursor()
      requires IsLine()
      modifies this
      ensures IsLine() && Value() == Replaced(old(Value()), 0, old(at), [])
      ensures Before() == [] && Behind() == old(Behind())
    {
      OffsetSplits(text, 0);
      Splice(0, cursor, [], 0, at);
    }

    method ClearAfterCursor()
      requires IsLine()
      modifies this
      ensures IsLine() && Value() == Replaced(old(Value()), old(at), |old(text)|, [])
      ensures Before() == old(Before()) && Behind() == []
    {
      OffsetSplits(text, |text|);
      Splice(cursor, |buffer|, [], at, |text|);
    }

    method DeleteWordBeforeCursor()
      requires IsLine()
      modifies this
      ensures IsLine() && Value() == Replaced(old(Value()), WordLeft(old(text), old(at)), old(at), [])
      ensures Before() == old(text[..WordLeft(text, at)]) && Behind() == old(Behind())
    {
      var end := cursor;
      MoveWordLeft();
      Splice(cursor, end, [], at, old(at));
    }

    method PushHistory(line: seq<Byte>)
      requires IsLine() && Valid(line)
      modifies this`history, this`historyPosition, this`historyDraft
      ensures IsLine()
      ensures Value() == old(Value()).(
                history := old(Value()).history + if IsRemembered(line) then [Decode(line)] else [],
                position := None, draft := None)
    {
      if IsRemembered(line) {
        history := history + [line];
      }
      historyPosition, historyDraft := None, None;
    }

    method PreviousHistory() returns (moved: bool)
      requires IsLine()
      modifies this
      ensures IsLine() && Value() == Previous(old(Value()))
      ensures moved <==> history != []
      ensures moved ==> text == old(Value()).history[historyPosition.GetOr(0)] && at == |text|
      ensures moved ==> historyPosition == Some(match old(historyPosition)
                                                case Some(position) => if position == 0 then 0 else position - 1
                                                case None => |history| - 1)
      ensures moved ==> Value().draft == if old(historyPosition).None? then Some(old(text)) else old(Value()).draft
      ensures history == old(history)
    {
      if history == [] {
        return false;
      }
      var position;
      match historyPosition {
        case Some(current) => position := if current == 0 then 0 else current - 1;
        case None =>
          CursorIsOnABoundary();
          historyDraft := Some(buffer);
          position := |history| - 1;
      }
      LoadHistory(position);
      moved := true;
    }

    method NextHistory() returns (moved: bool)
      requires IsLine()
      modifies this
      ensures IsLine() && Value() == Following(old(Value()))
      ensures moved <==> old(historyPosition).Some?
      ensures moved ==> at == |text| && history == old(history)
      ensures moved && old(historyPosition).value + 1 < |history| ==>
                && historyPosition == Some(old(historyPosition).value + 1) && Value().draft == old(Value()).draft
                && text == old(Value()).history[old(historyPosition).value + 1]
      ensures moved && old(historyPosition).value + 1 == |history| ==>
                historyPosition == None && historyDraft == None && Some(text) == old(Value()).draft
    {
      match historyPosition {
        case None => moved := false;
        case Some(position) =>
          if position + 1 < |history| {
            LoadHistory(position + 1);
          } else {
            SetBuffer(historyDraft.GetOr([]));
            CancelHistoryNavigation();
          }
          moved := true;
      }
    }

    method LoadHistory(position: nat)
      requires StringsValid() && position < |history|
      modifies this`buffer, this`cursor, this`text, this`at, this`historyPosition
      ensures StringsValid() && Value() == Loaded(old(Value()), position)
      ensures buffer == Encode(text) && cursor == Offset(text, at)
    {
      SetBuffer(history[position]);
      historyPosition := Some(position);
    }
  }

  lemma {:induction false} OffsetsIncrease(cs: seq<Scalar>, i: nat, j: nat)
    requires i < j <= |cs|
    ensures Offset(cs, i) < Offset(cs, j)
    decreases j
  {
    hide Offset;
    OffsetNext(cs, j - 1);
    if i < j - 1 {
      OffsetsIncrease(cs, i, j - 1);
    }
  }
}
