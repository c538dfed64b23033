/**
 The keys of src/app/input.rs from a terminal's side: which bytes it sends for each, and that the decoder
 takes exactly these for it.
 */
module Keys {
  import opened Utf8
  import opened Fields
  import opened Wrappers
  import opened Input
  import InputStreams

  /** A control sequence with these bytes behind its introducer. */
  function Csi(bs: seq<Byte>): seq<Byte> { [ESC, BRACKET] + bs }

  predicate IsLetter(c: Scalar) { 0x41 <= c <= 0x5A || 0x61 <= c <= 0x7A }

  /** All that a terminal may send for a key. Pastes, mouse reports and characters beyond ASCII have
      theorems of their own; a lone ESC is Esc; CtrlSeq is made of two keys. */
  function KeyBytes(key: Key): seq<seq<Byte>> {
    match key
    case Char(c) => if c == 0 || (0x1C <= c < 0x80 && c != 0x7F) then [[c]] else []
    case Enter => [[0x0D]]
    case Tab => [[0x09]]
    case Backspace => [[0x7F], [0x08]]
    case Ctrl(c) => if 0x61 <= c <= 0x7A && c !in {0x68, 0x69, 0x6A, 0x6D} then [[c - 0x60]] else []
    case Alt(c) => if IsLetter(c) then [[ESC, c]] else []
    case ArrowUp => [Csi([0x41])]
    case ArrowDown => [Csi([0x42])]
    case ArrowRight => [Csi([0x43])]
    case ArrowLeft => [Csi([0x44])]
    case BackTab => [Csi([0x5A])]
    case Home => [Csi([0x48]), Csi([0x31, 0x7E]), Csi([0x37, 0x7E])]
    case End => [Csi([0x46]), Csi([0x34, 0x7E]), Csi([0x38, 0x7E])]
    case Delete => [Csi([0x33, 0x7E])]
    case PageUp => [Csi([0x35, 0x7E])]
    case PageDown => [Csi([0x36, 0x7E])]
    case AltUp => [[ESC, ESC, BRACKET, 0x41], [ESC, ESC, 0x4F, 0x41], Csi([0x31, 0x3B, 0x33, 0x41])]
    case AltDown => [[ESC, ESC, BRACKET, 0x42], [ESC, ESC, 0x4F, 0x42], Csi([0x31, 0x3B, 0x33, 0x42])]
    case ShiftEnter =>
      [[0x0A], [ESC, 0x0D], [ESC, 0x0A],
       Csi([0x31, 0x33, 0x3B, 0x32, 0x75]), Csi([0x31, 0x33, 0x3B, 0x32, 0x7E]),             // 13;2u, 13;2~
       Csi([0x31, 0x33, 0x3B, 0x33, 0x75]), Csi([0x31, 0x33, 0x3B, 0x33, 0x7E]),             // 13;3u, 13;3~
       Csi([0x32, 0x37, 0x3B, 0x32, 0x3B, 0x31, 0x33, 0x7E]),                                // 27;2;13~
       Csi([0x32, 0x37, 0x3B, 0x33, 0x3B, 0x31, 0x33, 0x7E])]                                // 27;3;13~
    case _ => []
  }

  // ----- Each is decoded to its key

  lemma {:induction false} FirstEndIs(bs: seq<Byte>, k: nat)
    requires k < |bs| && EndsKey(bs[k]) && forall i | 0 <= i < k :: !EndsKey(bs[i])
    ensures PositionOfEnd(bs) == Some(k)
  {
    if k > 0 {
      FirstEndIs(bs[1..], k - 1);
    }
  }

  /** The shape of the control sequences with a final byte of their own. */
  ghost predicate IsNamed(f: seq<Byte>, key: Key) {
    && |f| >= 4 && f[0] == ESC && f[1] == BRACKET && 0x31 <= f[2] <= 0x39
    && EndsKey(f[|f| - 1]) && (forall i | 2 <= i < |f| - 1 :: !EndsKey(f[i]))
    && NamedKey(f) == Some(key) && f != PASTE_START && key != Ctrl(CTRL_X)
  }

  lemma NamedBranch(f: seq<Byte>, key: Key, rest: seq<Byte>)
    requires IsNamed(f, key)
    ensures DecodeOne(f + rest) == DecodeCsi(f + rest) && !StartsWith(f + rest, MOUSE_START)
    ensures !StartsWith(f + rest, PASTE_START)
  {
    hide NamedKey;
    var all := f + rest;
    assert all[2] == f[2] && all[..3][2] == f[2];
    CsiBranch(all);
    if StartsWith(all, PASTE_START) {
      assert all[..6][5] == 0x7E && forall i | 0 <= i < 6 :: all[..6][i] == PASTE_START[i];
      PasteLength(f, rest);
    }
  }

  lemma PasteLength(f: seq<Byte>, rest: seq<Byte>)
    requires |f| >= 4 && EndsKey(f[|f| - 1]) && (forall i | 2 <= i < |f| - 1 :: !EndsKey(f[i]))
    requires PASTE_START <= f + rest
    ensures f == PASTE_START
  {
    var all := f + rest;
    assert forall i | 0 <= i < 6 :: all[i] == PASTE_START[i];
    assert forall i | 0 <= i < |f| :: all[i] == f[i];
    assert !EndsKey(PASTE_START[2]) && !EndsKey(PASTE_START[3]) && !EndsKey(PASTE_START[4]) && EndsKey(PASTE_START[5]);
  }

  lemma NamedDecodes(f: seq<Byte>, key: Key, rest: seq<Byte>)
    requires IsNamed(f, key)
    ensures DecodeOne(f + rest) == Token(|f|, key)
  {
    hide NamedKey, DecodeOne, StartsWith;
    NamedBranch(f, key, rest);
    var all := f + rest;
    FirstEndIs(all, |f| - 1);
    assert all[..|f|] == f;
  }

  lemma NamedWaits(f: seq<Byte>, key: Key, n: nat)
    requires IsNamed(f, key) && 2 <= n < |f|
    ensures DecodeOne(f[..n]) == More
  {
    hide NamedKey;
    var cut := f[..n];
    if n == 2 {
      EscBracketWaits(cut);
    } else {
      CsiBranch(cut);
      NoKeyEnd(cut);
      if StartsWith(cut, PASTE_START) {
        assert cut[5] == cut[..6][5] == 0x7E;
      }
      assert cut[..3][2] == f[2];
    }
  }

  lemma NamedIsFrame(f: seq<Byte>, key: Key)
    requires IsNamed(f, key)
    ensures IsFrame(f, key)
  {
    hide NamedKey, DecodeOne;
    NamedDecodes(f, key, []);
    assert f + [] == f;
    forall n | 2 <= n < |f|
      ensures DecodeOne(f[..n]) == More
    {
      NamedWaits(f, key, n);
    }
  }

  lemma ModifiedEnterIsNamed(modifier: Byte, final: Byte)
    requires (modifier == 0x32 || modifier == 0x33) && (final == 0x75 || final == 0x7E)
    ensures IsNamed(Csi([0x31, 0x33, 0x3B, modifier, final]), ShiftEnter)
  {
    var s := Csi([0x31, 0x33, 0x3B, modifier, final]);
    assert s == [ESC, BRACKET, 0x31, 0x33, 0x3B, modifier, final];
  }

  lemma OtherKeyIsNamed(modifier: Byte)
    requires modifier == 0x32 || modifier == 0x33
    ensures IsNamed(Csi([0x32, 0x37, 0x3B, modifier, 0x3B, 0x31, 0x33, 0x7E]), ShiftEnter)
  {
    var s := Csi([0x32, 0x37, 0x3B, modifier, 0x3B, 0x31, 0x33, 0x7E]);
    assert s == [ESC, BRACKET, 0x32, 0x37, 0x3B, modifier, 0x3B, 0x31, 0x33, 0x7E];
  }

  lemma ShiftEnterIsNamed(i: nat)
    requires 3 <= i < 9
    ensures |KeyBytes(ShiftEnter)| == 9 && IsNamed(KeyBytes(ShiftEnter)[i], ShiftEnter)
  {
    hide IsNamed;
    if i < 7 {
      ModifiedEnterIsNamed(if i < 5 then 0x32 else 0x33, if i == 3 || i == 5 then 0x75 else 0x7E);
    } else {
      OtherKeyIsNamed(if i == 7 then 0x32 else 0x33);
    }
  }

  /** The key of a digit before a tilde. */
  function TildeKey(digit: Byte): Option<Key> {
    if digit == 0x31 || digit == 0x37 then Some(Home)
    else if digit == 0x34 || digit == 0x38 then Some(End)
    else if digit == 0x33 then Some(Delete)
    else if digit == 0x35 then Some(PageUp)
    else if digit == 0x36 then Some(PageDown)
    else None
  }

  lemma TildeIsNamed(digit: Byte)
    requires TildeKey(digit).Some?
    ensures IsNamed(Csi([digit, 0x7E]), TildeKey(digit).value)
  {
    var s := Csi([digit, 0x7E]);
    assert |s| == 4 && s[2] == digit && s[3] == 0x7E;
    assert s == [ESC, BRACKET, digit, 0x7E];
  }

  lemma AltArrowIsNamed(final: Byte)
    requires final == 0x41 || final == 0x42
    ensures IsNamed(Csi([0x31, 0x3B, 0x33, final]), if final == 0x41 then AltUp else AltDown)
  {
    var s := Csi([0x31, 0x3B, 0x33, final]);
    assert |s| == 6 && s[2] == 0x31 && s[3] == 0x3B && s[5] == final;
    assert s == [ESC, BRACKET, 0x31, 0x3B, 0x33, final];
  }

  lemma ByteDecodes(key: Key, b: Byte, rest: seq<Byte>)
    requires [b] in KeyBytes(key)
    ensures DecodeOne([b] + rest) == Token(1, key)
  {
    hide DecodeEscape;
    assert ([b] + rest)[0] == b && [b][0] == b;
  }

  lemma TwoBytesDecode(key: Key, b: Byte, rest: seq<Byte>)
    requires [ESC, b] in KeyBytes(key)
    ensures DecodeOne([ESC, b] + rest) == Token(2, key)
  {
    hide DecodeCsi, ArrowKey;
    var all := [ESC, b] + rest;
    assert all[0] == ESC && all[1] == b && [ESC, b][1] == b;
    assert b == 0x0D || b == 0x0A || IsAlphabetic(b);
    assert |all| >= 4 ==> all[..4][1] == b;
  }

  lemma ArrowDecodes(key: Key, final: Byte, rest: seq<Byte>)
    requires ArrowKey([ESC, BRACKET, final]) == Some(key)
    ensures DecodeOne([ESC, BRACKET, final] + rest) == Token(3, key)
  {
    hide DecodeCsi;
    var all := [ESC, BRACKET, final] + rest;
    assert all[0] == ESC && all[1] == BRACKET && all[..3] == [ESC, BRACKET, final];
    assert |all| >= 4 ==> all[..4][1] == BRACKET;
  }

  lemma AltArrowDecodes(middle: Byte, final: Byte, rest: seq<Byte>)
    requires (middle == BRACKET || middle == 0x4F) && (final == 0x41 || final == 0x42)
    ensures DecodeOne([ESC, ESC, middle, final] + rest) == Token(4, if final == 0x41 then AltUp else AltDown)
  {
    hide DecodeCsi, ArrowKey;
    var all := [ESC, ESC, middle, final] + rest;
    assert all[0] == ESC && all[1] == ESC && all[..4] == [ESC, ESC, middle, final];
  }

  /** One byte, or ESC and one, or an arrow's sequence, or that behind another ESC. */
  predicate IsShort(key: Key, f: seq<Byte>) {
    || (|f| == 1 && f == [f[0]]) || (|f| == 2 && f == [ESC, f[1]])
    || (|f| == 3 && f == [ESC, BRACKET, f[2]] && ArrowKey([ESC, BRACKET, f[2]]) == Some(key))
    || (&& |f| == 4 && f == [ESC, ESC, f[2], f[3]] && (f[2] == BRACKET || f[2] == 0x4F)
        && ((f[3] == 0x41 && key == AltUp) || (f[3] == 0x42 && key == AltDown)))
  }

  lemma ShortShiftEnter(f: seq<Byte>)
    requires f in KeyBytes(ShiftEnter) && !(|f| >= 4 && f[1] == BRACKET)
    ensures IsShort(ShiftEnter, f)
  {
  }

  lemma ShortAltArrow(key: Key, f: seq<Byte>)
    requires (key == AltUp || key == AltDown) && f in KeyBytes(key) && !(|f| >= 4 && f[1] == BRACKET)
    ensures IsShort(key, f)
  {
  }

  lemma ShortBytes(key: Key, f: seq<Byte>)
    requires f in KeyBytes(key) && !(|f| >= 4 && f[1] == BRACKET)
    ensures IsShort(key, f)
  {
    if key == ShiftEnter {
      ShortShiftEnter(f);
    } else if key == AltUp || key == AltDown {
      ShortAltArrow(key, f);
    }
  }

  /** The bytes of a key that are no control sequence, or one of three bytes. */
  lemma ShortDecodes(key: Key, f: seq<Byte>, rest: seq<Byte>)
    requires f in KeyBytes(key) && !(|f| >= 4 && f[1] == BRACKET)
    ensures DecodeOne(f + rest) == Token(|f|, key)
  {
    hide DecodeOne, KeyBytes, ArrowKey;
    ShortBytes(key, f);
    if |f| == 1 {
      ByteDecodes(key, f[0], rest);
    } else if |f| == 2 {
      TwoBytesDecode(key, f[1], rest);
    } else if |f| == 3 {
      ArrowDecodes(key, f[2], rest);
    } else {
      AltArrowDecodes(f[2], f[3], rest);
    }
  }

  lemma LongIsNamed(key: Key, f: seq<Byte>)
    requires f in KeyBytes(key) && |f| >= 4 && f[1] == BRACKET
    ensures IsNamed(f, key)
  {
    hide IsNamed;
    if key == ShiftEnter {
      var i :| 0 <= i < 9 && KeyBytes(ShiftEnter)[i] == f;
      assert i >= 3;
      ShiftEnterIsNamed(i);
    } else if key == AltUp || key == AltDown {
      AltArrowIsNamed(if key == AltUp then 0x41 else 0x42);
    } else {
      TildeIsNamed(f[2]);
    }
  }

  /** Whatever follows, the bytes of a key are decoded to it, and to nothing else. Control sequences are
      framed, so that no cut but one behind their ESC makes a difference. */
  lemma KeyRoundTrip(key: Key, f: seq<Byte>, rest: seq<Byte>)
    requires f in KeyBytes(key)
    ensures f != [] && DecodeOne(f + rest) == Token(|f|, key)
    ensures |f| >= 3 && f[1] == BRACKET ==> IsFrame(f, key)
  {
    hide DecodeOne, IsNamed;
    SomeBytes(key, f);
    if |f| >= 4 && f[1] == BRACKET {
      LongIsNamed(key, f);
      NamedDecodes(f, key, rest);
      NamedIsFrame(f, key);
    } else {
      ShortDecodes(key, f, rest);
      if |f| >= 3 && f[1] == BRACKET {
        ShortDecodes(key, f, []);
        assert f + [] == f;
        EscBracketWaits(f[..2]);
      }
    }
  }

  lemma SomeBytes(key: Key, f: seq<Byte>)
    requires f in KeyBytes(key)
    ensures 1 <= |f|
    ensures |f| >= 3 && f[1] == BRACKET ==> f[0] == ESC && key != Ctrl(CTRL_X)
  {
  }

  /** So the control sequences of keys take their place in streams of text, pastes and mouse reports. */
  lemma KeyIsItem(key: Key, f: seq<Byte>)
    requires f in KeyBytes(key) && |f| >= 3 && f[1] == BRACKET
    ensures InputStreams.IsItem(InputStreams.Framed(f, key))
  {
    hide DecodeOne, KeyBytes, IsFrame;
    LastIsAscii(key, f);
    KeyRoundTrip(key, f, []);
    forall rest
      ensures DecodeOne(f + rest) == Token(|f|, key)
    {
      KeyRoundTrip(key, f, rest);
    }
  }

  lemma LastIsAscii(key: Key, f: seq<Byte>)
    requires f in KeyBytes(key)
    ensures f != [] && f[|f| - 1] < 0x80
  {
  }

  // ----- And nothing else is

  lemma ShiftEnterHasItsBytes(s: seq<Byte>)
    requires NamedKey(s) == Some(ShiftEnter)
    ensures s in KeyBytes(ShiftEnter)
  {
    var all := KeyBytes(ShiftEnter);
    assert all[3] == [ESC, BRACKET, 0x31, 0x33, 0x3B, 0x32, 0x75] && all[4] == [ESC, BRACKET, 0x31, 0x33, 0x3B, 0x32, 0x7E];
    assert all[5] == [ESC, BRACKET, 0x31, 0x33, 0x3B, 0x33, 0x75] && all[6] == [ESC, BRACKET, 0x31, 0x33, 0x3B, 0x33, 0x7E];
    assert all[7] == [ESC, BRACKET, 0x32, 0x37, 0x3B, 0x32, 0x3B, 0x31, 0x33, 0x7E];
    assert all[8] == [ESC, BRACKET, 0x32, 0x37, 0x3B, 0x33, 0x3B, 0x31, 0x33, 0x7E];
    assert s == all[3] || s == all[4] || s == all[5] || s == all[6] || s == all[7] || s == all[8];
  }

  lemma NamedKeys(s: seq<Byte>)
    requires NamedKey(s).Some? && NamedKey(s) != Some(ShiftEnter)
    ensures NamedKey(s).value in {AltUp, AltDown, Home, End, Delete, PageUp, PageDown}
    ensures || (|s| == 4 && s[0] == ESC && s[1] == BRACKET && s[3] == 0x7E && TildeKey(s[2]) == NamedKey(s))
            || (&& |s| == 6 && s[..5] == [ESC, BRACKET, 0x31, 0x3B, 0x33]
                && ((s[5] == 0x41 && NamedKey(s) == Some(AltUp)) || (s[5] == 0x42 && NamedKey(s) == Some(AltDown))))
  {
  }

  lemma TildeHasItsBytes(s: seq<Byte>, key: Key)
    requires |s| == 4 && s[0] == ESC && s[1] == BRACKET && s[3] == 0x7E && TildeKey(s[2]) == Some(key)
    ensures s in KeyBytes(key)
  {
    assert s == Csi([s[2], 0x7E]);
  }

  lemma AltArrowHasItsBytes(s: seq<Byte>)
    requires |s| == 6 && s[..5] == [ESC, BRACKET, 0x31, 0x3B, 0x33] && (s[5] == 0x41 || s[5] == 0x42)
    ensures s in KeyBytes(if s[5] == 0x41 then AltUp else AltDown)
  {
    assert forall i | 0 <= i < 5 :: s[i] == s[..5][i];
    assert s == Csi([0x31, 0x3B, 0x33, s[5]]);
  }

  lemma NamedHasItsBytes(s: seq<Byte>)
    requires NamedKey(s).Some?
    ensures s in KeyBytes(NamedKey(s).value)
  {
    hide *;
    if NamedKey(s) == Some(ShiftEnter) {
      ShiftEnterHasItsBytes(s);
    } else {
      NamedKeys(s);
      if |s| == 4 {
        TildeHasItsBytes(s, NamedKey(s).value);
      } else {
        AltArrowHasItsBytes(s);
      }
    }
  }

  lemma CsiHasItsBytes(bs: seq<Byte>)
    requires bs != [] && DecodeCsi(bs).Token? && !(DecodeCsi(bs).key.Esc? || DecodeCsi(bs).key.Paste? || DecodeCsi(bs).key.Mouse?)
    ensures bs[..DecodeCsi(bs).used] in KeyBytes(DecodeCsi(bs).key)
  {
    hide NamedKey, KeyBytes, PositionOfEnd;
    if !StartsWith(bs, PASTE_START) && !StartsWith(bs, MOUSE_START) {
      var s := bs[..PositionOfEnd(bs).value + 1];
      NamedHasItsBytes(s);
    }
  }

  lemma ArrowHasItsBytes(s: seq<Byte>)
    requires |s| == 3 && s[0] == ESC && !IsAlphabetic(s[1]) && ArrowKey(s).Some?
    ensures s in KeyBytes(ArrowKey(s).value)
  {
    assert s == [s[0], s[1], s[2]] && s[1] == BRACKET;
    assert s == Csi([s[2]]);
  }

  lemma AltArrowIsListed(bs: seq<Byte>)
    requires |bs| >= 4 && bs[0] == ESC && bs[1] == ESC && (bs[2] == BRACKET || bs[2] == 0x4F) && (bs[3] == 0x41 || bs[3] == 0x42)
    ensures bs[..4] in KeyBytes(if bs[3] == 0x41 then AltUp else AltDown)
  {
    assert bs[..4] == [ESC, ESC, bs[2], bs[3]];
  }

  lemma LetterIsListed(bs: seq<Byte>)
    requires |bs| >= 2 && bs[0] == ESC
    ensures IsAlphabetic(bs[1]) ==> bs[..2] in KeyBytes(Alt(bs[1]))
    ensures bs[1] == 0x0D || bs[1] == 0x0A ==> bs[..2] in KeyBytes(ShiftEnter)
  {
    assert bs[..2] == [ESC, bs[1]];
    assert KeyBytes(ShiftEnter)[1] == [ESC, 0x0D] && KeyBytes(ShiftEnter)[2] == [ESC, 0x0A];
  }

  lemma FourBytes(bs: seq<Byte>, middle: Byte, final: Byte)
    requires StartsWith(bs, [ESC, ESC, middle, final])
    ensures |bs| >= 4 && bs[0] == ESC && bs[1] == ESC && bs[2] == middle && bs[3] == final
  {
    assert bs[..4] == [ESC, ESC, middle, final];
    assert bs[0] == bs[..4][0] && bs[1] == bs[..4][1] && bs[2] == bs[..4][2] && bs[3] == bs[..4][3];
  }

  lemma EscapeHasItsBytes(bs: seq<Byte>)
    requires |bs| >= 2 && bs[0] == ESC && DecodeEscape(bs).Token?
    requires !(DecodeEscape(bs).key.Esc? || DecodeEscape(bs).key.Paste? || DecodeEscape(bs).key.Mouse?)
    ensures bs[..DecodeEscape(bs).used] in KeyBytes(DecodeEscape(bs).key)
  {
    hide DecodeCsi, ArrowKey, KeyBytes, StartsWith;
    LetterIsListed(bs);
    if bs[1] == 0x0D || bs[1] == 0x0A {
    } else if StartsWith(bs, [ESC, ESC, BRACKET, 0x41]) {
      FourBytes(bs, BRACKET, 0x41);
      AltArrowIsListed(bs);
    } else if StartsWith(bs, [ESC, ESC, 0x4F, 0x41]) {
      FourBytes(bs, 0x4F, 0x41);
      AltArrowIsListed(bs);
    } else if StartsWith(bs, [ESC, ESC, BRACKET, 0x42]) {
      FourBytes(bs, BRACKET, 0x42);
      AltArrowIsListed(bs);
    } else if StartsWith(bs, [ESC, ESC, 0x4F, 0x42]) {
      FourBytes(bs, 0x4F, 0x42);
      AltArrowIsListed(bs);
    } else if IsAlphabetic(bs[1]) {
    } else if ArrowKey(bs[..3]).Some? {
      ArrowHasItsBytes(bs[..3]);
    } else {
      CsiHasItsBytes(bs);
    }
  }

  /** A key that is no Esc, paste, mouse event or character beyond ASCII was decoded from its own bytes. */
  lemma KeyHasItsBytes(bs: seq<Byte>)
    requires bs != [] && DecodeOne(bs).Token? && bs[0] < 0x80
    requires !(DecodeOne(bs).key.Esc? || DecodeOne(bs).key.Paste? || DecodeOne(bs).key.Mouse?)
    ensures bs[..DecodeOne(bs).used] in KeyBytes(DecodeOne(bs).key)
  {
    hide DecodeEscape;
    if bs[0] == ESC {
      if |bs| == 1 {
        LoneEscape(bs);
      } else {
        EscapeHasItsBytes(bs);
      }
    } else {
      assert bs[..1] == [bs[0]];
    }
  }

  lemma LoneEscape(bs: seq<Byte>)
    requires |bs| == 1
    ensures DecodeEscape(bs) == Token(1, Esc)
  {
  }

  /** No key's bytes, no paste and no mouse report begin here. */
  ghost predicate NothingKnown(bs: seq<Byte>) {
    && !(PASTE_START <= bs) && !(MOUSE_START <= bs)
    && forall key, f | f in KeyBytes(key) :: !(f <= bs)
  }

  /** A tilde, a capital letter or a small u. */
  predicate Terminates(b: Byte) { b == 0x7E || b == 0x75 || (0x41 <= b && b <= 0x5A) }

  /** What begins with ESC and is nothing known is Esc by itself as soon as a byte has come that ends
      control sequences, unless that is the second. */
  lemma UnknownEscapeExactly(bs: seq<Byte>)
    requires |bs| >= 2 && bs[0] == ESC && NothingKnown(bs)
    ensures DecodeOne(bs)
            == if !Terminates(bs[1]) && exists i :: 2 <= i < |bs| && Terminates(bs[i]) then Token(1, Esc) else More
  {
    hide DecodeEscape, DecodeCsi, KeyBytes;
    NotTaken(bs);
    NotTakenIsCsi(bs);
    if |bs| >= 3 {
      UnknownCsi(bs);
    }
  }

  lemma {:induction false} FirstEndMeans(bs: seq<Byte>)
    ensures match PositionOfEnd(bs)
            case Some(k) => EndsKey(bs[k]) && forall i | 0 <= i < k :: !EndsKey(bs[i])
            case None => forall i | 0 <= i < |bs| :: !EndsKey(bs[i])
  {
    if bs != [] && !EndsKey(bs[0]) {
      FirstEndMeans(bs[1..]);
      assert forall i | 1 <= i < |bs| :: bs[i] == bs[1..][i - 1];
    }
  }

  lemma UnknownCsi(bs: seq<Byte>)
    requires |bs| >= 3 && bs[0] == ESC && !(PASTE_START <= bs) && !(MOUSE_START <= bs)
    requires DecodeCsi(bs).Token? ==> DecodeCsi(bs).key.Esc? || DecodeCsi(bs).key.Paste? || DecodeCsi(bs).key.Mouse?
    ensures DecodeCsi(bs)
            == if !Terminates(bs[1]) && exists i :: 2 <= i < |bs| && Terminates(bs[i]) then Token(1, Esc) else More
  {
    hide NamedKey, PositionOfEnd;
    assert forall b: Byte :: Terminates(b) <==> EndsKey(b);
    FirstEndMeans(bs);
    NamedIsNoEsc(bs);
  }

  lemma NamedIsNoEsc(bs: seq<Byte>)
    ensures forall s: seq<Byte> | NamedKey(s).Some? :: !(NamedKey(s).value.Esc? || NamedKey(s).value.Paste? || NamedKey(s).value.Mouse?)
  {
  }

  lemma NotTaken(bs: seq<Byte>)
    requires |bs| >= 2 && bs[0] == ESC && NothingKnown(bs)
    ensures DecodeEscape(bs).Token? ==> DecodeEscape(bs).key.Esc? || DecodeEscape(bs).key.Paste? || DecodeEscape(bs).key.Mouse?
  {
    hide DecodeEscape, KeyBytes;
    if DecodeEscape(bs).Token? && !(DecodeEscape(bs).key.Esc? || DecodeEscape(bs).key.Paste? || DecodeEscape(bs).key.Mouse?) {
      EscapeHasItsBytes(bs);
    }
  }

  lemma NotTakenIsCsi(bs: seq<Byte>)
    requires |bs| >= 2 && bs[0] == ESC
    requires DecodeEscape(bs).Token? ==> DecodeEscape(bs).key.Esc? || DecodeEscape(bs).key.Paste? || DecodeEscape(bs).key.Mouse?
    ensures !IsAlphabetic(bs[1]) && (|bs| == 2 ==> DecodeEscape(bs) == More)
    ensures |bs| >= 3 ==> DecodeEscape(bs) == DecodeCsi(bs)
  {
    hide DecodeCsi;
  }

  /** What terminals send for arrows, Home and End in application mode is not decoded as such: `ESC O` is Alt and a
      letter before the third byte is looked at. */
  lemma ApplicationKeyIsAlt(final: Byte, rest: seq<Byte>)
    ensures DecodeOne([ESC, 0x4F, final] + rest) == Token(2, Alt(0x4F))
  {
    var all := [ESC, 0x4F, final] + rest;
    assert all[0] == ESC && all[1] == 0x4F;
    assert |all| >= 4 ==> all[..4][1] == 0x4F;
  }

  // ----- The leader

  /** Bytes that are one key, and wait until they are complete wherever they are cut. */
  ghost predicate IsWhole(f: seq<Byte>, key: Key) {
    f != [] && DecodeOne(f) == Token(|f|, key) && forall n | 1 <= n < |f| :: DecodeOne(f[..n]) == More
  }

  /** Ctrl and a letter. */
  lemma ControlIsWhole(c: Scalar)
    requires KeyBytes(Ctrl(c)) != []
    ensures IsWhole([c - 0x60], Ctrl(c))
  {
  }

  lemma CharacterIsWhole(c: Scalar)
    requires IsPlain(c)
    ensures IsWhole(EncodeScalar(c), Char(c))
  {
    hide FrontOf, EncodeScalar;
    var f := EncodeScalar(c);
    FrontOfEncoded(c, []);
    assert f + [] == f;
    if c < 0x80 {
      AsciiIsItself(c);
      AsciiFront(f, c);
    } else {
      WideIsWhole(c);
    }
  }

  lemma AsciiIsItself(c: Scalar)
    requires c < 0x80
    ensures EncodeScalar(c) == [c]
  {
  }

  lemma WideIsWhole(c: Scalar)
    requires c >= 0x80
    ensures IsWhole(EncodeScalar(c), Char(c))
  {
    hide FrontOf, EncodeScalar, DecodeOne;
    var f := EncodeScalar(c);
    FrontOfEncoded(c, []);
    assert f + [] == f && |f| == Width(c);
    WideLeads(c);
    WideFront(f);
    ValidCharacter(c);
    forall n | 1 <= n < |f|
      ensures DecodeOne(f[..n]) == More
    {
      WideFront(f[..n]);
      CutCharacter(c, n);
    }
  }

  lemma WideLeads(c: Scalar)
    requires c >= 0x80
    ensures EncodeScalar(c)[0] >= 0x80
  {
  }

  lemma ValidCharacter(c: Scalar)
    ensures Valid(EncodeScalar(c))
  {
    hide FrontOf, EncodeScalar;
    FrontOfEncoded(c, []);
    assert EncodeScalar(c) + [] == EncodeScalar(c);
    assert EncodeScalar(c)[Width(c)..] == [];
  }

  lemma CutCharacter(c: Scalar, n: nat)
    requires 1 <= n < |EncodeScalar(c)|
    ensures !Valid(EncodeScalar(c)[..n])
  {
    hide FrontOf, EncodeScalar;
    var f := EncodeScalar(c);
    FrontOfEncoded(c, []);
    assert f + [] == f && f[..n] + f[n..] == f;
    if Valid(f[..n]) {
      FrontIsStable(f[..n], f[n..]);
    }
  }

  lemma WholeDrains(f: seq<Byte>, key: Key, n: nat)
    requires IsWhole(f, key) && n <= |f|
    ensures Drain(f[..n]) == if n < |f| then Drained([], f[..n]) else Drained([Frame(f, key)], [])
  {
    hide DecodeOne;
    assert f[..|f|] == f && f[|f|..] == [];
    assert Drain([]) == Drained([], []);
    assert [Frame(f, key)] + [] == [Frame(f, key)];
  }

  lemma LeadOne(leader: bool, f: seq<Byte>, key: Key)
    ensures LeadAll(leader, [Frame(f, key)]) == ApplyLeader(leader, key)
  {
    hide ApplyLeader;
    assert [Frame(f, key)][1..] == [];
    assert ApplyLeader(leader, key).out + [] == ApplyLeader(leader, key).out;
  }

  /** The rest of such bytes, in any chunks. */
  lemma {:induction false} WholeFed(f: seq<Byte>, key: Key, n: nat, leader: bool, chunks: seq<seq<Byte>>)
    requires IsWhole(f, key) && n < |f| && Concat(chunks) == f[n..]
    ensures Feed(State(f[..n], leader), chunks)
            == Pushed(State([], ApplyLeader(leader, key).leader), ApplyLeader(leader, key).out)
    decreases chunks
  {
    hide Drain, LeadAll, IsWhole, ApplyLeader;
    var c, rest := chunks[0], Concat(chunks[1..]);
    var m := n + |c|;
    assert f[n..] == c + rest;
    assert f[..n] + c == f[..m] && rest == f[m..];
    WholeDrains(f, key, m);
    if m < |f| {
      LeadNothing(leader);
      WholeFed(f, key, m, leader, chunks[1..]);
      assert [] + ApplyLeader(leader, key).out == ApplyLeader(leader, key).out;
    } else {
      LeadOne(leader, f, key);
      FeedNothing(State([], ApplyLeader(leader, key).leader), chunks[1..]);
      assert ApplyLeader(leader, key).out + [] == ApplyLeader(leader, key).out;
    }
  }

  const CTRL_X_BYTE: Byte := 0x18

  lemma LeaderDrains(g: seq<Byte>)
    ensures Drain([CTRL_X_BYTE] + g) == Drained([Frame([CTRL_X_BYTE], Ctrl(CTRL_X))] + Drain(g).frames, Drain(g).rest)
  {
    var p := [CTRL_X_BYTE] + g;
    assert DecodeOne(p) == Token(1, Ctrl(CTRL_X));
    assert p[..1] == [CTRL_X_BYTE] && p[1..] == g;
  }

  lemma CutBehindLeader(c: seq<Byte>, later: seq<Byte>, f: seq<Byte>) returns (n: nat)
    requires c != [] && c + later == [CTRL_X_BYTE] + f
    ensures n <= |f| && c == [CTRL_X_BYTE] + f[..n] && later == f[n..]
  {
    n := |c| - 1;
    assert (c + later)[0] == c[0] && (c + later)[1..] == f;
    assert (c + later)[1..] == c[1..] + later;
  }

  /** What one chunk with the leader and part of a key does. */
  lemma LeaderPushed(f: seq<Byte>, key: Key, n: nat)
    requires IsWhole(f, key) && n <= |f|
    ensures PushOf(FRESH, [CTRL_X_BYTE] + f[..n])
            == if n < |f| then Pushed(State(f[..n], true), [])
               else Pushed(State([], ApplyLeader(true, key).leader), ApplyLeader(true, key).out)
  {
    hide Drain, LeadAll, ApplyLeader, IsWhole;
    var c := [CTRL_X_BYTE] + f[..n];
    assert FRESH.pending + c == c;
    LeaderDrains(f[..n]);
    WholeDrains(f, key, n);
    LeaderThen(Drain(f[..n]).frames);
    LeadNothing(true);
    LeadOne(true, f, key);
  }

  lemma EmptyChunk(s: State)
    requires s.pending == []
    ensures PushOf(s, []) == Pushed(s, [])
  {
    DrainNothing(s.leader);
    assert s.pending + [] == [];
  }

  lemma LeaderApplies(key: Key)
    ensures ApplyLeader(true, key) == Led(false, if key.Char? || key.Ctrl? then [CtrlSeq(CTRL_X, key.ch)] else [key])
  {
  }

  /** Ctrl-x and bytes that are one key, in any chunks: a character or a control key becomes the pair of
      both, and any other key comes alone. */
  lemma {:induction false} LeaderJoins(f: seq<Byte>, key: Key, chunks: seq<seq<Byte>>)
    requires IsWhole(f, key) && Concat(chunks) == [CTRL_X_BYTE] + f
    ensures Feed(FRESH, chunks)
            == Pushed(FRESH, if key.Char? || key.Ctrl? then [CtrlSeq(CTRL_X, key.ch)] else [key])
    decreases chunks
  {
    hide PushOf, IsWhole, ApplyLeader, Feed;
    var c, later := chunks[0], chunks[1..];
    LeaderApplies(key);
    FeedStep(FRESH, chunks);
    if c == [] {
      EmptyChunk(FRESH);
      LeaderJoins(f, key, later);
    } else {
      var n := CutBehindLeader(c, Concat(later), f);
      LeaderPushed(f, key, n);
      if n < |f| {
        WholeFed(f, key, n, true, later);
      } else {
        FeedNothing(FRESH, later);
      }
    }
  }

  lemma FeedStep(s: State, chunks: seq<seq<Byte>>)
    requires chunks != []
    ensures var first := PushOf(s, chunks[0]);
            Feed(s, chunks) == Pushed(Feed(first.state, chunks[1..]).state, first.keys + Feed(first.state, chunks[1..]).keys)
  {
    hide PushOf;
  }

  lemma LeaderThen(frames: seq<Frame>)
    ensures LeadAll(false, [Frame([CTRL_X_BYTE], Ctrl(CTRL_X))] + frames) == LeadAll(true, frames)
  {
    var all := [Frame([CTRL_X_BYTE], Ctrl(CTRL_X))] + frames;
    assert all[1..] == frames;
    assert [] + LeadAll(true, frames).out == LeadAll(true, frames).out;
  }

  /** So with every character and every control key, in any chunks. */
  lemma LeaderThenCharacter(c: Scalar, chunks: seq<seq<Byte>>)
    requires IsPlain(c) && Concat(chunks) == [CTRL_X_BYTE] + EncodeScalar(c)
    ensures Feed(FRESH, chunks) == Pushed(FRESH, [CtrlSeq(CTRL_X, c)])
  {
    hide IsWhole, Feed, EncodeScalar;
    CharacterIsWhole(c);
    LeaderJoins(EncodeScalar(c), Char(c), chunks);
  }

  lemma LeaderThenControl(c: Scalar, chunks: seq<seq<Byte>>)
    requires KeyBytes(Ctrl(c)) != [] && Concat(chunks) == [CTRL_X_BYTE, c - 0x60]
    ensures Feed(FRESH, chunks) == Pushed(FRESH, [CtrlSeq(CTRL_X, c)])
  {
    hide IsWhole, Feed;
    ControlIsWhole(c);
    assert [CTRL_X_BYTE] + [c - 0x60] == [CTRL_X_BYTE, c - 0x60];
    LeaderJoins([c - 0x60], Ctrl(c), chunks);
  }
}
