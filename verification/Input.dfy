/**
 The input decoder of src/app/input.rs: bytes from the client become keys, bracketed pastes, SGR mouse
 reports and UTF-8 text. It is incremental: what cannot be decoded yet waits in `pending`.
 */
module Input {
  import opened Utf8
  import opened Wrappers
  import opened Fields
  import Decimal

  datatype MouseButton = LeftButton | MiddleButton | RightButton

  datatype MouseEventKind =
    | Down(button: MouseButton) | Up(button: MouseButton) | Drag(button: MouseButton)
    | Moved | ScrollUp | ScrollDown | ScrollLeft | ScrollRight

  datatype MouseModifiers = Modifiers(shift: bool, alt: bool, control: bool)

  datatype MouseEvent = MouseEvent(kind: MouseEventKind, column: nat, row: nat, modifiers: MouseModifiers)

  datatype Key =
    | Char(ch: Scalar) | Enter | ShiftEnter | Esc | Backspace | Delete | Tab | BackTab
    | ArrowUp | ArrowDown | AltUp | AltDown | ArrowLeft | ArrowRight | Home | End | PageUp | PageDown
    | Ctrl(ch: Scalar) | Alt(ch: Scalar) | CtrlSeq(leader: Scalar, ch: Scalar)
    | Paste(text: seq<Scalar>) | Mouse(event: MouseEvent)

  /** A key and the bytes it took, or the need for more bytes. */
  datatype Decoded = More | Token(used: nat, key: Key)

  predicate StartsWith(bs: seq<Byte>, prefix: seq<Byte>) {
    |prefix| <= |bs| && bs[..|prefix|] == prefix
  }

  predicate IsAlphabetic(b: Byte) { 0x41 <= b <= 0x5A || 0x61 <= b <= 0x7A }

  function DecodeOne(bs: seq<Byte>): (d: Decoded)
    requires bs != []
    ensures d.Token? ==> 1 <= d.used <= |bs|
  {
    var b: int := bs[0];
    if b == 0x0D then Token(1, Enter)
    else if b == 0x0A then Token(1, ShiftEnter)
    else if b == 0x09 then Token(1, Tab)
    else if b == 0x7F || b == 0x08 then Token(1, Backspace)
    else if 0x01 <= b <= 0x1A then Token(1, Ctrl(b - 0x01 + 0x61))
    else if b == 0x1B then DecodeEscape(bs)
    else if b < 0x80 then Token(1, Char(b))
    else if Valid(bs) then Token(FrontOf(bs).width, Char(FrontOf(bs).scalar))
    else More
  }

  function DecodeEscape(bs: seq<Byte>): (d: Decoded)
    requires bs != []
    ensures d.Token? ==> 1 <= d.used <= |bs|
  {
    if |bs| == 1 then Token(1, Esc)
    else if bs[1] == 0x0D || bs[1] == 0x0A then Token(2, ShiftEnter)
    else if StartsWith(bs, [ESC, ESC, BRACKET, 0x41]) || StartsWith(bs, [ESC, ESC, 0x4F, 0x41]) then Token(4, AltUp)
    else if StartsWith(bs, [ESC, ESC, BRACKET, 0x42]) || StartsWith(bs, [ESC, ESC, 0x4F, 0x42]) then Token(4, AltDown)
    else if IsAlphabetic(bs[1]) then Token(2, Alt(bs[1]))
    else if |bs| < 3 then More
    else
      match ArrowKey(bs[..3])
      case Some(key) => Token(3, key)
      case None => DecodeCsi(bs)
  }

  /** The three-byte keys. Those that begin `ESC O` never get here: `ESC` and a letter is Alt. */
  function ArrowKey(seq3: seq<Byte>): Option<Key>
    requires |seq3| == 3
  {
    if seq3[0] == ESC && (seq3[1] == BRACKET || seq3[1] == 0x4F) then
      if seq3[2] == 0x41 then Some(ArrowUp)
      else if seq3[2] == 0x42 then Some(ArrowDown)
      else if seq3[2] == 0x43 then Some(ArrowRight)
      else if seq3[2] == 0x44 then Some(ArrowLeft)
      else if seq3[2] == 0x48 then Some(Home)
      else if seq3[2] == 0x46 then Some(End)
      else if seq3[2] == 0x5A && seq3[1] == BRACKET then Some(BackTab)
      else None
    else None
  }

  const PASTE_START: seq<Byte> := [0x1B, 0x5B, 0x32, 0x30, 0x30, 0x7E]
  const PASTE_END: seq<Byte> := [0x1B, 0x5B, 0x32, 0x30, 0x31, 0x7E]
  const MOUSE_START: seq<Byte> := [0x1B, 0x5B, 0x3C]

  function FindSubsequence(haystack: seq<Byte>, needle: seq<Byte>): (r: Option<nat>)
    ensures r.Some? ==> r.value + |needle| <= |haystack|
  {
    if StartsWith(haystack, needle) then Some(0)
    else if haystack == [] then None
    else match FindSubsequence(haystack[1..], needle) case Some(i) => Some(i + 1) case None => None
  }

  predicate EndsKey(b: Byte) { b == 0x7E || 0x41 <= b <= 0x5A || b == 0x75 }

  function PositionOfEnd(bs: seq<Byte>): (r: Option<nat>)
    ensures r.Some? ==> r.value < |bs|
  {
    if bs == [] then None
    else if EndsKey(bs[0]) then Some(0)
    else match PositionOfEnd(bs[1..]) case Some(i) => Some(i + 1) case None => None
  }

  function DecodeCsi(bs: seq<Byte>): (d: Decoded)
    requires bs != []
    ensures d.Token? ==> 1 <= d.used <= |bs|
  {
    if StartsWith(bs, PASTE_START) then
      match FindSubsequence(bs[6..], PASTE_END)
      case None => More
      case Some(end) => Token(6 + end + 6, Paste(Lossy(bs[6..6 + end])))
    else if StartsWith(bs, MOUSE_START) then DecodeSgrMouse(bs)
    else
      match PositionOfEnd(bs)
      case None => More
      case Some(end) =>
        if end < 2 then More
        else
          match NamedKey(bs[..end + 1])
          case Some(key) => Token(end + 1, key)
          case None => Token(1, Esc)
  }

  /** The control sequences with a key of their own. */
  function NamedKey(s: seq<Byte>): Option<Key> {
    if s == [ESC, BRACKET, 0x31, 0x33, 0x3B, 0x32, 0x75]             // 13;2u
       || s == [ESC, BRACKET, 0x31, 0x33, 0x3B, 0x32, 0x7E]          // 13;2~
       || s == [ESC, BRACKET, 0x32, 0x37, 0x3B, 0x32, 0x3B, 0x31, 0x33, 0x7E] // 27;2;13~
       || s == [ESC, BRACKET, 0x31, 0x33, 0x3B, 0x33, 0x75]          // 13;3u
       || s == [ESC, BRACKET, 0x31, 0x33, 0x3B, 0x33, 0x7E]          // 13;3~
       || s == [ESC, BRACKET, 0x32, 0x37, 0x3B, 0x33, 0x3B, 0x31, 0x33, 0x7E] // 27;3;13~
    then Some(ShiftEnter)
    else if s == [ESC, BRACKET, 0x31, 0x3B, 0x33, 0x41] then Some(AltUp)
    else if s == [ESC, BRACKET, 0x31, 0x3B, 0x33, 0x42] then Some(AltDown)
    else if s == [ESC, BRACKET, 0x31, 0x7E] || s == [ESC, BRACKET, 0x37, 0x7E] then Some(Home)
    else if s == [ESC, BRACKET, 0x34, 0x7E] || s == [ESC, BRACKET, 0x38, 0x7E] then Some(End)
    else if s == [ESC, BRACKET, 0x33, 0x7E] then Some(Delete)
    else if s == [ESC, BRACKET, 0x35, 0x7E] then Some(PageUp)
    else if s == [ESC, BRACKET, 0x36, 0x7E] then Some(PageDown)
    else None
  }

  predicate EndsMouse(b: Byte) { b == 0x4D || b == 0x6D }

  function PositionOfMouseEnd(bs: seq<Byte>): (r: Option<nat>)
    ensures r.Some? ==> r.value < |bs| && EndsMouse(bs[r.value])
  {
    if bs == [] then None
    else if EndsMouse(bs[0]) then Some(0)
    else match PositionOfMouseEnd(bs[1..]) case Some(i) => Some(i + 1) case None => None
  }

  function DecodeSgrMouse(bs: seq<Byte>): (d: Decoded)
    ensures d.Token? ==> 1 <= d.used <= |bs|
  {
    match PositionOfMouseEnd(bs)
    case None => More
    case Some(end) =>
      if end < 3 then Token(end + 1, Esc)
      else
        match MouseOf(bs[3..end], bs[end] == 0x4D)
        case None => Token(end + 1, Esc)
        case Some(event) => Token(end + 1, Mouse(event))
  }

  /** The event in a report `cb;column;row`; anything else is no event. */
  function MouseOf(body: seq<Byte>, pressed: bool): Option<MouseEvent> {
    if !Valid(body) then None
    else
      var parts := Split(body);
      if |parts| != 3 then None
      else
        match (Decimal.ParseUnsigned(parts[0], 0xFF), Decimal.ParseUnsigned(parts[1], 0xFFFF), Decimal.ParseUnsigned(parts[2], 0xFFFF))
        case (Some(cb), Some(column), Some(row)) =>
          (match DecodeMouseCb(cb, pressed)
           case None => None
           case Some(button) => Some(MouseEvent(button.0, MinusOne(column), MinusOne(row), button.1)))
        case _ => None
  }

  function MinusOne(n: nat): nat { if n == 0 then 0 else n - 1 }

  /** Bits 0, 1, 6 and 7 number the button, bit 5 marks motion, bits 2 to 4 the modifiers. */
  function DecodeMouseCb(cb: Byte, pressed: bool): Option<(MouseEventKind, MouseModifiers)> {
    Named(MouseKind(cb % 4 + cb / 64 * 4, cb / 32 % 2 == 1, pressed),
          Modifiers(cb / 4 % 2 == 1, cb / 8 % 2 == 1, cb / 16 % 2 == 1))
  }

  function Named(kind: Option<MouseEventKind>, m: MouseModifiers): Option<(MouseEventKind, MouseModifiers)> {
    match kind case Some(k) => Some((k, m)) case None => None
  }

  function MouseKind(button: nat, dragging: bool, pressed: bool): Option<MouseEventKind> {
    match (button, dragging, pressed)
    case (0, false, true) => Some(Down(LeftButton))
    case (1, false, true) => Some(Down(MiddleButton))
    case (2, false, true) => Some(Down(RightButton))
    case (0, false, false) => Some(Up(LeftButton))
    case (1, false, false) => Some(Up(MiddleButton))
    case (2, false, false) => Some(Up(RightButton))
    case (0, true, _) => Some(Drag(LeftButton))
    case (1, true, _) => Some(Drag(MiddleButton))
    case (2, true, _) => Some(Drag(RightButton))
    case (3, false, _) => Some(Up(LeftButton))
    case (3, true, _) => Some(Moved)
    case (4, true, _) => Some(Moved)
    case (5, true, _) => Some(Moved)
    case (4, false, _) => Some(ScrollUp)
    case (5, false, _) => Some(ScrollDown)
    case (6, false, _) => Some(ScrollLeft)
    case (7, false, _) => Some(ScrollRight)
    case _ => None
  }

  // ----- Draining the pending bytes

  /** The bytes one key was decoded from, and the key. */
  datatype Frame = Frame(bytes: seq<Byte>, key: Key)

  datatype Drained = Drained(frames: seq<Frame>, rest: seq<Byte>)

  function Drain(p: seq<Byte>): Drained {
    if p == [] then Drained([], [])
    else
      match DecodeOne(p)
      case More => Drained([], p)
      case Token(used, key) =>
        var after := Drain(p[used..]);
        Drained([Frame(p[..used], key)] + after.frames, after.rest)
  }

  /** Ctrl-x is swallowed and joins the next character key. */
  datatype Led = Led(leader: bool, out: seq<Key>)

  const CTRL_X: Scalar := 0x78

  function ApplyLeader(leader: bool, key: Key): Led {
    if leader then
      match key
      case Char(ch) => Led(false, [CtrlSeq(CTRL_X, ch)])
      case Ctrl(ch) => Led(false, [CtrlSeq(CTRL_X, ch)])
      case _ => Led(false, [key])
    else if key == Ctrl(CTRL_X) then Led(true, [])
    else Led(false, [key])
  }

  function LeadAll(leader: bool, frames: seq<Frame>): Led
    decreases frames
  {
    if frames == [] then Led(leader, [])
    else
      var first := ApplyLeader(leader, frames[0].key);
      var after := LeadAll(first.leader, frames[1..]);
      Led(after.leader, first.out + after.out)
  }

  datatype State = State(pending: seq<Byte>, leader: bool)

  datatype Pushed = Pushed(state: State, keys: seq<Key>)

  function PushOf(s: State, bytes: seq<Byte>): Pushed {
    var d := Drain(s.pending + bytes);
    var led := LeadAll(s.leader, d.frames);
    Pushed(State(d.rest, led.leader), led.out)
  }

  const FRESH := State([], false)

  /** What the loop still has to do after some keys are out. */
  lemma DrainStep(p: seq<Byte>, leader: bool, used: nat, key: Key)
    requires p != [] && DecodeOne(p) == Token(used, key)
    ensures var first := ApplyLeader(leader, key);
            && Drain(p).rest == Drain(p[used..]).rest
            && LeadAll(leader, Drain(p).frames).leader == LeadAll(first.leader, Drain(p[used..]).frames).leader
            && LeadAll(leader, Drain(p).frames).out == first.out + LeadAll(first.leader, Drain(p[used..]).frames).out
  {
    hide DecodeOne, ApplyLeader;
    assert Drain(p).frames[1..] == Drain(p[used..]).frames;
  }

  class InputDecoder {
    var pending: seq<Byte>
    var leaderCtrlX: bool

    constructor ()
      ensures Value() == FRESH
    {
      pending, leaderCtrlX := [], false;
    }

    function Value(): State
      reads this
    {
      State(pending, leaderCtrlX)
    }

    method ApplyLeaderKey(key: Key) returns (out: Option<Key>)
      modifies this`leaderCtrlX
      ensures Led(leaderCtrlX, if out.Some? then [out.value] else []) == ApplyLeader(old(leaderCtrlX), key)
    {
      if leaderCtrlX {
        leaderCtrlX := false;
        out := match key
          case Char(ch) => Some(CtrlSeq(CTRL_X, ch))
          case Ctrl(ch) => Some(CtrlSeq(CTRL_X, ch))
          case _ => Some(key);
      } else if key == Ctrl(CTRL_X) {
        leaderCtrlX := true;
        out := None;
      } else {
        out := Some(key);
      }
    }

    method Push(bytes: seq<Byte>) returns (out: seq<Key>)
      modifies this
      ensures Pushed(Value(), out) == PushOf(old(Value()), bytes)
    {
      hide DecodeOne, ApplyLeader, Drain, LeadAll;
      pending := pending + bytes;
      ghost var d, led := Drain(pending), LeadAll(leaderCtrlX, Drain(pending).frames);
      out := [];
      while pending != []
        invariant Drain(pending).rest == d.rest
        invariant LeadAll(leaderCtrlX, Drain(pending).frames).leader == led.leader
        invariant out + LeadAll(leaderCtrlX, Drain(pending).frames).out == led.out
        decreases |pending|
      {
        match DecodeOne(pending) {
          case More =>
            DrainWaits(pending, leaderCtrlX);
            assert out + [] == out;
            return;
          case Token(used, key) =>
            DrainStep(pending, leaderCtrlX, used, key);
            ghost var first := ApplyLeader(leaderCtrlX, key);
            ghost var later := LeadAll(first.leader, Drain(pending[used..]).frames).out;
            ConcatAssociates(out, first.out, later);
            pending := pending[used..];
            var led := ApplyLeaderKey(key);
            if led.Some? {
              out := out + [led.value];
            } else {
              assert out + first.out == out;
            }
        }
      }
      DrainNothing(leaderCtrlX);
      assert out + [] == out;
    }
  }

  lemma DrainWaits(p: seq<Byte>, leader: bool)
    requires p != [] && DecodeOne(p) == More
    ensures Drain(p) == Drained([], p) && LeadAll(leader, Drain(p).frames) == Led(leader, [])
  {
  }

  lemma DrainNothing(leader: bool)
    ensures Drain([]) == Drained([], []) && LeadAll(leader, Drain([]).frames) == Led(leader, [])
  {
  }

  // ----- Feeding in chunks

  function Feed(s: State, chunks: seq<seq<Byte>>): Pushed
    decreases chunks
  {
    if chunks == [] then Pushed(s, [])
    else
      var first := PushOf(s, chunks[0]);
      var after := Feed(first.state, chunks[1..]);
      Pushed(after.state, first.keys + after.keys)
  }

  function BytesOf(frames: seq<Frame>): seq<Byte> {
    if frames == [] then [] else frames[0].bytes + BytesOf(frames[1..])
  }

  lemma {:induction false} BytesOfConcat(a: seq<Frame>, b: seq<Frame>)
    ensures BytesOf(a + b) == BytesOf(a) + BytesOf(b)
  {
    if a == [] {
      assert a + b == b;
    } else {
      BytesOfConcat(a[1..], b);
      assert (a + b)[1..] == a[1..] + b;
      ConcatAssociates(a[0].bytes, BytesOf(a[1..]), BytesOf(b));
    }
  }

  lemma {:induction false} LeadAllConcat(leader: bool, a: seq<Frame>, b: seq<Frame>)
    ensures LeadAll(leader, a + b)
            == Led(LeadAll(LeadAll(leader, a).leader, b).leader,
                   LeadAll(leader, a).out + LeadAll(LeadAll(leader, a).leader, b).out)
    decreases a
  {
    hide ApplyLeader;
    if a == [] {
      assert a + b == b;
    } else {
      var first := ApplyLeader(leader, a[0].key);
      LeadAllConcat(first.leader, a[1..], b);
      assert (a + b)[1..] == a[1..] + b;
      var mid := LeadAll(first.leader, a[1..]);
      ConcatAssociates(first.out, mid.out, LeadAll(mid.leader, b).out);
    }
  }

  ghost predicate EachTakesBytes(frames: seq<Frame>) {
    forall i | 0 <= i < |frames| :: frames[i].bytes != []
  }

  lemma FrameInFront(frame: Frame, frames: seq<Frame>)
    ensures BytesOf([frame] + frames) == frame.bytes + BytesOf(frames)
    ensures frame.bytes != [] && EachTakesBytes(frames) ==> EachTakesBytes([frame] + frames)
  {
    assert ([frame] + frames)[1..] == frames;
  }

  lemma DrainUnfolds(p: seq<Byte>)
    ensures p != [] && DecodeOne(p).Token? ==>
              var used, key := DecodeOne(p).used, DecodeOne(p).key;
              Drain(p) == Drained([Frame(p[..used], key)] + Drain(p[used..]).frames, Drain(p[used..]).rest)
    ensures p == [] || DecodeOne(p) == More ==> Drain(p) == Drained([], p)
  {
    hide DecodeOne;
  }

  /** One push neither loses nor invents a byte, and every key is paid for with at least one. */
  lemma {:induction false} DrainConserves(p: seq<Byte>)
    ensures BytesOf(Drain(p).frames) + Drain(p).rest == p && EachTakesBytes(Drain(p).frames)
    decreases |p|
  {
    hide DecodeOne, Drain, BytesOf, EachTakesBytes;
    DrainUnfolds(p);
    if p == [] || DecodeOne(p) == More {
      NoFrameTakesBytes();
      assert [] + p == p;
    } else {
      var Token(used, key) := DecodeOne(p);
      var after := Drain(p[used..]);
      DrainConserves(p[used..]);
      FrameInFront(Frame(p[..used], key), after.frames);
      ConcatAssociates(p[..used], BytesOf(after.frames), after.rest);
      assert p[..used] + p[used..] == p;
    }
  }

  lemma NoFrameTakesBytes()
    ensures BytesOf([]) == [] && EachTakesBytes([])
  {
  }

  /** Over any run: the bytes of the decoded keys, in order, followed by what is pending, are the
      bytes pending before followed by all bytes fed; the keys are those frames after the leader. */
  lemma {:induction false} FeedConserves(s: State, chunks: seq<seq<Byte>>) returns (frames: seq<Frame>)
    ensures BytesOf(frames) + Feed(s, chunks).state.pending == s.pending + Concat(chunks)
    ensures EachTakesBytes(frames)
    ensures LeadAll(s.leader, frames) == Led(Feed(s, chunks).state.leader, Feed(s, chunks).keys)
    decreases chunks
  {
    hide DecodeOne, ApplyLeader, Drain;
    if chunks == [] {
      frames := [];
    } else {
      var d := Drain(s.pending + chunks[0]);
      DrainConserves(s.pending + chunks[0]);
      var first := PushOf(s, chunks[0]);
      var later := FeedConserves(first.state, chunks[1..]);
      frames := d.frames + later;
      BytesOfConcat(d.frames, later);
      LeadAllConcat(s.leader, d.frames, later);
      FourParts(BytesOf(d.frames), BytesOf(later), Feed(s, chunks).state.pending, d.rest, Concat(chunks[1..]), s.pending, chunks[0]);
    }
  }

  lemma FourParts(a: seq<Byte>, b: seq<Byte>, c: seq<Byte>, r: seq<Byte>, m: seq<Byte>, p: seq<Byte>, first: seq<Byte>)
    requires a + r == p + first && b + c == r + m
    ensures (a + b) + c == p + (first + m)
  {
    assert (a + b) + c == a + (b + c);
    assert a + (r + m) == (a + r) + m;
    assert p + (first + m) == (p + first) + m;
  }

  // ----- Plain text

  /** A character whose encoding holds no byte in 0x01..0x1B and not 0x7F. */
  predicate IsPlain(c: Scalar) { !(0x01 <= c <= 0x1B) && c != 0x7F }

  ghost predicate AllPlain(cs: seq<Scalar>) { forall i | 0 <= i < |cs| :: IsPlain(cs[i]) }

  function CharKeys(cs: seq<Scalar>): seq<Key> {
    if cs == [] then [] else [Char(cs[0])] + CharKeys(cs[1..])
  }

  lemma AsciiFront(p: seq<Byte>, c: Scalar)
    requires p != [] && p[0] == c && c < 0x80 && IsPlain(c)
    ensures DecodeOne(p) == Token(1, Char(c))
  {
  }

  lemma WideFront(p: seq<Byte>)
    requires p != [] && p[0] >= 0x80
    ensures DecodeOne(p) == if Valid(p) then Token(FrontOf(p).width, Char(FrontOf(p).scalar)) else More
  {
  }

  lemma TextRest(p: seq<Byte>, q: seq<Byte>, all: seq<Byte>, used: nat)
    requires p + q == all && used <= |p|
    ensures p[used..] + q == all[used..]
  {
  }

  // ----- Framed input

  /** A framed input is one key, and needs its last byte: after two bytes or more the decoder waits;
      after the first, a lone ESC, it does not. */
  ghost predicate IsFrame(f: seq<Byte>, key: Key) {
    && |f| >= 3 && f[0] == ESC && f[1] == BRACKET && key != Ctrl(CTRL_X)
    && DecodeOne(f) == Token(|f|, key)
    && forall n | 2 <= n < |f| :: DecodeOne(f[..n]) == More
  }

  lemma FrameWaits(f: seq<Byte>, key: Key, n: nat)
    requires IsFrame(f, key) && n < |f| && n != 1
    ensures Drain(f[..n]) == Drained([], f[..n])
  {
  }

  lemma FrameCompletes(f: seq<Byte>, key: Key)
    requires IsFrame(f, key)
    ensures Drain(f) == Drained([Frame(f, key)], []) && LeadAll(false, Drain(f).frames) == Led(false, [key])
  {
    hide DecodeOne;
    assert f[..|f|] == f && f[|f|..] == [];
    assert Drain(f[|f|..]) == Drained([], []);
    assert [Frame(f, key)] + [] == [Frame(f, key)];
    assert [Frame(f, key)][1..] == [];
  }

  /** No chunk ends right after the first byte. */
  ghost predicate NoCutAtOne(n: nat, chunks: seq<seq<Byte>>)
    decreases chunks
  {
    n != 1 && (chunks != [] ==> NoCutAtOne(n + |chunks[0]|, chunks[1..]))
  }

  lemma {:induction false} FedPart(f: seq<Byte>, key: Key, n: nat, chunks: seq<seq<Byte>>)
    requires IsFrame(f, key) && n < |f| && Concat(chunks) == f[n..] && NoCutAtOne(n, chunks)
    ensures Feed(State(f[..n], false), chunks) == Pushed(FRESH, [key])
    decreases chunks
  {
    hide Drain, LeadAll, IsFrame;
    var c, rest := chunks[0], Concat(chunks[1..]);
    var m := n + |c|;
    assert f[n..] == c + rest && |c| <= |f| - n;
    assert f[..n] + c == f[..m] && rest == f[m..];
    if m < |f| {
      assert NoCutAtOne(m, chunks[1..]);
      assert m != 1;
      FrameWaits(f, key, m);
      LeadNothing(false);
      FedPart(f, key, m, chunks[1..]);
      assert [] + [key] == [key];
    } else {
      assert f[..m] == f && rest == [];
      FrameCompletes(f, key);
      FeedNothing(FRESH, chunks[1..]);
      assert [key] + [] == [key];
    }
  }

  lemma LeadNothing(leader: bool)
    ensures LeadAll(leader, []) == Led(leader, [])
  {
  }

  lemma {:induction false} FeedNothing(s: State, chunks: seq<seq<Byte>>)
    requires Concat(chunks) == [] && s.pending == []
    ensures Feed(s, chunks) == Pushed(s, [])
    decreases chunks
  {
    if chunks != [] {
      assert chunks[0] == [] && Concat(chunks[1..]) == [];
      DrainNothing(s.leader);
      assert s.pending + chunks[0] == [];
      FeedNothing(s, chunks[1..]);
    }
  }

  lemma {:induction false} NoCutPastOne(n: nat, chunks: seq<seq<Byte>>)
    requires n >= 2
    ensures NoCutAtOne(n, chunks)
    decreases chunks
  {
    if chunks != [] {
      NoCutPastOne(n + |chunks[0]|, chunks[1..]);
    }
  }

  lemma BracketIsText(p: seq<Byte>)
    requires p != [] && p[0] == BRACKET
    ensures DecodeOne(p) == Token(1, Char(BRACKET))
  {
  }

  lemma LoneEsc()
    ensures Drain([ESC]) == Drained([Frame([ESC], Esc)], [])
    ensures LeadAll(false, Drain([ESC]).frames) == Led(false, [Esc])
  {
    assert DecodeOne([ESC]) == Token(1, Esc);
    assert [ESC][1..] == [] && [ESC][..1] == [ESC];
    assert [Frame([ESC], Esc)][1..] == [];
  }

  lemma {:induction false} BracketComesFirst(chunks: seq<seq<Byte>>)
    requires Concat(chunks) != [] && Concat(chunks)[0] == BRACKET
    ensures Feed(FRESH, chunks).keys != [] && Feed(FRESH, chunks).keys[0] == Char(BRACKET)
    decreases chunks
  {
    assert FRESH.pending + chunks[0] == chunks[0];
    if chunks[0] == [] {
      DrainNothing(false);
      assert [] + Concat(chunks[1..]) == Concat(chunks[1..]);
      BracketComesFirst(chunks[1..]);
    } else {
      hide DecodeOne;
      assert chunks[0][0] == BRACKET;
      BracketIsText(chunks[0]);
      DrainStep(chunks[0], false, 1, Char(BRACKET));
      assert ApplyLeader(false, Char(BRACKET)) == Led(false, [Char(BRACKET)]);
    }
  }

  /** A cut right after the ESC lets the ESC out as a key of its own. */
  lemma {:induction false} CutAfterEsc(f: seq<Byte>, key: Key, chunks: seq<seq<Byte>>)
    requires IsFrame(f, key) && Concat(chunks) == f && !NoCutAtOne(0, chunks)
    ensures |Feed(FRESH, chunks).keys| >= 2 && Feed(FRESH, chunks).keys[0] == Esc
    decreases chunks
  {
    var c, rest := chunks[0], Concat(chunks[1..]);
    assert f == c + rest && FRESH.pending + c == c;
    if |c| == 0 {
      assert rest == f;
      DrainNothing(false);
      CutAfterEsc(f, key, chunks[1..]);
    } else if |c| == 1 {
      hide Drain, LeadAll, DecodeOne;
      assert c == [ESC] && rest[0] == f[1];
      LoneEsc();
      BracketComesFirst(chunks[1..]);
    } else {
      NoCutPastOne(|c|, chunks[1..]);
      assert false;
    }
  }

  /** Framed input is one key in every chunking that does not cut right after the ESC, and in no
      chunking that does. */
  lemma FramedInputExactly(f: seq<Byte>, key: Key, chunks: seq<seq<Byte>>)
    requires IsFrame(f, key) && Concat(chunks) == f
    ensures NoCutAtOne(0, chunks) ==> Feed(FRESH, chunks) == Pushed(FRESH, [key])
    ensures Feed(FRESH, chunks).keys == [key] ==> NoCutAtOne(0, chunks)
  {
    if NoCutAtOne(0, chunks) {
      assert f[..0] == [] && f[0..] == f;
      FedPart(f, key, 0, chunks);
    } else {
      CutAfterEsc(f, key, chunks);
    }
  }

  // ----- Bracketed paste

  ghost predicate Occurs(haystack: seq<Byte>, needle: seq<Byte>, i: nat) {
    i + |needle| <= |haystack| && haystack[i..i + |needle|] == needle
  }

  lemma SliceShift(h: seq<Byte>, a: nat, b: nat)
    requires a <= b < |h|
    ensures h[1..][a..b] == h[a + 1..b + 1]
  {
  }

  lemma {:induction false} FindMeans(haystack: seq<Byte>, needle: seq<Byte>)
    ensures match FindSubsequence(haystack, needle)
            case Some(i) => Occurs(haystack, needle, i) && forall j: nat | j < i :: !Occurs(haystack, needle, j)
            case None => forall j: nat :: !Occurs(haystack, needle, j)
  {
    assert StartsWith(haystack, needle) <==> Occurs(haystack, needle, 0);
    if !StartsWith(haystack, needle) && haystack != [] {
      FindMeans(haystack[1..], needle);
      forall j: nat | j >= 1
        ensures Occurs(haystack, needle, j) <==> Occurs(haystack[1..], needle, j - 1)
      {
        if j + |needle| <= |haystack| {
          SliceShift(haystack, j - 1, j - 1 + |needle|);
        }
      }
      assert forall j: nat | j >= 1 && Occurs(haystack, needle, j) :: Occurs(haystack[1..], needle, j - 1);
    }
  }

  lemma FindIs(haystack: seq<Byte>, needle: seq<Byte>, i: nat)
    requires Occurs(haystack, needle, i) && forall j: nat | j < i :: !Occurs(haystack, needle, j)
    ensures FindSubsequence(haystack, needle) == Some(i)
  {
    FindMeans(haystack, needle);
  }

  function PasteFrame(payload: seq<Byte>): seq<Byte> { PASTE_START + payload + PASTE_END }

  ghost predicate HoldsNoMarker(payload: seq<Byte>) {
    forall i: nat :: !Occurs(payload, PASTE_END, i)
  }

  /** The end marker does not overlap itself: only its first byte is ESC. So, before its own place,
      it does not occur in a payload and marker that are followed by anything or cut anywhere. */
  lemma MarkerNotBefore(payload: seq<Byte>, h: seq<Byte>, j: nat)
    requires HoldsNoMarker(payload) && j < |payload|
    requires h <= payload + PASTE_END || payload + PASTE_END <= h
    ensures !Occurs(h, PASTE_END, j)
  {
    var whole := payload + PASTE_END;
    if j + 6 <= |h| {
      assert forall i | j <= i < j + 6 && i < |whole| :: h[i] == whole[i];
      if j + 6 <= |payload| {
        assert h[j..j + 6] == payload[j..j + 6];
        assert !Occurs(payload, PASTE_END, j);
      } else {
        var t := |payload| - j;
        assert h[j..j + 6][t] == h[|payload|] == ESC;
        assert PASTE_END[t] != ESC;
      }
    }
  }

  lemma MarkerFound(payload: seq<Byte>, rest: seq<Byte>)
    requires HoldsNoMarker(payload)
    ensures FindSubsequence(payload + PASTE_END + rest, PASTE_END) == Some(|payload|)
  {
    var h := payload + PASTE_END + rest;
    assert h[|payload|..|payload| + 6] == PASTE_END;
    forall j: nat | j < |payload|
      ensures !Occurs(h, PASTE_END, j)
    {
      MarkerNotBefore(payload, h, j);
    }
    FindIs(h, PASTE_END, |payload|);
  }

  lemma MarkerMissing(payload: seq<Byte>, m: nat)
    requires HoldsNoMarker(payload) && m < |payload| + 6
    ensures FindSubsequence((payload + PASTE_END)[..m], PASTE_END) == None
  {
    var h := (payload + PASTE_END)[..m];
    FindMeans(h, PASTE_END);
    if FindSubsequence(h, PASTE_END).Some? {
      var j := FindSubsequence(h, PASTE_END).value;
      MarkerNotBefore(payload, h, j);
      assert false;
    }
  }

  /** What `ESC [` and a byte that is no letter of a three-byte key lead to. */
  lemma CsiBranch(bs: seq<Byte>)
    requires |bs| >= 3 && bs[0] == ESC && bs[1] == BRACKET && !IsAlphabetic(bs[2])
    ensures DecodeOne(bs) == DecodeCsi(bs)
  {
  }

  lemma EscBracketWaits(bs: seq<Byte>)
    requires |bs| == 2 && bs[0] == ESC && bs[1] == BRACKET
    ensures DecodeOne(bs) == More
  {
  }

  lemma PasteStartCut(bs: seq<Byte>)
    requires bs <= PASTE_START && 3 <= |bs| < 6
    ensures DecodeCsi(bs) == More
  {
    assert !StartsWith(bs, MOUSE_START) by { assert bs[2] == 0x32; }
    assert bs[0] == ESC && bs[1] == BRACKET;
    assert forall i | 0 <= i < |bs| :: bs[i] == PASTE_START[i];
    NoKeyEnd(bs);
  }

  lemma {:induction false} NoKeyEnd(bs: seq<Byte>)
    requires forall i | 0 <= i < |bs| :: !EndsKey(bs[i])
    ensures PositionOfEnd(bs) == None
  {
    if bs != [] {
      NoKeyEnd(bs[1..]);
    }
  }

  lemma PasteBranch(bs: seq<Byte>)
    requires PASTE_START <= bs
    ensures DecodeCsi(bs) == match FindSubsequence(bs[6..], PASTE_END)
                             case None => More
                             case Some(end) => Token(end + 12, Paste(Lossy(bs[6..6 + end])))
  {
    assert bs[..6] == PASTE_START;
  }

  /** A bracketed paste whose payload lacks the end marker is framed input, and decodes to its text
      whatever follows. */
  lemma PasteIsFramed(payload: seq<Byte>, rest: seq<Byte>)
    requires HoldsNoMarker(payload)
    ensures DecodeOne(PasteFrame(payload) + rest) == Token(|PasteFrame(payload)|, Paste(Lossy(payload)))
    ensures IsFrame(PasteFrame(payload), Paste(Lossy(payload)))
  {
    PasteDecodes(payload, rest);
    PasteDecodes(payload, []);
    var f := PasteFrame(payload);
    assert f + [] == f;
    forall n | 2 <= n < |f|
      ensures DecodeOne(f[..n]) == More
    {
      PasteWaits(payload, n);
    }
  }

  lemma PasteDecodes(payload: seq<Byte>, rest: seq<Byte>)
    requires HoldsNoMarker(payload)
    ensures DecodeOne(PasteFrame(payload) + rest) == Token(|PasteFrame(payload)|, Paste(Lossy(payload)))
  {
    hide DecodeOne, DecodeCsi, FindSubsequence, Lossy, HoldsNoMarker;
    var all := PasteFrame(payload) + rest;
    assert all[6..] == payload + PASTE_END + rest && all[6..6 + |payload|] == payload;
    assert all[2] == 0x32 && PASTE_START <= all;
    CsiBranch(all);
    PasteBranch(all);
    MarkerFound(payload, rest);
  }

  lemma PasteWaits(payload: seq<Byte>, n: nat)
    requires HoldsNoMarker(payload) && 2 <= n < |PasteFrame(payload)|
    ensures DecodeOne(PasteFrame(payload)[..n]) == More
  {
    hide DecodeOne, DecodeCsi, FindSubsequence, Lossy, HoldsNoMarker;
    var cut := PasteFrame(payload)[..n];
    if n == 2 {
      EscBracketWaits(cut);
    } else {
      assert cut[2] == 0x32;
      CsiBranch(cut);
      if n < 6 {
        PasteStartCut(cut);
      } else {
        assert cut[6..] == (payload + PASTE_END)[..n - 6];
        PasteBranch(cut);
        MarkerMissing(payload, n - 6);
      }
    }
  }

  // ----- SGR mouse reports

  function MouseFrame(body: seq<Byte>, final: Byte): seq<Byte> { MOUSE_START + body + [final] }

  ghost predicate HoldsNoMouseEnd(body: seq<Byte>) {
    forall i | 0 <= i < |body| :: !EndsMouse(body[i])
  }

  lemma {:induction false} MouseEndIs(bs: seq<Byte>, k: nat)
    requires k < |bs| && EndsMouse(bs[k]) && forall i | 0 <= i < k :: !EndsMouse(bs[i])
    ensures PositionOfMouseEnd(bs) == Some(k)
  {
    if k > 0 {
      MouseEndIs(bs[1..], k - 1);
    }
  }

  lemma {:induction false} MouseEndMissing(bs: seq<Byte>)
    requires HoldsNoMouseEnd(bs)
    ensures PositionOfMouseEnd(bs) == None
  {
    if bs != [] {
      assert forall i | 0 <= i < |bs[1..]| :: bs[1..][i] == bs[i + 1];
      MouseEndMissing(bs[1..]);
    }
  }

  lemma MouseBranch(bs: seq<Byte>)
    requires MOUSE_START <= bs
    ensures DecodeOne(bs) == DecodeSgrMouse(bs)
  {
    assert bs[..3] == MOUSE_START && bs[2] == 0x3C;
    CsiBranch(bs);
  }

  /** The key a complete report stands for: its event, or Esc when it is malformed. */
  function MouseKey(body: seq<Byte>, final: Byte): Key {
    match MouseOf(body, final == 0x4D) case Some(event) => Mouse(event) case None => Esc
  }

  lemma MouseDecodes(body: seq<Byte>, final: Byte, rest: seq<Byte>)
    requires EndsMouse(final) && HoldsNoMouseEnd(body)
    ensures DecodeOne(MouseFrame(body, final) + rest) == Token(|MouseFrame(body, final)|, MouseKey(body, final))
  {
    hide DecodeOne, MouseOf;
    var all := MouseFrame(body, final) + rest;
    var k := 3 + |body|;
    assert all[k] == final && all[3..k] == body;
    forall i | 0 <= i < k
      ensures !EndsMouse(all[i])
    {
      if i >= 3 {
        assert all[i] == body[i - 3];
      }
    }
    MouseEndIs(all, k);
    MouseBranch(all);
  }

  lemma MouseWaits(body: seq<Byte>, final: Byte, n: nat)
    requires HoldsNoMouseEnd(body) && 2 <= n < |MouseFrame(body, final)|
    ensures DecodeOne(MouseFrame(body, final)[..n]) == More
  {
    hide DecodeOne;
    var cut := MouseFrame(body, final)[..n];
    if n == 2 {
      EscBracketWaits(cut);
    } else {
      forall i | 0 <= i < n
        ensures !EndsMouse(cut[i])
      {
        if i >= 3 {
          assert cut[i] == body[i - 3];
        }
      }
      MouseEndMissing(cut);
      MouseBranch(cut);
    }
  }

  /** A mouse report, well-formed or not, is framed input, and decodes alike whatever follows. */
  lemma MouseIsFramed(body: seq<Byte>, final: Byte, rest: seq<Byte>)
    requires EndsMouse(final) && HoldsNoMouseEnd(body)
    ensures DecodeOne(MouseFrame(body, final) + rest) == Token(|MouseFrame(body, final)|, MouseKey(body, final))
    ensures IsFrame(MouseFrame(body, final), MouseKey(body, final))
  {
    hide DecodeOne, MouseOf;
    MouseDecodes(body, final, rest);
    MouseDecodes(body, final, []);
    var f := MouseFrame(body, final);
    assert f + [] == f;
    forall n | 2 <= n < |f|
      ensures DecodeOne(f[..n]) == More
    {
      MouseWaits(body, final, n);
    }
  }

  /** How a terminal numbers an event, and whether the report ends in `M`. */
  function MouseCode(kind: MouseEventKind, m: MouseModifiers): (Byte, bool) {
    var mods := (if m.shift then 4 else 0) + (if m.alt then 8 else 0) + (if m.control then 16 else 0);
    match kind
    case Down(b) => (ButtonNumber(b) + mods, true)
    case Up(b) => (ButtonNumber(b) + mods, false)
    case Drag(b) => (32 + ButtonNumber(b) + mods, true)
    case Moved => (35 + mods, true)
    case ScrollUp => (64 + mods, true)
    case ScrollDown => (65 + mods, true)
    case ScrollLeft => (66 + mods, true)
    case ScrollRight => (67 + mods, true)
  }

  function ButtonNumber(b: MouseButton): (n: nat)
    ensures n < 3
  {
    match b case LeftButton => 0 case MiddleButton => 1 case RightButton => 2
  }

  function Bit(b: bool): (n: nat)
    ensures n < 2
  {
    if b then 1 else 0
  }

  lemma Bits(button: nat, shift: nat, alt: nat, control: nat, drag: nat, wheel: nat)
    requires button < 4 && shift < 2 && alt < 2 && control < 2 && drag < 2 && wheel < 2
    ensures var cb := button + 4 * shift + 8 * alt + 16 * control + 32 * drag + 64 * wheel;
            && cb % 4 == button && cb / 4 % 2 == shift && cb / 8 % 2 == alt
            && cb / 16 % 2 == control && cb / 32 % 2 == drag && cb / 64 == wheel
  {
    var c5 := drag + 2 * wheel;
    var c4 := control + 2 * c5;
    var c3 := alt + 2 * c4;
    var c2 := shift + 2 * c3;
    var cb := button + 4 * c2;
    assert cb / 4 == c2 && cb / 8 == c3 && cb / 16 == c4 && cb / 32 == c5;
  }

  lemma ModifiedCode(button: nat, drag: nat, wheel: nat, m: MouseModifiers, pressed: bool)
    requires button < 4 && drag < 2 && wheel < 2
    ensures var cb := button + 32 * drag + 64 * wheel
                      + (if m.shift then 4 else 0) + (if m.alt then 8 else 0) + (if m.control then 16 else 0);
            && cb < 256
            && DecodeMouseCb(cb, pressed) == Named(MouseKind(button + 4 * wheel, drag == 1, pressed), m)
  {
    hide MouseKind;
    Bits(button, Bit(m.shift), Bit(m.alt), Bit(m.control), drag, wheel);
  }

  /** Every kind of event with every set of modifiers can be reported. */
  lemma MouseCodeDecodes(kind: MouseEventKind, m: MouseModifiers)
    ensures var code := MouseCode(kind, m); DecodeMouseCb(code.0, code.1) == Some((kind, m))
  {
    hide DecodeMouseCb;
    match kind {
      case Down(b) => ModifiedCode(ButtonNumber(b), 0, 0, m, !kind.Up?);
      case Up(b) => ModifiedCode(ButtonNumber(b), 0, 0, m, !kind.Up?);
      case Drag(b) => ModifiedCode(ButtonNumber(b), 1, 0, m, !kind.Up?);
      case Moved => ModifiedCode(3, 1, 0, m, !kind.Up?);
      case ScrollUp => ModifiedCode(0, 0, 1, m, !kind.Up?);
      case ScrollDown => ModifiedCode(1, 0, 1, m, !kind.Up?);
      case ScrollLeft => ModifiedCode(2, 0, 1, m, !kind.Up?);
      case ScrollRight => ModifiedCode(3, 0, 1, m, !kind.Up?);
    }
  }

  /** Every code, also those no terminal sends: bits 0 and 1 number the button or the wheel's direction, bit
      6 means the wheel, bit 5 motion; there is no event for bit 7, nor for motion of the third and fourth
      direction. */
  lemma MouseCodeMeans(cb: Byte, pressed: bool)
    ensures var low, moving, wheel := cb % 4, cb / 32 % 2 == 1, cb / 64;
            var code := DecodeMouseCb(cb, pressed);
            && (code.None? <==> wheel >= 2 || (wheel == 1 && moving && low >= 2))
            && (code.Some? ==>
                  && code.value.1 == Modifiers(cb / 4 % 2 == 1, cb / 8 % 2 == 1, cb / 16 % 2 == 1)
                  && code.value.0
                     == if wheel == 1 then if moving then Moved else [ScrollUp, ScrollDown, ScrollLeft, ScrollRight][low]
                        else if low == 3 then if moving then Moved else Up(LeftButton)
                        else
                          var button := [LeftButton, MiddleButton, RightButton][low];
                          if moving then Drag(button) else if pressed then Down(button) else Up(button))
  {
    var low, wheel := cb % 4, cb / 64;
    assert low < 4 && wheel < 4;
    assert wheel * 4 + low == cb % 4 + cb / 64 * 4;
  }

  /** A report is an event exactly if its body is three numbers in range and the first names one; the
      columns and rows of a report count from one. */
  lemma MouseBodyExactly(body: seq<Byte>, pressed: bool, e: MouseEvent)
    ensures MouseOf(body, pressed) == Some(e)
            <==> exists cb: Byte, column: nat, row: nat ::
                   && Valid(body) && |Split(body)| == 3
                   && Decimal.ParseUnsigned(Split(body)[0], 0xFF) == Some(cb)
                   && Decimal.ParseUnsigned(Split(body)[1], 0xFFFF) == Some(column)
                   && Decimal.ParseUnsigned(Split(body)[2], 0xFFFF) == Some(row)
                   && DecodeMouseCb(cb, pressed) == Some((e.kind, e.modifiers))
                   && e.column == (if column == 0 then 0 else column - 1)
                   && e.row == (if row == 0 then 0 else row - 1)
  {
    hide DecodeMouseCb, Decimal.ParseUnsigned, Valid, Split;
  }

  /** The body of a terminal's report for an event. */
  function MouseBody(e: MouseEvent): seq<Byte> {
    Join([Decimal.Digits(MouseCode(e.kind, e.modifiers).0), Decimal.Digits(e.column + 1), Decimal.Digits(e.row + 1)])
  }

  function MouseReport(e: MouseEvent): seq<Byte> {
    MouseFrame(MouseBody(e), if MouseCode(e.kind, e.modifiers).1 then 0x4D else 0x6D)
  }

  lemma NoMouseEndJoined(x: seq<Byte>, y: seq<Byte>)
    requires HoldsNoMouseEnd(x) && HoldsNoMouseEnd(y)
    ensures HoldsNoMouseEnd(x + [SEMICOLON] + y)
  {
  }

  lemma DigitsHoldNoMouseEnd(n: nat)
    ensures HoldsNoMouseEnd(Decimal.Digits(n))
  {
    assert Decimal.AllDigits(Decimal.Digits(n));
  }

  lemma JoinThree(a: seq<Byte>, b: seq<Byte>, c: seq<Byte>)
    ensures Join([a, b, c]) == a + [SEMICOLON] + (b + [SEMICOLON] + c)
  {
    assert [a, b, c][1..] == [b, c] && [b, c][1..] == [c];
    assert Join([c]) == c && Join([b, c]) == b + [SEMICOLON] + c;
  }

  lemma DigitsHoldNoSemicolon(n: nat)
    ensures SEMICOLON !in Decimal.Digits(n)
  {
  }

  lemma NumbersJoined(a: nat, b: nat, c: nat)
    ensures var body := Join([Decimal.Digits(a), Decimal.Digits(b), Decimal.Digits(c)]);
            && Valid(body) && HoldsNoMouseEnd(body)
            && Split(body) == [Decimal.Digits(a), Decimal.Digits(b), Decimal.Digits(c)]
  {
    hide Valid, Split, Join, HoldsNoMouseEnd, Decimal.Digits;
    var da, db, dc := Decimal.Digits(a), Decimal.Digits(b), Decimal.Digits(c);
    var parts := [da, db, dc];
    DigitsAreValid(da);
    DigitsAreValid(db);
    DigitsAreValid(dc);
    DigitsHoldNoSemicolon(a);
    DigitsHoldNoSemicolon(b);
    DigitsHoldNoSemicolon(c);
    SplitJoin(parts);
    JoinIsValid(parts);
    JoinThree(da, db, dc);
    DigitsHoldNoMouseEnd(a);
    DigitsHoldNoMouseEnd(b);
    DigitsHoldNoMouseEnd(c);
    NoMouseEndJoined(db, dc);
    NoMouseEndJoined(da, db + [SEMICOLON] + dc);
  }

  lemma MouseBodyParses(e: MouseEvent)
    requires e.column < 0xFFFF && e.row < 0xFFFF
    ensures HoldsNoMouseEnd(MouseBody(e)) && MouseOf(MouseBody(e), MouseCode(e.kind, e.modifiers).1) == Some(e)
  {
    hide DecodeMouseCb, MouseCode, Join, Split, HoldsNoMouseEnd, Valid, Decimal.Digits, Decimal.ParseUnsigned;
    var code := MouseCode(e.kind, e.modifiers).0;
    NumbersJoined(code, e.column + 1, e.row + 1);
    Decimal.ParseDigits(code, 0xFF);
    Decimal.ParseDigits(e.column + 1, 0xFFFF);
    Decimal.ParseDigits(e.row + 1, 0xFFFF);
    MouseCodeDecodes(e.kind, e.modifiers);
  }

  /** Reporting then decoding gives the event back. */
  lemma MouseReportRoundTrip(e: MouseEvent, rest: seq<Byte>)
    requires e.column < 0xFFFF && e.row < 0xFFFF
    ensures DecodeOne(MouseReport(e) + rest) == Token(|MouseReport(e)|, Mouse(e))
    ensures IsFrame(MouseReport(e), Mouse(e))
  {
    hide DecodeOne, MouseOf, MouseCode, IsFrame, Join, MouseFrame, HoldsNoMouseEnd;
    MouseBodyParses(e);
    MouseIsFramed(MouseBody(e), if MouseCode(e.kind, e.modifiers).1 then 0x4D else 0x6D, rest);
  }

  // ----- Input that is never decoded

  ghost predicate NeverDecodes(p: seq<Byte>) {
    p != [] && forall q :: DecodeOne(p + q) == More
  }

  /** Bytes that complete every sequence but `ESC ~`: a letter that ends a key and a mouse report, and
      the end of a paste. */
  const UNBLOCK: seq<Byte> := [0x4D] + PASTE_END

  lemma {:induction false} FindsSome(a: seq<Byte>, needle: seq<Byte>)
    ensures FindSubsequence(a + needle, needle).Some?
  {
    if a == [] {
      assert a + needle == needle;
    } else if !StartsWith(a + needle, needle) {
      assert (a + needle)[1..] == a[1..] + needle;
      FindsSome(a[1..], needle);
    }
  }

  lemma {:induction false} EndIsSomewhere(bs: seq<Byte>, k: nat)
    requires k < |bs| && EndsKey(bs[k])
    ensures PositionOfEnd(bs).Some? && EndsKey(bs[PositionOfEnd(bs).value])
  {
    if k > 0 && !EndsKey(bs[0]) {
      EndIsSomewhere(bs[1..], k - 1);
    }
  }

  lemma {:induction false} MouseEndIsSomewhere(bs: seq<Byte>, k: nat)
    requires k < |bs| && EndsMouse(bs[k])
    ensures PositionOfMouseEnd(bs).Some?
  {
    if k > 0 && !EndsMouse(bs[0]) {
      MouseEndIsSomewhere(bs[1..], k - 1);
    }
  }

  lemma CsiUnblocked(p: seq<Byte>)
    requires |p| >= 2 && p[0] == ESC && !EndsKey(p[1])
    ensures DecodeCsi(p + UNBLOCK).Token?
  {
    var bs := p + UNBLOCK;
    assert bs[|p|] == 0x4D && bs[1] == p[1];
    if StartsWith(bs, PASTE_START) {
      assert bs[..6] == PASTE_START;
      assert |p| >= 6;
      assert bs[6..] == (p[6..] + [0x4D]) + PASTE_END;
      FindsSome(p[6..] + [0x4D], PASTE_END);
    } else if StartsWith(bs, MOUSE_START) {
      MouseEndIsSomewhere(bs, |p|);
    } else {
      EndIsSomewhere(bs, |p|);
    }
  }

  lemma EscapeUnblocked(p: seq<Byte>)
    requires p != [] && p[0] == ESC && !(|p| >= 2 && p[1] == 0x7E)
    ensures exists q :: DecodeOne(p + q).Token?
  {
    if |p| == 1 {
      assert p + [] == [ESC] && DecodeOne(p + []).Token?;
    } else {
      var bs := p + UNBLOCK;
      assert bs[0] == ESC && bs[1] == p[1];
      if !EndsKey(p[1]) {
        CsiUnblocked(p);
      }
      hide DecodeCsi, ArrowKey;
      assert DecodeEscape(bs).Token?;
      assert DecodeOne(p + UNBLOCK).Token?;
    }
  }

  lemma TildeBlocks(p: seq<Byte>, q: seq<Byte>)
    requires |p| >= 2 && p[0] == ESC && p[1] == 0x7E
    ensures DecodeOne(p + q) == More
  {
    var bs := p + q;
    assert bs[0] == ESC && bs[1] == 0x7E && EndsKey(bs[1]) && !EndsKey(bs[0]);
    assert PositionOfEnd(bs) == Some(1) by {
      assert PositionOfEnd(bs[1..]) == Some(0);
    }
  }

  lemma WideNeverDecodesExactly(p: seq<Byte>)
    requires p != [] && p[0] >= 0x80
    ensures NeverDecodes(p) <==> !IsCompletable(p)
  {
    hide DecodeOne;
    CompletableExactly(p);
    forall q: seq<Byte>
      ensures DecodeOne(p + q) == More <==> !Valid(p + q)
    {
      WideFront(p + q);
    }
  }

  /** The decoder is blocked for good exactly by ESC and a tilde at the front, and by bytes that begin with
      one beyond ASCII and are no UTF-8 text, not even one whose last character is cut. */
  lemma NeverDecodesExactly(p: seq<Byte>)
    ensures NeverDecodes(p)
            <==> (|p| >= 2 && p[0] == ESC && p[1] == 0x7E)
                 || (p != [] && p[0] >= 0x80 && !IsCompletable(p))
  {
    if p == [] {
    } else if p[0] >= 0x80 {
      WideNeverDecodesExactly(p);
    } else if p[0] == ESC {
      if |p| >= 2 && p[1] == 0x7E {
        forall q: seq<Byte>
          ensures DecodeOne(p + q) == More
        {
          TildeBlocks(p, q);
        }
      } else {
        EscapeUnblocked(p);
      }
    } else {
      assert p + [] == p && DecodeOne(p + []).Token?;
    }
  }

  /** For example a byte that begins no UTF-8 character, even behind complete ones, and ESC before a
      tilde. */
  lemma StuckInputs(c: Scalar, b: Byte)
    requires 0x80 <= b < 0xC2 || 0xF5 <= b
    ensures NeverDecodes([b]) && NeverDecodes([ESC, 0x7E])
    ensures c >= 0x80 ==> NeverDecodes(EncodeScalar(c) + [b])
  {
    NeverDecodesExactly([b]);
    NeverDecodesExactly([ESC, 0x7E]);
    NeverDecodesExactly(EncodeScalar(c) + [b]);
    FrontOfEncoded(c, [b]);
    assert (EncodeScalar(c) + [b])[Width(c)..] == [b];
    assert c >= 0x80 ==> !IsPartial(EncodeScalar(c) + [b]) by {
      WholeIsNotPartial(EncodeScalar(c) + [b]);
    }
  }

  lemma WholeIsNotPartial(bs: seq<Byte>)
    requires bs != [] && FrontOf(bs).Good?
    ensures !IsPartial(bs)
  {
  }

  /** Then no input produces a key any more, and all of it piles up. */
  lemma {:induction false} StuckStaysStuck(s: State, chunks: seq<seq<Byte>>)
    requires NeverDecodes(s.pending)
    ensures Feed(s, chunks) == Pushed(State(s.pending + Concat(chunks), s.leader), [])
    decreases chunks
  {
    hide DecodeOne;
    if chunks == [] {
      assert s.pending + [] == s.pending;
    } else {
      var p := s.pending + chunks[0];
      forall q
        ensures DecodeOne(p + q) == More
      {
        assert p + q == s.pending + (chunks[0] + q);
      }
      assert p + [] == p;
      DrainWaits(p, s.leader);
      StuckStaysStuck(State(p, s.leader), chunks[1..]);
      ConcatAssociates(s.pending, chunks[0], Concat(chunks[1..]));
    }
  }
}
