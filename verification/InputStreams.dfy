/**
 Whole streams of input for the decoder of src/app/input.rs: characters, bracketed pastes and SGR mouse
 reports in any order, in any chunks.
 */
module InputStreams {
  import opened Utf8
  import opened Fields
  import opened Input

  // ----- Streams of characters, pastes and mouse reports

  /** What a client sends: a plain character, or input in a frame that ends in ASCII and decodes alike
      whatever follows. */
  datatype Item = Plain(c: Scalar) | Framed(f: seq<Byte>, key: Key)

  function ItemBytes(item: Item): seq<Byte> {
    match item case Plain(c) => EncodeScalar(c) case Framed(f, key) => f
  }

  function ItemKey(item: Item): Key {
    match item case Plain(c) => Char(c) case Framed(f, key) => key
  }

  ghost predicate IsItem(item: Item) {
    match item
    case Plain(c) => IsPlain(c)
    case Framed(f, key) =>
      IsFrame(f, key) && f[|f| - 1] < 0x80 && forall rest :: DecodeOne(f + rest) == Token(|f|, key)
  }

  ghost predicate AllItems(items: seq<Item>) { forall i | 0 <= i < |items| :: IsItem(items[i]) }

  function StreamOf(items: seq<Item>): seq<Byte> {
    if items == [] then [] else ItemBytes(items[0]) + StreamOf(items[1..])
  }

  function ItemKeys(items: seq<Item>): seq<Key> {
    if items == [] then [] else [ItemKey(items[0])] + ItemKeys(items[1..])
  }

  lemma PasteIsItem(payload: seq<Byte>)
    requires HoldsNoMarker(payload)
    ensures IsItem(Framed(PasteFrame(payload), Paste(Lossy(payload))))
  {
    hide DecodeOne, Lossy, HoldsNoMarker;
    var f := PasteFrame(payload);
    assert f[|f| - 1] == 0x7E;
    forall rest
      ensures DecodeOne(f + rest) == Token(|f|, Paste(Lossy(payload)))
    {
      PasteIsFramed(payload, rest);
    }
    PasteIsFramed(payload, []);
  }

  lemma PasteIsText(payload: seq<Byte>)
    ensures Valid(PasteFrame(payload)) <==> Valid(payload)
  {
    hide Valid;
    AsciiIsValid(PASTE_START);
    AsciiIsValid(PASTE_END);
    BetweenAscii(PASTE_START, payload, PASTE_END);
  }

  lemma MouseIsItem(body: seq<Byte>, final: Byte)
    requires EndsMouse(final) && HoldsNoMouseEnd(body)
    ensures IsItem(Framed(MouseFrame(body, final), MouseKey(body, final)))
  {
    hide DecodeOne, MouseKey, HoldsNoMouseEnd;
    var f := MouseFrame(body, final);
    forall rest
      ensures DecodeOne(f + rest) == Token(|f|, MouseKey(body, final))
    {
      MouseIsFramed(body, final, rest);
    }
    MouseIsFramed(body, final, []);
  }

  lemma MouseIsText(body: seq<Byte>, final: Byte)
    requires EndsMouse(final)
    ensures Valid(MouseFrame(body, final)) <==> Valid(body)
  {
    hide Valid;
    AsciiIsValid(MOUSE_START);
    AsciiIsValid([final]);
    BetweenAscii(MOUSE_START, body, [final]);
  }

  lemma {:induction false} AsciiIsValid(bs: seq<Byte>)
    requires forall i | 0 <= i < |bs| :: bs[i] < 0x80
    ensures Valid(bs)
  {
    if bs != [] {
      AsciiIsValid(bs[1..]);
    }
  }

  lemma BetweenAscii(a: seq<Byte>, m: seq<Byte>, b: seq<Byte>)
    requires a != [] && a[|a| - 1] < 0x80 && b != [] && b[0] < 0x80 && Valid(a) && Valid(b)
    ensures Valid(a + m + b) <==> Valid(m)
  {
    hide Valid;
    AsciiAtEnd(a, m + b);
    assert a + m + b == a + (m + b);
    AsciiSeparates(m, b[0], b[1..]);
    AsciiSeparates([], b[0], b[1..]);
    assert [] + [b[0]] + b[1..] == b && m + [b[0]] + b[1..] == m + b;
  }

  /** Text that ends in ASCII is well-formed or not whatever follows. */
  lemma AsciiAtEnd(a: seq<Byte>, b: seq<Byte>)
    requires a != [] && a[|a| - 1] < 0x80
    ensures Valid(a + b) <==> Valid(a) && Valid(b)
  {
    hide Valid;
    var front, last := a[..|a| - 1], a[|a| - 1];
    AsciiSeparates(front, last, b);
    AsciiSeparates(front, last, []);
    assert front + [last] + b == a + b && front + [last] + [] == a;
    AsciiIsValid([]);
  }

  ghost predicate FramesAreText(items: seq<Item>) {
    forall i | 0 <= i < |items| && items[i].Framed? :: Valid(items[i].f)
  }

  lemma FramesOfCons(items: seq<Item>)
    requires items != []
    ensures FramesAreText(items) <==> (items[0].Framed? ==> Valid(items[0].f)) && FramesAreText(items[1..])
  {
    hide Valid;
    assert forall i | 1 <= i < |items| :: items[i] == items[1..][i - 1];
  }

  /** A stream is UTF-8 text exactly when all its frames are. */
  lemma {:induction false} StreamIsText(items: seq<Item>, q: seq<Byte>)
    requires AllItems(items)
    ensures Valid(StreamOf(items) + q) <==> FramesAreText(items) && Valid(q)
  {
    hide Valid, FrontOf, EncodeScalar, IsFrame, DecodeOne, FramesAreText;
    if items == [] {
      assert StreamOf(items) + q == q;
      NoFrames();
    } else {
      FramesOfCons(items);
      StreamIsText(items[1..], q);
      var rest := StreamOf(items[1..]) + q;
      assert StreamOf(items) + q == ItemBytes(items[0]) + rest;
      assert IsItem(items[0]);
      match items[0]
      case Plain(c) => CharacterInFront(c, rest);
      case Framed(f, key) => FrameInFrontOfText(items[0], rest);
    }
  }

  lemma NoFrames()
    ensures FramesAreText([])
  {
  }

  lemma CharacterInFront(c: Scalar, rest: seq<Byte>)
    ensures Valid(EncodeScalar(c) + rest) <==> Valid(rest)
  {
    hide FrontOf, EncodeScalar;
    FrontOfEncoded(c, rest);
    assert (EncodeScalar(c) + rest)[Width(c)..] == rest;
  }

  lemma FrameInFrontOfText(item: Item, rest: seq<Byte>)
    requires item.Framed? && IsItem(item)
    ensures Valid(item.f + rest) <==> Valid(item.f) && Valid(rest)
  {
    hide Valid, DecodeOne;
    AsciiAtEnd(item.f, rest);
  }

  predicate IsWide(item: Item) { item.Plain? && item.c >= 0x80 }

  /** Behind a character beyond ASCII every frame is UTF-8 text: the decoder takes such a character only
      from pending bytes that are well-formed altogether. */
  ghost predicate Fits(items: seq<Item>) {
    items == [] || ((IsWide(items[0]) ==> FramesAreText(items[1..])) && Fits(items[1..]))
  }

  /** With `r` bytes to come, the stream is cut right behind the ESC of a frame. */
  predicate BehindEsc(items: seq<Item>, r: nat) {
    items != [] && ((items[0].Framed? && r + 1 == |StreamOf(items)|) || BehindEsc(items[1..], r))
  }

  /** No chunk ends right behind the ESC of a frame. */
  predicate NoCutBehindEsc(items: seq<Item>, chunks: seq<seq<Byte>>)
    decreases chunks
  {
    chunks == [] || (!BehindEsc(items, |Concat(chunks[1..])|) && NoCutBehindEsc(items, chunks[1..]))
  }

  lemma ItemFacts(item: Item)
    requires IsItem(item)
    ensures |ItemBytes(item)| >= 1 && (item.Framed? ==> |item.f| >= 3 && item.f[0] == ESC)
    ensures ApplyLeader(false, ItemKey(item)) == Led(false, [ItemKey(item)])
  {
  }

  lemma WideInFront(p: seq<Byte>, q: seq<Byte>, c: Scalar, rest: seq<Byte>)
    requires c >= 0x80 && p != [] && p + q == EncodeScalar(c) + rest
    ensures DecodeOne(p) == if Valid(p) then Token(Width(c), Char(c)) else More
  {
    hide FrontOf, EncodeScalar, DecodeOne;
    FrontOfEncoded(c, rest);
    assert (p + q)[0] == p[0];
    LeadIsWide(c, rest);
    WideFront(p);
    if Valid(p) {
      FrontIsStable(p, q);
    }
  }

  lemma LeadIsWide(c: Scalar, rest: seq<Byte>)
    requires c >= 0x80
    ensures (EncodeScalar(c) + rest)[0] >= 0x80
  {
  }

  lemma FrameInPart(p: seq<Byte>, q: seq<Byte>, item: Item, rest: seq<Byte>)
    requires item.Framed? && IsItem(item) && p != [] && p + q == item.f + rest
    ensures |p| >= |item.f| ==> DecodeOne(p) == Token(|item.f|, item.key)
    ensures 2 <= |p| < |item.f| ==> DecodeOne(p) == More
    ensures |p| == 1 ==> p == [ESC]
  {
    hide DecodeOne;
    var f := item.f;
    if |p| >= |f| {
      assert p == f + p[|f|..] by {
        assert (p + q)[..|f|] == f && p[..|f|] == (p + q)[..|f|];
      }
    } else {
      assert p == f[..|p|] by {
        assert (p + q)[..|p|] == p && (f + rest)[..|p|] == f[..|p|];
      }
    }
  }

  /** At the front of a piece of a stream stands its first item, or part of it. */
  lemma FrontItem(p: seq<Byte>, q: seq<Byte>, items: seq<Item>)
    requires p != [] && p + q == StreamOf(items) && AllItems(items) && Fits(items) && !BehindEsc(items, |q|)
    ensures items != []
    ensures DecodeOne(p).Token? ==> DecodeOne(p) == Token(|ItemBytes(items[0])|, ItemKey(items[0]))
    ensures q == [] ==> DecodeOne(p).Token?
  {
    hide DecodeOne, Valid, EncodeScalar, IsItem, FramesAreText;
    var item, rest := items[0], StreamOf(items[1..]);
    assert IsItem(item) && AllItems(items[1..]);
    ItemFacts(item);
    if IsWide(item) {
      WideInFront(p, q, item.c, rest);
      if q == [] {
        assert p == StreamOf(items);
        FramesOfCons(items);
        StreamIsText(items, []);
        assert StreamOf(items) + [] == p;
        AsciiIsValid([]);
      }
    } else if item.Plain? {
      PlainInFront(p, q, item, rest);
    } else {
      FrameInPart(p, q, item, rest);
      assert |p| + |q| == |item.f| + |rest|;
    }
  }

  lemma PlainInFront(p: seq<Byte>, q: seq<Byte>, item: Item, rest: seq<Byte>)
    requires item.Plain? && item.c < 0x80 && IsItem(item) && p != [] && p + q == EncodeScalar(item.c) + rest
    ensures DecodeOne(p) == Token(|ItemBytes(item)|, ItemKey(item))
  {
    assert (p + q)[0] == p[0] && EncodeScalar(item.c) == [item.c];
    AsciiFront(p, item.c);
  }

  lemma ItemsCons(items: seq<Item>, k: nat)
    requires items != [] && k <= |items[1..]|
    ensures ItemKeys(items[..k + 1]) == [ItemKey(items[0])] + ItemKeys(items[1..][..k])
    ensures items[1..][k..] == items[k + 1..]
  {
    assert items[..k + 1][1..] == items[1..][..k] && items[..k + 1][0] == items[0];
  }

  lemma NoItemsYet(p: seq<Byte>, items: seq<Item>)
    ensures items[..0] == [] && items[0..] == items && ItemKeys(items[..0]) == []
  {
  }

  /** Draining a piece of a stream gives its whole items; with nothing missing, all of them. */
  lemma {:induction false} DrainItems(p: seq<Byte>, q: seq<Byte>, items: seq<Item>) returns (k: nat)
    requires p + q == StreamOf(items) && AllItems(items) && Fits(items) && !BehindEsc(items, |q|)
    ensures k <= |items| && LeadAll(false, Drain(p).frames) == Led(false, ItemKeys(items[..k]))
    ensures Drain(p).rest + q == StreamOf(items[k..])
    ensures q == [] ==> k == |items| && Drain(p).rest == []
    decreases |p|
  {
    hide DecodeOne, Drain, LeadAll, ApplyLeader, IsItem, FramesAreText, ItemBytes, ItemKeys;
    NoItemsYet(p, items);
    if p == [] {
      DrainNothing(false);
      k := 0;
      if items != [] && q == [] {
        assert IsItem(items[0]);
        ItemFacts(items[0]);
      }
    } else {
      FrontItem(p, q, items);
      match DecodeOne(p)
      case More =>
        DrainWaits(p, false);
        k := 0;
      case Token(used, key) =>
        assert IsItem(items[0]) && AllItems(items[1..]);
        ItemFacts(items[0]);
        TextRest(p, q, StreamOf(items), used);
        assert StreamOf(items)[used..] == StreamOf(items[1..]);
        var m := DrainItems(p[used..], q, items[1..]);
        k := m + 1;
        DrainStep(p, false, used, key);
        ItemsCons(items, m);
    }
  }

  lemma {:induction false} FitsLater(items: seq<Item>, k: nat)
    requires k <= |items| && Fits(items) && AllItems(items)
    ensures Fits(items[k..]) && AllItems(items[k..])
    decreases k
  {
    hide FramesAreText, IsItem;
    if k == 0 {
      assert items[0..] == items;
    } else {
      FitsLater(items[1..], k - 1);
      assert items[1..][k - 1..] == items[k..];
    }
  }

  /** Cuts inside later items are cuts behind the ESC of a frame or not, whatever came before. */
  lemma {:induction false} BehindEscLater(items: seq<Item>, k: nat, r: nat)
    requires k <= |items| && AllItems(items) && r <= |StreamOf(items[k..])|
    ensures BehindEsc(items, r) <==> BehindEsc(items[k..], r)
    decreases k
  {
    hide IsItem;
    if k == 0 {
      assert items[0..] == items;
    } else {
      assert IsItem(items[0]) && AllItems(items[1..]);
      ItemFacts(items[0]);
      assert items[1..][k - 1..] == items[k..];
      BehindEscLater(items[1..], k - 1, r);
      LaterIsShorter(items[1..], k - 1);
    }
  }

  lemma {:induction false} LaterIsShorter(items: seq<Item>, k: nat)
    requires k <= |items|
    ensures |StreamOf(items[k..])| <= |StreamOf(items)|
    decreases k
  {
    if k == 0 {
      assert items[0..] == items;
    } else {
      LaterIsShorter(items[1..], k - 1);
      assert items[1..][k - 1..] == items[k..];
    }
  }

  lemma {:induction false} NoCutLater(items: seq<Item>, k: nat, chunks: seq<seq<Byte>>)
    requires k <= |items| && AllItems(items) && |Concat(chunks)| <= |StreamOf(items[k..])|
    ensures NoCutBehindEsc(items, chunks) <==> NoCutBehindEsc(items[k..], chunks)
    decreases chunks
  {
    hide BehindEsc;
    if chunks != [] {
      BehindEscLater(items, k, |Concat(chunks[1..])|);
      NoCutLater(items, k, chunks[1..]);
    }
  }

  lemma {:induction false} ItemKeysConcat(a: seq<Item>, b: seq<Item>)
    ensures ItemKeys(a + b) == ItemKeys(a) + ItemKeys(b)
  {
    if a == [] {
      assert a + b == b;
    } else {
      assert (a + b)[1..] == a[1..] + b;
      ItemKeysConcat(a[1..], b);
    }
  }

  lemma PushedItems(s: State, chunk: seq<Byte>, q: seq<Byte>, items: seq<Item>) returns (k: nat)
    requires !s.leader && s.pending + chunk + q == StreamOf(items)
    requires AllItems(items) && Fits(items) && !BehindEsc(items, |q|)
    ensures k <= |items| && !PushOf(s, chunk).state.leader && PushOf(s, chunk).keys == ItemKeys(items[..k])
    ensures PushOf(s, chunk).state.pending + q == StreamOf(items[k..])
    ensures q == [] ==> k == |items| && PushOf(s, chunk).state.pending == []
  {
    hide AllItems, Fits, BehindEsc, Drain, LeadAll;
    k := DrainItems(s.pending + chunk, q, items);
  }

  lemma {:induction false} FeedItems(s: State, chunks: seq<seq<Byte>>, items: seq<Item>)
    requires !s.leader && AllItems(items) && Fits(items) && s.pending + Concat(chunks) == StreamOf(items)
    requires (s.pending != [] ==> chunks != []) && NoCutBehindEsc(items, chunks)
    ensures Feed(s, chunks) == Pushed(FRESH, ItemKeys(items))
    decreases chunks
  {
    hide AllItems, Fits, BehindEsc, PushOf, StreamOf, ItemKeys;
    if chunks == [] {
      assert s.pending + [] == [];
      EmptyStream(items);
    } else {
      var rest := Concat(chunks[1..]);
      ConcatAssociates(s.pending, chunks[0], rest);
      var k := PushedItems(s, chunks[0], rest, items);
      var first := PushOf(s, chunks[0]);
      if chunks[1..] == [] {
        assert rest == [] && items[..k] == items;
        assert ItemKeys(items) + [] == ItemKeys(items);
      } else {
        FitsLater(items, k);
        assert |rest| <= |first.state.pending + rest|;
        NoCutLater(items, k, chunks[1..]);
        FeedItems(first.state, chunks[1..], items[k..]);
        ItemKeysConcat(items[..k], items[k..]);
        assert items[..k] + items[k..] == items;
      }
    }
  }

  lemma EmptyStream(items: seq<Item>)
    requires StreamOf(items) == [] && AllItems(items)
    ensures items == [] && ItemKeys(items) == []
  {
    if items != [] {
      ItemFacts(items[0]);
    }
  }

  /** A piece that ends right behind the ESC of a frame gives the items before it, and then Esc. */
  lemma {:induction false} DrainAtEsc(p: seq<Byte>, q: seq<Byte>, items: seq<Item>) returns (j: nat)
    requires p + q == StreamOf(items) && AllItems(items) && Fits(items) && BehindEsc(items, |q|)
    ensures j < |items| && items[j].Framed?
    ensures LeadAll(false, Drain(p).frames) == Led(false, ItemKeys(items[..j]) + [Esc])
    decreases |items|
  {
    hide DecodeOne, Drain, LeadAll, ApplyLeader, IsItem, FramesAreText, ItemKeys, Valid, EncodeScalar;
    var item, rest := items[0], StreamOf(items[1..]);
    assert IsItem(item) && AllItems(items[1..]);
    ItemFacts(item);
    NoItemsYet(p, items);
    if item.Framed? && |q| + 1 == |StreamOf(items)| {
      FrameInPart(p, q, item, rest);
      LoneEsc();
      j := 0;
      assert [] + [Esc] == [Esc];
    } else {
      EscEndsPiece(p, q, items);
      var used := |ItemBytes(item)|;
      EscIsFarther(items[1..], |q|);
      assert |p| > used;
      ItemBeforeEsc(p, q, items);
      TextRest(p, q, StreamOf(items), used);
      assert StreamOf(items)[used..] == rest;
      DrainStep(p, false, used, ItemKey(item));
      var m := DrainAtEsc(p[used..], q, items[1..]);
      j := m + 1;
      ItemsCons(items, m);
      ConcatAssociates([ItemKey(item)], ItemKeys(items[1..][..m]), [Esc]);
    }
  }

  lemma {:induction false} EscIsFarther(items: seq<Item>, r: nat)
    requires AllItems(items) && BehindEsc(items, r)
    ensures r < |StreamOf(items)|
  {
    if !(items[0].Framed? && r + 1 == |StreamOf(items)|) {
      EscIsFarther(items[1..], r);
    }
  }

  lemma {:induction false} EscEndsPiece(p: seq<Byte>, q: seq<Byte>, items: seq<Item>)
    requires p + q == StreamOf(items) && AllItems(items) && BehindEsc(items, |q|)
    ensures p != [] && p[|p| - 1] == ESC
    decreases |items|
  {
    hide IsItem;
    assert IsItem(items[0]) && AllItems(items[1..]);
    ItemFacts(items[0]);
    if items[0].Framed? && |q| + 1 == |StreamOf(items)| {
      assert |p| == 1 && (p + q)[0] == p[0];
    } else {
      var used := |ItemBytes(items[0])|;
      EscIsFarther(items[1..], |q|);
      TextRest(p, q, StreamOf(items), used);
      assert StreamOf(items)[used..] == StreamOf(items[1..]);
      EscEndsPiece(p[used..], q, items[1..]);
    }
  }

  /** Cut behind an ESC, everything before it can be decoded. */
  lemma ItemBeforeEsc(p: seq<Byte>, q: seq<Byte>, items: seq<Item>)
    requires items != [] && p + q == StreamOf(items) && AllItems(items) && Fits(items)
    requires |p| > |ItemBytes(items[0])| && p[|p| - 1] == ESC
    ensures DecodeOne(p) == Token(|ItemBytes(items[0])|, ItemKey(items[0]))
  {
    hide DecodeOne, Valid, EncodeScalar, IsItem, FramesAreText;
    var item, rest := items[0], StreamOf(items[1..]);
    assert IsItem(item);
    if IsWide(item) {
      WideInFront(p, q, item.c, rest);
      FramesOfCons(items);
      StreamIsText(items, []);
      AsciiIsValid([]);
      assert StreamOf(items) + [] == p + q;
      AsciiAtEnd(p, q);
    } else if item.Plain? {
      PlainInFront(p, q, item, rest);
    } else {
      FrameInPart(p, q, item, rest);
    }
  }

  /** Then the keys of the whole run begin so. */
  lemma {:induction false} FeedCutItems(s: State, chunks: seq<seq<Byte>>, items: seq<Item>) returns (j: nat)
    requires !s.leader && AllItems(items) && Fits(items) && s.pending + Concat(chunks) == StreamOf(items)
    requires !NoCutBehindEsc(items, chunks)
    ensures j < |items| && items[j].Framed?
    ensures ItemKeys(items[..j]) + [Esc] <= Feed(s, chunks).keys
    decreases chunks
  {
    hide AllItems, Fits, BehindEsc, StreamOf, ItemKeys, Drain, LeadAll;
    var rest := Concat(chunks[1..]);
    ConcatAssociates(s.pending, chunks[0], rest);
    if BehindEsc(items, |rest|) {
      j := DrainAtEsc(s.pending + chunks[0], rest, items);
    } else {
      var k := PushedItems(s, chunks[0], rest, items);
      var first := PushOf(s, chunks[0]);
      FitsLater(items, k);
      assert |rest| <= |first.state.pending + rest|;
      NoCutLater(items, k, chunks[1..]);
      var m := FeedCutItems(first.state, chunks[1..], items[k..]);
      j := k + m;
      ItemKeysConcat(items[..k], items[k..][..m]);
      assert items[..k] + items[k..][..m] == items[..j];
      ConcatAssociates(ItemKeys(items[..k]), ItemKeys(items[k..][..m]), [Esc]);
    }
  }

  lemma {:induction false} ItemKeyAt(items: seq<Item>, j: nat)
    requires j < |items|
    ensures |ItemKeys(items[..j])| == j && j < |ItemKeys(items)| && ItemKeys(items)[j] == ItemKey(items[j])
    decreases j
  {
    if j > 0 {
      ItemKeyAt(items[1..], j - 1);
      assert items[..j][1..] == items[1..][..j - 1];
    }
  }

  ghost predicate NoneIsEsc(items: seq<Item>) { forall i | 0 <= i < |items| :: ItemKey(items[i]) != Esc }

  /** A stream of characters, pastes and mouse reports that fits decodes to exactly its items in every
      chunking that does not cut right behind the ESC of a frame. If none of its items reads as Esc
      itself, no other chunking gives its keys. */
  lemma ItemsDecodeExactly(items: seq<Item>, chunks: seq<seq<Byte>>)
    requires AllItems(items) && Fits(items) && Concat(chunks) == StreamOf(items)
    ensures NoCutBehindEsc(items, chunks) ==> Feed(FRESH, chunks) == Pushed(FRESH, ItemKeys(items))
    ensures NoneIsEsc(items) && Feed(FRESH, chunks).keys == ItemKeys(items) ==> NoCutBehindEsc(items, chunks)
  {
    hide Feed, StreamOf, Fits, AllItems, NoCutBehindEsc, ItemKeys;
    assert FRESH.pending + Concat(chunks) == Concat(chunks);
    if NoCutBehindEsc(items, chunks) {
      FeedItems(FRESH, chunks, items);
    } else {
      var j := FeedCutItems(FRESH, chunks, items);
      ItemKeyAt(items, j);
      var keys := ItemKeys(items[..j]) + [Esc];
      assert keys[j] == Esc && Feed(FRESH, chunks).keys[..|keys|] == keys;
      assert Feed(FRESH, chunks).keys[j] == keys[j];
    }
  }

  lemma {:induction false} TextFits(items: seq<Item>)
    requires FramesAreText(items)
    ensures Fits(items)
  {
    hide Valid;
    if items != [] {
      FramesOfCons(items);
      TextFits(items[1..]);
    }
  }

  lemma NarrowInFront(items: seq<Item>)
    requires items != [] && AllItems(items) && !IsWide(items[0])
    ensures StreamOf(items) != []
    ensures DecodeOne(StreamOf(items)) == Token(|ItemBytes(items[0])|, ItemKey(items[0]))
    ensures StreamOf(items)[|ItemBytes(items[0])|..] == StreamOf(items[1..])
  {
    hide DecodeOne, EncodeScalar, IsItem;
    var item, p, rest := items[0], StreamOf(items), StreamOf(items[1..]);
    assert IsItem(item) && p + [] == p;
    ItemFacts(item);
    if item.Plain? {
      PlainInFront(p, [], item, rest);
    } else {
      FrameInPart(p, [], item, rest);
    }
  }

  lemma WideBlocks(items: seq<Item>)
    requires items != [] && AllItems(items) && IsWide(items[0]) && !FramesAreText(items[1..])
    ensures NeverDecodes(StreamOf(items)) && Drain(StreamOf(items)).rest == StreamOf(items)
  {
    hide DecodeOne, Drain, LeadAll, IsItem, FramesAreText, Valid, EncodeScalar, NeverDecodes, IsCompletable;
    var p := StreamOf(items);
    assert IsItem(items[0]);
    ItemFacts(items[0]);
    FramesOfCons(items);
    LeadIsWide(items[0].c, StreamOf(items[1..]));
    forall q: seq<Byte>
      ensures !Valid(p + q)
    {
      StreamIsText(items, q);
    }
    CompletableExactly(p);
    NeverDecodesExactly(p);
    assert p + [] == p;
    WideFront(p);
    DrainWaits(p, false);
  }

  /** A stream that does not fit blocks the decoder for good when it comes in one piece. */
  lemma {:induction false} UnfitBlocks(items: seq<Item>)
    requires AllItems(items) && !Fits(items)
    ensures NeverDecodes(Drain(StreamOf(items)).rest)
  {
    hide DecodeOne, Drain, LeadAll, IsItem, FramesAreText, Valid, EncodeScalar, NeverDecodes, StreamOf;
    if IsWide(items[0]) && !FramesAreText(items[1..]) {
      WideBlocks(items);
    } else {
      if FramesAreText(items[1..]) {
        TextFits(items[1..]);
      }
      NarrowInFront(items);
      DrainStep(StreamOf(items), false, |ItemBytes(items[0])|, ItemKey(items[0]));
      UnfitBlocks(items[1..]);
    }
  }

  lemma {:induction false} EndIsNotBehindEsc(items: seq<Item>)
    requires AllItems(items)
    ensures !BehindEsc(items, 0)
  {
    hide IsItem;
    if items != [] {
      assert IsItem(items[0]);
      ItemFacts(items[0]);
      EndIsNotBehindEsc(items[1..]);
    }
  }

  lemma InOnePiece(items: seq<Item>)
    requires AllItems(items)
    ensures Concat([StreamOf(items)]) == StreamOf(items) && NoCutBehindEsc(items, [StreamOf(items)])
    ensures Feed(FRESH, [StreamOf(items)]).state.pending == Drain(StreamOf(items)).rest
    ensures Feed(FRESH, [StreamOf(items)]).keys == LeadAll(false, Drain(StreamOf(items)).frames).out
  {
    hide Drain, LeadAll, StreamOf, BehindEsc, AllItems;
    var p := StreamOf(items);
    var none: seq<seq<Byte>> := [];
    assert [p][1..] == none && Concat(none) == [] && p + [] == p;
    EndIsNotBehindEsc(items);
    assert FRESH.pending + p == p;
    var keys := LeadAll(false, Drain(p).frames).out;
    assert Feed(PushOf(FRESH, p).state, none).keys == [] && keys + [] == keys;
  }

  /** Whether its frames are text behind characters beyond ASCII is all that matters: exactly then a stream
      decodes to its items in every chunking that spares the frames' ESCs. */
  lemma FitsExactly(items: seq<Item>)
    requires AllItems(items)
    ensures Fits(items)
            <==> forall chunks: seq<seq<Byte>> | Concat(chunks) == StreamOf(items) && NoCutBehindEsc(items, chunks) ::
                   Feed(FRESH, chunks) == Pushed(FRESH, ItemKeys(items))
  {
    hide *;
    if Fits(items) {
      forall chunks: seq<seq<Byte>> | Concat(chunks) == StreamOf(items) && NoCutBehindEsc(items, chunks)
        ensures Feed(FRESH, chunks) == Pushed(FRESH, ItemKeys(items))
      {
        ItemsDecodeExactly(items, chunks);
      }
    } else {
      InOnePiece(items);
      UnfitBlocks(items);
      NeverDecodesHolds(Drain(StreamOf(items)).rest);
      var whole: seq<seq<Byte>> := [StreamOf(items)];
      assert Concat(whole) == StreamOf(items) && NoCutBehindEsc(items, whole);
      assert Feed(FRESH, whole) != Pushed(FRESH, ItemKeys(items));
    }
  }

  lemma NeverDecodesHolds(p: seq<Byte>)
    requires NeverDecodes(p)
    ensures p != FRESH.pending
  {
  }

  /** A paste that is no UTF-8 text is lost behind a character beyond ASCII when both come in one piece, and
      so is the character. In two pieces both are decoded. */
  lemma BadPasteBehindWide(c: Scalar, payload: seq<Byte>)
    requires c >= 0x80 && HoldsNoMarker(payload) && !Valid(payload)
    ensures var one := Feed(FRESH, [EncodeScalar(c) + PasteFrame(payload)]);
            one.keys == [] && NeverDecodes(one.state.pending)
    ensures Feed(FRESH, [EncodeScalar(c), PasteFrame(payload)]) == Pushed(FRESH, [Char(c), Paste(Lossy(payload))])
  {
    var wide, paste := Plain(c), Framed(PasteFrame(payload), Paste(Lossy(payload)));
    PasteIsItem(payload);
    PasteIsText(payload);
    hide DecodeOne, Drain, LeadAll, IsItem, Valid, EncodeScalar, PasteFrame, Lossy, NeverDecodes, ApplyLeader;
    assert IsItem(wide) by { PlainIsItem(c); }
    var items := [wide, paste];
    TwoItems(wide, paste);
    assert !FramesAreText(items[1..]) by { assert items[1..][0] == paste; }
    WideBlocks(items);
    InOnePiece(items);
    WideBlockedKeys(items);
    WholeItem(wide);
    WholeItem(paste);
    TwoPieces(EncodeScalar(c), PasteFrame(payload), Char(c), Paste(Lossy(payload)));
  }

  lemma PlainIsItem(c: Scalar)
    requires c >= 0x80
    ensures IsItem(Plain(c))
  {
  }

  lemma TwoItems(a: Item, b: Item)
    ensures [a, b][1..] == [b] && StreamOf([a, b]) == ItemBytes(a) + ItemBytes(b)
    ensures IsItem(a) && IsItem(b) ==> AllItems([a, b])
  {
    hide IsItem;
    assert [b][1..] == [] && StreamOf([b]) == ItemBytes(b) + StreamOf([]) && StreamOf([]) == [];
    assert StreamOf([b]) == ItemBytes(b);
  }

  lemma WideBlockedKeys(items: seq<Item>)
    requires StreamOf(items) != [] && DecodeOne(StreamOf(items)) == More
    ensures LeadAll(false, Drain(StreamOf(items)).frames).out == []
  {
    hide DecodeOne;
  }

  lemma WholeItem(item: Item)
    requires IsItem(item)
    ensures ItemBytes(item) != [] && PushOf(FRESH, ItemBytes(item)) == Pushed(FRESH, [ItemKey(item)])
  {
    hide DecodeOne, Drain, LeadAll, IsItem, Valid, EncodeScalar, ApplyLeader;
    ItemFacts(item);
    var p := ItemBytes(item);
    assert StreamOf([item]) == p by { assert [item][1..] == [] && p + StreamOf([]) == p; }
    assert AllItems([item]) && Fits([item]) by { assert [item][1..] == []; NoFrames(); }
    EndIsNotBehindEsc([item]);
    assert FRESH.pending + p == p && p + [] == p;
    var k := DrainItems(p, [], [item]);
    assert [item][..1] == [item] && ItemKeys([item]) == [ItemKey(item)] + ItemKeys([item][1..]);
  }

  lemma TwoPieces(a: seq<Byte>, b: seq<Byte>, x: Key, y: Key)
    requires PushOf(FRESH, a) == Pushed(FRESH, [x]) && PushOf(FRESH, b) == Pushed(FRESH, [y])
    ensures Feed(FRESH, [a, b]) == Pushed(FRESH, [x, y])
  {
    hide PushOf;
    var none: seq<seq<Byte>> := [];
    assert [a, b][1..] == [b] && [b][1..] == none;
    assert Feed(FRESH, none) == Pushed(FRESH, []);
    assert [y] + [] == [y] && [x] + [y] == [x, y];
  }

  /** For example U+00E9 and a paste of the byte 0xFF. */
  lemma BadPasteExample()
    ensures var one := Feed(FRESH, [[0xC3, 0xA9] + PasteFrame([0xFF])]);
            one.keys == [] && NeverDecodes(one.state.pending)
    ensures Feed(FRESH, [[0xC3, 0xA9], PasteFrame([0xFF])]) == Pushed(FRESH, [Char(0xE9), Paste([REPLACEMENT])])
  {
    assert EncodeScalar(0xE9) == [0xC3, 0xA9];
    assert FrontOf([0xFF]) == Bad(1) && [0xFF][1..] == [];
    assert !Valid([0xFF]) && Lossy([0xFF]) == [REPLACEMENT] + Lossy([]) == [REPLACEMENT];
    hide PasteFrame, Feed, NeverDecodes;
    BadPasteBehindWide(0xE9, [0xFF]);
  }

  // ----- Plain text

  function TextItems(cs: seq<Scalar>): seq<Item> {
    if cs == [] then [] else [Plain(cs[0])] + TextItems(cs[1..])
  }

  lemma {:induction false} TextItemsAreText(cs: seq<Scalar>)
    requires AllPlain(cs)
    ensures AllItems(TextItems(cs)) && FramesAreText(TextItems(cs))
    ensures StreamOf(TextItems(cs)) == Encode(cs) && ItemKeys(TextItems(cs)) == CharKeys(cs)
    ensures forall r :: !BehindEsc(TextItems(cs), r)
  {
    hide EncodeScalar, IsPlain, Valid;
    if cs != [] {
      assert IsPlain(cs[0]);
      TextItemsAreText(cs[1..]);
      assert TextItems(cs)[1..] == TextItems(cs[1..]);
    }
  }

  lemma {:induction false} NoEscToCut(items: seq<Item>, chunks: seq<seq<Byte>>)
    requires forall r :: !BehindEsc(items, r)
    ensures NoCutBehindEsc(items, chunks)
    decreases chunks
  {
    hide BehindEsc;
    if chunks != [] {
      NoEscToCut(items, chunks[1..]);
    }
  }

  /** Plain text decodes to exactly its characters, wherever it is cut, characters included. */
  lemma TextDecodesToItsCharacters(chunks: seq<seq<Byte>>, cs: seq<Scalar>)
    requires AllPlain(cs) && Concat(chunks) == Encode(cs)
    ensures Feed(FRESH, chunks) == Pushed(FRESH, CharKeys(cs))
  {
    hide *;
    TextItemsAreText(cs);
    TextFits(TextItems(cs));
    NoEscToCut(TextItems(cs), chunks);
    ItemsDecodeExactly(TextItems(cs), chunks);
  }
}
