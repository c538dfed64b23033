/**
 UTF-8 as the standard library decodes it: the encoding of section 3 of RFC 3629, the byte ranges of
 its section 4, and the lossy decoding that replaces every maximal ill-formed piece by U+FFFD.
 */
module Utf8 {
  type Byte = b: int | 0 <= b < 0x100
  type Scalar = c: int | 0 <= c < 0xD800 || 0xE000 <= c < 0x110000

  const REPLACEMENT: Scalar := 0xFFFD

  function EncodeScalar(c: Scalar): (bs: seq<Byte>)
    ensures |bs| == Width(c)
  {
    if c < 0x80 then [c]
    else if c < 0x800 then [0xC0 + c / 0x40, 0x80 + c % 0x40]
    else if c < 0x10000 then [0xE0 + c / 0x40 / 0x40, 0x80 + c / 0x40 % 0x40, 0x80 + c % 0x40]
    else [0xF0 + c / 0x40 / 0x40 / 0x40, 0x80 + c / 0x40 / 0x40 % 0x40, 0x80 + c / 0x40 % 0x40, 0x80 + c % 0x40]
  }

  function Width(c: Scalar): (w: nat)
    ensures 1 <= w <= 4
  {
    if c < 0x80 then 1 else if c < 0x800 then 2 else if c < 0x10000 then 3 else 4
  }

  function Encode(cs: seq<Scalar>): (bs: seq<Byte>)
    ensures |bs| >= |cs|
  {
    if cs == [] then [] else EncodeScalar(cs[0]) + Encode(cs[1..])
  }

  /** What stands at the front of a byte string: a character, or `skip` bytes that begin none. */
  datatype Front = Good(width: nat, scalar: Scalar) | Bad(skip: nat)

  predicate IsCont(b: Byte) { 0x80 <= b < 0xC0 }

  /** Which second bytes a given lead byte of a three- or four-byte form admits. */
  predicate SecondOk(lead: Byte, second: Byte) {
    if lead == 0xE0 then 0xA0 <= second < 0xC0
    else if lead == 0xED then 0x80 <= second < 0xA0
    else if lead == 0xF0 then 0x90 <= second < 0xC0
    else if lead == 0xF4 then 0x80 <= second < 0x90
    else IsCont(second)
  }

  /** The number written by a lead and its continuation bytes, six bits each. */
  function Append6(high: int, b: Byte): int { high * 0x40 + (b - 0x80) }

  function FrontOf(bs: seq<Byte>): (f: Front)
    requires bs != []
    ensures f.Good? ==> 1 <= f.width <= |bs| && f.width <= 4
    ensures f.Bad? ==> 1 <= f.skip <= |bs|
  {
    var lead: int := bs[0];
    if lead < 0x80 then Good(1, lead)
    else if 0xC2 <= lead < 0xE0 then
      if |bs| < 2 || !IsCont(bs[1]) then Bad(1)
      else Good(2, Append6(lead - 0xC0, bs[1]))
    else if 0xE0 <= lead < 0xF0 then
      if |bs| < 2 || !SecondOk(lead, bs[1]) then Bad(1)
      else if |bs| < 3 || !IsCont(bs[2]) then Bad(2)
      else Good(3, Append6(Append6(lead - 0xE0, bs[1]), bs[2]))
    else if 0xF0 <= lead < 0xF5 then
      if |bs| < 2 || !SecondOk(lead, bs[1]) then Bad(1)
      else if |bs| < 3 || !IsCont(bs[2]) then Bad(2)
      else if |bs| < 4 || !IsCont(bs[3]) then Bad(3)
      else Good(4, Append6(Append6(Append6(lead - 0xF0, bs[1]), bs[2]), bs[3]))
    else Bad(1)
  }

  predicate Valid(bs: seq<Byte>) {
    bs == [] || (FrontOf(bs).Good? && Valid(bs[FrontOf(bs).width..]))
  }

  function Decode(bs: seq<Byte>): seq<Scalar>
    requires Valid(bs)
  {
    if bs == [] then [] else [FrontOf(bs).scalar] + Decode(bs[FrontOf(bs).width..])
  }

  /** `String::from_utf8_lossy`. */
  function Lossy(bs: seq<Byte>): seq<Scalar> {
    if bs == [] then []
    else
      match FrontOf(bs)
      case Good(w, c) => [c] + Lossy(bs[w..])
      case Bad(skip) => [REPLACEMENT] + Lossy(bs[skip..])
  }

  /** Six bits come off the way they were put on. */
  lemma SixBits(high: int, b: Byte)
    requires IsCont(b)
    ensures Append6(high, b) / 0x40 == high && 0x80 + Append6(high, b) % 0x40 == b
  {
  }

  lemma SixBitsBack(c: int)
    ensures IsCont(0x80 + c % 0x40) && Append6(c / 0x40, 0x80 + c % 0x40) == c
  {
  }

  /** The encoding of a character is read back as that character, whatever follows it. */
  lemma FrontOfEncoded(c: Scalar, rest: seq<Byte>)
    ensures FrontOf(EncodeScalar(c) + rest) == Good(Width(c), c)
  {
    var bs := EncodeScalar(c) + rest;
    assert forall i | 0 <= i < Width(c) :: bs[i] == EncodeScalar(c)[i];
    SixBitsBack(c);
    if 0x800 <= c {
      SixBitsBack(c / 0x40);
    }
    if 0x10000 <= c {
      SixBitsBack(c / 0x40 / 0x40);
    }
  }

  lemma FrontIsEncoded(bs: seq<Byte>)
    requires bs != [] && FrontOf(bs).Good?
    ensures FrontOf(bs).width == Width(FrontOf(bs).scalar)
    ensures bs[..FrontOf(bs).width] == EncodeScalar(FrontOf(bs).scalar)
  {
    var lead: int := bs[0];
    var w := FrontOf(bs).width;
    if w == 2 {
      SixBits(lead - 0xC0, bs[1]);
    } else if w == 3 {
      SixBits(lead - 0xE0, bs[1]);
      SixBits(Append6(lead - 0xE0, bs[1]), bs[2]);
    } else if w == 4 {
      SixBits(lead - 0xF0, bs[1]);
      SixBits(Append6(lead - 0xF0, bs[1]), bs[2]);
      SixBits(Append6(Append6(lead - 0xF0, bs[1]), bs[2]), bs[3]);
    }
  }

  /** A character once complete is not changed by what follows. */
  lemma FrontIsStable(bs: seq<Byte>, more: seq<Byte>)
    requires bs != [] && FrontOf(bs).Good?
    ensures FrontOf(bs + more) == FrontOf(bs)
  {
  }

  lemma EncodeUnfolds(cs: seq<Scalar>)
    requires cs != []
    ensures Encode(cs) == EncodeScalar(cs[0]) + Encode(cs[1..])
  {
    hide EncodeScalar, Width;
  }

  lemma EncodeNothing()
    ensures Encode([]) == []
  {
  }

  lemma InFront(a: seq<Byte>, b: seq<Byte>, c: seq<Byte>)
    ensures a + (b + c) == (a + b) + c
  {
  }

  lemma {:induction false} EncodeConcat(a: seq<Scalar>, b: seq<Scalar>)
    ensures Encode(a + b) == Encode(a) + Encode(b)
  {
    hide Encode, EncodeScalar, Width;
    if a == [] {
      EncodeNothing();
      assert a + b == b;
    } else {
      EncodeConcat(a[1..], b);
      assert (a + b)[0] == a[0] && (a + b)[1..] == a[1..] + b;
      EncodeUnfolds(a);
      EncodeUnfolds(a + b);
      InFront(EncodeScalar(a[0]), Encode(a[1..]), Encode(b));
    }
  }

  lemma EncodeCons(c: Scalar, cs: seq<Scalar>)
    ensures Encode([c] + cs) == EncodeScalar(c) + Encode(cs)
  {
    assert ([c] + cs)[1..] == cs;
  }

  lemma EncodeOne(c: Scalar)
    ensures Encode([c]) == EncodeScalar(c)
  {
    assert Encode([c]) == EncodeScalar(c) + Encode([]);
  }

  /** Encoding then decoding gives the characters back. */
  lemma {:induction false} DecodeEncode(cs: seq<Scalar>)
    ensures Valid(Encode(cs)) && Decode(Encode(cs)) == cs
  {
    if cs != [] {
      FrontOfEncoded(cs[0], Encode(cs[1..]));
      assert Encode(cs)[Width(cs[0])..] == Encode(cs[1..]);
      DecodeEncode(cs[1..]);
    }
  }

  /** Well-formed bytes are exactly the encodings. */
  lemma {:induction false} EncodeDecode(bs: seq<Byte>)
    requires Valid(bs)
    ensures Encode(Decode(bs)) == bs
  {
    hide FrontOf, EncodeScalar, Append6;
    if bs != [] {
      var Good(w, c) := FrontOf(bs);
      EncodeDecode(bs[w..]);
      FrontIsEncoded(bs);
      EncodeCons(c, Decode(bs[w..]));
      assert bs == bs[..w] + bs[w..];
    }
  }

  lemma {:induction false} LossyOfValid(bs: seq<Byte>)
    requires Valid(bs)
    ensures Lossy(bs) == Decode(bs)
  {
    if bs != [] {
      LossyOfValid(bs[FrontOf(bs).width..]);
    }
  }

  /** An ASCII byte completes no character. */
  lemma BadStaysBad(a: seq<Byte>, b: Byte, c: seq<Byte>)
    requires b < 0x80 && a != [] && FrontOf(a).Bad?
    ensures FrontOf(a + [b] + c).Bad?
  {
    var all := a + [b] + c;
    assert all[|a|] == b && forall i | 0 <= i < |a| :: all[i] == a[i];
  }

  lemma ValidUnfolds(bs: seq<Byte>)
    requires bs != []
    ensures Valid(bs) <==> FrontOf(bs).Good? && Valid(bs[FrontOf(bs).width..])
  {
    hide FrontOf;
  }

  lemma AsciiInFront(b: Byte, c: seq<Byte>)
    requires b < 0x80
    ensures Valid([] + [b] + c) <==> Valid([]) && Valid(c)
  {
    assert ([b] + c)[1..] == c && [] + [b] + c == [b] + c;
  }

  lemma BehindFront(a: seq<Byte>, b: Byte, c: seq<Byte>, w: nat)
    requires w <= |a|
    ensures (a + [b] + c)[w..] == a[w..] + [b] + c && a + ([b] + c) == a + [b] + c
  {
  }

  /** An ASCII byte always stands between characters. */
  lemma {:induction false} AsciiSeparates(a: seq<Byte>, b: Byte, c: seq<Byte>)
    requires b < 0x80
    ensures Valid(a + [b] + c) <==> Valid(a) && Valid(c)
  {
    hide FrontOf, Valid;
    if a == [] {
      AsciiInFront(b, c);
    } else {
      ValidUnfolds(a);
      ValidUnfolds(a + [b] + c);
      if FrontOf(a).Good? {
        var w := FrontOf(a).width;
        BehindFront(a, b, c, w);
        FrontIsStable(a, [b] + c);
        AsciiSeparates(a[w..], b, c);
      } else {
        BadStaysBad(a, b, c);
      }
    }
  }

  // ----- Text that more bytes may complete

  /** The beginning of a character whose end is missing. */
  predicate IsPartial(bs: seq<Byte>) {
    && bs != []
    && var lead: int := bs[0];
       if 0xC2 <= lead < 0xE0 then |bs| == 1
       else if 0xE0 <= lead < 0xF0 then |bs| == 1 || (|bs| == 2 && SecondOk(lead, bs[1]))
       else if 0xF0 <= lead < 0xF5 then
         |bs| == 1 || (|bs| == 2 && SecondOk(lead, bs[1])) || (|bs| == 3 && SecondOk(lead, bs[1]) && IsCont(bs[2]))
       else false
  }

  /** Well-formed text, but for a last character that may be cut. */
  predicate IsCompletable(bs: seq<Byte>) {
    bs == [] || IsPartial(bs) || (FrontOf(bs).Good? && IsCompletable(bs[FrontOf(bs).width..]))
  }

  function Missing(bs: seq<Byte>): seq<Byte>
    requires IsPartial(bs)
  {
    var lead: int := bs[0];
    var second: Byte := if lead == 0xE0 then 0xA0 else if lead == 0xF0 then 0x90 else 0x80;
    if lead < 0xE0 then [0x80]
    else if lead < 0xF0 then if |bs| == 1 then [second, 0x80] else [0x80]
    else if |bs| == 1 then [second, 0x80, 0x80]
    else if |bs| == 2 then [0x80, 0x80]
    else [0x80]
  }

  lemma PartialFront(bs: seq<Byte>)
    requires IsPartial(bs)
    ensures var all := bs + Missing(bs); FrontOf(all).Good? && FrontOf(all).width == |all|
  {
    var all := bs + Missing(bs);
    var lead: int := bs[0];
    assert all[0] == lead && (|bs| > 1 ==> all[1] == bs[1]) && (|bs| > 2 ==> all[2] == bs[2]);
    if lead < 0xE0 {
      assert |all| == 2 && all[1] == 0x80;
    } else if lead < 0xF0 {
      assert |all| == 3 && all[2] == 0x80 && SecondOk(lead, all[1]);
    } else {
      assert |all| == 4 && all[3] == 0x80 && SecondOk(lead, all[1]) && IsCont(all[2]);
    }
  }

  lemma PartialCompletes(bs: seq<Byte>)
    requires IsPartial(bs)
    ensures Valid(bs + Missing(bs))
  {
    hide FrontOf, Missing, IsPartial;
    var all := bs + Missing(bs);
    PartialFront(bs);
    ValidUnfolds(all);
    assert all[|all|..] == [];
  }

  lemma BadForGood(bs: seq<Byte>, q: seq<Byte>)
    requires bs != [] && FrontOf(bs).Bad? && !IsPartial(bs)
    ensures FrontOf(bs + q).Bad?
  {
  }

  lemma {:induction false} Completes(bs: seq<Byte>) returns (q: seq<Byte>)
    requires IsCompletable(bs)
    ensures Valid(bs + q)
  {
    if bs == [] {
      q := [];
    } else if IsPartial(bs) {
      PartialCompletes(bs);
      q := Missing(bs);
    } else {
      hide FrontOf, IsPartial;
      var w := FrontOf(bs).width;
      q := Completes(bs[w..]);
      FrontIsStable(bs, q);
      assert (bs + q)[w..] == bs[w..] + q;
    }
  }

  lemma {:induction false} NeverCompletes(bs: seq<Byte>, q: seq<Byte>)
    requires !IsCompletable(bs)
    ensures !Valid(bs + q)
  {
    hide FrontOf, IsPartial;
    if FrontOf(bs).Good? {
      var w := FrontOf(bs).width;
      FrontIsStable(bs, q);
      assert (bs + q)[w..] == bs[w..] + q;
      NeverCompletes(bs[w..], q);
    } else {
      BadForGood(bs, q);
    }
  }

  /** Bytes are completable exactly when some more bytes make them well-formed. */
  lemma CompletableExactly(bs: seq<Byte>)
    ensures IsCompletable(bs) <==> exists q: seq<Byte> :: Valid(bs + q)
  {
    if IsCompletable(bs) {
      var q := Completes(bs);
    } else {
      forall q: seq<Byte>
        ensures !Valid(bs + q)
      {
        NeverCompletes(bs, q);
      }
    }
  }
}
