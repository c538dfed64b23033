/** Unsigned decimal numbers as ASCII bytes: `to_string` and the `parse` of the unsigned types. */
module Decimal {
  import opened Utf8
  import opened Wrappers

  predicate IsDigit(b: Byte) { 0x30 <= b <= 0x39 }

  predicate AllDigits(bs: seq<Byte>) {
    forall i | 0 <= i < |bs| :: IsDigit(bs[i])
  }

  function Digits(n: nat): (bs: seq<Byte>)
    ensures |bs| >= 1 && AllDigits(bs)
  {
    if n < 10 then [0x30 + n] else Digits(n / 10) + [0x30 + n % 10]
  }

  function ValueOf(bs: seq<Byte>): nat
    requires AllDigits(bs)
  {
    if bs == [] then 0 else ValueOf(bs[..|bs| - 1]) * 10 + (bs[|bs| - 1] - 0x30)
  }

  /** One leading `+` is allowed; no digit, another character or a value above `max` is an error. */
  function ParseUnsigned(bs: seq<Byte>, max: nat): (r: Option<nat>)
    ensures r.Some? ==> r.value <= max
  {
    var ds := if bs != [] && bs[0] == 0x2B then bs[1..] else bs;
    if ds != [] && AllDigits(ds) && ValueOf(ds) <= max then Some(ValueOf(ds)) else None
  }

  lemma {:induction false} ValueOfDigits(n: nat)
    ensures ValueOf(Digits(n)) == n
  {
    if n >= 10 {
      ValueOfDigits(n / 10);
      assert Digits(n)[..|Digits(n)| - 1] == Digits(n / 10);
    }
  }

  lemma ParseDigits(n: nat, max: nat)
    requires n <= max
    ensures ParseUnsigned(Digits(n), max) == Some(n)
  {
    ValueOfDigits(n);
  }

  lemma DigitsOfByte(n: Byte)
    ensures |Digits(n)| <= 3
  {
    assert n / 10 / 10 < 10;
    assert |Digits(n / 10)| <= 2;
  }
}
