/** Byte strings made of fields between semicolons, as control sequences carry them. */
module Fields {
  import opened Utf8
  import Decimal

  const ESC: Byte := 0x1B
  const BRACKET: Byte := 0x5B
  const SEMICOLON: Byte := 0x3B

  lemma ConcatAssociates<T>(a: seq<T>, b: seq<T>, c: seq<T>)
    ensures (a + b) + c == a + (b + c)
  {
  }

  /** The parts of a stream, put together again. */
  function Concat<T>(parts: seq<seq<T>>): seq<T> {
    if parts == [] then [] else parts[0] + Concat(parts[1..])
  }

  lemma {:induction false} ConcatOneMore<T>(parts: seq<seq<T>>, part: seq<T>)
    ensures Concat(parts + [part]) == Concat(parts) + part
  {
    if parts == [] {
      assert parts + [part] == [part];
      assert Concat([part][1..]) == [];
    } else {
      assert (parts + [part])[1..] == parts[1..] + [part];
      ConcatOneMore(parts[1..], part);
    }
  }

  function Split(bs: seq<Byte>): (parts: seq<seq<Byte>>)
    ensures parts != []
    ensures forall i | 0 <= i < |parts| :: SEMICOLON !in parts[i]
  {
    if bs == [] then [[]]
    else
      var rest := Split(bs[1..]);
      if bs[0] == SEMICOLON then [[]] + rest else [[bs[0]] + rest[0]] + rest[1..]
  }

  function Join(parts: seq<seq<Byte>>): seq<Byte>
    requires parts != []
  {
    if |parts| == 1 then parts[0] else parts[0] + [SEMICOLON] + Join(parts[1..])
  }

  lemma {:induction false} JoinSplit(bs: seq<Byte>)
    ensures Join(Split(bs)) == bs
  {
    if bs != [] {
      JoinSplit(bs[1..]);
      var rest := Split(bs[1..]);
      if bs[0] == SEMICOLON {
        assert ([[]] + rest)[1..] == rest;
      } else if |rest| > 1 {
        assert ([[bs[0]] + rest[0]] + rest[1..])[1..] == rest[1..];
      }
    }
  }

  lemma {:induction false} SplitNoSeparator(part: seq<Byte>)
    requires SEMICOLON !in part
    ensures Split(part) == [part]
  {
    if part != [] {
      assert part[0] in part;
      SplitNoSeparator(part[1..]);
      assert [part[0]] + part[1..] == part;
    }
  }

  lemma {:induction false} SplitAfterPart(part: seq<Byte>, bs: seq<Byte>)
    requires SEMICOLON !in part
    ensures Split(part + [SEMICOLON] + bs) == [part] + Split(bs)
  {
    var all := part + [SEMICOLON] + bs;
    if part == [] {
      assert all[1..] == bs;
    } else {
      assert part[0] in part && all[0] == part[0];
      SplitAfterPart(part[1..], bs);
      assert all[1..] == part[1..] + [SEMICOLON] + bs;
      assert [part[0]] + part[1..] == part;
      assert ([part[1..]] + Split(bs))[1..] == Split(bs);
    }
  }

  lemma {:induction false} SplitJoin(parts: seq<seq<Byte>>)
    requires parts != [] && forall i | 0 <= i < |parts| :: SEMICOLON !in parts[i]
    ensures Split(Join(parts)) == parts
  {
    if |parts| == 1 {
      SplitNoSeparator(parts[0]);
    } else {
      SplitJoin(parts[1..]);
      SplitAfterPart(parts[0], Join(parts[1..]));
    }
  }

  ghost predicate AllValid(parts: seq<seq<Byte>>) {
    forall i | 0 <= i < |parts| :: Valid(parts[i])
  }

  lemma {:induction false} JoinIsValid(parts: seq<seq<Byte>>)
    requires parts != []
    ensures Valid(Join(parts)) <==> AllValid(parts)
  {
    if |parts| > 1 {
      JoinIsValid(parts[1..]);
      AsciiSeparates(parts[0], SEMICOLON, Join(parts[1..]));
      assert AllValid(parts) <==> Valid(parts[0]) && AllValid(parts[1..]) by {
        if Valid(parts[0]) && AllValid(parts[1..]) {
          assert forall i | 1 <= i < |parts| :: parts[i] == parts[1..][i - 1];
        }
      }
    }
  }

  lemma {:induction false} DigitsAreValid(bs: seq<Byte>)
    requires Decimal.AllDigits(bs)
    ensures Valid(bs)
  {
    if bs != [] {
      DigitsAreValid(bs[1..]);
    }
  }
}
