/**
 The parameters of an SGR sequence (section 8.3.117 of ECMA-48) as src/terminal.rs rewrites them for a
 256-colour terminal: truecolor groups `38;2;r;g;b` and `48;2;r;g;b` become palette groups.
 */
module Sgr {
  import opened Utf8
  import opened Wrappers
  import opened Color
  import opened Fields
  import Decimal

  // ----- Truecolor groups

  const FOREGROUND: seq<Byte> := [0x33, 0x38]
  const BACKGROUND: seq<Byte> := [0x34, 0x38]
  const RGB_SELECTOR: seq<Byte> := [0x32]
  const PALETTE_SELECTOR: seq<Byte> := [0x35]

  function ParseByte(part: seq<Byte>): (r: Option<Byte>) {
    match Decimal.ParseUnsigned(part, 255)
    case Some(v) => Some(v)
    case None => None
  }

  /** `2;r;g;b` at the front. */
  predicate RgbFollows(parts: seq<seq<Byte>>) {
    && |parts| >= 4 && parts[0] == RGB_SELECTOR
    && ParseByte(parts[1]).Some? && ParseByte(parts[2]).Some? && ParseByte(parts[3]).Some?
  }

  predicate IsColorTarget(part: seq<Byte>) { part == FOREGROUND || part == BACKGROUND }

  /** `38;2;r;g;b` or `48;2;r;g;b` at the front. */
  predicate TruecolorAtFront(parts: seq<seq<Byte>>) {
    parts != [] && IsColorTarget(parts[0]) && RgbFollows(parts[1..])
  }

  /** The palette index that replaces the group at the front. */
  function PaletteIndex(parts: seq<seq<Byte>>): Byte
    requires TruecolorAtFront(parts)
  {
    Nearest(Rgb(ParseByte(parts[2]).value, ParseByte(parts[3]).value, ParseByte(parts[4]).value))
  }

  function DowngradeParts(parts: seq<seq<Byte>>): (out: seq<seq<Byte>>)
    ensures |out| <= |parts| && (out == [] <==> parts == [])
  {
    if parts == [] then []
    else if TruecolorAtFront(parts) then
      [parts[0], PALETTE_SELECTOR, Decimal.Digits(PaletteIndex(parts))] + DowngradeParts(parts[5..])
    else [parts[0]] + DowngradeParts(parts[1..])
  }

  ghost predicate HasTruecolor(parts: seq<seq<Byte>>) {
    exists i :: 0 <= i < |parts| && TruecolorAtFront(parts[i..])
  }

  /** A rewritten group makes a new one exactly when its palette index is itself 38 or 48 and the
      parameters behind it read `2;r;g;b`. */
  predicate Recreates(parts: seq<seq<Byte>>) {
    if parts == [] then false
    else if TruecolorAtFront(parts) then
      (PaletteIndex(parts) in {38, 48} && RgbFollows(parts[5..])) || Recreates(parts[5..])
    else Recreates(parts[1..])
  }

  /** One turn of the loop: what is rewritten at idx and where the scan goes on. */
  lemma DowngradeAt(parts: seq<seq<Byte>>, idx: nat)
    requires idx < |parts|
    ensures var here := parts[idx..];
            DowngradeParts(here)
            == if TruecolorAtFront(here)
               then [parts[idx], PALETTE_SELECTOR, Decimal.Digits(PaletteIndex(here))] + DowngradeParts(parts[idx + 5..])
               else [parts[idx]] + DowngradeParts(parts[idx + 1..])
  {
    if TruecolorAtFront(parts[idx..]) {
      assert parts[idx..][5..] == parts[idx + 5..];
    } else {
      assert parts[idx..][1..] == parts[idx + 1..];
    }
  }

  /** The group at idx, tested the way the loop tests it. */
  function GroupAt(parts: seq<seq<Byte>>, idx: nat): (color: Option<Rgb>)
    requires idx < |parts|
    ensures color.Some? <==> TruecolorAtFront(parts[idx..])
    ensures color.Some? ==> Nearest(color.value) == PaletteIndex(parts[idx..])
  {
    if IsColorTarget(parts[idx]) && idx + 4 < |parts| && parts[idx + 1] == RGB_SELECTOR then
      match (ParseByte(parts[idx + 2]), ParseByte(parts[idx + 3]), ParseByte(parts[idx + 4]))
      case (Some(r), Some(g), Some(b)) => Some(Rgb(r, g, b))
      case _ => None
    else None
  }

  method DowngradeSgrParams(params: seq<Byte>) returns (out: seq<Byte>)
    ensures out == Join(DowngradeParts(Split(params)))
  {
    var parts := Split(params);
    var done: seq<seq<Byte>> := [];
    var idx := 0;
    while idx < |parts|
      invariant 0 <= idx <= |parts|
      invariant done + DowngradeParts(parts[idx..]) == DowngradeParts(parts)
    {
      DowngradeAt(parts, idx);
      var color := GroupAt(parts, idx);
      if color.Some? {
        var index := RgbToXterm256(color.value);
        var group := [parts[idx], PALETTE_SELECTOR, Decimal.Digits(index)];
        ConcatAssociates(done, group, DowngradeParts(parts[idx + 5..]));
        done := done + group;
        idx := idx + 5;
      } else {
        ConcatAssociates(done, [parts[idx]], DowngradeParts(parts[idx + 1..]));
        done := done + [parts[idx]];
        idx := idx + 1;
      }
    }
    assert done + [] == done;
    out := Join(done);
  }

  // Parsing and rewriting agree part by part: this is what keeps new groups from forming except
  // behind an index.
  lemma SmallNumberParses(n: Byte)
    ensures ParseByte(Decimal.Digits(n)) == Some(n)
  {
    Decimal.ParseDigits(n, 255);
  }

  lemma SelectorsParse()
    ensures ParseByte(FOREGROUND) == Some(38) && ParseByte(BACKGROUND) == Some(48)
    ensures ParseByte(RGB_SELECTOR) == Some(2) && ParseByte(PALETTE_SELECTOR) == Some(5)
    ensures Decimal.Digits(38) == FOREGROUND && Decimal.Digits(48) == BACKGROUND
  {
    assert Decimal.Digits(3) == [0x33] && Decimal.Digits(4) == [0x34];
    SmallNumberParses(38);
    SmallNumberParses(48);
    SmallNumberParses(2);
    SmallNumberParses(5);
  }

  lemma DigitsAreTargets(n: Byte)
    ensures IsColorTarget(Decimal.Digits(n)) <==> n in {38, 48}
  {
    SelectorsParse();
    SmallNumberParses(n);
  }

  ghost predicate NumbersFollow(parts: seq<seq<Byte>>, k: nat) {
    |parts| >= k && forall i | 0 <= i < k :: ParseByte(parts[i]).Some?
  }

  lemma NumbersFollowStep(part: seq<Byte>, parts: seq<seq<Byte>>, k: nat)
    requires k > 0
    ensures NumbersFollow([part] + parts, k) <==> ParseByte(part).Some? && NumbersFollow(parts, k - 1)
  {
    var all := [part] + parts;
    if NumbersFollow(all, k) {
      assert ParseByte(all[0]).Some?;
      assert forall i | 0 <= i < k - 1 :: parts[i] == all[i + 1];
    }
  }

  lemma ThreeNumbers(parts: seq<seq<Byte>>)
    requires |parts| >= 3
    requires ParseByte(parts[0]).Some? && ParseByte(parts[1]).Some? && ParseByte(parts[2]).Some?
    ensures NumbersFollow(parts, 3)
  {
  }

  lemma GroupIsNumbers(parts: seq<seq<Byte>>)
    requires TruecolorAtFront(parts)
    ensures NumbersFollow(parts, 3) && NumbersFollow(DowngradeParts(parts), 3)
  {
    SelectorsParse();
    SmallNumberParses(PaletteIndex(parts));
    assert parts[2] == parts[1..][1];
    ThreeNumbers(parts);
    ThreeNumbers(DowngradeParts(parts));
  }

  /** Whether up to three numbers stand in front is the same before and after a rewrite. */
  lemma {:induction false} NumbersSurvive(parts: seq<seq<Byte>>, k: nat)
    requires k <= 3
    ensures NumbersFollow(DowngradeParts(parts), k) <==> NumbersFollow(parts, k)
  {
    if k > 0 && parts != [] {
      if TruecolorAtFront(parts) {
        GroupIsNumbers(parts);
      } else {
        NumbersSurvive(parts[1..], k - 1);
        NumbersFollowStep(parts[0], parts[1..], k);
        NumbersFollowStep(parts[0], DowngradeParts(parts[1..]), k);
        assert parts == [parts[0]] + parts[1..];
      }
    }
  }

  lemma RgbFollowsSurvives(parts: seq<seq<Byte>>)
    ensures RgbFollows(DowngradeParts(parts)) <==> RgbFollows(parts)
  {
    if parts != [] && parts[0] == RGB_SELECTOR {
      NumbersSurvive(parts[1..], 3);
      assert DowngradeParts(parts) == [parts[0]] + DowngradeParts(parts[1..]);
      RgbFollowsIsNumbers(parts);
      RgbFollowsIsNumbers(DowngradeParts(parts));
      assert DowngradeParts(parts)[1..] == DowngradeParts(parts[1..]);
    }
  }

  lemma RgbFollowsIsNumbers(parts: seq<seq<Byte>>)
    requires parts != [] && parts[0] == RGB_SELECTOR
    ensures RgbFollows(parts) <==> NumbersFollow(parts[1..], 3)
  {
    if NumbersFollow(parts[1..], 3) {
      assert ParseByte(parts[1..][0]).Some? && ParseByte(parts[1..][1]).Some? && ParseByte(parts[1..][2]).Some?;
    }
  }

  lemma PaletteGroupHasTruecolor(target: seq<Byte>, index: seq<Byte>, rest: seq<seq<Byte>>)
    ensures HasTruecolor([target, PALETTE_SELECTOR, index] + rest)
            <==> (IsColorTarget(index) && RgbFollows(rest)) || HasTruecolor(rest)
  {
    var out := [target, PALETTE_SELECTOR, index] + rest;
    HasTruecolorStep(out);
    assert out[1..] == [PALETTE_SELECTOR, index] + rest;
    HasTruecolorStep(out[1..]);
    assert out[1..][1..] == [index] + rest;
    HasTruecolorStep([index] + rest);
    assert ([index] + rest)[1..] == rest;
  }

  /** Exactly when a truecolor group survives: a rewrite re-creates one, and no other way. */
  lemma {:induction false} SurvivorsAreRecreated(parts: seq<seq<Byte>>)
    ensures HasTruecolor(DowngradeParts(parts)) <==> Recreates(parts)
  {
    if parts != [] {
      hide PaletteIndex, ParseByte, Decimal.Digits, HasTruecolor, RgbFollows;
      if TruecolorAtFront(parts) {
        SurvivorsAreRecreated(parts[5..]);
        RgbFollowsSurvives(parts[5..]);
        DigitsAreTargets(PaletteIndex(parts));
        PaletteGroupHasTruecolor(parts[0], Decimal.Digits(PaletteIndex(parts)), DowngradeParts(parts[5..]));
      } else {
        SurvivorsAreRecreated(parts[1..]);
        RgbFollowsSurvives(parts[1..]);
        var out := DowngradeParts(parts);
        assert out[1..] == DowngradeParts(parts[1..]);
        HasTruecolorStep(out);
      }
    }
  }

  lemma Entry38IsFirst(i: Byte)
    requires i < 38
    ensures Xterm256ToRgb(i) != Rgb(0, 175, 215)
  {
    if i < 16 {
      assert ANSI_16[i].g in {0, 128, 192, 255};
    } else {
      assert (i - 16) / 36 == 0;
    }
  }

  lemma PaletteEntry38()
    ensures Nearest(Rgb(0, 175, 215)) == 38
  {
    forall i: Byte | i < 38
      ensures Xterm256ToRgb(i) != Rgb(0, 175, 215)
    {
      Entry38IsFirst(i);
    }
    FirstExactEntryIsNearest(Rgb(0, 175, 215), 38);
  }

  lemma DowngradeFront(parts: seq<seq<Byte>>)
    requires parts != []
    ensures TruecolorAtFront(parts) ==> |DowngradeParts(parts)| < |parts|
    ensures !TruecolorAtFront(parts) ==> DowngradeParts(parts) == [parts[0]] + DowngradeParts(parts[1..])
  {
    hide ParseByte, PaletteIndex;
  }

  lemma {:induction false} DowngradeOnlyShortens(parts: seq<seq<Byte>>)
    ensures (DowngradeParts(parts) == parts) <==> !HasTruecolor(parts)
    ensures HasTruecolor(parts) ==> |DowngradeParts(parts)| < |parts|
  {
    if parts != [] {
      hide DowngradeParts, TruecolorAtFront, HasTruecolor;
      DowngradeFront(parts);
      HasTruecolorStep(parts);
      if !TruecolorAtFront(parts) {
        DowngradeOnlyShortens(parts[1..]);
        assert parts == [parts[0]] + parts[1..];
        assert ([parts[0]] + DowngradeParts(parts[1..]))[1..] == DowngradeParts(parts[1..]);
      }
    }
  }

  lemma HasTruecolorStep(parts: seq<seq<Byte>>)
    requires parts != []
    ensures HasTruecolor(parts) <==> TruecolorAtFront(parts) || HasTruecolor(parts[1..])
  {
    assert parts[0..] == parts;
    forall i | 1 <= i < |parts|
      ensures parts[1..][i - 1..] == parts[i..]
    {
    }
    if HasTruecolor(parts[1..]) {
      var j :| 0 <= j < |parts[1..]| && TruecolorAtFront(parts[1..][j..]);
      assert parts[1..][j..] == parts[j + 1..];
    }
    if HasTruecolor(parts) && !TruecolorAtFront(parts) {
      var i :| 0 <= i < |parts| && TruecolorAtFront(parts[i..]);
      assert parts[1..][i - 1..] == parts[i..];
    }
  }

  // ----- Whole parameter strings

  /** What becomes of the parameter bytes of an SGR sequence; ill-formed UTF-8 is left alone. */
  function DowngradeParams(params: seq<Byte>): seq<Byte> {
    if Valid(params) then Join(DowngradeParts(Split(params))) else params
  }

  ghost predicate HasTruecolorParams(params: seq<Byte>) {
    Valid(params) && HasTruecolor(Split(params))
  }

  predicate RecreatesParams(params: seq<Byte>) {
    Valid(params) && Recreates(Split(params))
  }

  // `48;2;0;175;215;2;1;2;3`, the fields of it, and `48;5;38;2;1;2;3`.
  const SURVIVOR: seq<Byte> := [0x34, 0x38, 0x3B, 0x32, 0x3B, 0x30, 0x3B, 0x31, 0x37, 0x35, 0x3B, 0x32, 0x31, 0x35, 0x3B,
                                0x32, 0x3B, 0x31, 0x3B, 0x32, 0x3B, 0x33]
  const SURVIVOR_FIELDS: seq<seq<Byte>> := [[0x34, 0x38], [0x32], [0x30], [0x31, 0x37, 0x35], [0x32, 0x31, 0x35],
                                            [0x32], [0x31], [0x32], [0x33]]
  const SURVIVED: seq<Byte> := [0x34, 0x38, 0x3B, 0x35, 0x3B, 0x33, 0x38, 0x3B, 0x32, 0x3B, 0x31, 0x3B, 0x32, 0x3B, 0x33]

  lemma SmallNumbers()
    ensures ParseByte([0x30]) == Some(0) && ParseByte([0x31]) == Some(1) && ParseByte([0x32]) == Some(2)
    ensures ParseByte([0x33]) == Some(3)
  {
    SmallNumberParses(0);
    SmallNumberParses(1);
    SmallNumberParses(2);
    SmallNumberParses(3);
  }

  lemma LargeNumbers()
    ensures ParseByte([0x31, 0x37, 0x35]) == Some(175) && ParseByte([0x32, 0x31, 0x35]) == Some(215)
  {
    assert Decimal.Digits(1) == [0x31] && Decimal.Digits(2) == [0x32];
    assert Decimal.Digits(17) == [0x31, 0x37] && Decimal.Digits(21) == [0x32, 0x31];
    assert Decimal.Digits(175) == [0x31, 0x37, 0x35] && Decimal.Digits(215) == [0x32, 0x31, 0x35];
    SmallNumberParses(175);
    SmallNumberParses(215);
  }

  lemma JoinStep(part: seq<Byte>, parts: seq<seq<Byte>>, bs: seq<Byte>)
    requires parts != [] && Join(parts) == bs
    ensures Join([part] + parts) == part + [SEMICOLON] + bs
  {
    assert ([part] + parts)[1..] == parts;
  }

  lemma JoinThree(a: seq<Byte>, b: seq<Byte>, c: seq<Byte>, parts: seq<seq<Byte>>)
    requires parts != []
    ensures Join([a, b, c] + parts) == a + [SEMICOLON] + (b + [SEMICOLON] + (c + [SEMICOLON] + Join(parts)))
  {
    hide Join;
    JoinStep(c, parts, Join(parts));
    JoinStep(b, [c] + parts, Join([c] + parts));
    JoinStep(a, [b] + ([c] + parts), Join([b] + ([c] + parts)));
    assert [a] + ([b] + ([c] + parts)) == [a, b, c] + parts;
  }

  lemma EndIsJoined()
    ensures Join([[0x32], [0x31], [0x32], [0x33]]) == [0x32, 0x3B, 0x31, 0x3B, 0x32, 0x3B, 0x33]
  {
    JoinThree([0x32], [0x31], [0x32], [[0x33]]);
    assert [[0x32], [0x31], [0x32]] + [[0x33]] == [[0x32], [0x31], [0x32], [0x33]];
  }

  lemma MiddleIsJoined(end: seq<seq<Byte>>)
    requires end == [[0x32], [0x31], [0x32], [0x33]]
    ensures Join([[0x31, 0x37, 0x35], [0x32, 0x31, 0x35]] + end)
            == [0x31, 0x37, 0x35, 0x3B, 0x32, 0x31, 0x35, 0x3B, 0x32, 0x3B, 0x31, 0x3B, 0x32, 0x3B, 0x33]
  {
    hide Join;
    EndIsJoined();
    JoinStep([0x32, 0x31, 0x35], end, Join(end));
    JoinStep([0x31, 0x37, 0x35], [[0x32, 0x31, 0x35]] + end, Join([[0x32, 0x31, 0x35]] + end));
    assert [[0x31, 0x37, 0x35]] + ([[0x32, 0x31, 0x35]] + end) == [[0x31, 0x37, 0x35], [0x32, 0x31, 0x35]] + end;
  }

  lemma FieldsAreInOrder(end: seq<seq<Byte>>)
    requires end == [[0x32], [0x31], [0x32], [0x33]]
    ensures [[0x34, 0x38], [0x32], [0x30]] + ([[0x31, 0x37, 0x35], [0x32, 0x31, 0x35]] + end) == SURVIVOR_FIELDS
  {
  }

  lemma SurvivorIsJoined()
    ensures Join(SURVIVOR_FIELDS) == SURVIVOR
  {
    hide Join;
    var end: seq<seq<Byte>> := [[0x32], [0x31], [0x32], [0x33]];
    MiddleIsJoined(end);
    JoinThree([0x34, 0x38], [0x32], [0x30], [[0x31, 0x37, 0x35], [0x32, 0x31, 0x35]] + end);
    FieldsAreInOrder(end);
  }

  lemma SurvivedIsJoined()
    ensures Join([[0x34, 0x38], [0x35], [0x33, 0x38]] + SURVIVOR_FIELDS[5..]) == SURVIVED
  {
    hide Join;
    var end: seq<seq<Byte>> := [[0x32], [0x31], [0x32], [0x33]];
    assert SURVIVOR_FIELDS[5..] == end;
    EndIsJoined();
    JoinThree([0x34, 0x38], [0x35], [0x33, 0x38], end);
  }

  lemma AsciiIsValid(bs: seq<Byte>)
    requires forall i | 0 <= i < |bs| :: bs[i] < 0x80
    ensures Valid(bs)
  {
    if bs != [] {
      AsciiIsValid(bs[1..]);
    }
  }

  lemma NothingFollowsTheEnd(parts: seq<seq<Byte>>)
    requires |parts| == 4 && !IsColorTarget(parts[0]) && !IsColorTarget(parts[1]) && !IsColorTarget(parts[2])
    requires !IsColorTarget(parts[3])
    ensures DowngradeParts(parts) == parts
  {
    assert DowngradeParts(parts[3..]) == parts[3..];
    assert parts[2..][1..] == parts[3..] && DowngradeParts(parts[2..]) == parts[2..];
    assert parts[1..][1..] == parts[2..] && DowngradeParts(parts[1..]) == parts[1..];
  }

  lemma SurvivorFields()
    ensures DowngradeParts(SURVIVOR_FIELDS) == [[0x34, 0x38], [0x35], [0x33, 0x38]] + SURVIVOR_FIELDS[5..]
    ensures HasTruecolor(DowngradeParts(SURVIVOR_FIELDS))
  {
    PaletteEntry38();
    SmallNumbers();
    LargeNumbers();
    SelectorsParse();
    hide ParseByte, Nearest, HasTruecolor, DowngradeParts;
    var parts := SURVIVOR_FIELDS;
    assert TruecolorAtFront(parts) && PaletteIndex(parts) == 38 && RgbFollows(parts[5..]);
    NothingFollowsTheEnd(parts[5..]);
    DowngradeGroup(parts);
    RecreatesAtFront(parts);
    SurvivorsAreRecreated(parts);
  }

  lemma DowngradeGroup(parts: seq<seq<Byte>>)
    requires TruecolorAtFront(parts)
    ensures DowngradeParts(parts)
            == [parts[0], PALETTE_SELECTOR, Decimal.Digits(PaletteIndex(parts))] + DowngradeParts(parts[5..])
  {
    hide PaletteIndex, ParseByte;
  }

  lemma RecreatesAtFront(parts: seq<seq<Byte>>)
    requires TruecolorAtFront(parts) && PaletteIndex(parts) == 38 && RgbFollows(parts[5..])
    ensures Recreates(parts)
  {
    hide PaletteIndex, ParseByte;
  }

  /** For example, `48;2;0;175;215;2;1;2;3` becomes `48;5;38;2;1;2;3`, which holds a truecolor group
      again. */
  lemma SurvivorExample()
    ensures DowngradeParams(SURVIVOR) == SURVIVED && HasTruecolorParams(SURVIVED)
  {
    hide Join, Split, DowngradeParts, HasTruecolor, Valid;
    AsciiIsValid(SURVIVOR);
    AsciiIsValid(SURVIVED);
    SurvivorIsJoined();
    SurvivedIsJoined();
    SurvivorFields();
    SplitJoin(SURVIVOR_FIELDS);
    SplitJoin(DowngradeParts(SURVIVOR_FIELDS));
  }

  function TotalLength(parts: seq<seq<Byte>>): nat {
    if parts == [] then 0 else |parts[0]| + 1 + TotalLength(parts[1..])
  }

  lemma {:induction false} JoinLength(parts: seq<seq<Byte>>)
    requires parts != []
    ensures |Join(parts)| + 1 == TotalLength(parts)
  {
    if |parts| > 1 {
      JoinLength(parts[1..]);
    }
  }

  lemma GroupLength(parts: seq<seq<Byte>>)
    requires TruecolorAtFront(parts)
    ensures TotalLength(parts) >= 11 + TotalLength(parts[5..])
  {
    assert parts[1..][1..] == parts[2..] && parts[2..][1..] == parts[3..];
    assert parts[3..][1..] == parts[4..] && parts[4..][1..] == parts[5..];
    assert parts[2] == parts[1..][1] && parts[3] == parts[1..][2] && parts[4] == parts[1..][3];
    assert TotalLength(parts) == |parts[0]| + 1 + TotalLength(parts[1..]);
    assert TotalLength(parts[1..]) == |parts[1]| + 1 + TotalLength(parts[2..]);
    assert TotalLength(parts[2..]) == |parts[2]| + 1 + TotalLength(parts[3..]);
    assert TotalLength(parts[3..]) == |parts[3]| + 1 + TotalLength(parts[4..]);
    assert TotalLength(parts[4..]) == |parts[4]| + 1 + TotalLength(parts[5..]);
  }

  lemma PaletteGroupLength(target: seq<Byte>, n: Byte, rest: seq<seq<Byte>>)
    requires IsColorTarget(target)
    ensures TotalLength([target, PALETTE_SELECTOR, Decimal.Digits(n)] + rest) <= 9 + TotalLength(rest)
  {
    var digits := Decimal.Digits(n);
    Decimal.DigitsOfByte(n);
    var all := [target, PALETTE_SELECTOR, digits] + rest;
    assert all[1..] == [PALETTE_SELECTOR, digits] + rest;
    assert all[1..][1..] == [digits] + rest;
    assert ([digits] + rest)[1..] == rest;
    assert |target| == 2 && |PALETTE_SELECTOR| == 1;
    assert TotalLength([digits] + rest) == |digits| + 1 + TotalLength(rest);
    assert TotalLength(all[1..]) == 2 + TotalLength([digits] + rest);
    assert TotalLength(all) == 3 + TotalLength(all[1..]);
  }

  lemma {:induction false} TotalLengthShrinks(parts: seq<seq<Byte>>)
    ensures TotalLength(DowngradeParts(parts)) <= TotalLength(parts)
    ensures HasTruecolor(parts) ==> TotalLength(DowngradeParts(parts)) < TotalLength(parts)
  {
    if parts != [] {
      HasTruecolorStep(parts);
      if TruecolorAtFront(parts) {
        TotalLengthShrinks(parts[5..]);
        GroupLength(parts);
        PaletteGroupLength(parts[0], PaletteIndex(parts), DowngradeParts(parts[5..]));
      } else {
        TotalLengthShrinks(parts[1..]);
        assert DowngradeParts(parts)[1..] == DowngradeParts(parts[1..]);
      }
    }
  }

  /** Parameters change exactly when they hold a truecolor group, and then they get shorter. */
  lemma ParamsChangeExactlyWithTruecolor(params: seq<Byte>)
    ensures |DowngradeParams(params)| <= |params|
    ensures HasTruecolorParams(params) ==> |DowngradeParams(params)| < |params|
    ensures !HasTruecolorParams(params) ==> DowngradeParams(params) == params
  {
    if Valid(params) {
      var parts := Split(params);
      JoinSplit(params);
      JoinLength(parts);
      JoinLength(DowngradeParts(parts));
      TotalLengthShrinks(parts);
      DowngradeOnlyShortens(parts);
    }
  }

  /** Parameter bytes that neither end a control sequence nor start one. */
  predicate IsInner(b: Byte) { !(0x40 <= b <= 0x7E) && b != 0x1B }

  ghost predicate AllInner(bs: seq<Byte>) {
    forall i | 0 <= i < |bs| :: IsInner(bs[i])
  }

  /** What every part of the output inherits from the parts of the input. */
  ghost predicate WellMade(part: seq<Byte>, inner: bool) {
    SEMICOLON !in part && Valid(part) && (inner ==> AllInner(part))
  }

  lemma FixedPartsAreWellMade(n: Byte, inner: bool)
    ensures WellMade(PALETTE_SELECTOR, inner) && WellMade(Decimal.Digits(n), inner)
  {
    DigitsAreValid(Decimal.Digits(n));
    DigitsAreValid(PALETTE_SELECTOR);
  }

  lemma {:induction false} DowngradedPartsAreWellMade(parts: seq<seq<Byte>>, inner: bool, i: nat)
    requires i < |DowngradeParts(parts)| && forall k | 0 <= k < |parts| :: WellMade(parts[k], inner)
    ensures WellMade(DowngradeParts(parts)[i], inner)
  {
    hide WellMade, PaletteIndex, Decimal.Digits;
    if TruecolorAtFront(parts) {
      FixedPartsAreWellMade(PaletteIndex(parts), inner);
      if i >= 3 {
        assert forall k | 0 <= k < |parts[5..]| :: parts[5..][k] == parts[k + 5];
        DowngradedPartsAreWellMade(parts[5..], inner, i - 3);
      }
    } else if i >= 1 {
      assert forall k | 0 <= k < |parts[1..]| :: parts[1..][k] == parts[k + 1];
      DowngradedPartsAreWellMade(parts[1..], inner, i - 1);
    }
  }

  lemma {:induction false} JoinIsInner(parts: seq<seq<Byte>>)
    requires parts != []
    ensures AllInner(Join(parts)) <==> forall k | 0 <= k < |parts| :: AllInner(parts[k])
  {
    if |parts| == 1 {
    } else {
      JoinIsInner(parts[1..]);
      var all := Join(parts);
      var rest := Join(parts[1..]);
      assert all[..|parts[0]|] == parts[0] && all[|parts[0]| + 1..] == rest;
      assert AllInner(all) <==> AllInner(parts[0]) && AllInner(rest) by {
        if AllInner(parts[0]) && AllInner(rest) {
          forall i | 0 <= i < |all|
            ensures IsInner(all[i])
          {
            if i < |parts[0]| {
              assert all[i] == parts[0][i];
            } else if i > |parts[0]| {
              assert all[i] == rest[i - |parts[0]| - 1];
            }
          }
        }
        if AllInner(all) {
          assert forall i | 0 <= i < |rest| :: rest[i] == all[i + |parts[0]| + 1];
          assert forall i | 0 <= i < |parts[0]| :: parts[0][i] == all[i];
        }
      }
      if forall k | 0 <= k < |parts[1..]| :: AllInner(parts[1..][k]) {
        assert forall k | 1 <= k < |parts| :: parts[k] == parts[1..][k - 1];
      }
    }
  }

  /** The output splits into the rewritten parts again, is well-formed and stays inner. */
  lemma DowngradedParams(params: seq<Byte>)
    requires Valid(params)
    ensures Valid(DowngradeParams(params))
    ensures Split(DowngradeParams(params)) == DowngradeParts(Split(params))
    ensures AllInner(params) ==> AllInner(DowngradeParams(params))
  {
    var parts := Split(params);
    var out := DowngradeParts(parts);
    JoinSplit(params);
    JoinIsValid(parts);
    JoinIsInner(parts);
    forall i | 0 <= i < |out|
      ensures WellMade(out[i], false) && WellMade(out[i], AllInner(params))
    {
      DowngradedPartsAreWellMade(parts, false, i);
      DowngradedPartsAreWellMade(parts, AllInner(params), i);
    }
    JoinIsValid(out);
    JoinIsInner(out);
    SplitJoin(out);
  }

  /** A second rewrite changes something exactly when the first one re-created a group. */
  lemma TwiceIsOnceUnlessRecreated(params: seq<Byte>)
    ensures DowngradeParams(DowngradeParams(params)) == DowngradeParams(params) <==> !RecreatesParams(params)
    ensures HasTruecolorParams(DowngradeParams(params)) <==> RecreatesParams(params)
  {
    if Valid(params) {
      DowngradedParams(params);
      SurvivorsAreRecreated(Split(params));
      ParamsChangeExactlyWithTruecolor(DowngradeParams(params));
    }
  }

  /** Truecolor parameters exist for every colour. */
  function TruecolorParams(target: seq<Byte>, rgb: Rgb): seq<Byte> {
    Join([target, RGB_SELECTOR, Decimal.Digits(rgb.r), Decimal.Digits(rgb.g), Decimal.Digits(rgb.b)])
  }

  lemma TruecolorPartsAre(target: seq<Byte>, rgb: Rgb)
    requires IsColorTarget(target)
    ensures var parts := [target, RGB_SELECTOR, Decimal.Digits(rgb.r), Decimal.Digits(rgb.g), Decimal.Digits(rgb.b)];
            && HasTruecolor(parts)
            && DowngradeParts(parts) == [target, PALETTE_SELECTOR, Decimal.Digits(Nearest(rgb))]
  {
    var parts := [target, RGB_SELECTOR, Decimal.Digits(rgb.r), Decimal.Digits(rgb.g), Decimal.Digits(rgb.b)];
    SmallNumberParses(rgb.r);
    SmallNumberParses(rgb.g);
    SmallNumberParses(rgb.b);
    hide ParseByte, Decimal.Digits, Nearest;
    assert parts[0..] == parts && TruecolorAtFront(parts);
    assert parts[5..] == [];
  }

  lemma WellMadeJoined(parts: seq<seq<Byte>>)
    requires parts != [] && forall i | 0 <= i < |parts| :: WellMade(parts[i], true)
    ensures Split(Join(parts)) == parts && Valid(Join(parts)) && AllInner(Join(parts))
  {
    hide Join, Split, Valid, AllInner;
    assert forall i | 0 <= i < |parts| :: SEMICOLON !in parts[i];
    SplitJoin(parts);
    JoinIsValid(parts);
    JoinIsInner(parts);
  }

  lemma TargetsAreWellMade(target: seq<Byte>)
    requires IsColorTarget(target)
    ensures WellMade(target, true) && WellMade(RGB_SELECTOR, true)
  {
    DigitsAreValid(RGB_SELECTOR);
    DigitsAreValid(target);
    hide Valid;
  }

  lemma FiveAreWellMade(a: seq<Byte>, b: seq<Byte>, c: seq<Byte>, d: seq<Byte>, e: seq<Byte>)
    requires WellMade(a, true) && WellMade(b, true) && WellMade(c, true) && WellMade(d, true) && WellMade(e, true)
    ensures forall i | 0 <= i < |[a, b, c, d, e]| :: WellMade([a, b, c, d, e][i], true)
  {
    hide WellMade;
  }

  /** A truecolor group is recognised, and replaced by its target, 5 and the nearest index. */
  lemma TruecolorParamsAreTruecolor(target: seq<Byte>, rgb: Rgb)
    requires IsColorTarget(target)
    ensures HasTruecolorParams(TruecolorParams(target, rgb)) && AllInner(TruecolorParams(target, rgb))
    ensures DowngradeParts(Split(TruecolorParams(target, rgb))) == [target, PALETTE_SELECTOR, Decimal.Digits(Nearest(rgb))]
  {
    hide DowngradeParts, HasTruecolor, Join, Split, Valid, AllInner, WellMade, Decimal.Digits, Nearest, IsColorTarget;
    var r, g, b := Decimal.Digits(rgb.r), Decimal.Digits(rgb.g), Decimal.Digits(rgb.b);
    TruecolorPartsAre(target, rgb);
    TargetsAreWellMade(target);
    FixedPartsAreWellMade(rgb.r, true);
    FixedPartsAreWellMade(rgb.g, true);
    FixedPartsAreWellMade(rgb.b, true);
    FiveAreWellMade(target, RGB_SELECTOR, r, g, b);
    WellMadeJoined([target, RGB_SELECTOR, r, g, b]);
  }
}
