/**
 The output stream of src/terminal.rs. Bytes for a 256-colour terminal pass through a rewriter that
 downgrades the SGR sequences among its control sequences (section 5.4 of ECMA-48) and keeps back the
 tail of a sequence that a write cut short.
 */
module Terminal {
  import opened Utf8
  import opened Wrappers
  import opened Fields
  import Sgr

  const SGR_FINAL: Byte := 0x6D

  predicate IsFinal(b: Byte) { 0x40 <= b <= 0x7E }

  function FirstFinal(bs: seq<Byte>): (r: Option<nat>)
    ensures r.Some? ==> r.value < |bs| && IsFinal(bs[r.value])
  {
    if bs == [] then None
    else if IsFinal(bs[0]) then Some(0)
    else match FirstFinal(bs[1..]) case Some(i) => Some(i + 1) case None => None
  }

  function LastEsc(bs: seq<Byte>): (r: Option<nat>)
    ensures r.Some? ==> r.value < |bs| && bs[r.value] == ESC
  {
    if bs == [] then None
    else if bs[|bs| - 1] == ESC then Some(|bs| - 1)
    else LastEsc(bs[..|bs| - 1])
  }

  lemma {:induction false} FirstFinalMeans(bs: seq<Byte>)
    ensures match FirstFinal(bs)
            case Some(k) => forall i | 0 <= i < k :: !IsFinal(bs[i])
            case None => forall i | 0 <= i < |bs| :: !IsFinal(bs[i])
  {
    if bs != [] && !IsFinal(bs[0]) {
      FirstFinalMeans(bs[1..]);
      assert forall i | 1 <= i < |bs| :: bs[i] == bs[1..][i - 1];
    }
  }

  lemma {:induction false} LastEscMeans(bs: seq<Byte>)
    ensures match LastEsc(bs)
            case Some(k) => forall i | k < i < |bs| :: bs[i] != ESC
            case None => ESC !in bs
  {
    if bs != [] && bs[|bs| - 1] != ESC {
      LastEscMeans(bs[..|bs| - 1]);
    }
  }

  /** How much of the bytes may be written out now. */
  function CompleteCsiLen(bs: seq<Byte>): (n: nat)
    ensures n <= |bs| && (n < |bs| ==> bs[n] == ESC)
  {
    match LastEsc(bs)
    case None => |bs|
    case Some(esc) =>
      if esc + 1 == |bs| then esc
      else if bs[esc + 1] == BRACKET && FirstFinal(bs[esc + 2..]).None? then esc
      else |bs|
  }

  /** The length of the control sequence that is complete at the front, or 0. */
  function CsiLen(bs: seq<Byte>): (n: nat)
    ensures n == 0 || 3 <= n <= |bs|
    ensures n > 0 ==> bs[0] == ESC && bs[1] == BRACKET && IsFinal(bs[n - 1])
  {
    if |bs| >= 2 && bs[0] == ESC && bs[1] == BRACKET then
      match FirstFinal(bs[2..])
      case Some(k) => k + 3
      case None => 0
    else 0
  }

  function DowngradeCsi(csi: seq<Byte>): seq<Byte>
    requires |csi| >= 3
  {
    if csi[|csi| - 1] == SGR_FINAL then
      [ESC, BRACKET] + Sgr.DowngradeParams(csi[2..|csi| - 1]) + [SGR_FINAL]
    else csi
  }

  /** The loop takes a complete control sequence, or else one byte, and writes it out. */
  function FrontLen(bs: seq<Byte>): (n: nat)
    requires bs != []
    ensures 1 <= n <= |bs|
  {
    if CsiLen(bs) > 0 then CsiLen(bs) else 1
  }

  function FrontOut(bs: seq<Byte>): seq<Byte>
    requires bs != []
  {
    if CsiLen(bs) > 0 then DowngradeCsi(bs[..CsiLen(bs)]) else [bs[0]]
  }

  function Rewrite(bs: seq<Byte>): seq<Byte> {
    if bs == [] then [] else FrontOut(bs) + Rewrite(bs[FrontLen(bs)..])
  }

  /** What one write appends to the output, and the tail it keeps back. */
  datatype Written = Written(out: seq<Byte>, pending: seq<Byte>)

  function Write(pending: seq<Byte>, buf: seq<Byte>): Written {
    var joined := pending + buf;
    var n := CompleteCsiLen(joined);
    Written(Rewrite(joined[..n]), joined[n..])
  }

  lemma CsiStarts(csi: seq<Byte>)
    requires CsiLen(csi) > 0
    ensures 3 <= CsiLen(csi) <= |csi| && csi[0] == ESC && csi[1] == BRACKET
  {
  }

  method RewriteToken(csi: seq<Byte>) returns (token: seq<Byte>)
    requires CsiLen(csi) == |csi| > 0
    ensures token == DowngradeCsi(csi)
  {
    hide CsiLen, FirstFinal, Valid, Fields.Split, Fields.Join, Sgr.DowngradeParts;
    CsiStarts(csi);
    var end := |csi| - 1;
    if csi[end] == SGR_FINAL && Valid(csi[2..end]) {
      var params := Sgr.DowngradeSgrParams(csi[2..end]);
      token := [ESC, BRACKET] + params + [SGR_FINAL];
    } else {
      token := csi;
      assert [ESC, BRACKET] + csi[2..end] + [csi[end]] == csi;
    }
  }

  /** Where the sequence introduced at idx ends, searched only among the bytes to be written. */
  function EndOffset(bytes: seq<Byte>, idx: nat, completeLen: nat): (r: Option<nat>)
    requires idx < completeLen == CompleteCsiLen(bytes)
    ensures r.Some? ==> idx + 2 + r.value < completeLen
  {
    if bytes[idx] == ESC && idx + 1 < |bytes| && bytes[idx + 1] == BRACKET then
      FirstFinal(bytes[idx + 2..completeLen])
    else None
  }

  lemma FrontAt(bytes: seq<Byte>, idx: nat, completeLen: nat) returns (next: nat)
    requires idx < completeLen == CompleteCsiLen(bytes)
    ensures var full, e := bytes[..completeLen], EndOffset(bytes, idx, completeLen);
            && next == (if e.Some? then idx + 2 + e.value + 1 else idx + 1) <= completeLen
            && (e.Some? ==> CsiLen(bytes[idx..next]) == next - idx)
            && Rewrite(full[idx..])
               == (if e.Some? then DowngradeCsi(bytes[idx..next]) else [bytes[idx]]) + Rewrite(full[next..])
  {
    var here := bytes[..completeLen][idx..];
    if bytes[idx] == ESC && idx + 1 < |bytes| && bytes[idx + 1] == BRACKET {
      assert here[2..] == bytes[idx + 2..completeLen];
    }
    next := idx + FrontLen(here);
    assert here[FrontLen(here)..] == bytes[..completeLen][next..];
    assert here[..FrontLen(here)] == bytes[idx..next];
    if CsiLen(here) > 0 {
      CompleteCsiIsItself(here);
    }
  }

  lemma NothingLeft(bytes: seq<Byte>, n: nat)
    requires n <= |bytes|
    ensures Rewrite(bytes[..n][n..]) == [] && bytes[..n][0..] == bytes[..n]
  {
  }

  /** One turn of the loop: the next token and where to go on. */
  method RewriteNext(bytes: seq<Byte>, idx: nat, completeLen: nat) returns (token: seq<Byte>, next: nat)
    requires idx < completeLen == CompleteCsiLen(bytes)
    ensures idx < next <= completeLen
    ensures Rewrite(bytes[..completeLen][idx..]) == token + Rewrite(bytes[..completeLen][next..])
  {
    hide *;
    ghost var after := FrontAt(bytes, idx, completeLen);
    var endOffset := EndOffset(bytes, idx, completeLen);
    if endOffset.Some? {
      next := idx + 2 + endOffset.value + 1;
      token := RewriteToken(bytes[idx..next]);
    } else {
      next := idx + 1;
      token := [bytes[idx]];
    }
  }

  method RewriteComplete(bytes: seq<Byte>, completeLen: nat) returns (out: seq<Byte>)
    requires completeLen == CompleteCsiLen(bytes)
    ensures out == Rewrite(bytes[..completeLen])
  {
    NothingLeft(bytes, completeLen);
    out := [];
    var idx := 0;
    ghost var rest := Rewrite(bytes[..completeLen]);
    while idx < completeLen
      invariant 0 <= idx <= completeLen
      invariant rest == Rewrite(bytes[..completeLen][idx..])
      invariant out + rest == Rewrite(bytes[..completeLen])
    {
      var token, next := RewriteNext(bytes, idx, completeLen);
      rest := Rewrite(bytes[..completeLen][next..]);
      ConcatAssociates(out, token, rest);
      out, idx := out + token, next;
    }
    assert rest == [];
  }

  method DowngradeTruecolorSgrStream(buf: seq<Byte>, pending: seq<Byte>) returns (out: seq<Byte>, pending': seq<Byte>)
    ensures Written(out, pending') == Write(pending, buf)
  {
    var bytes := if pending != [] then pending + buf else buf;
    assert bytes == pending + buf;
    var completeLen := CompleteCsiLen(bytes);
    out := RewriteComplete(bytes, completeLen);
    pending' := bytes[completeLen..];
  }

  lemma CompleteCsiIsItself(bs: seq<Byte>)
    requires CsiLen(bs) > 0
    ensures CsiLen(bs[..CsiLen(bs)]) == CsiLen(bs)
  {
    var n := CsiLen(bs);
    FirstFinalMeans(bs[2..]);
    assert forall i | 0 <= i < n - 2 :: bs[..n][2..][i] == bs[2..][i];
    FirstFinalIs(bs[..n][2..], n - 3);
  }

  datatype ColorMode = Ansi256 | Truecolor

  class SharedBuffer {
    var inner: seq<Byte>
    var colorMode: ColorMode
    var pending: seq<Byte>

    constructor (colorMode: ColorMode)
      ensures inner == [] && pending == [] && this.colorMode == colorMode
    {
      inner, pending, this.colorMode := [], [], colorMode;
    }

    method SetColorMode(colorMode: ColorMode)
      modifies this
      ensures this.colorMode == colorMode && inner == old(inner) && pending == old(pending)
    {
      this.colorMode := colorMode;
    }

    method Take() returns (taken: seq<Byte>)
      modifies this
      ensures taken == old(inner) && inner == []
      ensures pending == old(pending) && colorMode == old(colorMode)
    {
      taken := inner;
      inner := [];
    }

    method WriteBytes(buf: seq<Byte>) returns (n: nat)
      modifies this
      ensures n == |buf| && colorMode == old(colorMode)
      ensures colorMode == Truecolor ==> inner == old(inner) + buf && pending == old(pending)
      ensures colorMode == Ansi256 ==>
                && inner == old(inner) + Write(old(pending), buf).out
                && pending == Write(old(pending), buf).pending
    {
      match colorMode {
        case Truecolor =>
          inner := inner + buf;
        case Ansi256 =>
          var out, rest := DowngradeTruecolorSgrStream(buf, pending);
          inner, pending := inner + out, rest;
      }
      n := |buf|;
    }
  }

  // ----- The tail kept back

  /** Nothing, a lone ESC, or an introducer whose sequence has not ended; never a second ESC. */
  ghost predicate PendingShape(p: seq<Byte>) {
    || p == []
    || p == [ESC]
    || (|p| >= 2 && p[0] == ESC && p[1] == BRACKET && FirstFinal(p[2..]).None? && ESC !in p[1..])
  }

  lemma KeptFrom(joined: seq<Byte>)
    ensures PendingShape(joined[CompleteCsiLen(joined)..])
  {
    var n := CompleteCsiLen(joined);
    var p := joined[n..];
    if n < |joined| {
      LastEscMeans(joined);
      assert forall i | 1 <= i < |p| :: p[i] == joined[n + i];
      if |p| >= 2 {
        assert p[2..] == joined[n + 2..];
      }
    }
  }

  /** Whatever was pending and whatever is written, what is kept back is an open sequence, and every
      byte is either handled or kept. */
  lemma PendingIsAnOpenSequence(pending: seq<Byte>, buf: seq<Byte>)
    ensures PendingShape(Write(pending, buf).pending)
    ensures exists done: seq<Byte> ::
              done + Write(pending, buf).pending == pending + buf && Write(pending, buf).out == Rewrite(done)
  {
    var joined := pending + buf;
    KeptFrom(joined);
    var done := joined[..CompleteCsiLen(joined)];
    assert done + joined[CompleteCsiLen(joined)..] == joined;
  }

  // ----- Writing in chunks

  /** All output of a sequence of writes to a fresh buffer, and what is pending at the end. */
  function WriteAll(chunks: seq<seq<Byte>>): Written {
    if chunks == [] then Written([], [])
    else
      var before := WriteAll(chunks[..|chunks| - 1]);
      var last := Write(before.pending, chunks[|chunks| - 1]);
      Written(before.out + last.out, last.pending)
  }

  // The reference: one pass from the left that stops at the first sequence it cannot finish.

  /** A control sequence begins here and does not end. */
  predicate Opens(bs: seq<Byte>) {
    bs != [] && bs[0] == ESC && (|bs| == 1 || (bs[1] == BRACKET && FirstFinal(bs[2..]).None?))
  }

  function Tail(bs: seq<Byte>): seq<Byte> {
    if bs == [] || Opens(bs) then bs else Tail(bs[FrontLen(bs)..])
  }

  function Body(bs: seq<Byte>): seq<Byte> {
    if bs == [] || Opens(bs) then [] else FrontOut(bs) + Body(bs[FrontLen(bs)..])
  }

  /** No ESC between the introducer of a control sequence and its final byte. */
  predicate Clean(bs: seq<Byte>) {
    if bs == [] then true
    else if Opens(bs) then ESC !in bs[1..]
    else ESC !in bs[1..FrontLen(bs)] && Clean(bs[FrontLen(bs)..])
  }

  lemma FirstFinalIs(bs: seq<Byte>, k: nat)
    requires k < |bs| && IsFinal(bs[k]) && forall i | 0 <= i < k :: !IsFinal(bs[i])
    ensures FirstFinal(bs) == Some(k)
  {
    FirstFinalMeans(bs);
  }

  lemma {:induction false} FirstFinalOfPrefix(bs: seq<Byte>, m: nat)
    requires m <= |bs| && FirstFinal(bs).Some? && FirstFinal(bs).value < m
    ensures FirstFinal(bs[..m]) == FirstFinal(bs)
  {
    if !IsFinal(bs[0]) {
      FirstFinalOfPrefix(bs[1..], m - 1);
      assert bs[..m][1..] == bs[1..][..m - 1];
    }
  }

  lemma FirstFinalIsStable(a: seq<Byte>, b: seq<Byte>)
    requires FirstFinal(a).Some?
    ensures FirstFinal(a + b) == FirstFinal(a)
  {
    if !IsFinal(a[0]) {
      assert (a + b)[1..] == a[1..] + b;
      FirstFinalIsStable(a[1..], b);
    }
  }

  lemma CsiLenIsStable(a: seq<Byte>, b: seq<Byte>)
    requires a != [] && !Opens(a)
    ensures CsiLen(a + b) == CsiLen(a) && !Opens(a + b)
  {
    if CsiLen(a) > 0 {
      assert (a + b)[2..] == a[2..] + b;
      FirstFinalIsStable(a[2..], b);
    }
  }

  /** What is decided at the front is not changed by more bytes. */
  lemma FrontIsStable(a: seq<Byte>, b: seq<Byte>)
    requires a != [] && !Opens(a)
    ensures !Opens(a + b) && FrontLen(a + b) == FrontLen(a) && FrontOut(a + b) == FrontOut(a)
    ensures (a + b)[..FrontLen(a)] == a[..FrontLen(a)] && (a + b)[FrontLen(a)..] == a[FrontLen(a)..] + b
  {
    CsiLenIsStable(a, b);
    var n := FrontLen(a);
    assert (a + b)[..n] == a[..n];
    assert (a + b)[n..] == a[n..] + b;
  }

  /** The reference does not care where its input is cut. */
  lemma {:induction false} ScanSplits(a: seq<Byte>, b: seq<Byte>)
    ensures Tail(a + b) == Tail(Tail(a) + b)
    ensures Body(a + b) == Body(a) + Body(Tail(a) + b)
    decreases |a|
  {
    if a == [] || Opens(a) {
      assert Tail(a) == a;
    } else {
      FrontIsStable(a, b);
      var n := FrontLen(a);
      ScanSplits(a[n..], b);
      ConcatAssociates(FrontOut(a), Body(a[n..]), Body(Tail(a[n..]) + b));
    }
  }

  lemma LastEscIs(bs: seq<Byte>, i: nat)
    requires i < |bs| && bs[i] == ESC && forall j | i < j < |bs| :: bs[j] != ESC
    ensures LastEsc(bs) == Some(i)
  {
    LastEscMeans(bs);
    assert bs[i] in bs;
  }

  lemma FrontHoldsOneEsc(bs: seq<Byte>, j: nat)
    requires bs != [] && !Opens(bs) && Clean(bs) && 0 < j < FrontLen(bs)
    ensures bs[j] != ESC
  {
    assert bs[j] == bs[1..FrontLen(bs)][j - 1];
  }

  lemma CompleteLenWithoutLaterEsc(bs: seq<Byte>)
    requires bs != [] && !Opens(bs) && ESC !in bs[1..]
    ensures CompleteCsiLen(bs) == |bs|
  {
    assert forall j | 0 < j < |bs| :: bs[j] == bs[1..][j - 1];
    LastEscMeans(bs);
    if bs[0] == ESC {
      LastEscIs(bs, 0);
    }
  }

  lemma CompleteLenWithLaterEsc(bs: seq<Byte>, n: nat)
    requires n <= |bs| && ESC in bs[n..]
    ensures CompleteCsiLen(bs) == n + CompleteCsiLen(bs[n..])
  {
    var rest := bs[n..];
    LastEscMeans(rest);
    var i := LastEsc(rest).value;
    assert forall j | n <= j < |bs| :: bs[j] == rest[j - n];
    LastEscIs(bs, n + i);
    if i + 1 < |rest| {
      assert bs[n + i + 2..] == rest[i + 2..];
    }
  }

  /** In clean input the front never hides the last ESC from the length computation. */
  lemma CompleteLenSkipsFront(bs: seq<Byte>)
    requires bs != [] && !Opens(bs) && Clean(bs)
    ensures CompleteCsiLen(bs) == FrontLen(bs) + CompleteCsiLen(bs[FrontLen(bs)..])
  {
    var n := FrontLen(bs);
    if ESC in bs[n..] {
      CompleteLenWithLaterEsc(bs, n);
    } else {
      forall j | 0 <= j < |bs[1..]|
        ensures bs[1..][j] != ESC
      {
        var k := j + 1;
        assert bs[1..][j] == bs[k];
        if k < n {
          FrontHoldsOneEsc(bs, k);
        } else {
          assert bs[n..][k - n] == bs[k] && bs[n..][k - n] in bs[n..];
        }
      }
      CompleteLenWithoutLaterEsc(bs);
      LastEscMeans(bs[n..]);
    }
  }

  /** A front that is complete in a prefix is the front of the prefix. */
  lemma FrontOfPrefix(bs: seq<Byte>, m: nat)
    requires bs != [] && !Opens(bs) && FrontLen(bs) <= m <= |bs|
    ensures FrontLen(bs[..m]) == FrontLen(bs) && FrontOut(bs[..m]) == FrontOut(bs)
  {
    hide DowngradeCsi, FirstFinal;
    var n := FrontLen(bs);
    var cut := bs[..m];
    if CsiLen(bs) > 0 {
      assert cut[2..] == bs[2..][..m - 2];
      FirstFinalOfPrefix(bs[2..], m - 2);
      assert cut[..n] == bs[..n];
    } else {
      assert CsiLen(cut) == 0;
    }
  }

  lemma RewriteFront(bs: seq<Byte>, m: nat)
    requires bs != [] && !Opens(bs) && FrontLen(bs) <= m <= |bs|
    ensures Rewrite(bs[..m]) == FrontOut(bs) + Rewrite(bs[FrontLen(bs)..m])
  {
    hide FrontLen, FrontOut, Opens;
    FrontOfPrefix(bs, m);
    assert bs[..m][FrontLen(bs)..] == bs[FrontLen(bs)..m];
  }

  lemma WriteFresh(bs: seq<Byte>)
    ensures Write([], bs) == Written(Rewrite(bs[..CompleteCsiLen(bs)]), bs[CompleteCsiLen(bs)..])
  {
    assert [] + bs == bs;
  }

  /** A write handles the front and goes on with the rest. */
  lemma WriteSkipsFront(bs: seq<Byte>)
    requires bs != [] && !Opens(bs) && Clean(bs)
    ensures var rest := Write([], bs[FrontLen(bs)..]);
            Write([], bs) == Written(FrontOut(bs) + rest.out, rest.pending)
  {
    hide Rewrite, CompleteCsiLen, FrontOut, Clean, Opens, Write;
    var n := FrontLen(bs);
    var rest := bs[n..];
    CompleteLenSkipsFront(bs);
    var m := CompleteCsiLen(bs);
    RewriteFront(bs, m);
    assert rest[..m - n] == bs[n..m] && rest[m - n..] == bs[m..];
    WriteFresh(bs);
    WriteFresh(rest);
  }

  lemma OpenCompletesNothing(bs: seq<Byte>)
    requires Opens(bs) && ESC !in bs[1..]
    ensures CompleteCsiLen(bs) == 0
  {
    assert forall j | 0 < j < |bs| :: bs[j] == bs[1..][j - 1];
    LastEscIs(bs, 0);
  }

  /** On clean input, looking only at the last ESC finds what the left-to-right pass finds. */
  lemma {:induction false} WriteIsScan(bs: seq<Byte>)
    requires Clean(bs)
    ensures Write([], bs) == Written(Body(bs), Tail(bs))
    decreases |bs|
  {
    if bs == [] {
      WriteFresh(bs);
    } else if Opens(bs) {
      OpenCompletesNothing(bs);
      WriteFresh(bs);
      assert bs[..0] == [] && bs[0..] == bs;
    } else {
      WriteSkipsFront(bs);
      WriteIsScan(bs[FrontLen(bs)..]);
    }
  }

  lemma {:induction false} RewriteIsBodyThenTail(bs: seq<Byte>, more: seq<Byte>)
    ensures Rewrite(bs + more) == Body(bs) + Rewrite(Tail(bs) + more)
    decreases |bs|
  {
    if bs == [] || Opens(bs) {
    } else {
      FrontIsStable(bs, more);
      var n := FrontLen(bs);
      RewriteIsBodyThenTail(bs[n..], more);
      ConcatAssociates(FrontOut(bs), Body(bs[n..]), Rewrite(Tail(bs[n..]) + more));
    }
  }

  /** The control sequence with these parameters and this final byte. */
  function Sequence(params: seq<Byte>, final: Byte): seq<Byte> {
    [ESC, BRACKET] + params + [final]
  }

  function SgrSequence(params: seq<Byte>): seq<Byte> {
    Sequence(params, SGR_FINAL)
  }

  lemma SequenceIsComplete(params: seq<Byte>, final: Byte, more: seq<Byte>)
    requires IsFinal(final) && forall i | 0 <= i < |params| :: !IsFinal(params[i])
    ensures CsiLen(Sequence(params, final) + more) == |Sequence(params, final)| == |params| + 3
    ensures Sequence(params, final)[2..|params| + 2] == params
  {
    var all := Sequence(params, final) + more;
    assert all[2..] == params + [final] + more;
    assert forall i | 0 <= i < |params| :: all[2..][i] == params[i];
    FirstFinalIs(all[2..], |params|);
  }

  lemma OneWrite(a: seq<Byte>)
    ensures WriteAll([a]) == Write([], a)
  {
    assert [a][..0] == [];
    assert [] + Write([], a).out == Write([], a).out;
  }

  /** Bytes without ESC are clean, and so are control sequences without one inside, before clean bytes. */
  lemma {:induction false} PlainIsClean(bs: seq<Byte>)
    requires ESC !in bs
    ensures Clean(bs)
    decreases |bs|
  {
    if bs != [] {
      assert bs[0] in bs;
      assert forall i | 0 <= i < |bs[1..]| :: bs[1..][i] == bs[i + 1] && bs[i + 1] in bs;
      PlainIsClean(bs[1..]);
    }
  }

  lemma SequenceIsClean(params: seq<Byte>, final: Byte, more: seq<Byte>)
    requires IsFinal(final) && Sgr.AllInner(params) && Clean(more)
    ensures Clean(Sequence(params, final) + more)
  {
    var csi := Sequence(params, final);
    SequenceIsComplete(params, final, more);
    var all := csi + more;
    assert all[..|csi|] == csi && all[|csi|..] == more && !Opens(all);
    forall i | 1 <= i < |csi|
      ensures all[i] != ESC
    {
      assert 2 <= i < |csi| - 1 ==> all[i] == params[i - 2];
    }
  }

  // ----- What a rewrite changes

  ghost predicate TruecolorToken(token: seq<Byte>) {
    |token| >= 3 && token[|token| - 1] == SGR_FINAL && Sgr.HasTruecolorParams(token[2..|token| - 1])
  }

  predicate RecreatingToken(token: seq<Byte>) {
    |token| >= 3 && token[|token| - 1] == SGR_FINAL && Sgr.RecreatesParams(token[2..|token| - 1])
  }

  /** The control sequences and single bytes the loop goes through. */
  function Tokens(bs: seq<Byte>): seq<seq<Byte>> {
    if bs == [] then [] else [bs[..FrontLen(bs)]] + Tokens(bs[FrontLen(bs)..])
  }

  ghost predicate HasTruecolorToken(bs: seq<Byte>) {
    exists i :: 0 <= i < |Tokens(bs)| && TruecolorToken(Tokens(bs)[i])
  }

  ghost predicate HasRecreatingToken(bs: seq<Byte>) {
    exists i :: 0 <= i < |Tokens(bs)| && RecreatingToken(Tokens(bs)[i])
  }

  lemma FrontChangesExactlyWithTruecolor(bs: seq<Byte>)
    requires bs != []
    ensures |FrontOut(bs)| <= FrontLen(bs)
    ensures TruecolorToken(bs[..FrontLen(bs)]) ==> |FrontOut(bs)| < FrontLen(bs)
    ensures !TruecolorToken(bs[..FrontLen(bs)]) ==> FrontOut(bs) == bs[..FrontLen(bs)]
  {
    hide Sgr.DowngradeParams, Sgr.HasTruecolorParams, CsiLen;
    var token := bs[..FrontLen(bs)];
    if CsiLen(bs) > 0 && token[|token| - 1] == SGR_FINAL {
      var params := token[2..|token| - 1];
      Sgr.ParamsChangeExactlyWithTruecolor(params);
      assert [ESC, BRACKET] + params + [SGR_FINAL] == token;
    }
  }

  ghost predicate OnlyTruecolorChanged(tokens: seq<seq<Byte>>, outs: seq<seq<Byte>>) {
    && |outs| == |tokens|
    && forall i | 0 <= i < |outs| :: outs[i] != tokens[i] <==> TruecolorToken(tokens[i])
  }

  lemma OnlyTruecolorChangedStep(token: seq<Byte>, out: seq<Byte>, tokens: seq<seq<Byte>>, outs: seq<seq<Byte>>)
    requires OnlyTruecolorChanged(tokens, outs) && (out != token <==> TruecolorToken(token))
    ensures OnlyTruecolorChanged([token] + tokens, [out] + outs)
  {
  }

  /** Token by token and in order, exactly the SGR sequences with a truecolor group change. */
  lemma {:induction false} RewriteIsTokenwise(bs: seq<Byte>) returns (outs: seq<seq<Byte>>)
    ensures Concat(Tokens(bs)) == bs && Concat(outs) == Rewrite(bs)
    ensures OnlyTruecolorChanged(Tokens(bs), outs)
    decreases |bs|
  {
    hide DowngradeCsi, FrontOut, FrontLen, CsiLen, TruecolorToken;
    if bs == [] {
      outs := [];
    } else {
      var n := FrontLen(bs);
      var rest := RewriteIsTokenwise(bs[n..]);
      FrontChangesExactlyWithTruecolor(bs);
      OnlyTruecolorChangedStep(bs[..n], FrontOut(bs), Tokens(bs[n..]), rest);
      outs := [FrontOut(bs)] + rest;
      assert bs[..n] + bs[n..] == bs;
    }
  }

  lemma TokensStep(bs: seq<Byte>)
    requires bs != []
    ensures HasTruecolorToken(bs) <==> TruecolorToken(bs[..FrontLen(bs)]) || HasTruecolorToken(bs[FrontLen(bs)..])
    ensures HasRecreatingToken(bs) <==> RecreatingToken(bs[..FrontLen(bs)]) || HasRecreatingToken(bs[FrontLen(bs)..])
  {
    hide FrontLen, TruecolorToken, RecreatingToken;
    var all, rest := Tokens(bs), Tokens(bs[FrontLen(bs)..]);
    assert all[0] == bs[..FrontLen(bs)];
    assert forall i | 1 <= i < |all| :: all[i] == rest[i - 1];
    assert forall i | 0 <= i < |rest| :: rest[i] == all[i + 1];
  }

  lemma RewriteUnrolled(bs: seq<Byte>)
    requires bs != []
    ensures Rewrite(bs) == FrontOut(bs) + Rewrite(bs[FrontLen(bs)..])
  {
    hide FrontOut, FrontLen;
  }

  lemma NothingIsUnchanged()
    ensures Rewrite([]) == [] && !HasTruecolorToken([])
  {
  }

  lemma UnchangedConcat(a: seq<Byte>, a': seq<Byte>, b: seq<Byte>, b': seq<Byte>)
    requires |a'| <= |a| && |b'| <= |b|
    ensures a' + b' == a + b <==> a' == a && b' == b
  {
    if a' + b' == a + b {
      assert |a'| == |a|;
      assert a' == (a' + b')[..|a|] && a == (a + b)[..|a|];
      assert b' == (a' + b')[|a|..] && b == (a + b)[|a|..];
    }
  }

  /** A stream passes through unchanged exactly when it holds no truecolor group. */
  lemma {:induction false} UnchangedExactlyWithoutTruecolor(bs: seq<Byte>)
    ensures |Rewrite(bs)| <= |bs|
    ensures Rewrite(bs) == bs <==> !HasTruecolorToken(bs)
    decreases |bs|
  {
    hide *;
    if bs == [] {
      NothingIsUnchanged();
    } else {
      var n := FrontLen(bs);
      RewriteUnrolled(bs);
      TokensStep(bs);
      UnchangedExactlyWithoutTruecolor(bs[n..]);
      FrontChangesExactlyWithTruecolor(bs);
      assert bs[..n] + bs[n..] == bs;
      UnchangedConcat(bs[..n], FrontOut(bs), bs[n..], Rewrite(bs[n..]));
    }
  }

  // ----- Downgrading twice

  lemma CleanFrontIsInner(bs: seq<Byte>)
    requires Clean(bs) && CsiLen(bs) > 0
    ensures Sgr.AllInner(bs[2..CsiLen(bs) - 1])
    ensures bs[..CsiLen(bs)] == [ESC, BRACKET] + bs[2..CsiLen(bs) - 1] + [bs[CsiLen(bs) - 1]]
  {
    var n := CsiLen(bs);
    FirstFinalMeans(bs[2..]);
    forall i | 2 <= i < n - 1
      ensures Sgr.IsInner(bs[i])
    {
      assert bs[i] == bs[2..][i - 2];
      FrontHoldsOneEsc(bs, i);
    }
  }

  /** The parameters of a sequence after its rewrite. */
  function RewrittenParams(params: seq<Byte>, final: Byte): seq<Byte> {
    if final == SGR_FINAL then Sgr.DowngradeParams(params) else params
  }

  lemma RewrittenParamsStayInner(params: seq<Byte>, final: Byte)
    requires Sgr.AllInner(params)
    ensures Sgr.AllInner(RewrittenParams(params, final))
    ensures TruecolorToken(Sequence(RewrittenParams(params, final), final)) <==> RecreatingToken(Sequence(params, final))
  {
    var after := RewrittenParams(params, final);
    assert Sequence(after, final)[2..|after| + 2] == after;
    assert Sequence(params, final)[2..|params| + 2] == params;
    if final == SGR_FINAL {
      if Valid(params) {
        Sgr.DowngradedParams(params);
      }
      Sgr.TwiceIsOnceUnlessRecreated(params);
    }
  }

  /** A rewritten control sequence is again one, before anything. */
  lemma RewrittenFront(bs: seq<Byte>, more: seq<Byte>)
    requires Clean(bs) && CsiLen(bs) > 0
    ensures CsiLen(FrontOut(bs) + more) == |FrontOut(bs)| > 0
    ensures ESC !in FrontOut(bs)[1..]
    ensures TruecolorToken(FrontOut(bs)) <==> RecreatingToken(bs[..CsiLen(bs)])
  {
    hide Sgr.DowngradeParams, Sgr.HasTruecolorParams, Sgr.RecreatesParams, Clean;
    var n := CsiLen(bs);
    var final, params := bs[n - 1], bs[2..n - 1];
    CleanFrontIsInner(bs);
    assert bs[..n][2..n - 1] == params;
    RewrittenParamsStayInner(params, final);
    var params' := RewrittenParams(params, final);
    assert FrontOut(bs) == Sequence(params', final);
    SequenceIsComplete(params', final, more);
  }

  lemma {:induction false} RewriteKeepsTheFirstByte(bs: seq<Byte>)
    requires bs != []
    ensures Rewrite(bs) != [] && Rewrite(bs)[0] == bs[0]
  {
  }

  /** A byte that was written by itself starts no sequence in the output either. */
  lemma RawFrontStaysRaw(bs: seq<Byte>)
    requires bs != [] && Clean(bs) && CsiLen(bs) == 0 && !Opens(bs)
    ensures var out := Rewrite(bs); out != [] && CsiLen(out) == 0 && !Opens(out) && out[0] == bs[0]
  {
    if |bs| > 1 {
      RewriteKeepsTheFirstByte(bs[1..]);
    }
  }

  /** What complete clean input leaves is complete, clean, and changes under a second rewrite exactly
      when the first re-created a group. */
  lemma {:induction false} RewriteOfRewrite(bs: seq<Byte>)
    requires Clean(bs) && Tail(bs) == []
    ensures Clean(Rewrite(bs)) && Tail(Rewrite(bs)) == []
    ensures HasTruecolorToken(Rewrite(bs)) <==> HasRecreatingToken(bs)
    decreases |bs|
  {
    if bs != [] {
      var n, out := FrontLen(bs), Rewrite(bs);
      var rest := Rewrite(bs[n..]);
      RewriteOfRewrite(bs[n..]);
      TokensStep(bs);
      TokensStep(out);
      if CsiLen(bs) > 0 {
        RewrittenFront(bs, rest);
      } else {
        RawFrontStaysRaw(bs);
      }
      var m := FrontLen(out);
      assert out == FrontOut(bs) + rest && m == |FrontOut(bs)|;
      assert out[..m] == FrontOut(bs) && out[m..] == rest;
      assert out[1..m] == FrontOut(bs)[1..];
    }
  }

  /** On complete clean streams a second pass changes nothing unless a palette index of the first
      re-created a group; then, and only then, a truecolor group survived. */
  lemma TwiceIsOnceExactly(s: seq<Byte>)
    requires Clean(s) && Tail(s) == []
    ensures Write([], s).pending == [] && Write([], Write([], s).out).pending == []
    ensures Write([], Write([], s).out).out == Write([], s).out <==> !HasRecreatingToken(s)
    ensures HasTruecolorToken(Write([], s).out) <==> HasRecreatingToken(s)
  {
    WriteIsScan(s);
    RewriteIsBodyThenTail(s, []);
    assert s + [] == s && Rewrite([] + []) == [];
    var out := Write([], s).out;
    assert out == Rewrite(s);
    RewriteOfRewrite(s);
    WriteIsScan(out);
    RewriteIsBodyThenTail(out, []);
    assert out + [] == out;
    UnchangedExactlyWithoutTruecolor(out);
  }
}
