/**
 Chunk invariance of the output stream of src/terminal.rs: for which streams it makes no difference where
 the writes are cut. Cuts matter only to truecolor sequences, so the reference here looks for those
 wherever they stand, whatever the sequences around them.
 */
module Chunks {
  import opened Utf8
  import opened Wrappers
  import opened Fields
  import opened Terminal
  import Sgr

  /** A complete SGR sequence with a truecolor group stands at the front. */
  ghost predicate StartsTruecolor(bs: seq<Byte>) {
    CsiLen(bs) > 0 && TruecolorToken(bs[..CsiLen(bs)])
  }

  /** The sequence at `i` holds no second ESC, and no sequence introduced before it is still open. */
  ghost predicate Undisturbed(s: seq<Byte>, i: nat)
    requires i <= |s|
  {
    && (forall k | i < k < i + CsiLen(s[i..]) :: s[k] != ESC)
    && (forall j | 0 <= j <= i - 2 && s[j] == ESC && s[j + 1] == BRACKET :: FirstFinal(s[j + 2..i]).Some?)
  }

  ghost predicate Robust(s: seq<Byte>) {
    forall i | 0 <= i <= |s| && StartsTruecolor(s[i..]) :: Undisturbed(s, i)
  }

  ghost predicate ChunksAgree(s: seq<Byte>) {
    forall chunks: seq<seq<Byte>> | Concat(chunks) == s :: WriteAll(chunks) == Write([], s)
  }

  /** Every truecolor sequence is downgraded, wherever it stands, and nothing else is touched. */
  ghost function DowngradeAll(bs: seq<Byte>): seq<Byte> {
    if bs == [] then []
    else if StartsTruecolor(bs) then DowngradeCsi(bs[..CsiLen(bs)]) + DowngradeAll(bs[CsiLen(bs)..])
    else [bs[0]] + DowngradeAll(bs[1..])
  }

  lemma ConcatOne(part: seq<Byte>)
    ensures Concat([part]) == part
  {
    var none: seq<seq<Byte>> := [];
    assert none + [part] == [part];
    ConcatOneMore(none, part);
  }

  // ----- What is kept back does not depend on the cuts

  lemma CompleteExactly(bs: seq<Byte>)
    ensures CompleteCsiLen(bs) == |bs| <==>
              match LastEsc(bs)
              case None => true
              case Some(l) => l + 1 < |bs| && !(bs[l + 1] == BRACKET && FirstFinal(bs[l + 2..]).None?)
  {
    hide LastEsc, FirstFinal;
  }

  lemma LastEscInMore(p: seq<Byte>, b: seq<Byte>)
    requires ESC !in b
    ensures LastEsc(p + b) == LastEsc(p)
  {
    var all := p + b;
    LastEscMeans(p);
    LastEscMeans(all);
    assert forall i | |p| <= i < |all| :: all[i] == b[i - |p|];
    if LastEsc(p).Some? {
      LastEscIs(all, LastEsc(p).value);
    } else {
      assert ESC !in all;
    }
  }

  lemma NoLaterEsc(p: seq<Byte>, b: seq<Byte>)
    requires CompleteCsiLen(p) == |p| && ESC !in b
    ensures CompleteCsiLen(p + b) == |p + b|
  {
    hide CompleteCsiLen, LastEsc, FirstFinal;
    CompleteExactly(p);
    CompleteExactly(p + b);
    LastEscInMore(p, b);
    if LastEsc(p).Some? {
      var l := LastEsc(p).value;
      assert (p + b)[l + 1] == p[l + 1] && (p + b)[l + 2..] == p[l + 2..] + b;
      if FirstFinal(p[l + 2..]).Some? {
        FirstFinalIsStable(p[l + 2..], b);
      }
    }
  }

  lemma KeptTailDecides(p: seq<Byte>, b: seq<Byte>)
    ensures CompleteCsiLen(p + b) == CompleteCsiLen(p) + CompleteCsiLen(p[CompleteCsiLen(p)..] + b)
  {
    var n := CompleteCsiLen(p);
    assert (p + b)[n..] == p[n..] + b;
    assert n < |p| ==> (p + b)[n..][0] == ESC;
    hide FirstFinal;
    if ESC in (p + b)[n..] {
      CompleteLenWithLaterEsc(p + b, n);
    } else {
      assert p[n..] + b == b;
      NoLaterEsc(p, b);
      LastEscMeans(b);
    }
  }

  lemma MoreIsWritten(p: seq<Byte>, b: seq<Byte>)
    ensures CompleteCsiLen(p) <= CompleteCsiLen(p + b)
    ensures Write(p[CompleteCsiLen(p)..], b)
            == Written(Rewrite((p + b)[CompleteCsiLen(p)..CompleteCsiLen(p + b)]), (p + b)[CompleteCsiLen(p + b)..])
  {
    KeptTailDecides(p, b);
    hide CompleteCsiLen, Rewrite;
    var n, m := CompleteCsiLen(p), CompleteCsiLen(p + b);
    var joined := p[n..] + b;
    assert joined[..m - n] == (p + b)[n..m] && joined[m - n..] == (p + b)[m..];
  }

  lemma {:induction false} PendingIsTheKeptTail(chunks: seq<seq<Byte>>)
    ensures WriteAll(chunks).pending == Concat(chunks)[CompleteCsiLen(Concat(chunks))..]
  {
    hide CompleteCsiLen, Rewrite, Write;
    if chunks != [] {
      var front, last := chunks[..|chunks| - 1], chunks[|chunks| - 1];
      assert chunks == front + [last];
      ConcatOneMore(front, last);
      PendingIsTheKeptTail(front);
      MoreIsWritten(Concat(front), last);
    }
  }

  /** The output grows by the rewrite of what the write completes. */
  lemma OneMoreWrite(chunks: seq<seq<Byte>>, b: seq<Byte>)
    ensures var p := Concat(chunks);
            && Concat(chunks + [b]) == p + b
            && CompleteCsiLen(p) <= CompleteCsiLen(p + b)
            && WriteAll(chunks + [b])
               == Written(WriteAll(chunks).out + Rewrite((p + b)[CompleteCsiLen(p)..CompleteCsiLen(p + b)]),
                          (p + b)[CompleteCsiLen(p + b)..])
  {
    hide CompleteCsiLen, Rewrite, Write;
    assert (chunks + [b])[..|chunks|] == chunks;
    ConcatOneMore(chunks, b);
    PendingIsTheKeptTail(chunks);
    MoreIsWritten(Concat(chunks), b);
  }

  // ----- Sequences in parts of a stream

  lemma CsiIsNotOpen(a: seq<Byte>)
    requires CsiLen(a) > 0
    ensures a != [] && !Opens(a)
  {
  }

  lemma CsiInMore(a: seq<Byte>, b: seq<Byte>)
    requires CsiLen(a) > 0
    ensures CsiLen(a + b) == CsiLen(a) && (a + b)[..CsiLen(a)] == a[..CsiLen(a)]
  {
    CsiIsNotOpen(a);
    CsiLenIsStable(a, b);
    assert (a + b)[..CsiLen(a)] == a[..CsiLen(a)];
  }

  lemma CsiInLess(a: seq<Byte>, b: seq<Byte>)
    requires 0 < CsiLen(a + b) <= |a|
    ensures CsiLen(a) == CsiLen(a + b) && (a + b)[..CsiLen(a)] == a[..CsiLen(a)]
  {
    var n := CsiLen(a + b);
    assert (a + b)[2..][..|a| - 2] == a[2..];
    FirstFinalOfPrefix((a + b)[2..], |a| - 2);
    assert (a + b)[..n] == a[..n];
  }

  lemma TruecolorInMore(a: seq<Byte>, b: seq<Byte>, i: nat)
    requires i <= |a| && StartsTruecolor(a[i..])
    ensures StartsTruecolor((a + b)[i..]) && CsiLen((a + b)[i..]) == CsiLen(a[i..])
  {
    hide CsiLen, TruecolorToken;
    assert (a + b)[i..] == a[i..] + b;
    CsiInMore(a[i..], b);
  }

  lemma RobustPrefix(a: seq<Byte>, b: seq<Byte>)
    requires Robust(a + b)
    ensures Robust(a)
  {
    hide CsiLen, StartsTruecolor, FirstFinal;
    forall i | 0 <= i <= |a| && StartsTruecolor(a[i..])
      ensures Undisturbed(a, i)
    {
      TruecolorInMore(a, b, i);
      CsiFits(a[i..]);
      assert Undisturbed(a + b, i);
      assert forall k | i < k < i + CsiLen(a[i..]) :: a[k] == (a + b)[k];
      forall j | 0 <= j <= i - 2 && a[j] == ESC && a[j + 1] == BRACKET
        ensures FirstFinal(a[j + 2..i]).Some?
      {
        assert (a + b)[j] == ESC && (a + b)[j + 1] == BRACKET;
        assert (a + b)[j + 2..i] == a[j + 2..i];
      }
    }
  }

  lemma CsiFits(bs: seq<Byte>)
    ensures CsiLen(bs) <= |bs|
  {
  }

  lemma RobustSuffix(a: seq<Byte>, b: seq<Byte>)
    requires Robust(a + b)
    ensures Robust(b)
  {
    hide CsiLen, StartsTruecolor, FirstFinal;
    forall i | 0 <= i <= |b| && StartsTruecolor(b[i..])
      ensures Undisturbed(b, i)
    {
      assert (a + b)[|a| + i..] == b[i..];
      CsiFits(b[i..]);
      assert Undisturbed(a + b, |a| + i);
      forall k | i < k < i + CsiLen(b[i..])
        ensures b[k] != ESC
      {
        assert (a + b)[|a| + k] == b[k];
      }
      forall j | 0 <= j <= i - 2 && b[j] == ESC && b[j + 1] == BRACKET
        ensures FirstFinal(b[j + 2..i]).Some?
      {
        assert (a + b)[|a| + j] == ESC && (a + b)[|a| + j + 1] == BRACKET;
        assert (a + b)[|a| + j + 2..|a| + i] == b[j + 2..i];
      }
    }
  }

  lemma RobustPart(s: seq<Byte>, x: nat, y: nat)
    requires Robust(s) && x <= y <= |s|
    ensures Robust(s[x..y])
  {
    hide Robust;
    assert s == s[..y] + s[y..] && s[..y] == s[..x] + s[x..y];
    RobustPrefix(s[..y], s[y..]);
    RobustSuffix(s[..x], s[x..y]);
  }

  // ----- Where no sequence starts

  lemma PlainFront(bs: seq<Byte>)
    requires bs != [] && CsiLen(bs) == 0
    ensures Rewrite(bs) == [bs[0]] + Rewrite(bs[1..])
  {
    hide CsiLen, DowngradeCsi;
  }

  lemma {:induction false} PlainRewrite(a: seq<Byte>, b: seq<Byte>)
    requires forall i | 0 <= i < |a| :: CsiLen((a + b)[i..]) == 0
    ensures Rewrite(a + b) == a + Rewrite(b)
  {
    hide CsiLen, Rewrite;
    if a == [] {
      assert a + b == b;
    } else {
      assert (a + b)[0..] == a + b && (a + b)[1..] == a[1..] + b;
      assert forall i | 0 <= i < |a[1..]| :: (a[1..] + b)[i..] == (a + b)[i + 1..];
      PlainFront(a + b);
      PlainRewrite(a[1..], b);
      assert [a[0]] + (a[1..] + Rewrite(b)) == a + Rewrite(b);
    }
  }

  lemma PlainStep(bs: seq<Byte>)
    requires bs != [] && !StartsTruecolor(bs)
    ensures DowngradeAll(bs) == [bs[0]] + DowngradeAll(bs[1..])
  {
    hide StartsTruecolor;
  }

  lemma {:induction false} PlainDowngradeAll(a: seq<Byte>, b: seq<Byte>)
    requires forall i | 0 <= i < |a| :: !StartsTruecolor((a + b)[i..])
    ensures DowngradeAll(a + b) == a + DowngradeAll(b)
  {
    hide StartsTruecolor, DowngradeAll;
    if a == [] {
      assert a + b == b;
    } else {
      assert (a + b)[0..] == a + b && (a + b)[1..] == a[1..] + b;
      assert forall i | 0 <= i < |a[1..]| :: (a[1..] + b)[i..] == (a + b)[i + 1..];
      PlainStep(a + b);
      PlainDowngradeAll(a[1..], b);
      assert [a[0]] + (a[1..] + DowngradeAll(b)) == a + DowngradeAll(b);
    }
  }

  /** Inside a sequence another can only start by ending it. */
  lemma StartsInside(bs: seq<Byte>, k: nat)
    requires 0 < k < CsiLen(bs) && CsiLen(bs[k..]) > 0
    ensures k == CsiLen(bs) - 2 && bs[k + 1] == BRACKET
    ensures k >= 2 && FirstFinal(bs[2..k]).None?
  {
    var n := CsiLen(bs);
    FirstFinalMeans(bs[2..]);
    assert bs[k] == bs[k..][0] && bs[k + 1] == bs[k..][1];
    assert forall i | 2 <= i < n - 1 :: bs[i] == bs[2..][i - 2];
    FirstFinalMeans(bs[2..k]);
  }

  lemma SequenceStart(bs: seq<Byte>)
    requires CsiLen(bs) > 0
    ensures 3 <= CsiLen(bs) <= |bs| && bs[0] == ESC && bs[1] == BRACKET && bs[CsiLen(bs) - 1] != ESC
  {
  }

  lemma HiddenIsDisturbed(bs: seq<Byte>, k: nat)
    requires 0 < k < CsiLen(bs) && CsiLen(bs[k..]) > 0
    ensures !Undisturbed(bs, k)
  {
    hide CsiLen, FirstFinal;
    SequenceStart(bs);
    StartsInside(bs, k);
    assert bs[0] == ESC && bs[0 + 1] == BRACKET && FirstFinal(bs[0 + 2..k]).None?;
  }

  /** In a robust stream the sequence at the front hides no truecolor sequence. */
  lemma NoneHidden(bs: seq<Byte>, k: nat)
    requires Robust(bs) && 0 < k < CsiLen(bs)
    ensures !StartsTruecolor(bs[k..])
  {
    hide CsiLen, Undisturbed, TruecolorToken;
    CsiFits(bs);
    if CsiLen(bs[k..]) > 0 {
      HiddenIsDisturbed(bs, k);
    }
  }

  lemma {:induction false} RewriteIsDowngradeAll(bs: seq<Byte>)
    requires Robust(bs)
    ensures Rewrite(bs) == DowngradeAll(bs)
    decreases |bs|
  {
    hide Robust, CsiLen, TruecolorToken, DowngradeCsi;
    if bs != [] {
      var n := FrontLen(bs);
      assert bs == bs[..n] + bs[n..];
      RobustSuffix(bs[..n], bs[n..]);
      RewriteIsDowngradeAll(bs[n..]);
      if CsiLen(bs) > 0 && !TruecolorToken(bs[..n]) {
        FrontChangesExactlyWithTruecolor(bs);
        forall k | 0 <= k < n
          ensures !StartsTruecolor((bs[..n] + bs[n..])[k..])
        {
          if k > 0 {
            NoneHidden(bs, k);
          } else {
            assert bs[0..] == bs;
          }
        }
        PlainDowngradeAll(bs[..n], bs[n..]);
      }
    }
  }

  // ----- Robust streams

  ghost function StepLen(bs: seq<Byte>): (n: nat)
    requires bs != []
    ensures 1 <= n <= |bs|
  {
    if StartsTruecolor(bs) then CsiLen(bs) else 1
  }

  lemma StepInLess(a: seq<Byte>, b: seq<Byte>)
    requires a != [] && (StartsTruecolor(a + b) ==> CsiLen(a + b) <= |a|)
    ensures StartsTruecolor(a) <==> StartsTruecolor(a + b)
    ensures StepLen(a) == StepLen(a + b) && (a + b)[..StepLen(a)] == a[..StepLen(a)]
  {
    hide CsiLen, TruecolorToken;
    assert (a + b)[0..] == a + b && a[0..] == a;
    if StartsTruecolor(a + b) {
      CsiInLess(a, b);
    } else if StartsTruecolor(a) {
      TruecolorInMore(a, b, 0);
    }
  }

  lemma DowngradeAllSteps(a: seq<Byte>, b: seq<Byte>)
    requires a != [] && b != [] && (StartsTruecolor(a) <==> StartsTruecolor(b)) && StepLen(a) == StepLen(b) <= |b|
    requires a[..StepLen(a)] == b[..StepLen(a)]
    ensures exists front: seq<Byte> ::
              && DowngradeAll(a) == front + DowngradeAll(a[StepLen(a)..])
              && DowngradeAll(b) == front + DowngradeAll(b[StepLen(a)..])
  {
    hide CsiLen, TruecolorToken, DowngradeCsi;
    var front := if StartsTruecolor(a) then DowngradeCsi(a[..StepLen(a)]) else [a[0]];
    assert a[..StepLen(a)][0] == a[0] && b[..StepLen(a)][0] == b[0];
    assert DowngradeAll(a) == front + DowngradeAll(a[StepLen(a)..]);
    assert DowngradeAll(b) == front + DowngradeAll(b[StepLen(a)..]);
  }

  lemma NothingToDowngrade(b: seq<Byte>)
    ensures DowngradeAll([]) == [] && [] + b == b
  {
  }

  lemma {:induction false} DowngradeAllJoins(a: seq<Byte>, b: seq<Byte>)
    requires forall i | 0 <= i < |a| && StartsTruecolor((a + b)[i..]) :: i + CsiLen((a + b)[i..]) <= |a|
    ensures DowngradeAll(a + b) == DowngradeAll(a) + DowngradeAll(b)
    decreases |a|
  {
    hide *;
    if a == [] {
      NothingToDowngrade(b);
      NothingToDowngrade(DowngradeAll(b));
    } else {
      assert (a + b)[0..] == a + b;
      StepInLess(a, b);
      var n := StepLen(a);
      assert (a + b)[n..] == a[n..] + b;
      assert forall i | 0 <= i < |a[n..]| :: (a[n..] + b)[i..] == (a + b)[n + i..];
      DowngradeAllSteps(a, a + b);
      DowngradeAllJoins(a[n..], b);
    }
  }

  lemma NoFinalYet(bs: seq<Byte>, m: nat)
    requires 2 <= m < CsiLen(bs)
    ensures FirstFinal(bs[2..m]).None?
  {
    FirstFinalMeans(bs[2..]);
    FirstFinalMeans(bs[2..m]);
    assert forall k | 0 <= k < m - 2 :: bs[2..m][k] == bs[2..][k];
  }

  lemma EscIsNotPassed(p: seq<Byte>, i: nat)
    requires i < |p| && p[i] == ESC
    ensures LastEsc(p).Some? && LastEsc(p).value >= i
  {
    LastEscMeans(p);
  }

  lemma IntroducerIsKept(p: seq<Byte>, i: nat)
    requires LastEsc(p) == Some(i) && (i + 1 < |p| ==> p[i + 1] == BRACKET && FirstFinal(p[i + 2..]).None?)
    ensures CompleteCsiLen(p) == i
  {
    hide LastEsc, FirstFinal;
  }

  lemma SeenIsOpen(p: seq<Byte>, b: seq<Byte>, i: nat)
    requires i < |p| < i + CsiLen((p + b)[i..])
    ensures p[i] == ESC && (i + 1 < |p| ==> p[i + 1] == BRACKET && FirstFinal(p[i + 2..]).None?)
  {
    var here := (p + b)[i..];
    hide CsiLen, FirstFinal;
    SequenceStart(here);
    assert here[0] == p[i];
    if i + 1 < |p| {
      assert here[1] == p[i + 1];
      assert here[2..|p| - i] == p[i + 2..];
      NoFinalYet(here, |p| - i);
    }
  }

  lemma StillOpen(p: seq<Byte>, b: seq<Byte>, i: nat)
    requires i < |p| < i + CsiLen((p + b)[i..])
    ensures LastEsc(p).Some? && LastEsc(p).value >= i
    ensures LastEsc(p).value == i ==> CompleteCsiLen(p) == i
  {
    hide *;
    SeenIsOpen(p, b, i);
    EscIsNotPassed(p, i);
    if LastEsc(p) == Some(i) {
      IntroducerIsKept(p, i);
    }
  }

  /** Where a write ends inside a sequence, that sequence holds a second ESC. */
  lemma SplitIsDisturbed(p: seq<Byte>, b: seq<Byte>, i: nat)
    requires i < CompleteCsiLen(p) < i + CsiLen((p + b)[i..])
    ensures !Undisturbed(p + b, i)
  {
    hide CsiLen, FirstFinal;
    var c := CompleteCsiLen(p);
    if c < |p| {
      assert (p + b)[c] == ESC;
    } else {
      StillOpen(p, b, i);
      assert (p + b)[LastEsc(p).value] == ESC;
    }
  }

  lemma PartsJoin(s: seq<Byte>, c: nat, m: nat)
    requires c <= m <= |s|
    requires forall i | 0 <= i < c && StartsTruecolor(s[i..]) :: i + CsiLen(s[i..]) <= c
    ensures DowngradeAll(s[..m]) == DowngradeAll(s[..c]) + DowngradeAll(s[c..m])
  {
    hide StartsTruecolor, CsiLen, DowngradeAll;
    assert s[..m] == s[..c] + s[c..m] && s == s[..m] + s[m..];
    forall i | 0 <= i < |s[..c]| && StartsTruecolor((s[..c] + s[c..m])[i..])
      ensures i + CsiLen((s[..c] + s[c..m])[i..]) <= |s[..c]|
    {
      TruecolorInMore(s[..m], s[m..], i);
    }
    DowngradeAllJoins(s[..c], s[c..m]);
  }

  lemma NoWriteSplits(p: seq<Byte>, b: seq<Byte>)
    requires Robust(p + b)
    ensures forall i | 0 <= i < CompleteCsiLen(p) && StartsTruecolor((p + b)[i..]) ::
              i + CsiLen((p + b)[i..]) <= CompleteCsiLen(p)
  {
    hide CsiLen, CompleteCsiLen, TruecolorToken, Undisturbed;
    forall i | 0 <= i < CompleteCsiLen(p) && StartsTruecolor((p + b)[i..])
      ensures i + CsiLen((p + b)[i..]) <= CompleteCsiLen(p)
    {
      if CompleteCsiLen(p) < i + CsiLen((p + b)[i..]) {
        SplitIsDisturbed(p, b, i);
      }
    }
  }

  lemma NoChunks()
    ensures WriteAll([]) == Written([], []) && CompleteCsiLen([]) == 0
    ensures DowngradeAll([]) == [] && Concat<Byte>([]) == []
  {
  }

  lemma OneMoreRobustWrite(p: seq<Byte>, b: seq<Byte>)
    requires Robust(p + b) && CompleteCsiLen(p) <= CompleteCsiLen(p + b)
    ensures var c, m := CompleteCsiLen(p), CompleteCsiLen(p + b);
            DowngradeAll((p + b)[..m]) == DowngradeAll(p[..c]) + Rewrite((p + b)[c..m])
  {
    hide *;
    var s := p + b;
    var c, m := CompleteCsiLen(p), CompleteCsiLen(s);
    RobustPart(s, c, m);
    RewriteIsDowngradeAll(s[c..m]);
    NoWriteSplits(p, b);
    PartsJoin(s, c, m);
    assert s[..c] == p[..c];
  }

  lemma LastChunk(chunks: seq<seq<Byte>>)
    requires chunks != []
    ensures chunks == chunks[..|chunks| - 1] + [chunks[|chunks| - 1]]
  {
  }

  /** However a robust stream is cut, exactly its truecolor sequences are downgraded. */
  lemma {:induction false} RobustIsDowngraded(chunks: seq<seq<Byte>>)
    requires Robust(Concat(chunks))
    ensures var s := Concat(chunks);
            WriteAll(chunks) == Written(DowngradeAll(s[..CompleteCsiLen(s)]), s[CompleteCsiLen(s)..])
  {
    hide *;
    if chunks == [] {
      NoChunks();
    } else {
      var front, b := chunks[..|chunks| - 1], chunks[|chunks| - 1];
      LastChunk(chunks);
      OneMoreWrite(front, b);
      RobustPrefix(Concat(front), b);
      RobustIsDowngraded(front);
      OneMoreRobustWrite(Concat(front), b);
    }
  }

  lemma RobustAgrees(s: seq<Byte>)
    requires Robust(s)
    ensures ChunksAgree(s)
  {
    hide Robust, Write, WriteAll, DowngradeAll, CompleteCsiLen;
    OneWrite(s);
    ConcatOne(s);
    RobustIsDowngraded([s]);
    forall chunks: seq<seq<Byte>> | Concat(chunks) == s
      ensures WriteAll(chunks) == Write([], s)
    {
      RobustIsDowngraded(chunks);
    }
  }

  // ----- Other streams

  lemma CutBehindEsc(s: seq<Byte>, x: nat)
    requires x < |s| && s[x] == ESC
    ensures CompleteCsiLen(s[..x + 1]) == x
  {
    LastEscIs(s[..x + 1], x);
  }

  /** One more write behind a write that ended right behind an ESC. */
  lemma WriteBehindEsc(s: seq<Byte>, chunks: seq<seq<Byte>>, x: nat, y: nat)
    requires x < y <= |s| && s[x] == ESC && Concat(chunks) == s[..x + 1]
    ensures Concat(chunks + [s[x + 1..y]]) == s[..y] && x <= CompleteCsiLen(s[..y])
    ensures WriteAll(chunks + [s[x + 1..y]]).out == WriteAll(chunks).out + Rewrite(s[x..CompleteCsiLen(s[..y])])
  {
    hide CompleteCsiLen, Rewrite, WriteAll;
    CutBehindEsc(s, x);
    OneMoreWrite(chunks, s[x + 1..y]);
    assert s[..x + 1] + s[x + 1..y] == s[..y];
    var m := CompleteCsiLen(s[..y]);
    assert s[..y][x..m] == s[x..m];
  }

  function CutAt(s: seq<Byte>, x: nat): seq<seq<Byte>>
    requires x < |s|
  {
    [s[..x + 1], s[x + 1..]]
  }

  function CutTwice(s: seq<Byte>, x: nat, y: nat): seq<seq<Byte>>
    requires x < y < |s|
  {
    [s[..x + 1], s[x + 1..y + 1], s[y + 1..]]
  }

  lemma FirstWrite(s: seq<Byte>, x: nat)
    requires x < |s| && s[x] == ESC
    ensures Concat([s[..x + 1]]) == s[..x + 1] && WriteAll([s[..x + 1]]).out == Rewrite(s[..x])
  {
    hide CompleteCsiLen, Rewrite, WriteAll;
    var first := s[..x + 1];
    ConcatOne(first);
    OneWrite(first);
    WriteFresh(first);
    CutBehindEsc(s, x);
    assert first[..x] == s[..x];
  }

  lemma OutputOfCuts(s: seq<Byte>, x: nat, y: nat)
    requires x < y < |s| && s[x] == ESC && s[y] == ESC
    ensures var m := CompleteCsiLen(s);
            && Concat(CutAt(s, x)) == s == Concat(CutTwice(s, x, y)) && y <= m
            && WriteAll(CutAt(s, x)).out == Rewrite(s[..x]) + Rewrite(s[x..m])
            && WriteAll(CutTwice(s, x, y)).out == Rewrite(s[..x]) + Rewrite(s[x..y]) + Rewrite(s[y..m])
  {
    hide CompleteCsiLen, Rewrite, WriteAll, Concat;
    var first := [s[..x + 1]];
    assert s[..|s|] == s;
    FirstWrite(s, x);
    WriteBehindEsc(s, first, x, |s|);
    assert first + [s[x + 1..]] == CutAt(s, x);
    WriteBehindEsc(s, first, x, y + 1);
    CutBehindEsc(s, y);
    WriteBehindEsc(s, first + [s[x + 1..y + 1]], y, |s|);
    assert first + [s[x + 1..y + 1]] + [s[y + 1..]] == CutTwice(s, x, y);
  }

  lemma NoInnerFinal(bs: seq<Byte>, k: nat)
    requires 2 <= k < CsiLen(bs) - 1
    ensures !IsFinal(bs[k])
  {
    FirstFinalMeans(bs[2..]);
    assert bs[k] == bs[2..][k - 2];
  }

  lemma EndsInM(bs: seq<Byte>)
    requires StartsTruecolor(bs)
    ensures 3 <= CsiLen(bs) <= |bs| && bs[CsiLen(bs) - 1] == SGR_FINAL
  {
    hide Sgr.HasTruecolorParams;
  }

  lemma NotIntroduced(bs: seq<Byte>, k: nat)
    requires k < |bs| && !(k + 1 < |bs| && bs[k] == ESC && bs[k + 1] == BRACKET)
    ensures CsiLen(bs[k..]) == 0
  {
  }

  /** Inside a truecolor sequence no other is introduced. */
  lemma NoneIntroduced(bs: seq<Byte>, k: nat)
    requires StartsTruecolor(bs) && 0 < k < CsiLen(bs)
    ensures CsiLen(bs[k..]) == 0 && !(k + 1 < CsiLen(bs) && bs[k + 1] == BRACKET)
  {
    hide StartsTruecolor, CsiLen;
    EndsInM(bs);
    if k + 1 < CsiLen(bs) - 1 {
      NoInnerFinal(bs, k + 1);
    }
    NotIntroduced(bs, k);
  }

  lemma TruecolorInLess(a: seq<Byte>, b: seq<Byte>)
    requires StartsTruecolor(a + b) && CsiLen(a + b) <= |a|
    ensures StartsTruecolor(a) && CsiLen(a) == CsiLen(a + b)
  {
    hide CsiLen, TruecolorToken;
    CsiInLess(a, b);
  }

  /** A truecolor sequence that is complete is not kept back. */
  lemma NotKeptBack(s: seq<Byte>, i: nat)
    requires i <= |s| && StartsTruecolor(s[i..])
    ensures i + CsiLen(s[i..]) <= CompleteCsiLen(s)
    ensures StartsTruecolor(s[i..CompleteCsiLen(s)]) && CsiLen(s[i..CompleteCsiLen(s)]) == CsiLen(s[i..])
  {
    hide *;
    KeptInside(s, i);
    var m := CompleteCsiLen(s);
    assert s[i..] == s[i..m] + s[m..];
    TruecolorInLess(s[i..m], s[m..]);
  }

  lemma EscIsKept(s: seq<Byte>, i: nat)
    requires i < |s| && s[i] == ESC
    ensures i <= CompleteCsiLen(s)
  {
    EscIsNotPassed(s, i);
  }

  lemma KeptInside(s: seq<Byte>, i: nat)
    requires i <= |s| && StartsTruecolor(s[i..])
    ensures i + CsiLen(s[i..]) <= CompleteCsiLen(s)
  {
    var n, m := CsiLen(s[i..]), CompleteCsiLen(s);
    hide CompleteCsiLen, TruecolorToken;
    KeptFrom(s);
    var p := s[m..];
    SequenceStart(s[i..]);
    assert s[i..][0] == s[i] && s[i..][n - 1] == s[i + n - 1];
    EscIsKept(s, i);
    if i < m < i + n {
      NoneIntroduced(s[i..], m - i);
    }
  }

  /** Where no sequence is complete. */
  lemma NothingComplete(a: seq<Byte>, b: seq<Byte>)
    requires forall i | 0 <= i < |a| :: CsiLen((a + b)[i..]) == 0 || i + CsiLen((a + b)[i..]) > |a|
    ensures Rewrite(a) == a
  {
    hide CsiLen, Rewrite;
    forall i | 0 <= i < |a|
      ensures CsiLen((a + [])[i..]) == 0
    {
      assert a + [] == a && (a + b)[i..] == a[i..] + b;
      CsiFits(a[i..]);
      if CsiLen(a[i..]) > 0 {
        CsiInMore(a[i..], b);
      }
    }
    PlainRewrite(a, []);
    NothingIsUnchanged();
    assert a + [] == a;
  }

  /** From inside a truecolor sequence its bytes go out as they are. */
  lemma CutOffGoesOutRaw(bs: seq<Byte>, k: nat)
    requires StartsTruecolor(bs) && 0 < k <= CsiLen(bs)
    ensures Rewrite(bs[k..]) == bs[k..CsiLen(bs)] + Rewrite(bs[CsiLen(bs)..])
  {
    hide CsiLen, Rewrite, TruecolorToken;
    var n := CsiLen(bs);
    CsiFits(bs);
    assert bs[k..] == bs[k..n] + bs[n..];
    forall i | 0 <= i < |bs[k..n]|
      ensures CsiLen((bs[k..n] + bs[n..])[i..]) == 0
    {
      NoneIntroduced(bs, k + i);
      assert bs[k..][i..] == bs[k + i..];
    }
    PlainRewrite(bs[k..n], bs[n..]);
  }

  lemma FrontShrinks(bs: seq<Byte>)
    requires StartsTruecolor(bs)
    ensures |Rewrite(bs)| < CsiLen(bs) + |Rewrite(bs[CsiLen(bs)..])|
  {
    hide FrontOut, TruecolorToken, CsiLen;
    FrontChangesExactlyWithTruecolor(bs);
  }

  /** A truecolor sequence that a write cuts behind an inner ESC is not downgraded. */
  lemma InnerEscSplits(bs: seq<Byte>, k: nat)
    requires StartsTruecolor(bs) && 0 < k < CsiLen(bs)
    ensures |Rewrite(bs[..k])| + |Rewrite(bs[k..])| > |Rewrite(bs)|
  {
    hide CsiLen, Rewrite, TruecolorToken;
    CsiFits(bs);
    FrontShrinks(bs);
    CutOffGoesOutRaw(bs, k);
    assert bs[..k] + bs[k..] == bs;
    forall i | 0 <= i < |bs[..k]|
      ensures CsiLen((bs[..k] + bs[k..])[i..]) == 0 || i + CsiLen((bs[..k] + bs[k..])[i..]) > |bs[..k]|
    {
      if i > 0 {
        NoneIntroduced(bs, i);
      } else {
        assert bs[0..] == bs;
      }
    }
    NothingComplete(bs[..k], bs[k..]);
  }

  lemma BracketEnds(bs: seq<Byte>, k: nat)
    requires 2 <= k && k + 1 < |bs| && bs[0] == ESC && bs[1] == BRACKET && FirstFinal(bs[2..k]).None?
    requires bs[k] == ESC && bs[k + 1] == BRACKET
    ensures CsiLen(bs) == k + 2
  {
    FirstFinalMeans(bs[2..k]);
    assert forall i | 0 <= i < k - 2 :: bs[2..][i] == bs[2..k][i];
    FirstFinalIs(bs[2..], k - 1);
  }

  lemma EndsInBracket(bs: seq<Byte>)
    requires CsiLen(bs) > 0 && bs[CsiLen(bs) - 1] == BRACKET
    ensures Rewrite(bs) == bs[..CsiLen(bs)] + Rewrite(bs[CsiLen(bs)..])
  {
    hide CsiLen;
  }

  /** A sequence left open takes the bracket of a truecolor sequence for its end. */
  lemma OpenSequenceSwallows(bs: seq<Byte>, k: nat)
    requires 2 <= k <= |bs| && bs[0] == ESC && bs[1] == BRACKET && FirstFinal(bs[2..k]).None?
    requires StartsTruecolor(bs[k..])
    ensures |Rewrite(bs[..k])| + |Rewrite(bs[k..])| < |Rewrite(bs)|
  {
    hide CsiLen, Rewrite, TruecolorToken, FirstFinal;
    var n := CsiLen(bs[k..]);
    SequenceStart(bs[k..]);
    assert bs[k..][0] == bs[k] && bs[k..][1] == bs[k + 1];
    FrontShrinks(bs[k..]);
    BracketEnds(bs, k);
    EndsInBracket(bs);
    CutOffGoesOutRaw(bs[k..], 2);
    assert bs[k..][2..] == bs[k + 2..];
    assert bs[..k] + bs[k..] == bs;
    forall i | 0 <= i < |bs[..k]|
      ensures CsiLen((bs[..k] + bs[k..])[i..]) == 0 || i + CsiLen((bs[..k] + bs[k..])[i..]) > |bs[..k]|
    {
      if i == 0 {
        assert bs[0..] == bs;
      } else if CsiLen(bs[i..]) > 0 {
        StartsInside(bs, i);
      }
    }
    NothingComplete(bs[..k], bs[k..]);
  }

  lemma PartsOfPart(s: seq<Byte>, x: nat, y: nat, z: nat)
    requires x < y <= z <= |s|
    ensures s[x..z][..y - x] == s[x..y] && s[x..z][y - x..] == s[y..z]
    ensures x + 2 <= y ==> s[x..z][2..y - x] == s[x + 2..y]
  {
  }

  /** If an ESC stands inside a truecolor sequence, cutting behind it too makes the output longer. */
  lemma InnerEscBreaksChunking(s: seq<Byte>, i: nat, f: nat)
    requires i < f < |s| && StartsTruecolor(s[i..]) && f < i + CsiLen(s[i..]) && s[f] == ESC
    ensures s[i] == ESC && |WriteAll(CutTwice(s, i, f)).out| > |WriteAll(CutAt(s, i)).out|
    ensures !ChunksAgree(s)
  {
    hide CsiLen, Rewrite, TruecolorToken, CompleteCsiLen, WriteAll, Concat, CutAt, CutTwice, Write;
    SequenceStart(s[i..]);
    NotKeptBack(s, i);
    var bs := s[i..CompleteCsiLen(s)];
    InnerEscSplits(bs, f - i);
    OutputOfCuts(s, i, f);
    PartsOfPart(s, i, f, CompleteCsiLen(s));
  }

  /** If a sequence is still open before a truecolor sequence, cutting behind its ESC too makes the output
      shorter. */
  lemma OpenSequenceBreaksChunking(s: seq<Byte>, j: nat, i: nat)
    requires j + 2 <= i < |s| && s[j] == ESC && s[j + 1] == BRACKET && FirstFinal(s[j + 2..i]).None?
    requires StartsTruecolor(s[i..])
    ensures |WriteAll(CutTwice(s, j, i)).out| < |WriteAll(CutAt(s, j)).out|
    ensures !ChunksAgree(s)
  {
    hide CsiLen, Rewrite, TruecolorToken, CompleteCsiLen, WriteAll, Concat, CutAt, CutTwice, Write, FirstFinal;
    SequenceStart(s[i..]);
    NotKeptBack(s, i);
    var bs := s[j..CompleteCsiLen(s)];
    PartsOfPart(s, j, i, CompleteCsiLen(s));
    OpenSequenceSwallows(bs, i - j);
    OutputOfCuts(s, j, i);
  }

  lemma OthersDisagree(s: seq<Byte>)
    requires !Robust(s)
    ensures !ChunksAgree(s)
  {
    hide StartsTruecolor, FirstFinal, CsiLen, ChunksAgree;
    var i: nat :| i <= |s| && StartsTruecolor(s[i..]) && !Undisturbed(s, i);
    TruecolorStarts(s, i);
    if f: nat :| i < f < i + CsiLen(s[i..]) && s[f] == ESC {
      InnerEscBreaksChunking(s, i, f);
    } else {
      var j: nat :| j + 2 <= i && s[j] == ESC && s[j + 1] == BRACKET && FirstFinal(s[j + 2..i]).None?;
      OpenSequenceBreaksChunking(s, j, i);
    }
  }

  lemma TruecolorStarts(s: seq<Byte>, i: nat)
    requires i <= |s| && StartsTruecolor(s[i..])
    ensures 3 <= CsiLen(s[i..]) <= |s| - i
  {
  }

  /** Every way to cut a stream into writes gives the same output and the same pending bytes if and only if
      each of its complete truecolor sequences holds no second ESC and follows no sequence still open. */
  lemma ChunksAgreeExactly(s: seq<Byte>)
    ensures ChunksAgree(s) <==> Robust(s)
  {
    hide Robust, ChunksAgree;
    if Robust(s) {
      RobustAgrees(s);
    } else {
      OthersDisagree(s);
    }
  }

  // ----- Streams without stray ESCs

  lemma CleanOpenIsRobust(s: seq<Byte>)
    requires Opens(s) && ESC !in s[1..]
    ensures Robust(s)
  {
    hide TruecolorToken;
    forall i | 0 <= i <= |s|
      ensures CsiLen(s[i..]) == 0
    {
      if i == 0 {
        assert s[0..] == s;
      } else if i < |s| {
        assert s[i..][0] == s[1..][i - 1];
      }
    }
  }

  lemma FrontIsPassed(s: seq<Byte>, i: nat)
    requires s != [] && !Opens(s) && |s| >= 2 && s[0] == ESC && s[1] == BRACKET && FrontLen(s) <= i <= |s|
    ensures i >= 2 && FirstFinal(s[2..i]).Some?
  {
    FirstFinalOfPrefix(s[2..], i - 2);
    assert s[2..][..i - 2] == s[2..i];
  }

  lemma CleanFrontIsRobust(s: seq<Byte>)
    requires s != [] && !Opens(s) && ESC !in s[1..FrontLen(s)] && Robust(s[FrontLen(s)..])
    ensures Robust(s)
  {
    hide TruecolorToken, CsiLen, Opens, FirstFinal, FrontLen;
    var n := FrontLen(s);
    assert forall k | 1 <= k < n :: s[k] == s[1..n][k - 1];
    forall i | 0 <= i <= |s| && StartsTruecolor(s[i..])
      ensures Undisturbed(s, i)
    {
      SequenceStart(s[i..]);
      if i == 0 {
        CsiIsFront(s);
        assert s[0..] == s;
      } else {
        assert s[i..][0] == s[i];
        assert s[n..][i - n..] == s[i..];
        assert Undisturbed(s[n..], i - n);
        assert forall k | i < k < i + CsiLen(s[i..]) :: s[k] == s[n..][k - n];
        forall j | 0 <= j <= i - 2 && s[j] == ESC && s[j + 1] == BRACKET
          ensures FirstFinal(s[j + 2..i]).Some?
        {
          if j < n {
            FrontIsPassed(s, i);
          } else {
            assert s[n..][j - n] == ESC && s[n..][j - n + 1] == BRACKET;
            assert s[n..][j - n + 2..i - n] == s[j + 2..i];
          }
        }
      }
    }
  }

  lemma CsiIsFront(s: seq<Byte>)
    requires CsiLen(s) > 0
    ensures FrontLen(s) == CsiLen(s)
  {
  }

  lemma {:induction false} CleanIsRobust(s: seq<Byte>)
    requires Clean(s)
    ensures Robust(s)
    decreases |s|
  {
    hide Robust, Opens, FrontLen;
    if s == [] {
      NothingIsRobust();
    } else if Opens(s) {
      CleanOpenIsRobust(s);
    } else {
      CleanIsRobust(s[FrontLen(s)..]);
      CleanFrontIsRobust(s);
    }
  }

  lemma NothingIsRobust()
    ensures Robust([])
  {
  }

  /** A clean stream gives the output and the pending bytes of the left-to-right scan however it is cut. */
  lemma ChunksDoNotMatter(chunks: seq<seq<Byte>>)
    requires Clean(Concat(chunks))
    ensures WriteAll(chunks) == Write([], Concat(chunks)) == Written(Body(Concat(chunks)), Tail(Concat(chunks)))
  {
    hide Robust, Clean, Write, WriteAll, Body, Tail;
    var s := Concat(chunks);
    CleanIsRobust(s);
    RobustAgrees(s);
    WriteIsScan(s);
  }

  /** Behind any stream that ends inside a sequence, a truecolor sequence comes out differently when the
      write is cut behind its ESC. */
  lemma StrayEscBreaksChunking(u: seq<Byte>, j: nat, params: seq<Byte>)
    requires j + 2 <= |u| && u[j] == ESC && u[j + 1] == BRACKET && FirstFinal(u[j + 2..]).None?
    requires Sgr.HasTruecolorParams(params) && Sgr.AllInner(params)
    ensures var s := u + SgrSequence(params);
            |WriteAll(CutTwice(s, j, |u|)).out| < |WriteAll(CutAt(s, j)).out|
  {
    hide CsiLen, FirstFinal, WriteAll, Sgr.HasTruecolorParams, CutAt, CutTwice;
    var csi := SgrSequence(params);
    var s := u + csi;
    SequenceIsComplete(params, SGR_FINAL, []);
    assert csi + [] == csi && csi[..|csi|] == csi && s[|u|..] == csi && s[j + 2..|u|] == u[j + 2..];
    OpenSequenceBreaksChunking(s, j, |u|);
  }
}
