/**
 The master lease of src/db/lease.rs: one row of `server_leases`, shared by many nodes, and the
 `is_master` / `fencing_token` pair that every node keeps for itself. An attempt is one immediate
 (hence serialised) transaction; a run is a list of events in commit order.
 */
module Lease {
  import opened Wrappers

  type NodeId = string

  /** The text in `lease_until`: an instant, or something the parser refuses. */
  datatype Stamp = At(instant: int) | Unreadable

  datatype Row = Row(node: NodeId, token: int, until: Stamp, heartbeat: int)

  datatype Local = Local(isMaster: bool, token: int) {
    /** Tokens start at 1; a node that boots says `true` with token 0, which names no tenure. */
    predicate Believes(t: int) { isMaster && token == t && 1 <= t }
  }

  predicate Expired(until: Stamp, now: int) {
    until.Unreadable? || until.instant < now
  }

  /** What one committed attempt leaves behind. */
  datatype Outcome = Outcome(row: Row, local: Local, acquired: bool)

  /** The meaning of an attempt. `read` is the clock when the attempt starts, before it waits for
      the transaction; `check` is the clock when expiry is tested, inside the transaction. */
  function Attempt(row: Option<Row>, node: NodeId, ttl: nat, read: int, check: int): Outcome {
    var offer := Row(node, 1, At(read + ttl), read);
    var seen := row.GetOr(offer);
    if seen.node == node then
      Outcome(offer.(token := seen.token), Local(true, seen.token), true)
    else if Expired(seen.until, check) then
      Outcome(offer.(token := seen.token + 1), Local(true, seen.token + 1), true)
    else
      Outcome(seen, Local(false, seen.token), false)
  }

  /** The shared table. Its three statements are those the attempt sends, guards included. */
  class LeaseTable {
    var row: Option<Row>

    constructor ()
      ensures row == None
    {
      row := None;
    }

    method InsertOrIgnore(offer: Row)
      modifies this
      ensures row == Some(old(row).GetOr(offer))
    {
      if row.None? {
        row := Some(offer);
      }
    }

    method Renew(node: NodeId, token: int, until: Stamp, heartbeat: int) returns (changed: bool)
      modifies this
      ensures changed <==> old(row).Some? && old(row).value.node == node && old(row).value.token == token
      ensures row == if changed then Some(Row(node, token, until, heartbeat)) else old(row)
    {
      changed := row.Some? && row.value.node == node && row.value.token == token;
      if changed {
        row := Some(row.value.(until := until, heartbeat := heartbeat));
      }
    }

    method TakeOver(seen: Row, successor: Row) returns (changed: bool)
      modifies this
      ensures changed <==> old(row).Some? && old(row).value.node == seen.node
                           && old(row).value.token == seen.token && old(row).value.until == seen.until
      ensures row == if changed then Some(successor) else old(row)
    {
      changed := row.Some? && row.value.node == seen.node
                 && row.value.token == seen.token && row.value.until == seen.until;
      if changed {
        row := Some(successor);
      }
    }
  }

  class Database {
    const nodeId: NodeId
    const ttl: nat
    var isMaster: bool
    var fencingToken: int

    constructor (nodeId: NodeId, ttl: nat)
      ensures this.nodeId == nodeId && this.ttl == ttl
      ensures State() == Local(true, 0)
    {
      this.nodeId, this.ttl := nodeId, ttl;
      isMaster, fencingToken := true, 0;
    }

    function State(): Local
      reads this
    {
      Local(isMaster, fencingToken)
    }

    method SetMasterStatus(isMaster: bool, fencingToken: int)
      modifies this
      ensures State() == Local(isMaster, fencingToken)
    {
      this.isMaster := isMaster;
      this.fencingToken := fencingToken;
    }

    /** `try_acquire_or_renew_master`: every guarded update succeeds, and row, flag and answer are
        those of `Attempt`. */
    method TryAcquireOrRenewMaster(table: LeaseTable, read: int, check: int) returns (acquired: bool)
      modifies this, table
      ensures var o := Attempt(old(table.row), nodeId, ttl, read, check);
              table.row == Some(o.row) && State() == o.local && acquired == o.acquired
      ensures acquired <==> table.row.Some? && table.row.value.node == nodeId
      ensures acquired <==> old(table.row).None? || old(table.row).value.node == nodeId
                            || Expired(old(table.row).value.until, check)
      ensures isMaster == acquired && fencingToken == table.row.value.token
    {
      var until := At(read + ttl);
      table.InsertOrIgnore(Row(nodeId, 1, until, read));
      var seen := table.row.value;
      if seen.node == nodeId {
        var changed := table.Renew(nodeId, seen.token, until, read);
        if changed {
          SetMasterStatus(true, seen.token);
        }
        acquired := changed;
      } else if Expired(seen.until, check) {
        var changed := table.TakeOver(seen, Row(nodeId, seen.token + 1, until, read));
        if changed {
          SetMasterStatus(true, seen.token + 1);
        }
        acquired := changed;
      } else {
        SetMasterStatus(false, seen.token);
        acquired := false;
      }
    }
  }

  // ----- Runs of many nodes

  datatype Event =
    | Try(node: NodeId, read: int, check: int)   // a committed attempt
    | Boot(node: NodeId)                         // the process of a node starts again
    | StepDown(node: NodeId)                     // set_master_status(false, 0)
    | Aborted(node: NodeId, read: int, check: int) // an attempt whose commit failed after the flag was set

  datatype World = World(row: Option<Row>, locals: map<NodeId, Local>) {
    function LocalOf(n: NodeId): Local {
      if n in locals then locals[n] else Local(true, 0)
    }
    predicate Believer(n: NodeId, t: int) { LocalOf(n).Believes(t) }
  }

  const START := World(None, map[])

  type Ttls = NodeId -> nat

  function Step(ttl: Ttls, w: World, e: Event): World {
    match e
    case Try(n, read, check) =>
      var o := Attempt(w.row, n, ttl(n), read, check);
      World(Some(o.row), w.locals[n := o.local])
    case Boot(n) => w.(locals := w.locals[n := Local(true, 0)])
    case StepDown(n) => w.(locals := w.locals[n := Local(false, 0)])
    case Aborted(n, read, check) =>
      w.(locals := w.locals[n := Attempt(w.row, n, ttl(n), read, check).local])
  }

  function Exec(ttl: Ttls, evs: seq<Event>): World {
    if evs == [] then START else Step(ttl, Exec(ttl, evs[..|evs| - 1]), evs[|evs| - 1])
  }

  /** The world after the first k events. */
  function After(ttl: Ttls, evs: seq<Event>, k: nat): World
    requires k <= |evs|
  {
    Exec(ttl, evs[..k])
  }

  lemma AfterStep(ttl: Ttls, evs: seq<Event>, k: nat)
    requires k < |evs|
    ensures After(ttl, evs, k + 1) == Step(ttl, After(ttl, evs, k), evs[k])
  {
    assert evs[..k + 1][..k] == evs[..k];
  }

  predicate CommitsSucceed(evs: seq<Event>) {
    forall k | 0 <= k < |evs| :: !evs[k].Aborted?
  }

  /** An attempt of a node that does not own the row, and that the row does not refuse. */
  predicate TakesOver(w: World, node: NodeId, check: int) {
    w.row.None? || (w.row.value.node != node && Expired(w.row.value.until, check))
  }

  /** The commit of a takeover failed, after the flag was set. */
  predicate AbortedTakeover(w: World, e: Event) { e.Aborted? && TakesOver(w, e.node, e.check) }

  /** Such a failure never happened. Other commits may fail: renewals and refusals change no owner. */
  ghost predicate TakeoversCommit(ttl: Ttls, evs: seq<Event>) {
    forall k | 0 <= k < |evs| :: !AbortedTakeover(After(ttl, evs, k), evs[k])
  }

  // ----- Safety

  /** The token rises by exactly one and only when the owner changes; a row once written stays. */
  lemma TokenRisesExactlyOnOwnerChange(ttl: Ttls, w: World, e: Event)
    requires w.row.Some?
    ensures var w' := Step(ttl, w, e);
            && w'.row.Some?
            && w'.row.value.token == w.row.value.token + (if w'.row.value.node == w.row.value.node then 0 else 1)
            && (w'.row.value.node != w.row.value.node ==> e.Try? && Expired(w.row.value.until, e.check))
  {
  }

  /** Over any stretch of a run the token never falls, and an equal token means the same owner. */
  lemma {:induction false} OneOwnerPerToken(ttl: Ttls, evs: seq<Event>, i: nat, j: nat)
    requires i <= j <= |evs|
    requires After(ttl, evs, i).row.Some?
    ensures var a, b := After(ttl, evs, i).row, After(ttl, evs, j).row;
            && b.Some? && a.value.token <= b.value.token
            && (a.value.token == b.value.token ==> a.value.node == b.value.node)
    decreases j - i
  {
    if i < j {
      OneOwnerPerToken(ttl, evs, i, j - 1);
      AfterStep(ttl, evs, j - 1);
      TokenRisesExactlyOnOwnerChange(ttl, After(ttl, evs, j - 1), evs[j - 1]);
    }
  }

  /** After a committed attempt a node believes in the row's token exactly if the row is its own, and
      otherwise in none. The row is its own exactly if it was so before, or empty, or expired. */
  lemma AttemptDecidesBelief(ttl: Ttls, evs: seq<Event>, k: nat)
    requires k < |evs| && evs[k].Try?
    ensures var w, n := After(ttl, evs, k + 1), evs[k].node;
            && w.row.Some?
            && (w.LocalOf(n).isMaster <==> w.row.value.node == n)
            && w.LocalOf(n).token == w.row.value.token
            && (w.Believer(n, w.row.value.token) <==> w.row.value.node == n)
    ensures var row, n := After(ttl, evs, k).row, evs[k].node;
            After(ttl, evs, k + 1).row.value.node == n
            <==> row.None? || row.value.node == n || Expired(row.value.until, evs[k].check)
  {
    AfterStep(ttl, evs, k);
    TokensArePositive(ttl, evs[..k + 1]);
  }

  /** A node that steps down is no master any more; one that starts again says it is, but of no tenure. */
  lemma SteppingDownAndBooting(ttl: Ttls, w: World, n: NodeId, t: int)
    ensures var down, up := Step(ttl, w, StepDown(n)), Step(ttl, w, Boot(n));
            && !down.LocalOf(n).isMaster && up.LocalOf(n).isMaster
            && !down.Believer(n, t) && !up.Believer(n, t) && !START.Believer(n, t)
            && START.LocalOf(n) == up.LocalOf(n) && down.row == up.row == w.row
  {
  }

  /** A believer of token t, at any moment, is the node the row named under t. */
  lemma {:induction false} BelieverOwnedTheRow(ttl: Ttls, evs: seq<Event>, k: nat, n: NodeId, t: int)
    returns (i: nat)
    requires k <= |evs| && TakeoversCommit(ttl, evs)
    requires After(ttl, evs, k).Believer(n, t)
    ensures i <= k && After(ttl, evs, i).row.Some?
    ensures After(ttl, evs, i).row.value.node == n && After(ttl, evs, i).row.value.token == t
  {
    assert k > 0;
    AfterStep(ttl, evs, k - 1);
    var e := evs[k - 1];
    assert !AbortedTakeover(After(ttl, evs, k - 1), e);
    if (e.Try? || e.Aborted?) && e.node == n {
      i := k;
    } else {
      i := BelieverOwnedTheRow(ttl, evs, k - 1, n, t);
    }
  }

  /** Fencing: no two nodes ever believe in the same token, not even at different moments. */
  lemma NoTwoMastersShareAToken(ttl: Ttls, evs: seq<Event>, i: nat, j: nat, m: NodeId, n: NodeId, t: int)
    requires i <= |evs| && j <= |evs| && TakeoversCommit(ttl, evs)
    requires After(ttl, evs, i).Believer(m, t) && After(ttl, evs, j).Believer(n, t)
    ensures m == n
  {
    var a := BelieverOwnedTheRow(ttl, evs, i, m, t);
    var b := BelieverOwnedTheRow(ttl, evs, j, n, t);
    if a <= b {
      OneOwnerPerToken(ttl, evs, a, b);
    } else {
      OneOwnerPerToken(ttl, evs, b, a);
    }
  }

  /** The row's owner, if it believes at all, believes in the row's token, whatever commits fail. */
  lemma {:induction false} OwnerBelievesItsToken(ttl: Ttls, evs: seq<Event>, k: nat, n: NodeId, t: int)
    requires k <= |evs| && After(ttl, evs, k).Believer(n, t)
    requires After(ttl, evs, k).row.Some? && After(ttl, evs, k).row.value.node == n
    ensures After(ttl, evs, k).row.value.token == t
  {
    assert k > 0;
    AfterStep(ttl, evs, k - 1);
    var e := evs[k - 1];
    if e.node != n {
      OwnerBelievesItsToken(ttl, evs, k - 1, n, t);
    }
  }

  /** A believer's token is at most the row's. It is the row's owner exactly if it is equal: that tells
      a master from one that was displaced. */
  lemma BelieverIsFencedByTheRow(ttl: Ttls, evs: seq<Event>, k: nat, n: NodeId, t: int)
    requires k <= |evs| && TakeoversCommit(ttl, evs)
    requires After(ttl, evs, k).Believer(n, t)
    ensures var row := After(ttl, evs, k).row;
            row.Some? && t <= row.value.token && (n == row.value.node <==> t == row.value.token)
  {
    var i := BelieverOwnedTheRow(ttl, evs, k, n, t);
    OneOwnerPerToken(ttl, evs, i, k);
    if n == After(ttl, evs, k).row.value.node {
      OwnerBelievesItsToken(ttl, evs, k, n, t);
    }
  }

  /** The flag alone excludes nothing: whenever a believer is displaced, both nodes believe, with
      successive tokens, until the displaced one attempts again. */
  lemma TwoBelieversWithDifferentTokens(ttl: Ttls, evs: seq<Event>, m: NodeId, n: NodeId, t: int, read: int, check: int)
    requires m != n && Exec(ttl, evs).Believer(n, t) && Exec(ttl, evs).row.Some?
    requires Exec(ttl, evs).row.value.node == n && Expired(Exec(ttl, evs).row.value.until, check)
    ensures var w := Exec(ttl, evs + [Try(m, read, check)]);
            w.Believer(n, t) && w.Believer(m, t + 1)
  {
    assert evs[..|evs|] == evs;
    OwnerBelievesItsToken(ttl, evs, |evs|, n, t);
    ExecOneMore(ttl, evs, Try(m, read, check));
  }

  /** The token an attempt that takes over sets. */
  function NextToken(w: World): int { if w.row.None? then 1 else w.row.value.token + 1 }

  /** No event of the node between events k and j. */
  ghost predicate Idle(ttl: Ttls, evs: seq<Event>, k: nat, j: nat, n: NodeId)
    requires k < j <= |evs|
  {
    forall i | k < i < j :: evs[i].node != n
  }

  lemma {:induction false} IdleGoesOnBelieving(ttl: Ttls, evs: seq<Event>, k: nat, j: nat, n: NodeId, t: int)
    requires k < j <= |evs| && Idle(ttl, evs, k, j, n) && After(ttl, evs, k + 1).Believer(n, t)
    ensures After(ttl, evs, j).Believer(n, t)
    decreases j
  {
    if k + 1 < j {
      IdleGoesOnBelieving(ttl, evs, k, j - 1, n, t);
      AfterStep(ttl, evs, j - 1);
    }
  }

  /** After a failed commit of a takeover, on an empty row or not, the next node to take over believes in
      the same token, if the first has neither attempted again nor stepped down. The loop that calls the
      attempt steps down as soon as it is told of the failure, so this is about the time until then. */
  lemma AbortedCommitBreaksFencing(ttl: Ttls, evs: seq<Event>, k: nat, j: nat)
    requires k < j < |evs| && AbortedTakeover(After(ttl, evs, k), evs[k]) && Idle(ttl, evs, k, j, evs[k].node)
    requires evs[j].Try? && evs[j].node != evs[k].node && TakesOver(After(ttl, evs, j), evs[j].node, evs[j].check)
    requires NextToken(After(ttl, evs, j)) == NextToken(After(ttl, evs, k))
    ensures var t := NextToken(After(ttl, evs, k));
            After(ttl, evs, j + 1).Believer(evs[k].node, t) && After(ttl, evs, j + 1).Believer(evs[j].node, t)
  {
    var t := NextToken(After(ttl, evs, k));
    AfterStep(ttl, evs, k);
    AfterStep(ttl, evs, j);
    TokensArePositive(ttl, evs[..k]);
    IdleGoesOnBelieving(ttl, evs, k, j, evs[k].node, t);
  }

  /** No two nodes believe in one token at one time. */
  ghost predicate Fenced(w: World) {
    forall m, n, t | w.Believer(m, t) && w.Believer(n, t) :: m == n
  }

  lemma {:induction false} TokensArePositive(ttl: Ttls, evs: seq<Event>)
    ensures Exec(ttl, evs).row.Some? ==> Exec(ttl, evs).row.value.token >= 1
  {
    if evs != [] {
      TokensArePositive(ttl, evs[..|evs| - 1]);
    }
  }

  lemma ExecOneMore(ttl: Ttls, evs: seq<Event>, e: Event)
    ensures Exec(ttl, evs + [e]) == Step(ttl, Exec(ttl, evs), e)
  {
    assert (evs + [e])[..|evs|] == evs;
  }

  lemma OthersExist(a: NodeId, b: NodeId) returns (m: NodeId)
    ensures m != a && m != b
  {
    m := a + b + "x";
    assert |m| > |a| && |m| > |b|;
  }

  /** One failed takeover, and any third node that tries next shares its token. */
  lemma FailedTakeoverIsShared(ttl: Ttls, evs: seq<Event>, e: Event) returns (more: seq<Event>)
    requires AbortedTakeover(Exec(ttl, evs), e)
    ensures CommitsSucceed(more) && !Fenced(Exec(ttl, evs + [e] + more))
  {
    var w := Exec(ttl, evs);
    var m := OthersExist(e.node, if w.row.None? then e.node else w.row.value.node);
    var next := Try(m, e.read, e.check);
    more := [next];
    ExecOneMore(ttl, evs, e);
    ExecOneMore(ttl, evs + [e], next);
    TokensArePositive(ttl, evs);
    var t := NextToken(w);
    var end := Exec(ttl, evs + [e] + [next]);
    assert end == Step(ttl, Step(ttl, w, e), next);
    assert end.Believer(e.node, t) && end.Believer(m, t);
  }

  /** Fencing holds whatever is tried next, from every moment of a run, exactly if no takeover of the run
      failed to commit. */
  lemma FencingExactly(ttl: Ttls, evs: seq<Event>)
    ensures TakeoversCommit(ttl, evs)
            <==> forall k: nat, more: seq<Event> | k <= |evs| && CommitsSucceed(more) :: Fenced(Exec(ttl, evs[..k] + more))
  {
    if TakeoversCommit(ttl, evs) {
      forall k: nat, more: seq<Event> | k <= |evs| && CommitsSucceed(more)
        ensures Fenced(Exec(ttl, evs[..k] + more))
      {
        FencedFromHere(ttl, evs, k, more);
      }
    } else {
      var k: nat :| k < |evs| && AbortedTakeover(After(ttl, evs, k), evs[k]);
      var more := FailedTakeoverIsShared(ttl, evs[..k], evs[k]);
      assert evs[..k] + [evs[k]] == evs[..k + 1];
    }
  }

  lemma FencedFromHere(ttl: Ttls, evs: seq<Event>, k: nat, more: seq<Event>)
    requires TakeoversCommit(ttl, evs) && k <= |evs| && CommitsSucceed(more)
    ensures Fenced(Exec(ttl, evs[..k] + more))
  {
    var all := evs[..k] + more;
    forall i | 0 <= i < |all|
      ensures !AbortedTakeover(After(ttl, all, i), all[i])
    {
      if i < k {
        assert all[..i] == evs[..i] && all[i] == evs[i];
        assert After(ttl, all, i) == After(ttl, evs, i);
      } else {
        assert all[i] == more[i - k];
      }
    }
    assert TakeoversCommit(ttl, all) && all[..|all|] == all;
    forall m, n, t | Exec(ttl, all).Believer(m, t) && Exec(ttl, all).Believer(n, t)
      ensures m == n
    {
      NoTwoMastersShareAToken(ttl, all, |all|, |all|, m, n, t);
    }
  }

  // ----- Timing under one shared clock

  /** Transactions are serialised, so the clock at the expiry test never goes back; a node makes one
      attempt at a time, so it reads the clock for an attempt after its previous one was checked. */
  ghost predicate Timely(evs: seq<Event>) {
    && (forall k | 0 <= k < |evs| && evs[k].Try? :: evs[k].read <= evs[k].check)
    && (forall i, j | 0 <= i < j < |evs| && evs[i].Try? && evs[j].Try? ::
          evs[i].check <= evs[j].check && (evs[i].node == evs[j].node ==> evs[i].check <= evs[j].read))
  }

  /** The row in force was stamped by an attempt of its owner: `read + ttl`, and it says when. */
  lemma {:induction false} RowWasStamped(ttl: Ttls, evs: seq<Event>, k: nat) returns (i: nat)
    requires k <= |evs| && After(ttl, evs, k).row.Some?
    ensures i < k && evs[i].Try? && evs[i].node == After(ttl, evs, k).row.value.node
    ensures After(ttl, evs, k).row.value.until == At(evs[i].read + ttl(evs[i].node))
    ensures After(ttl, evs, i + 1).row == After(ttl, evs, k).row
  {
    assert k > 0;
    AfterStep(ttl, evs, k - 1);
    var e := evs[k - 1];
    if After(ttl, evs, k).row == After(ttl, evs, k - 1).row {
      i := RowWasStamped(ttl, evs, k - 1);
    } else {
      i := k - 1;
    }
  }

  /** Within one tenure the stamps only move forward; an earlier tenure's last stamp lies before
      the expiry test that ended it. */
  lemma {:induction false} StampsAreOrdered(ttl: Ttls, evs: seq<Event>, i: nat, j: nat)
    requires i <= j <= |evs| && Timely(evs)
    requires After(ttl, evs, i).row.Some?
    ensures var a, b := After(ttl, evs, i).row.value, After(ttl, evs, j).row;
            && b.Some? && a.until.At? && b.value.until.At?
            && (a.token == b.value.token ==> a.until.instant <= b.value.until.instant)
            && (a.token != b.value.token ==>
                  exists k :: i <= k < j && evs[k].Try? && a.until.instant < evs[k].check)
    decreases j - i
  {
    if i == j {
      var m := RowWasStamped(ttl, evs, i);
    } else {
      hide After, Timely, Step, Exec, Expired;
      StampsAreOrdered(ttl, evs, i, j - 1);
      AfterStep(ttl, evs, j - 1);
      OneOwnerPerToken(ttl, evs, i, j - 1);
      StampStep(ttl, evs, j - 1);
    }
  }

  /** What one event does to the stamp. */
  lemma StampStep(ttl: Ttls, evs: seq<Event>, j: nat)
    requires j < |evs| && Timely(evs) && After(ttl, evs, j).row.Some?
    ensures var a, w' := After(ttl, evs, j).row.value, Step(ttl, After(ttl, evs, j), evs[j]);
            && w'.row.Some? && a.until.At? && w'.row.value.until.At?
            && (a.token == w'.row.value.token ==> a.until.instant <= w'.row.value.until.instant)
            && (a.token != w'.row.value.token ==>
                  a.token < w'.row.value.token && evs[j].Try? && a.until.instant < evs[j].check)
  {
    var m := RowWasStamped(ttl, evs, j);
    hide After;
    var e := evs[j];
    if e.Try? && e.node == evs[m].node {
      assert evs[m].read <= evs[m].check <= e.read;
    }
  }

  /** Tenures are pairwise disjoint and ordered by token: every stamp written under an older token
      lies strictly before the expiry test at which a newer token was acquired. */
  lemma TenuresAreDisjoint(ttl: Ttls, evs: seq<Event>, i: nat, k: nat)
    requires i <= k < |evs| && Timely(evs)
    requires After(ttl, evs, i).row.Some?
    requires After(ttl, evs, k + 1).row != None
    requires After(ttl, evs, k + 1).row.value.token > After(ttl, evs, k).row.GetOr(After(ttl, evs, k + 1).row.value).token
    ensures evs[k].Try? && After(ttl, evs, i).row.value.until.At?
    ensures After(ttl, evs, i).row.value.token < After(ttl, evs, k + 1).row.value.token
    ensures After(ttl, evs, i).row.value.until.instant < evs[k].check
  {
    AfterStep(ttl, evs, k);
    OneOwnerPerToken(ttl, evs, i, k);
    StampsAreOrdered(ttl, evs, i, k);
    TokenRisesExactlyOnOwnerChange(ttl, After(ttl, evs, k), evs[k]);
  }

  predicate OwnTry(e: Event, n: NodeId) { e.Try? && e.node == n }

  /** p and q are successive attempts of n. */
  ghost predicate Successive(evs: seq<Event>, n: NodeId, p: nat, q: nat) {
    && p < q < |evs| && OwnTry(evs[p], n) && OwnTry(evs[q], n)
    && forall m | p < m < q :: !OwnTry(evs[m], n)
  }

  /** Between events i and j every attempt of n is checked within the TTL of the clock read of its
      previous attempt. */
  ghost predicate RenewsInTime(evs: seq<Event>, n: NodeId, ttl: nat, i: nat, j: nat)
    requires j <= |evs|
  {
    forall p, q | i <= p < q < j && Successive(evs, n, p, q) :: evs[q].check <= evs[p].read + ttl
  }

  lemma NextOwnTry(evs: seq<Event>, n: NodeId, k: nat, j: nat) returns (q: nat)
    requires k < j <= |evs| && OwnTry(evs[j - 1], n)
    ensures k <= q < j && OwnTry(evs[q], n) && (forall m | k <= m < q :: !OwnTry(evs[m], n))
    decreases j - k
  {
    if OwnTry(evs[k], n) {
      q := k;
    } else {
      q := NextOwnTry(evs, n, k + 1, j);
    }
  }

  /** Any attempt that falls between two successive attempts of a punctual holder, or is the second
      of them, is checked before the holder's stamp runs out. */
  lemma CheckedBeforeStampRunsOut(evs: seq<Event>, n: NodeId, ttl: nat, i: nat, p: nat, k: nat, j: nat)
    requires i <= p < k < j <= |evs| && Timely(evs) && evs[k].Try?
    requires OwnTry(evs[p], n) && OwnTry(evs[j - 1], n) && RenewsInTime(evs, n, ttl, i, j)
    requires forall m | p < m < k :: !OwnTry(evs[m], n)
    ensures evs[k].check <= evs[p].read + ttl
  {
    var q := NextOwnTry(evs, n, k, j);
    assert Successive(evs, n, p, q);
  }

  /** The row right after an attempt of its owner, and what one more event makes of it while the
      stamp has not run out. */
  predicate HeldSince(row: Option<Row>, n: NodeId, token: int, read: int, ttl: nat) {
    row == Some(Row(n, token, At(read + ttl), read))
  }

  /** Between events i and k a node does nothing but attempt. */
  ghost predicate OnlyAttempts(evs: seq<Event>, n: NodeId, i: nat, k: nat)
    requires k <= |evs|
  {
    forall m | i <= m < k && evs[m].node == n :: evs[m].Try? || evs[m].Aborted?
  }

  /** While its row stands, a believer that only attempts goes on believing. */
  lemma HolderGoesOnBelieving(ttl: Ttls, w: World, e: Event, n: NodeId, token: int)
    requires w.Believer(n, token) && w.row.Some? && w.row.value.node == n && w.row.value.token == token
    requires e.node == n ==> e.Try? || e.Aborted?
    ensures Step(ttl, w, e).Believer(n, token)
  {
  }

  lemma HolderStep(ttl: Ttls, w: World, e: Event, n: NodeId, token: int, read: int)
    requires HeldSince(w.row, n, token, read, ttl(n))
    requires e.Try? ==> e.check <= read + ttl(n)
    ensures HeldSince(Step(ttl, w, e).row, n, token, if OwnTry(e, n) then e.read else read, ttl(n))
  {
  }

  lemma HeldRow(row: Option<Row>, n: NodeId, token: int, read: int, ttl: nat)
    requires HeldSince(row, n, token, read, ttl)
    ensures row.Some? && row.value.node == n && row.value.token == token
  {
  }

  lemma OwnTryStamps(ttl: Ttls, evs: seq<Event>, n: NodeId, i: nat)
    requires i < |evs| && OwnTry(evs[i], n)
    requires After(ttl, evs, i + 1).row.Some? && After(ttl, evs, i + 1).row.value.node == n
    ensures HeldSince(After(ttl, evs, i + 1).row, n, After(ttl, evs, i + 1).row.value.token, evs[i].read, ttl(n))
  {
    AfterStep(ttl, evs, i);
  }

  /** A holder that keeps renewing in time is never displaced: between its attempt i and its attempt
      j - 1 the row stays its own, under one token, whatever the other nodes do. The row in force is
      always the one stamped by the holder's latest attempt p. And as long as the holder only attempts it
      believes in its token. */
  lemma {:induction false} PunctualHolderIsNeverDisplaced(
      ttl: Ttls, evs: seq<Event>, n: NodeId, token: int, i: nat, k: nat, j: nat) returns (p: nat)
    requires i < k <= j <= |evs| && Timely(evs)
    requires OwnTry(evs[i], n) && OwnTry(evs[j - 1], n) && RenewsInTime(evs, n, ttl(n), i, j)
    requires After(ttl, evs, i + 1).row.Some?
    requires After(ttl, evs, i + 1).row.value.node == n && After(ttl, evs, i + 1).row.value.token == token
    ensures i <= p < k && OwnTry(evs[p], n) && (forall m | p < m < k :: !OwnTry(evs[m], n))
    ensures HeldSince(After(ttl, evs, k).row, n, token, evs[p].read, ttl(n))
    ensures OnlyAttempts(evs, n, i, k) ==> After(ttl, evs, k).Believer(n, token)
    decreases k - i
  {
    hide After, Timely, RenewsInTime, HeldSince, Step;
    if k == i + 1 {
      OwnTryStamps(ttl, evs, n, i);
      AttemptDecidesBelief(ttl, evs, i);
      p := i;
    } else {
      p := PunctualHolderIsNeverDisplaced(ttl, evs, n, token, i, k - 1, j);
      HeldRow(After(ttl, evs, k - 1).row, n, token, evs[p].read, ttl(n));
      if OnlyAttempts(evs, n, i, k) {
        HolderGoesOnBelieving(ttl, After(ttl, evs, k - 1), evs[k - 1], n, token);
      }
      if evs[k - 1].Try? {
        CheckedBeforeStampRunsOut(evs, n, ttl(n), i, p, k - 1, j);
      }
      AfterStep(ttl, evs, k - 1);
      HolderStep(ttl, After(ttl, evs, k - 1), evs[k - 1], n, token, evs[p].read);
      p := if OwnTry(evs[k - 1], n) then k - 1 else p;
    }
  }

  /** Only attempts write the row. */
  lemma {:induction false} RowStaysBetweenTries(ttl: Ttls, evs: seq<Event>, i: nat, k: nat)
    requires i <= k <= |evs| && forall m | i <= m < k :: !evs[m].Try?
    ensures After(ttl, evs, k).row == After(ttl, evs, i).row
    decreases k - i
  {
    if i < k {
      RowStaysBetweenTries(ttl, evs, i, k - 1);
      AfterStep(ttl, evs, k - 1);
    }
  }

  /** An attempt, by whichever node, that commits within the TTL of its clock read leaves the row
      unexpired at its check. */
  lemma PromptAttemptLeavesRowLive(ttl: Ttls, evs: seq<Event>, k: nat)
    requires k < |evs| && evs[k].Try? && evs[k].check - evs[k].read <= ttl(evs[k].node)
    ensures After(ttl, evs, k + 1).row.Some? && !Expired(After(ttl, evs, k + 1).row.value.until, evs[k].check)
  {
    AfterStep(ttl, evs, k);
  }

  /** Availability: when attempts follow each other (whoever makes them) at most `gap` apart, the row
      is live again at most TTL + gap after the clock read of the last renewal. */
  lemma RecoversWithinTtlPlusGap(ttl: Ttls, evs: seq<Event>, j: nat, k: nat, gap: nat) returns (s: nat)
    requires j < k < |evs| && evs[j].Try? && evs[k].Try? && Timely(evs)
    requires forall m | j < m < k :: !evs[m].Try?
    requires evs[j].check - evs[j].read <= ttl(evs[j].node) && evs[k].check - evs[k].read <= ttl(evs[k].node)
    requires evs[k].check <= evs[j].check + gap
    ensures s <= j && evs[s].Try? && After(ttl, evs, k).row.Some?
    ensures After(ttl, evs, k).row.value.until == At(evs[s].read + ttl(evs[s].node))
    ensures evs[k].check <= evs[s].read + ttl(evs[s].node) + gap
    ensures After(ttl, evs, k + 1).row.Some? && !Expired(After(ttl, evs, k + 1).row.value.until, evs[k].check)
  {
    PromptAttemptLeavesRowLive(ttl, evs, j);
    PromptAttemptLeavesRowLive(ttl, evs, k);
    RowStaysBetweenTries(ttl, evs, j + 1, k);
    s := RowWasStamped(ttl, evs, j + 1);
  }
}
