/**
 Authentication of one connection, from src/ssh/session.rs: public keys, passwords and the keyboard
 prompt for an access token, over the failure limiter shared by all connections. Method names and
 rejections are those of section 5.1 of RFC 4252.
 */
module Auth {
  import opened Wrappers
  import Abuse
  import Text

  const USIZE_MAX: nat := 0xFFFF_FFFF_FFFF_FFFF

  function SaturatingIncrement(n: nat): nat { if n >= USIZE_MAX then n else n + 1 }

  type Account = string

  datatype Lookup = Known(account: Account) | Unknown | LookupFailed

  datatype Redemption = Redeemed(account: Account) | RedemptionFailed

  datatype Method = PublicKeyMethod | KeyboardInteractiveMethod

  /** `Reject(None)` leaves the client no method to go on with. */
  datatype Reply = Accept | Prompt | Reject(proceed: Option<Method>)

  /** What the client sends, with the answers of the account store and the clock. */
  datatype Request =
    | PublicKey(user: string, fingerprint: string, lookup: Lookup, now: int)
    | Password(user: string, now: int)
    // No response yet; a response without an answer; a response with one.
    | Keyboard(user: string, response: Option<Option<string>>, redemption: Redemption, now: int)

  datatype Handler = Handler(
    account: Option<Account>,
    pendingKey: Option<string>,
    authAttempts: nat,
    hasUnauthPermit: bool,
    authenticated: bool)

  datatype Config = Config(peer: Option<Abuse.Ip>, deadline: int, maxAuthAttempts: nat, abuse: Abuse.Config)

  datatype World = World(handler: Handler, abuse: Abuse.State)

  /** What one request does to the counters of a run. */
  datatype Effect = Nothing | UnknownKeyOffered | Failed | RedeemedToken | RedemptionRefused

  datatype Answer = Answer(world: World, reply: Reply, effect: Effect)

  predicate DeadlineExpired(c: Config, h: Handler, now: int) { h.account.None? && now >= c.deadline }

  function MarkAuthenticated(c: Config, w: World, account: Account): World {
    World(w.handler.(account := Some(account), pendingKey := None, hasUnauthPermit := false, authenticated := true),
          Abuse.Clear(w.abuse, c.peer))
  }

  function RecordFailure(c: Config, w: World, user: string, keyFp: Option<string>, now: int, effect: Effect): Answer {
    var h := w.handler.(pendingKey := None, authAttempts := SaturatingIncrement(w.handler.authAttempts));
    Answer(World(h, Abuse.Record(c.abuse, w.abuse, c.peer, user, keyFp, now).state),
           Reject(if h.authAttempts >= c.maxAuthAttempts then None else Some(PublicKeyMethod)),
           effect)
  }

  function Handle(c: Config, w: World, r: Request): Answer {
    if DeadlineExpired(c, w.handler, r.now) then Answer(w, Reject(None), Nothing)
    else
      match r
      case PublicKey(user, fingerprint, Known(account), now) =>
        Answer(MarkAuthenticated(c, w, account), Accept, Nothing)
      case PublicKey(user, fingerprint, LookupFailed, now) =>
        Answer(w.(handler := w.handler.(pendingKey := None)), Reject(None), Nothing)
      case PublicKey(user, fingerprint, Unknown, now) =>
        var h := w.handler.(pendingKey := Some(fingerprint), authAttempts := SaturatingIncrement(w.handler.authAttempts));
        Answer(w.(handler := h),
               Reject(if h.authAttempts >= c.maxAuthAttempts then None else Some(KeyboardInteractiveMethod)),
               UnknownKeyOffered)
      case Password(user, now) => PasswordFailure(c, w, user, now)
      case Keyboard(user, response, redemption, now) =>
        if w.handler.pendingKey.None? then RecordFailure(c, w, user, None, now, Failed)
        else if response.None? then Answer(w, Prompt, Nothing)
        else if response.value.None? || Text.IsBlank(response.value.value) then RecordFailure(c, w, user, None, now, Failed)
        else
          match redemption
          case Redeemed(account) => Answer(MarkAuthenticated(c, w, account), Accept, RedeemedToken)
          case RedemptionFailed => RecordFailure(c, w, user, w.handler.pendingKey, now, RedemptionRefused)
  }

  /** A password is refused without touching the pending key. */
  function PasswordFailure(c: Config, w: World, user: string, now: int): Answer {
    var a := RecordFailure(c, w, user, None, now, Failed);
    a.(world := a.world.(handler := a.world.handler.(pendingKey := w.handler.pendingKey)))
  }

  class ClientHandler {
    const config: Config
    const authAbuse: Abuse.AuthAbuseLimiter
    var account: Option<Account>
    var pendingKey: Option<string>
    var authAttempts: nat
    var unauthPermit: Option<()>
    var authenticated: bool

    constructor (config: Config, authAbuse: Abuse.AuthAbuseLimiter)
      requires authAbuse.config == config.abuse
      ensures this.config == config && this.authAbuse == authAbuse
      ensures Value() == World(Handler(None, None, 0, true, false), authAbuse.Value())
    {
      this.config, this.authAbuse := config, authAbuse;
      account, pendingKey, authAttempts, unauthPermit, authenticated := None, None, 0, Some(()), false;
    }

    function Value(): World
      reads this, authAbuse
    {
      World(Handler(account, pendingKey, authAttempts, unauthPermit.Some?, authenticated), authAbuse.Value())
    }

    predicate Expired(now: int)
      reads this
    {
      account.None? && now >= config.deadline
    }

    method MarkAuthenticatedAs(account: Account)
      modifies this, authAbuse
      ensures Value() == MarkAuthenticated(config, old(Value()), account)
    {
      authenticated := true;
      unauthPermit := None;
      authAbuse.ClearSource(config.peer);
      this.account := Some(account);
      pendingKey := None;
    }

    method RecordAuthFailure(user: string, keyFp: Option<string>, now: int) returns (reply: Reply)
      requires authAbuse.config == config.abuse
      modifies this`authAttempts, authAbuse
      ensures var a := RecordFailure(config, old(Value()), user, keyFp, now, Failed);
              && reply == a.reply
              && Value() == a.world.(handler := a.world.handler.(pendingKey := old(pendingKey)))
    {
      if authAttempts < USIZE_MAX {
        authAttempts := authAttempts + 1;
      }
      var penalized := authAbuse.RecordFailure(config.peer, user, keyFp, now);
      reply := Reject(if authAttempts >= config.maxAuthAttempts then None else Some(PublicKeyMethod));
    }

    method AuthPublickey(user: string, fingerprint: string, lookup: Lookup, now: int) returns (reply: Reply)
      requires authAbuse.config == config.abuse
      modifies this, authAbuse
      ensures var a := Handle(config, old(Value()), PublicKey(user, fingerprint, lookup, now));
              Value() == a.world && reply == a.reply
    {
      if Expired(now) {
        return Reject(None);
      }
      match lookup {
        case Known(account) =>
          MarkAuthenticatedAs(account);
          return Accept;
        case LookupFailed =>
          pendingKey := None;
          return Reject(None);
        case Unknown =>
      }
      pendingKey := Some(fingerprint);
      if authAttempts < USIZE_MAX {
        authAttempts := authAttempts + 1;
      }
      if authAttempts >= config.maxAuthAttempts {
        return Reject(None);
      }
      reply := Reject(Some(KeyboardInteractiveMethod));
    }

    method AuthPassword(user: string, now: int) returns (reply: Reply)
      requires authAbuse.config == config.abuse
      modifies this, authAbuse
      ensures var a := Handle(config, old(Value()), Password(user, now));
              Value() == a.world && reply == a.reply
    {
      if Expired(now) {
        return Reject(None);
      }
      reply := RecordAuthFailure(user, None, now);
    }

    method AuthKeyboardInteractive(user: string, response: Option<Option<string>>, redemption: Redemption, now: int)
      returns (reply: Reply)
      requires authAbuse.config == config.abuse
      modifies this, authAbuse
      ensures var a := Handle(config, old(Value()), Keyboard(user, response, redemption, now));
              Value() == a.world && reply == a.reply
    {
      if Expired(now) {
        return Reject(None);
      }
      if pendingKey.None? {
        reply := RecordAuthFailure(user, None, now);
        return;
      }
      if response.None? {
        return Prompt;
      }
      if response.value.None? || Text.IsBlank(response.value.value) {
        pendingKey := None;
        reply := RecordAuthFailure(user, None, now);
        return;
      }
      var pending := pendingKey;
      pendingKey := None;
      match redemption {
        case Redeemed(account) =>
          MarkAuthenticatedAs(account);
          reply := Accept;
        case RedemptionFailed =>
          reply := RecordAuthFailure(user, pending, now);
      }
    }
  }

  // ----- Runs of one connection. The limiter is shared: it may change between two requests.

  datatype Turn = Turn(request: Request, abuseBefore: Abuse.State)

  function Initial(): Handler { Handler(None, None, 0, true, false) }

  function AnswerTo(c: Config, h: Handler, t: Turn): Answer { Handle(c, World(h, t.abuseBefore), t.request) }

  function Run(c: Config, turns: seq<Turn>): Handler {
    if turns == [] then Initial()
    else AnswerTo(c, Run(c, turns[..|turns| - 1]), turns[|turns| - 1]).world.handler
  }

  /** The effect of the last request. */
  function LastEffect(c: Config, turns: seq<Turn>): Effect
    requires turns != []
  {
    AnswerTo(c, Run(c, turns[..|turns| - 1]), turns[|turns| - 1]).effect
  }

  /** How often a kind of effect occurred. */
  function Count(c: Config, turns: seq<Turn>, effects: set<Effect>): nat {
    if turns == [] then 0
    else Count(c, turns[..|turns| - 1], effects) + (if LastEffect(c, turns) in effects then 1 else 0)
  }

  const OFFERS: set<Effect> := {UnknownKeyOffered}
  const REDEMPTIONS: set<Effect> := {RedeemedToken, RedemptionRefused}
  const ATTEMPTS: set<Effect> := {UnknownKeyOffered, Failed, RedemptionRefused}

  function Pending(h: Handler): nat { if h.pendingKey.Some? then 1 else 0 }

  function AtMost(n: nat, limit: nat): nat { if n <= limit then n else limit }

  /** Every redemption consumes the key of an unknown-key offer of its own. */
  lemma {:induction false} RedemptionsConsumeOffers(c: Config, turns: seq<Turn>)
    ensures Count(c, turns, REDEMPTIONS) + Pending(Run(c, turns)) <= Count(c, turns, OFFERS)
  {
    if turns != [] {
      hide Abuse.Record, Abuse.Clear, Text.IsBlank;
      RedemptionsConsumeOffers(c, turns[..|turns| - 1]);
    }
  }

  predicate Consistent(h: Handler) {
    (h.account.Some? <==> h.authenticated) && (h.authenticated <==> !h.hasUnauthPermit)
  }

  lemma ConsistentStep(c: Config, h: Handler, t: Turn)
    requires Consistent(h)
    ensures Consistent(AnswerTo(c, h, t).world.handler)
  {
    hide Abuse.Record, Abuse.Clear, Text.IsBlank;
  }

  /** An account is set exactly when the connection is marked authenticated, and exactly then the
      unauthenticated permit is gone. */
  lemma {:induction false} AccountMeansAuthenticated(c: Config, turns: seq<Turn>)
    ensures var h := Run(c, turns);
            (h.account.Some? <==> h.authenticated) && (h.authenticated <==> !h.hasUnauthPermit)
  {
    if turns != [] {
      hide AnswerTo;
      var front := turns[..|turns| - 1];
      AccountMeansAuthenticated(c, front);
      ConsistentStep(c, Run(c, front), turns[|turns| - 1]);
    }
  }

  /** One request counts as an attempt or not, as its effect says. */
  lemma AttemptStep(c: Config, h: Handler, t: Turn)
    ensures var a := AnswerTo(c, h, t);
            a.world.handler.authAttempts == if a.effect in ATTEMPTS then SaturatingIncrement(h.authAttempts) else h.authAttempts
  {
    hide Abuse.Record, Abuse.Clear, Text.IsBlank;
  }

  /** The attempt counter is the number of unknown-key offers and recorded failures, until it
      saturates. */
  lemma {:induction false} AttemptsAreCounted(c: Config, turns: seq<Turn>)
    ensures Run(c, turns).authAttempts == AtMost(Count(c, turns, ATTEMPTS), USIZE_MAX)
  {
    if turns != [] {
      hide AnswerTo;
      var front := turns[..|turns| - 1];
      AttemptsAreCounted(c, front);
      AttemptStep(c, Run(c, front), turns[|turns| - 1]);
    }
  }

  /** An offer or failure leaves no method exactly when it brings the count to the maximum. Before that an
      offer leaves the prompt, and a failure the keys. */
  lemma NoMethodsAtTheMaximum(c: Config, turns: seq<Turn>)
    requires turns != [] && LastEffect(c, turns) in ATTEMPTS
    ensures var reply := AnswerTo(c, Run(c, turns[..|turns| - 1]), turns[|turns| - 1]).reply;
            && reply.Reject?
            && reply.proceed == (if AtMost(Count(c, turns, ATTEMPTS), USIZE_MAX) >= c.maxAuthAttempts then None
                                 else if LastEffect(c, turns) == UnknownKeyOffered then Some(KeyboardInteractiveMethod)
                                 else Some(PublicKeyMethod))
  {
    hide Abuse.Record, Abuse.Clear, Text.IsBlank;
    AttemptsAreCounted(c, turns);
  }

  /** Nobody is let in without an active account's key or a redeemed token. */
  lemma AcceptedOnlyWithKeyOrToken(c: Config, h: Handler, t: Turn)
    ensures var a := AnswerTo(c, h, t);
            a.reply == Accept <==>
              && (h.account.Some? || t.request.now < c.deadline)
              && ((t.request.PublicKey? && t.request.lookup.Known?)
                  || (&& t.request.Keyboard? && h.pendingKey.Some? && t.request.redemption.Redeemed?
                      && t.request.response.Some? && t.request.response.value.Some?
                      && !Text.IsBlank(t.request.response.value.value)))
  {
    hide Abuse.Record, Abuse.Clear, Text.IsBlank;
  }

  /** All other answers: the prompt, exactly for a key that is pending and no response yet; and no method to
      go on with, past the deadline and when a key cannot be looked up. */
  lemma OtherAnswers(c: Config, h: Handler, t: Turn)
    ensures var a := AnswerTo(c, h, t);
            var expired := h.account.None? && t.request.now >= c.deadline;
            && (a.reply == Prompt <==> !expired && t.request.Keyboard? && h.pendingKey.Some? && t.request.response.None?)
            && (expired ==> a == Answer(World(h, t.abuseBefore), Reject(None), Nothing))
            && (t.request.PublicKey? && t.request.lookup.LookupFailed? ==> a.reply == Reject(None))
            && (a.effect == Nothing && !(a.reply == Accept || a.reply == Prompt) ==>
                  expired || (t.request.PublicKey? && t.request.lookup.LookupFailed?))
            && (a.reply == Accept ==> a.effect == if t.request.Keyboard? then RedeemedToken else Nothing)
  {
    hide Abuse.Record, Abuse.Clear, Text.IsBlank;
  }

  // ----- Who is let in, and what the limiter is told

  /** The answer to turn `k` of a run. */
  function AnswerAt(c: Config, turns: seq<Turn>, k: nat): Answer
    requires k < |turns|
  {
    AnswerTo(c, Run(c, turns[..k]), turns[k])
  }

  /** The account a request speaks for: the key's owner, or the one the token was redeemed into. */
  function Owner(r: Request): Option<Account> {
    match r
    case PublicKey(_, _, Known(account), _) => Some(account)
    case Keyboard(_, _, Redeemed(account), _) => Some(account)
    case _ => None
  }

  lemma AnswerBefore(c: Config, turns: seq<Turn>, k: nat)
    requires k + 1 < |turns|
    ensures AnswerAt(c, turns, k) == AnswerAt(c, turns[..|turns| - 1], k)
  {
    assert turns[..|turns| - 1][..k] == turns[..k];
  }

  lemma AcceptedIsOwner(c: Config, h: Handler, t: Turn)
    ensures var a := AnswerTo(c, h, t);
            && (a.reply == Accept ==> Owner(t.request).Some? && a.world.handler.account == Owner(t.request))
            && (a.reply != Accept ==> a.world.handler.account == h.account)
  {
    hide Abuse.Record, Abuse.Clear, Text.IsBlank;
  }

  /** Turn `k` was accepted, and none after it. */
  ghost predicate LastAccepted(c: Config, turns: seq<Turn>, k: nat) {
    && k < |turns| && AnswerAt(c, turns, k).reply == Accept
    && forall j | k < j < |turns| :: AnswerAt(c, turns, j).reply != Accept
  }

  /** The connection's account is the owner in the last accepted request, and no other. */
  lemma {:induction false} AccountIsLastAccepted(c: Config, turns: seq<Turn>, account: Account)
    ensures Run(c, turns).account == Some(account)
            <==> exists k: nat :: LastAccepted(c, turns, k) && Owner(turns[k].request) == Some(account)
  {
    hide AnswerTo, Owner;
    if turns != [] {
      var last := |turns| - 1;
      var front := turns[..last];
      AccountIsLastAccepted(c, front, account);
      AcceptedIsOwner(c, Run(c, front), turns[last]);
      forall k | 0 <= k < last
        ensures AnswerAt(c, turns, k) == AnswerAt(c, front, k)
      {
        AnswerBefore(c, turns, k);
      }
      LastAcceptedMoves(c, turns, account);
    }
  }

  lemma LastAcceptedMoves(c: Config, turns: seq<Turn>, account: Account)
    requires turns != []
    requires forall k | 0 <= k < |turns| - 1 :: AnswerAt(c, turns, k) == AnswerAt(c, turns[..|turns| - 1], k)
    ensures var front, last := turns[..|turns| - 1], |turns| - 1;
            (exists k: nat :: LastAccepted(c, turns, k) && Owner(turns[k].request) == Some(account))
            <==> if AnswerAt(c, turns, last).reply == Accept then Owner(turns[last].request) == Some(account)
                 else exists k: nat :: LastAccepted(c, front, k) && Owner(front[k].request) == Some(account)
  {
    hide AnswerAt, Owner;
    var front, last := turns[..|turns| - 1], |turns| - 1;
    if AnswerAt(c, turns, last).reply == Accept {
      assert LastAccepted(c, turns, last);
    } else {
      forall k: nat | LastAccepted(c, front, k)
        ensures LastAccepted(c, turns, k)
      {
        assert forall j | k <= j < last :: AnswerAt(c, turns, j) == AnswerAt(c, front, j);
      }
      forall k: nat | LastAccepted(c, turns, k)
        ensures k < last && LastAccepted(c, front, k)
      {
        assert k < last;
        assert forall j | k <= j < last :: AnswerAt(c, front, j) == AnswerAt(c, turns, j);
      }
    }
  }

  /** What one request makes the limiter hear: every acceptance, and every recorded failure under the name
      typed and the key that was pending for the prompt. */
  function Told(c: Config, h: Handler, r: Request): seq<Abuse.Event> {
    if DeadlineExpired(c, h, r.now) then []
    else
      match r
      case PublicKey(_, _, lookup, _) => if lookup.Known? then [Abuse.Success(c.peer)] else []
      case Password(user, now) => [Abuse.Fail(c.peer, user, None, now)]
      case Keyboard(user, response, redemption, now) =>
        if h.pendingKey.Some? && response.None? then []
        else if h.pendingKey.None? || response.value.None? || Text.IsBlank(response.value.value) then
          [Abuse.Fail(c.peer, user, None, now)]
        else if redemption.Redeemed? then [Abuse.Success(c.peer)]
        else [Abuse.Fail(c.peer, user, h.pendingKey, now)]
  }

  lemma LimiterIsTold(c: Config, h: Handler, t: Turn)
    ensures var a := AnswerTo(c, h, t);
            && a.world.abuse == Abuse.Run(c.abuse, t.abuseBefore, Told(c, h, t.request))
            && (a.reply == Accept <==> Told(c, h, t.request) == [Abuse.Success(c.peer)])
            && (a.effect in {Failed, RedemptionRefused} <==> Told(c, h, t.request) != [] && Told(c, h, t.request)[0].Fail?)
  {
    hide Abuse.Record, Abuse.Clear, Text.IsBlank;
    RunOfOne(c.abuse, t.abuseBefore, Told(c, h, t.request));
  }

  /** The limiter before each turn is what the turn before left, after whatever other connections did. */
  ghost predicate SharesLimiter(c: Config, turns: seq<Turn>, s: Abuse.State, others: seq<seq<Abuse.Event>>) {
    && |others| == |turns|
    && forall k | 0 <= k < |turns| :: turns[k].abuseBefore == Abuse.Run(c.abuse, LimiterAfter(c, turns, s, k), others[k])
  }

  function LimiterAfter(c: Config, turns: seq<Turn>, s: Abuse.State, k: nat): Abuse.State
    requires k <= |turns|
  {
    if k == 0 then s else AnswerAt(c, turns, k - 1).world.abuse
  }

  /** All that the limiter hears in a run. */
  function Heard(c: Config, turns: seq<Turn>, others: seq<seq<Abuse.Event>>, k: nat): seq<Abuse.Event>
    requires k <= |turns| == |others|
  {
    if k == 0 then []
    else Heard(c, turns, others, k - 1) + (others[k - 1] + Told(c, Run(c, turns[..k - 1]), turns[k - 1].request))
  }

  /** Between the events of other connections the limiter hears of every request what it is told, in
      order, and nothing else. */
  lemma {:induction false} LimiterHearsEachRequest(c: Config, turns: seq<Turn>, s: Abuse.State, others: seq<seq<Abuse.Event>>,
                                                   k: nat)
    requires SharesLimiter(c, turns, s, others) && k <= |turns|
    ensures LimiterAfter(c, turns, s, k) == Abuse.Run(c.abuse, s, Heard(c, turns, others, k))
  {
    hide AnswerTo, Abuse.Step, Told;
    if k > 0 {
      LimiterHearsEachRequest(c, turns, s, others, k - 1);
      var t := turns[k - 1];
      var told := Told(c, Run(c, turns[..k - 1]), t.request);
      LimiterIsTold(c, Run(c, turns[..k - 1]), t);
      Abuse.RunConcat(c.abuse, s, Heard(c, turns, others, k - 1), others[k - 1] + told);
      Abuse.RunConcat(c.abuse, LimiterAfter(c, turns, s, k - 1), others[k - 1], told);
    }
  }

  lemma RunOfOne(c: Abuse.Config, s: Abuse.State, evs: seq<Abuse.Event>)
    requires |evs| <= 1
    ensures Abuse.Run(c, s, evs) == if evs == [] then s else Abuse.Step(c, s, evs[0])
  {
    hide Abuse.Step;
    if evs != [] {
      assert evs[1..] == [];
    }
  }

  /** Turn `k` offered this unknown key, and no turn since has taken it: those were passwords, prompts or
      refused by the deadline. */
  ghost predicate OfferedSince(c: Config, turns: seq<Turn>, k: nat, fingerprint: string) {
    && k < |turns| && AnswerAt(c, turns, k).effect == UnknownKeyOffered
    && turns[k].request.PublicKey? && turns[k].request.fingerprint == fingerprint
    && forall j | k < j < |turns| :: KeepsKey(c, turns, j)
  }

  ghost predicate KeepsKey(c: Config, turns: seq<Turn>, j: nat)
    requires j < |turns|
  {
    || DeadlineExpired(c, Run(c, turns[..j]), turns[j].request.now)
    || turns[j].request.Password?
    || AnswerAt(c, turns, j).reply == Prompt
  }

  lemma PendingStep(c: Config, h: Handler, t: Turn)
    ensures var a := AnswerTo(c, h, t);
            && (a.effect == UnknownKeyOffered ==>
                  && t.request.PublicKey? && a.world.handler.pendingKey == Some(t.request.fingerprint)
                  && !DeadlineExpired(c, h, t.request.now) && a.reply != Prompt)
            && (a.effect != UnknownKeyOffered ==>
                  a.world.handler.pendingKey
                  == if DeadlineExpired(c, h, t.request.now) || t.request.Password? || a.reply == Prompt then h.pendingKey
                     else None)
  {
    hide Abuse.Record, Abuse.Clear, Text.IsBlank;
  }

  /** The key a token is redeemed for, and that a failed redemption is counted under, is the last unknown
      key offered, unless something other than a password or a prompt came in between. */
  lemma {:induction false} PendingKeyIsLastOffered(c: Config, turns: seq<Turn>, fingerprint: string)
    ensures Run(c, turns).pendingKey == Some(fingerprint) <==> exists k: nat :: OfferedSince(c, turns, k, fingerprint)
  {
    hide AnswerTo, DeadlineExpired;
    if turns != [] {
      var last := |turns| - 1;
      var front := turns[..last];
      PendingKeyIsLastOffered(c, front, fingerprint);
      PendingStep(c, Run(c, front), turns[last]);
      forall k | 0 <= k < last
        ensures AnswerAt(c, turns, k) == AnswerAt(c, front, k) && turns[..k] == front[..k]
      {
        AnswerBefore(c, turns, k);
      }
      OfferMoves(c, turns, fingerprint);
      assert turns[..last] == front;
    }
  }

  lemma OfferMoves(c: Config, turns: seq<Turn>, fingerprint: string)
    requires turns != []
    requires forall k | 0 <= k < |turns| - 1 ::
               AnswerAt(c, turns, k) == AnswerAt(c, turns[..|turns| - 1], k) && turns[..k] == turns[..|turns| - 1][..k]
    ensures var front, last := turns[..|turns| - 1], |turns| - 1;
            (exists k: nat :: OfferedSince(c, turns, k, fingerprint))
            <==> OfferedSince(c, turns, last, fingerprint)
                 || (KeepsKey(c, turns, last) && exists k: nat :: OfferedSince(c, front, k, fingerprint))
  {
    hide AnswerAt, DeadlineExpired, Run;
    var front, last := turns[..|turns| - 1], |turns| - 1;
    if KeepsKey(c, turns, last) {
      forall k: nat | OfferedSince(c, front, k, fingerprint)
        ensures OfferedSince(c, turns, k, fingerprint)
      {
        assert forall j | k < j < last :: KeepsKey(c, front, j) ==> KeepsKey(c, turns, j);
      }
    }
    forall k: nat | OfferedSince(c, turns, k, fingerprint) && k != last
      ensures KeepsKey(c, turns, last) && OfferedSince(c, front, k, fingerprint)
    {
      assert forall j | k < j < last :: KeepsKey(c, turns, j) ==> KeepsKey(c, front, j);
    }
  }

  /** Past the deadline a connection without an account stays as it is, whatever it sends. */
  lemma {:induction false} DeadlineFreezes(c: Config, turns: seq<Turn>, k: nat)
    requires k <= |turns| && Run(c, turns[..k]).account.None?
    requires forall i | k <= i < |turns| :: turns[i].request.now >= c.deadline
    ensures Run(c, turns) == Run(c, turns[..k])
    decreases |turns|
  {
    if k < |turns| {
      var before := turns[..|turns| - 1];
      assert before[..k] == turns[..k];
      DeadlineFreezes(c, before, k);
    } else {
      assert turns[..k] == turns;
    }
  }
}
