/**
 The connection limiters of src/ssh/server.rs. `AdmissionLimiter` and the unauthenticated half of
 `AuthAbuseLimiter` are one design: a semaphore for all connections and a count per address, taken and
 given back in separate atomic steps, so that other connections run in between.
 */
module Admission {
  import opened Wrappers

  type Ip = nat

  function Get(perIp: map<Ip, nat>, ip: Ip): nat { if ip in perIp then perIp[ip] else 0 }

  datatype Admitted = Admitted(perIp: map<Ip, nat>, ok: bool)

  /** The critical section of an acquire. It creates the entry before it compares. */
  function Admit(perIp: map<Ip, nat>, maxPerIp: nat, ip: Ip): Admitted {
    var count := Get(perIp, ip);
    if count >= maxPerIp then Admitted(perIp[ip := count], false)
    else Admitted(perIp[ip := count + 1], true)
  }

  /** The critical section of a drop. */
  function Release(perIp: map<Ip, nat>, ip: Ip): map<Ip, nat> {
    if ip !in perIp then perIp
    else if perIp[ip] <= 1 then perIp - {ip}
    else perIp[ip := perIp[ip] - 1]
  }

  class AdmissionLimiter {
    const maxPerIp: nat
    var available: nat
    var perIp: map<Ip, nat>

    constructor (maxConnections: nat, maxPerIp: nat)
      ensures this.maxPerIp == maxPerIp && available == maxConnections && perIp == map[]
    {
      this.maxPerIp, available, perIp := maxPerIp, maxConnections, map[];
    }

    method TakeGlobal() returns (ok: bool)
      modifies this`available
      ensures ok <==> old(available) > 0
      ensures available == old(available) - (if ok then 1 else 0)
    {
      ok := available > 0;
      if ok {
        available := available - 1;
      }
    }

    method GiveGlobal()
      modifies this`available
      ensures available == old(available) + 1
    {
      available := available + 1;
    }

    method AdmitIp(ip: Ip) returns (ok: bool)
      modifies this`perIp
      ensures Admitted(perIp, ok) == Admit(old(perIp), maxPerIp, ip)
    {
      if ip !in perIp {
        perIp := perIp[ip := 0];
      }
      if perIp[ip] >= maxPerIp {
        return false;
      }
      perIp := perIp[ip := perIp[ip] + 1];
      ok := true;
    }

    method ReleaseIp(ip: Ip)
      modifies this`perIp
      ensures perIp == Release(old(perIp), ip)
    {
      if ip in perIp {
        var count := if perIp[ip] == 0 then 0 else perIp[ip] - 1;
        perIp := perIp[ip := count];
        if count == 0 {
          perIp := perIp - {ip};
        }
      }
    }

    /** `try_acquire` when nothing runs in between. A refusal leaves the limiter as it was, provided
        the limit per address is not zero. */
    method TryAcquire(ip: Ip) returns (granted: bool)
      modifies this
      ensures granted <==> old(available) > 0 && Get(old(perIp), ip) < maxPerIp
      ensures granted ==> available == old(available) - 1 && perIp == old(perIp)[ip := Get(old(perIp), ip) + 1]
      ensures !granted ==> available == old(available)
      ensures !granted && maxPerIp > 0 ==> perIp == old(perIp)
    {
      granted := TakeGlobal();
      if granted {
        granted := AdmitIp(ip);
        if !granted {
          GiveGlobal();
        }
      }
    }

    /** Dropping a permit: the address first, the semaphore permit after it. */
    method DropPermit(ip: Ip)
      modifies this
      ensures available == old(available) + 1 && perIp == Release(old(perIp), ip)
    {
      ReleaseIp(ip);
      GiveGlobal();
    }
  }

  /** Taking a permit and dropping it undoes it. */
  lemma AcquireThenDropIsIdentity(perIp: map<Ip, nat>, maxPerIp: nat, ip: Ip)
    requires Admit(perIp, maxPerIp, ip).ok && (ip in perIp ==> perIp[ip] > 0)
    ensures Release(Admit(perIp, maxPerIp, ip).perIp, ip) == perIp
  {
  }

  // ----- All interleavings

  /** Where an acquire or its permit stands. In every phase it holds one semaphore permit. */
  datatype Phase = HasGlobal | Granted | Refused | IpReleased

  datatype Ticket = Ticket(ip: Ip, phase: Phase)

  datatype Config = Config(maxConnections: nat, maxPerIp: nat)

  datatype State = State(available: nat, perIp: map<Ip, nat>, tickets: map<nat, Ticket>)

  function Init(c: Config): State { State(c.maxConnections, map[], map[]) }

  /** One atomic step of the acquire or permit `id`. */
  datatype Step =
    | Start(id: nat, ip: Ip)  // take a semaphore permit, or give up at once
    | Enter(id: nat)          // the critical section of the acquire
    | DropIp(id: nat)         // the critical section of the permit's drop
    | GiveBack(id: nat)       // the semaphore permit goes back

  function Next(c: Config, s: State, step: Step): State {
    match step
    case Start(id, ip) =>
      if s.available > 0 && id !in s.tickets then
        State(s.available - 1, s.perIp, s.tickets[id := Ticket(ip, HasGlobal)])
      else s
    case Enter(id) =>
      if id in s.tickets && s.tickets[id].phase == HasGlobal then
        var ip := s.tickets[id].ip;
        var a := Admit(s.perIp, c.maxPerIp, ip);
        State(s.available, a.perIp, s.tickets[id := Ticket(ip, if a.ok then Granted else Refused)])
      else s
    case DropIp(id) =>
      if id in s.tickets && s.tickets[id].phase == Granted then
        var ip := s.tickets[id].ip;
        State(s.available, Release(s.perIp, ip), s.tickets[id := Ticket(ip, IpReleased)])
      else s
    case GiveBack(id) =>
      if id in s.tickets && s.tickets[id].phase in {Refused, IpReleased} then
        State(s.available + 1, s.perIp, s.tickets - {id})
      else s
  }

  function Run(c: Config, s: State, steps: seq<Step>): State
    decreases steps
  {
    if steps == [] then s else Run(c, Next(c, s, steps[0]), steps[1..])
  }

  function LiveIds(tickets: map<nat, Ticket>, ip: Ip): set<nat> {
    set id | id in tickets && tickets[id] == Ticket(ip, Granted)
  }

  /** The live permits of an address. */
  function Live(tickets: map<nat, Ticket>, ip: Ip): nat { |LiveIds(tickets, ip)| }

  function GrantedIds(tickets: map<nat, Ticket>): set<nat> {
    set id | id in tickets && tickets[id].phase == Granted
  }

  ghost function Sum(m: map<Ip, nat>): nat
    decreases |m|
  {
    if m == map[] then 0 else var k :| k in m; m[k] + Sum(m - {k})
  }

  lemma {:induction false} SumWithout(m: map<Ip, nat>, k: Ip)
    requires k in m
    ensures Sum(m) == m[k] + Sum(m - {k})
    decreases |m|
  {
    var j :| j in m && Sum(m) == m[j] + Sum(m - {j});
    if j != k {
      SumWithout(m - {j}, k);
      SumWithout(m - {k}, j);
      assert m - {j} - {k} == m - {k} - {j};
    }
  }

  lemma SumUpdate(m: map<Ip, nat>, k: Ip, v: nat)
    ensures Sum(m[k := v]) == Sum(m) - Get(m, k) + v
  {
    SumWithout(m[k := v], k);
    assert m[k := v] - {k} == m - {k};
    if k in m {
      SumWithout(m, k);
    } else {
      assert m - {k} == m;
    }
  }

  /** What holds between any two steps. */
  ghost predicate Inv(c: Config, s: State) {
    && s.available + |s.tickets| == c.maxConnections
    && (forall ip: Ip :: Get(s.perIp, ip) == Live(s.tickets, ip))
    && (forall ip | ip in s.perIp :: 0 < s.perIp[ip] <= c.maxPerIp)
    && Sum(s.perIp) == |GrantedIds(s.tickets)|
  }

  /** Changing one ticket changes the live sets by that ticket alone. */
  lemma OneTicket(tickets: map<nat, Ticket>, id: nat, t: Ticket, ip: Ip)
    ensures LiveIds(tickets[id := t], ip) == LiveIds(tickets, ip) - {id} + (if t == Ticket(ip, Granted) then {id} else {})
    ensures GrantedIds(tickets[id := t]) == GrantedIds(tickets) - {id} + (if t.phase == Granted then {id} else {})
  {
  }

  lemma TicketGone(tickets: map<nat, Ticket>, id: nat, ip: Ip)
    requires id in tickets && tickets[id].phase != Granted
    ensures LiveIds(tickets - {id}, ip) == LiveIds(tickets, ip)
    ensures GrantedIds(tickets - {id}) == GrantedIds(tickets)
    ensures |tickets - {id}| == |tickets| - 1
  {
    assert (tickets - {id}).Keys == tickets.Keys - {id};
  }

  /** A ticket that is not live may become one or not; the counts follow. */
  lemma TicketMoves(tickets: map<nat, Ticket>, id: nat, t: Ticket)
    requires id in tickets && tickets[id].ip == t.ip
    ensures |tickets[id := t]| == |tickets|
    ensures forall ip: Ip :: Live(tickets[id := t], ip)
              == Live(tickets, ip) - (if tickets[id] == Ticket(ip, Granted) then 1 else 0) + (if t == Ticket(ip, Granted) then 1 else 0)
    ensures |GrantedIds(tickets[id := t])|
            == |GrantedIds(tickets)| - (if tickets[id].phase == Granted then 1 else 0) + (if t.phase == Granted then 1 else 0)
  {
    assert tickets[id := t].Keys == tickets.Keys;
    forall ip: Ip
      ensures Live(tickets[id := t], ip)
              == Live(tickets, ip) - (if tickets[id] == Ticket(ip, Granted) then 1 else 0) + (if t == Ticket(ip, Granted) then 1 else 0)
    {
      OneTicket(tickets, id, t, ip);
    }
    OneTicket(tickets, id, t, t.ip);
  }

  lemma NewTicketLive(tickets: map<nat, Ticket>, id: nat, t: Ticket, ip: Ip)
    requires id !in tickets && t.phase != Granted
    ensures LiveIds(tickets[id := t], ip) == LiveIds(tickets, ip)
  {
  }

  lemma NewTicket(tickets: map<nat, Ticket>, id: nat, t: Ticket)
    requires id !in tickets && t.phase != Granted
    ensures |tickets[id := t]| == |tickets| + 1
    ensures GrantedIds(tickets[id := t]) == GrantedIds(tickets)
    ensures forall ip: Ip :: Live(tickets[id := t], ip) == Live(tickets, ip)
  {
    assert tickets[id := t].Keys == tickets.Keys + {id};
    assert GrantedIds(tickets[id := t]) == GrantedIds(tickets);
    hide LiveIds, GrantedIds;
    forall ip: Ip
      ensures Live(tickets[id := t], ip) == Live(tickets, ip)
    {
      NewTicketLive(tickets, id, t, ip);
    }
  }

  lemma StartKeeps(c: Config, s: State, id: nat, ip: Ip)
    requires Inv(c, s)
    ensures Inv(c, Next(c, s, Start(id, ip)))
  {
    hide Live, GrantedIds, LiveIds, Sum;
    if s.available > 0 && id !in s.tickets {
      NewTicket(s.tickets, id, Ticket(ip, HasGlobal));
    }
  }

  lemma EnterKeeps(c: Config, s: State, id: nat)
    requires Inv(c, s) && c.maxPerIp > 0
    ensures Inv(c, Next(c, s, Enter(id)))
  {
    if id in s.tickets && s.tickets[id].phase == HasGlobal {
      hide Live, GrantedIds, LiveIds, Sum;
      var ip := s.tickets[id].ip;
      var a := Admit(s.perIp, c.maxPerIp, ip);
      TicketMoves(s.tickets, id, Ticket(ip, if a.ok then Granted else Refused));
      if a.ok {
        SumUpdate(s.perIp, ip, Get(s.perIp, ip) + 1);
      } else {
        assert a.perIp == s.perIp;
      }
    }
  }

  lemma DropKeeps(c: Config, s: State, id: nat)
    requires Inv(c, s)
    ensures Inv(c, Next(c, s, DropIp(id)))
  {
    if id in s.tickets && s.tickets[id].phase == Granted {
      var ip := s.tickets[id].ip;
      assert id in LiveIds(s.tickets, ip);
      assert Get(s.perIp, ip) > 0;
      hide Live, GrantedIds, LiveIds, Sum;
      TicketMoves(s.tickets, id, Ticket(ip, IpReleased));
      if s.perIp[ip] == 1 {
        SumWithout(s.perIp, ip);
      } else {
        SumUpdate(s.perIp, ip, s.perIp[ip] - 1);
      }
    }
  }

  lemma GiveBackKeeps(c: Config, s: State, id: nat)
    requires Inv(c, s)
    ensures Inv(c, Next(c, s, GiveBack(id)))
  {
    if id in s.tickets && s.tickets[id].phase in {Refused, IpReleased} {
      forall ip: Ip
        ensures LiveIds(s.tickets - {id}, ip) == LiveIds(s.tickets, ip)
      {
        TicketGone(s.tickets, id, ip);
      }
      TicketGone(s.tickets, id, 0);
    }
  }

  lemma NextKeeps(c: Config, s: State, step: Step)
    requires Inv(c, s) && c.maxPerIp > 0
    ensures Inv(c, Next(c, s, step))
  {
    hide *;
    match step
    case Start(id, ip) => StartKeeps(c, s, id, ip);
    case Enter(id) => EnterKeeps(c, s, id);
    case DropIp(id) => DropKeeps(c, s, id);
    case GiveBack(id) => GiveBackKeeps(c, s, id);
  }

  /** Permit conservation under every interleaving: each address is counted exactly as often as it
      has live permits, never above its limit and never as zero, and the counts sum to the permits
      granted, which are among the semaphore permits taken. */
  lemma {:induction false} PermitsAreConserved(c: Config, s: State, steps: seq<Step>)
    requires Inv(c, s) && c.maxPerIp > 0
    ensures Inv(c, Run(c, s, steps))
    ensures Sum(Run(c, s, steps).perIp) <= c.maxConnections - Run(c, s, steps).available
    decreases steps
  {
    hide Inv, Next, Sum;
    if steps == [] {
      GrantedAreTaken(c, s);
    } else {
      NextKeeps(c, s, steps[0]);
      PermitsAreConserved(c, Next(c, s, steps[0]), steps[1..]);
    }
  }

  lemma GrantedAreTaken(c: Config, s: State)
    requires Inv(c, s)
    ensures Sum(s.perIp) <= c.maxConnections - s.available
  {
    assert GrantedIds(s.tickets) <= s.tickets.Keys;
    SubsetSize(GrantedIds(s.tickets), s.tickets.Keys);
  }

  lemma {:induction false} SubsetSize(a: set<nat>, b: set<nat>)
    requires a <= b
    ensures |a| <= |b|
  {
    if a != {} {
      var x :| x in a;
      SubsetSize(a - {x}, b - {x});
    }
  }

  lemma InitHolds(c: Config)
    ensures Inv(c, Init(c))
  {
    assert GrantedIds(Init(c).tickets) == {};
    forall ip: Ip
      ensures LiveIds(Init(c).tickets, ip) == {}
    {
    }
  }

  /** When everything has been dropped, nothing is left of it. */
  lemma DroppingEverythingRestores(c: Config, steps: seq<Step>)
    requires c.maxPerIp > 0 && Run(c, Init(c), steps).tickets == map[]
    ensures Run(c, Init(c), steps) == Init(c)
  {
    InitHolds(c);
    PermitsAreConserved(c, Init(c), steps);
    var s := Run(c, Init(c), steps);
    forall ip: Ip
      ensures ip !in s.perIp
    {
      assert LiveIds(s.tickets, ip) == {};
    }
    assert s.perIp == map[];
  }

  lemma RunThree(c: Config, s: State, x: Step, y: Step, z: Step)
    ensures Run(c, s, [x, y, z]) == Next(c, Next(c, Next(c, s, x), y), z)
  {
    hide Next;
    assert [x, y, z][1..] == [y, z] && [y, z][1..] == [z] && [z][1..] == [];
    assert Run(c, Next(c, Next(c, s, x), y), [z]) == Next(c, Next(c, Next(c, s, x), y), z);
  }

  /** The state is what its tickets say: the acquires and permits under way determine both counts. */
  lemma TicketsDetermineTheState(c: Config, s: State, t: State)
    requires Inv(c, s) && Inv(c, t) && s.tickets == t.tickets
    ensures s == t
  {
    hide Live, Sum, GrantedIds;
    assert s.available == t.available;
    forall ip: Ip
      ensures ip in s.perIp <==> ip in t.perIp
      ensures ip in s.perIp ==> s.perIp[ip] == t.perIp[ip]
    {
      assert Get(s.perIp, ip) == Get(t.perIp, ip);
    }
    assert s.perIp == t.perIp;
  }

  /** So acquires that are over, refused or dropped, leave no trace, whatever runs in between: two runs
      that end with the same acquires and permits under way end in the same state. */
  lemma FinishedAcquiresLeaveNoTrace(c: Config, s: State, steps: seq<Step>, others: seq<Step>)
    requires Inv(c, s) && c.maxPerIp > 0
    requires Run(c, s, steps).tickets == Run(c, s, others).tickets
    ensures Run(c, s, steps) == Run(c, s, others)
  {
    hide Inv, Run;
    PermitsAreConserved(c, s, steps);
    PermitsAreConserved(c, s, others);
    TicketsDetermineTheState(c, Run(c, s, steps), Run(c, s, others));
  }

  /** A limit of zero per address would leave a zero behind each refusal; the server refuses to start with
      one. */
  lemma ZeroLimitLeavesAnEntry(c: Config, id: nat, ip: Ip)
    requires c.maxConnections > 0
    ensures var s := Run(c, Init(c), [Start(id, ip), Enter(id), GiveBack(id)]);
            c.maxPerIp == 0 <==> (s.tickets == map[] && s.perIp != map[])
  {
    var s1 := Next(c, Init(c), Start(id, ip));
    var s2 := Next(c, s1, Enter(id));
    var s3 := Next(c, s2, GiveBack(id));
    RunThree(c, Init(c), Start(id, ip), Enter(id), GiveBack(id));
    assert id in s2.tickets;
    if c.maxPerIp == 0 {
      assert ip in s3.perIp;
    }
  }
}
