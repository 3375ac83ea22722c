/**
 The turn selector of the Client UDP actor: it alternates between the two ingress families and a bounded drain of
 browser responses, under whatever readiness the sockets and the timer show.
 */
module UdpTurns {
  const MAXIMUM_BROWSER_QUIC_RESPONSES_PER_TICK := 64

  datatype Family = Ipv4 | Ipv6

  /** What polling a socket's readiness gives. */
  datatype Poll = Idle | Readable | Broken

  /** What one selection sees: whether the timer is due, and both sockets. */
  datatype View = View(tick: bool, ipv4: Poll, ipv6: Poll) {
    function Of(f: Family): (p: Poll) {
      if f.Ipv4? then ipv4 else ipv6
    }
  }

  /** The result of a call: an ingress turn, a response turn, a poll error, or no branch ready yet. */
  datatype Outcome = Ingress(family: Family) | Response | Failed | Waiting

  datatype Turns = Turns(reverseRemaining: nat, ipv6First: bool, ingressFirst: bool) {
    function First(): (f: Family) {
      if ipv6First then Ipv6 else Ipv4
    }

    function Second(): (f: Family) {
      if ipv6First then Ipv4 else Ipv6
    }
  }

  const START := Turns(0, false, false)

  // Specification of one call

  function EndReverseDrain(s: Turns): (t: Turns) {
    s.(reverseRemaining := 0)
  }

  function ReverseTurn(s: Turns): (t: Turns)
    requires s.reverseRemaining > 0
  {
    s.(reverseRemaining := s.reverseRemaining - 1, ingressFirst := true)
  }

  function IngressTurn(s: Turns, f: Family): (t: Turns) {
    s.(ipv6First := f.Ipv4?, ingressFirst := false)
  }

  /** A selection with no timer branch: the preferred family, the other one, then a pending response. */
  function Select(s: Turns, v: View): (r: (Turns, Outcome)) {
    if v.Of(s.First()).Broken? then (s, Failed)
    else if v.Of(s.First()).Readable? then (IngressTurn(s, s.First()), Ingress(s.First()))
    else if v.Of(s.Second()).Broken? then (s, Failed)
    else if v.Of(s.Second()).Readable? then (IngressTurn(s, s.Second()), Ingress(s.Second()))
    else if s.reverseRemaining > 0 then (ReverseTurn(s), Response)
    else (s, Waiting)
  }

  function DueOrSelect(s: Turns, v: View): (r: (Turns, Outcome)) {
    if s.reverseRemaining > 0 && !s.ingressFirst then (ReverseTurn(s), Response) else Select(s, v)
  }

  /** Does the call find its drain empty and the timer due? */
  predicate Arms(s: Turns, active: bool, first: View) {
    active && s.reverseRemaining == 0 && first.tick
  }

  /** One call: `first` is what its first selection sees, `second` what it sees after arming. */
  function Turn(s: Turns, active: bool, first: View, second: View): (r: (Turns, Outcome)) {
    var s := if active then s else EndReverseDrain(s);
    if Arms(s, active, first)
    then DueOrSelect(s.(reverseRemaining := MAXIMUM_BROWSER_QUIC_RESPONSES_PER_TICK), second)
    else DueOrSelect(s, first)
  }

  class ClientUdpTurns {
    var reverseRemaining: nat
    var ipv6First: bool
    var ingressFirst: bool

    constructor ()
      ensures Now() == START
    {
      reverseRemaining, ipv6First, ingressFirst := 0, false, false;
    }

    ghost function Now(): (s: Turns)
      reads this
    {
      Turns(reverseRemaining, ipv6First, ingressFirst)
    }

    method EndDrain()
      modifies this
      ensures Now() == EndReverseDrain(old(Now()))
    {
      reverseRemaining := 0;
    }

    method TakeResponse() returns (o: Outcome)
      requires reverseRemaining > 0
      modifies this
      ensures Now() == ReverseTurn(old(Now())) && o == Response
    {
      reverseRemaining, ingressFirst := reverseRemaining - 1, true;
      o := Response;
    }

    method TakeIngress(f: Family) returns (o: Outcome)
      modifies this
      ensures Now() == IngressTurn(old(Now()), f) && o == Ingress(f)
    {
      ipv6First, ingressFirst := f.Ipv4?, false;
      o := Ingress(f);
    }

    /** The select loop. It goes round at most twice: a call arms the drain at most once. */
    method Next(active: bool, first: View, second: View) returns (o: Outcome, ghost armings: nat)
      modifies this
      ensures (Now(), o) == Turn(old(Now()), active, first, second)
      ensures armings == if Arms(old(Now()), active, first) then 1 else 0
    {
      armings := 0;
      if !active {
        EndDrain();
      }
      var view := first;
      ghost var entry := Now();
      while true
        invariant armings == 0 ==> view == first && Now() == entry
        invariant armings > 0 ==> armings == 1 && view == second && Arms(entry, active, first)
                                  && Now() == entry.(reverseRemaining := MAXIMUM_BROWSER_QUIC_RESPONSES_PER_TICK)
        decreases 1 - armings
      {
        if reverseRemaining > 0 && !ingressFirst {
          o := TakeResponse();
          return;
        }
        var preferred, other := if ipv6First then Ipv6 else Ipv4, if ipv6First then Ipv4 else Ipv6;
        if active && reverseRemaining == 0 && view.tick {
          reverseRemaining := MAXIMUM_BROWSER_QUIC_RESPONSES_PER_TICK;
          armings, view := armings + 1, second;
        } else if !view.Of(preferred).Idle? {
          if view.Of(preferred).Broken? {
            return Failed, armings;
          }
          o := TakeIngress(preferred);
          return;
        } else if !view.Of(other).Idle? {
          if view.Of(other).Broken? {
            return Failed, armings;
          }
          o := TakeIngress(other);
          return;
        } else if reverseRemaining > 0 {
          o := TakeResponse();
          return;
        } else {
          return Waiting, armings;
        }
      }
    }
  }

  // Runs: calls and explicit drain ends in any order

  datatype Event = Call(active: bool, first: View, second: View) | End

  function After(s: Turns, e: Event): (t: Turns) {
    match e
    case Call(active, first, second) => Turn(s, active, first, second).0
    case End => EndReverseDrain(s)
  }

  function Seen(s: Turns, e: Event): (o: Outcome) {
    match e
    case Call(active, first, second) => Turn(s, active, first, second).1
    case End => Waiting
  }

  function State(s: Turns, events: seq<Event>): (t: Turns) {
    if events == [] then s else After(State(s, events[..|events| - 1]), events[|events| - 1])
  }

  /** What a run has done with the responses it was allowed. */
  datatype Tally = Tally(armings: nat, responses: nat, discarded: nat)

  function Armings(s: Turns, e: Event): (n: nat) {
    if e.Call? && Arms(if e.active then s else EndReverseDrain(s), e.active, e.first) then 1 else 0
  }

  /** What an event throws away: an explicit end, or a call while the browser is inactive. */
  function Discards(s: Turns, e: Event): (n: nat) {
    if e.End? || !e.active then s.reverseRemaining else 0
  }

  function Count(s: Turns, events: seq<Event>): (t: Tally) {
    if events == [] then Tally(0, 0, 0)
    else
      var before, e := State(s, events[..|events| - 1]), events[|events| - 1];
      var t := Count(s, events[..|events| - 1]);
      Tally(t.armings + Armings(before, e), t.responses + (if Seen(before, e).Response? then 1 else 0),
            t.discarded + Discards(before, e))
  }

  /** One event moves responses between due, answered and discarded, and arms 64 at a time. */
  lemma EventConserves(s: Turns, e: Event)
    requires s.reverseRemaining <= MAXIMUM_BROWSER_QUIC_RESPONSES_PER_TICK
    ensures After(s, e).reverseRemaining <= MAXIMUM_BROWSER_QUIC_RESPONSES_PER_TICK
    ensures s.reverseRemaining + MAXIMUM_BROWSER_QUIC_RESPONSES_PER_TICK * Armings(s, e)
         == After(s, e).reverseRemaining + (if Seen(s, e).Response? then 1 else 0) + Discards(s, e)
  {}

  /** Conservation: every allowance of 64 is answered, still due or explicitly discarded, in every run. */
  lemma {:induction false} ResponsesAreConserved(events: seq<Event>)
    ensures MAXIMUM_BROWSER_QUIC_RESPONSES_PER_TICK * Count(START, events).armings
         == Count(START, events).responses + State(START, events).reverseRemaining + Count(START, events).discarded
    ensures State(START, events).reverseRemaining <= MAXIMUM_BROWSER_QUIC_RESPONSES_PER_TICK
  {
    if events == [] {
    } else {
      ResponsesAreConserved(events[..|events| - 1]);
      EventConserves(State(START, events[..|events| - 1]), events[|events| - 1]);
    }
  }

  predicate IsTurn(o: Outcome) {
    o.Ingress? || o.Response?
  }

  /** The last completed turn of a run, if any. */
  function LastTurn(s: Turns, events: seq<Event>): (o: Outcome) {
    if events == [] then Waiting
    else
      var o := Seen(State(s, events[..|events| - 1]), events[|events| - 1]);
      if IsTurn(o) then o else LastTurn(s, events[..|events| - 1])
  }

  /** The family whose turn it is: the one not served last, and the first time IPv4. */
  function NextFamily(s: Turns, events: seq<Event>): (f: Family) {
    if events == [] then Ipv4
    else
      match Seen(State(s, events[..|events| - 1]), events[|events| - 1])
      case Ingress(Ipv4) => Ipv6
      case Ingress(Ipv6) => Ipv4
      case _ => NextFamily(s, events[..|events| - 1])
  }

  /** The selector remembers exactly whether the last completed turn was a response, and which family it served last. */
  lemma {:induction false} SelectorRemembersLastTurn(events: seq<Event>)
    ensures State(START, events).ingressFirst <==> LastTurn(START, events).Response?
    ensures State(START, events).First() == NextFamily(START, events)
    ensures LastTurn(START, events).Ingress? ==> NextFamily(START, events) != LastTurn(START, events).family
  {
    if events == [] {
    } else {
      SelectorRemembersLastTurn(events[..|events| - 1]);
    }
  }

  /** A drain is pending for a call: responses remain, or the timer is due. */
  predicate DrainPending(s: Turns, e: Event) {
    e.Call? && e.active && (s.reverseRemaining > 0 || e.first.tick)
  }

  /** What the selection that decides the call sees. */
  function Deciding(s: Turns, e: Event): (v: View)
    requires e.Call?
  {
    if Arms(if e.active then s else EndReverseDrain(s), e.active, e.first) then e.second else e.first
  }

  function Other(f: Family): (g: Family) {
    if f.Ipv4? then Ipv6 else Ipv4
  }

  /** Every call of every run, from what happened before and what it sees: a pending response goes next unless the last
      turn was one; otherwise the family whose turn it is, then the other, then the response; a broken poll counts
      where it is reached; and it waits only when nothing is ready. */
  lemma CallIsExact(events: seq<Event>, e: Event)
    requires e.Call?
    ensures var s := State(START, events);
      var f, v := NextFamily(START, events), Deciding(s, e);
      var pending, responded := DrainPending(s, e), LastTurn(START, events).Response?;
      var looks := !pending || responded;
      && (Seen(s, e) == Response <==> pending && (!responded || (v.ipv4.Idle? && v.ipv6.Idle?)))
      && (Seen(s, e) == Ingress(f) <==> looks && v.Of(f).Readable?)
      && (Seen(s, e) == Ingress(Other(f)) <==> looks && v.Of(f).Idle? && v.Of(Other(f)).Readable?)
      && (Seen(s, e) == Failed <==> looks && (v.Of(f).Broken? || (v.Of(f).Idle? && v.Of(Other(f)).Broken?)))
      && (Seen(s, e) == Waiting <==> !pending && v.ipv4.Idle? && v.ipv6.Idle?)
  {
    SelectorRemembersLastTurn(events);
  }

  /** A call that completes no turn leaves nothing behind but an armed drain, or an ended one. */
  lemma NoTurnNoChange(s: Turns, e: Event)
    requires !IsTurn(Seen(s, e))
    ensures After(s, e) == s.(reverseRemaining := if e.End? || !e.active then 0
                                                  else if s.reverseRemaining == 0 && e.first.tick then 64
                                                  else s.reverseRemaining)
  {}

  /** In every run, two ingress turns never follow each other while a drain is pending. */
  lemma NoTwoIngressOverDrain(events: seq<Event>, e: Event)
    requires LastTurn(START, events).Ingress? && DrainPending(State(START, events), e)
    ensures Seen(State(START, events), e) == Response
  {
    SelectorRemembersLastTurn(events);
  }

  /** In every run, two responses never follow each other while a family is readable. */
  lemma NoTwoResponsesOverIngress(events: seq<Event>, e: Event)
    requires LastTurn(START, events).Response? && e.Call?
    requires var v := Deciding(State(START, events), e); v.ipv4.Readable? || v.ipv6.Readable?
    ensures !Seen(State(START, events), e).Response?
  {
    SelectorRemembersLastTurn(events);
  }

  // Fairness to one family

  predicate Unbroken(v: View) {
    !v.ipv4.Broken? && !v.ipv6.Broken?
  }

  /** The family is readable whenever the call looks, and no poll breaks. */
  predicate Offers(e: Event, f: Family) {
    e.Call? ==> e.first.Of(f).Readable? && e.second.Of(f).Readable? && Unbroken(e.first) && Unbroken(e.second)
  }

  function TurnsIn(s: Turns, events: seq<Event>): (n: nat)
    ensures n <= |events|
    decreases |events|
  {
    if events == [] then 0
    else (if IsTurn(Seen(s, events[0])) then 1 else 0) + TurnsIn(After(s, events[0]), events[1..])
  }

  predicate Serves(s: Turns, events: seq<Event>, f: Family)
    decreases |events|
  {
    events != [] && (Seen(s, events[0]) == Ingress(f) || Serves(After(s, events[0]), events[1..], f))
  }

  /** Turns within which a readable family is served, whatever the timer does: the other family may go first, and only
      a response just given rules out another one. */
  function Patience(s: Turns, f: Family): (n: nat) {
    (if s.First() == f then 0 else 2) + (if s.ingressFirst then 1 else 2)
  }

  lemma OtherTurnUsesPatience(s: Turns, e: Event, f: Family)
    requires Offers(e, f) && Seen(s, e) != Ingress(f)
    ensures IsTurn(Seen(s, e)) ==> Patience(After(s, e), f) < Patience(s, f)
    ensures !IsTurn(Seen(s, e)) ==> Patience(After(s, e), f) <= Patience(s, f)
  {}

  lemma {:induction false} ServedWithinPatience(s: Turns, events: seq<Event>, f: Family)
    requires forall e :: e in events ==> Offers(e, f)
    requires TurnsIn(s, events) >= Patience(s, f)
    ensures Serves(s, events, f)
    decreases |events|
  {
    if Seen(s, events[0]) == Ingress(f) {
    } else {
      OtherTurnUsesPatience(s, events[0], f);
      assert forall e :: e in events[1..] ==> e in events;
      ServedWithinPatience(After(s, events[0]), events[1..], f);
    }
  }

  /** A family that stays readable is served within any four consecutive turns, whatever else is ready or ended. */
  lemma ServedWithinFourTurns(s: Turns, events: seq<Event>, f: Family)
    requires (forall e :: e in events ==> Offers(e, f)) && TurnsIn(s, events) >= 4
    ensures Serves(s, events, f)
  {
    ServedWithinPatience(s, events, f);
  }

  function CallsIn(events: seq<Event>): (n: nat) {
    if events == [] then 0 else (if events[0].Call? then 1 else 0) + CallsIn(events[1..])
  }

  /** With a family readable, no call is lost: each completes a turn. */
  lemma {:induction false} CallsAreTurns(s: Turns, events: seq<Event>, f: Family)
    requires forall e :: e in events ==> Offers(e, f)
    ensures TurnsIn(s, events) == CallsIn(events)
    decreases |events|
  {
    if events == [] {
    } else {
      assert Offers(events[0], f);
      assert forall e :: e in events[1..] ==> e in events;
      CallsAreTurns(After(s, events[0]), events[1..], f);
    }
  }

  /** So it is served within any four consecutive calls, from any state. */
  lemma ServedWithinFourCalls(s: Turns, events: seq<Event>, f: Family)
    requires (forall e :: e in events ==> Offers(e, f)) && CallsIn(events) >= 4
    ensures Serves(s, events, f)
  {
    CallsAreTurns(s, events, f);
    ServedWithinFourTurns(s, events, f);
  }

  /** Four is exact: in some run, three turns pass it by. */
  lemma ThreeTurnsCanMiss() returns (before: seq<Event>, events: seq<Event>)
    ensures forall e :: e in events ==> Offers(e, Ipv6)
    ensures TurnsIn(State(START, before), events) == 3 && !Serves(State(START, before), events, Ipv6)
  {
    var due, only6, busy := View(true, Idle, Idle), View(false, Idle, Readable), View(false, Readable, Readable);
    var arm, six, call := Call(true, due, due), Call(true, only6, only6), Call(true, busy, busy);
    before, events := [arm, six], [call, call, call];
    var s := Turns(63, false, false);
    assert before[..1] == [arm] && [arm][..0] == [];
    assert After(START, arm) == Turns(63, false, true);
    assert State(START, [arm]) == Turns(63, false, true);
    assert State(START, before) == s;
    var s1 := After(s, call);
    var s2 := After(s1, call);
    assert events[1..] == [call, call] && [call, call][1..] == [call] && [call][1..] == [];
    assert Seen(s, call) == Response && Seen(s1, call) == Ingress(Ipv4) && Seen(s2, call) == Response;
    assert TurnsIn(s2, [call]) == 1 && TurnsIn(s1, [call, call]) == 2;
    assert !Serves(s2, [call], Ipv6) && !Serves(s1, [call, call], Ipv6);
  }

  // Progress of a drain

  function Lag(s: Turns): (n: nat) {
    2 * s.reverseRemaining - if s.reverseRemaining > 0 && !s.ingressFirst then 1 else 0
  }

  /** The state after some prefix of the calls has no response left. */
  predicate Drains(s: Turns, events: seq<Event>)
    decreases |events|
  {
    s.reverseRemaining == 0 || (events != [] && Drains(After(s, events[0]), events[1..]))
  }

  /** An active drain of `r` responses is finished within `2r` turns, however busy the sockets are. */
  lemma {:induction false} DrainFinishes(s: Turns, events: seq<Event>)
    requires forall e :: e in events ==> e.Call? && e.active && Unbroken(e.first)
    requires |events| >= Lag(s)
    ensures Drains(s, events)
    decreases |events|
  {
    if s.reverseRemaining == 0 {
    } else {
      var e := events[0];
      assert Lag(After(s, e)) < Lag(s);
      assert forall x :: x in events[1..] ==> x in events;
      DrainFinishes(After(s, e), events[1..]);
    }
  }
}
