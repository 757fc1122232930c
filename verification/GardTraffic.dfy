/**
 * Requests of the HUB and frames of the GARD on the same line: what a request leaves to
 * the polls behind it.
 */
module GardTraffic {
  import opened Bytes
  import opened UartBus
  import opened Hub
  import Poller = GardPoller
  import Requests = RequestStateMachine

  lemma AnswerIsConsumed(d: Requests.Descriptor, bus: BusState, answer: seq<byte>, rest: seq<byte>)
    requires d.Valid() && d.ValidationPasses() && d.sendData.None? && bus.grants == []
    requires |answer| == d.responseSize + (if d.appResponseSize.Some? then d.appResponseSize.value else 0)
    requires bus.input == answer + rest
    ensures var o := Requests.Exchange(d, bus);
            o.ok && o.got == answer && !Requests.CommandRunning(d, bus, false) && o.bus.input == rest && o.bus.grants == []
  {
    var o := Requests.Exchange(d, bus);
    Requests.RequestCompletesIffAnswered(d, bus);
    Requests.CompletedExchange(d, bus);
    Requests.ExchangeKeepsNoGrants(d, bus);
    assert |o.got| == |answer|;
    assert bus.input[..|answer|] == answer && bus.input[..|o.got|] == o.got;
    assert bus.input[|answer|..] == rest;
  }

  /** A request with no data to send, on a line that limits nothing and holds its answer and k frames behind
      it: the request completes, the GARD is idle again, and the next k polls deliver exactly the k frames. */
  lemma FramesBehindAnAnswer(d: Requests.Descriptor, bus: BusState, answer: seq<byte>, payloads: seq<seq<byte>>)
    requires d.Valid() && d.ValidationPasses() && d.sendData.None? && bus.grants == []
    requires |answer| == d.responseSize + (if d.appResponseSize.Some? then d.appResponseSize.value else 0)
    requires bus.input == answer + Poller.FramesBytes(payloads)
    requires forall i :: 0 <= i < |payloads| ==> Poller.Deliverable(payloads[i])
    ensures var o := Requests.Exchange(d, bus);
            var running := Requests.CommandRunning(d, bus, false);
            && o.ok && o.got == answer && !running
            && Poller.PollRun(Poller.Poller(running, true), o.bus, |payloads|) == payloads
            && Poller.BusAfter(Poller.Poller(running, true), o.bus, |payloads|).input == []
  {
    AnswerIsConsumed(d, bus, answer, Poller.FramesBytes(payloads));
    FramesArePolled(Requests.Exchange(d, bus).bus, payloads);
  }

  lemma FramesArePolled(bus: BusState, payloads: seq<seq<byte>>)
    requires bus.input == Poller.FramesBytes(payloads) && bus.grants == []
    requires forall i :: 0 <= i < |payloads| ==> Poller.Deliverable(payloads[i])
    ensures Poller.PollRun(Poller.Poller(false, true), bus, |payloads|) == payloads
    ensures Poller.BusAfter(Poller.Poller(false, true), bus, |payloads|).input == []
  {
    assert bus.input == Poller.FramesBytes(payloads) + [];
    Poller.EveryFrameIsDelivered(bus, payloads, []);
  }

  /** However many polls follow, they deliver nothing, whatever comes on the line. */
  ghost predicate Deaf(running: bool, bus: BusState)
  {
    forall input: seq<byte>, polls: nat :: Poller.PollRun(Poller.Poller(running, true), bus.(input := input), polls) == []
  }

  /** The next poll delivers whatever frame is on the line. */
  ghost predicate Hears(running: bool, bus: BusState)
  {
    forall payload: seq<byte> | Poller.Deliverable(payload) ::
      Poller.PollRun(Poller.Poller(running, true), bus.(input := Poller.FrameBytes(payload)), 1) == [payload]
  }

  lemma OneFrameIsHeard(bus: BusState, payload: seq<byte>)
    requires bus.grants == [] && Poller.Deliverable(payload)
    ensures Poller.PollRun(Poller.Poller(false, true), bus.(input := Poller.FrameBytes(payload)), 1) == [payload]
  {
    var frame := bus.(input := Poller.FrameBytes(payload));
    assert Poller.FramesBytes([payload]) == Poller.FrameBytes(payload) + Poller.FramesBytes([]);
    assert frame.input == Poller.FramesBytes([payload]) + [];
    Poller.EveryFrameIsDelivered(frame, [payload], []);
  }

  /** After a request on a line that limits nothing, no poll hears anything if the line held too short an answer,
      an answer that asked for the data, or a request that is not its own validation; else the next poll hears
      the next frame. */
  lemma GardIsDeafIff(d: Requests.Descriptor, bus: BusState, before: bool)
    requires d.Valid() && bus.grants == []
    ensures var o := Requests.Exchange(d, bus);
            var running := Requests.CommandRunning(d, bus, before);
            && (Deaf(running, o.bus) <==> Requests.StaysBusy(d, bus.input))
            && (Hears(running, o.bus) <==> !Requests.StaysBusy(d, bus.input))
  {
    var after := Requests.Exchange(d, bus).bus;
    Requests.GardStaysBusyIff(d, bus, before);
    Requests.ExchangeKeepsNoGrants(d, bus);
    DeafOrHearing(Requests.CommandRunning(d, bus, before), after);
  }

  lemma DeafOrHearing(running: bool, bus: BusState)
    requires bus.grants == []
    ensures Deaf(running, bus) <==> running
    ensures Hears(running, bus) <==> !running
  {
    var payload: seq<byte> := [HMI_METADATA, 0, 0, 0];
    var frame := Poller.FrameBytes(payload);
    assert Poller.Deliverable(payload);
    if running {
      forall input: seq<byte>, polls: nat
        ensures Poller.PollRun(Poller.Poller(running, true), bus.(input := input), polls) == []
      {
        Poller.BusyGardIsNeverServed(bus.(input := input), true, polls);
      }
      assert Poller.PollRun(Poller.Poller(running, true), bus.(input := frame), 1) == [];
    } else {
      forall payload: seq<byte> | Poller.Deliverable(payload)
        ensures Poller.PollRun(Poller.Poller(running, true), bus.(input := Poller.FrameBytes(payload)), 1) == [payload]
      {
        OneFrameIsHeard(bus, payload);
      }
      assert Poller.PollRun(Poller.Poller(running, true), bus.(input := frame), 1) == [payload];
    }
  }

  // ---- Any number of requests and polls ----

  /** What happens on the line: bytes arrive, and then the HUB makes a request or a poll. */
  datatype Event = Ask(d: Requests.Descriptor, arriving: seq<byte>) | Listen(arriving: seq<byte>)

  datatype Traffic = Traffic(running: bool, bus: BusState, delivered: seq<seq<byte>>)

  predicate AllValid(events: seq<Event>)
  {
    forall i :: 0 <= i < |events| && events[i].Ask? ==> events[i].d.Valid()
  }

  function LineAt(s: Traffic, e: Event): BusState
  {
    s.bus.(input := s.bus.input + e.arriving)
  }

  ghost function Next(s: Traffic, e: Event): Traffic
    requires e.Ask? ==> e.d.Valid()
  {
    var bus := LineAt(s, e);
    match e
    case Ask(d, _) => Traffic(Requests.CommandRunning(d, bus, s.running), Requests.Exchange(d, bus).bus, s.delivered)
    case Listen(_) =>
      var r := Poller.Poller(s.running, true)(bus);
      Traffic(s.running, r.bus, s.delivered + Poller.Delivered(r))
  }

  ghost function Run(s: Traffic, events: seq<Event>): Traffic
    requires AllValid(events)
  {
    if events == [] then s else Next(Run(s, events[..|events| - 1]), events[|events| - 1])
  }

  /** Whether a request leaves the GARD idle. */
  predicate Answered(s: Traffic, e: Event)
    requires e.Ask? ==> e.d.Valid()
  {
    e.Ask? && !Requests.StaysBusy(e.d, LineAt(s, e).input)
  }

  /** What the last request found on the line, or how the GARD was at first. */
  ghost predicate BusyByLastRequest(s: Traffic, events: seq<Event>)
    requires AllValid(events)
  {
    if events == [] then s.running else
    var front, last := events[..|events| - 1], events[|events| - 1];
    if last.Ask? then !Answered(Run(s, front), last) else BusyByLastRequest(s, front)
  }

  ghost predicate NoneAnswered(s: Traffic, events: seq<Event>)
    requires AllValid(events)
  {
    events == [] || (NoneAnswered(s, events[..|events| - 1]) && !Answered(Run(s, events[..|events| - 1]), events[|events| - 1]))
  }

  lemma PollKeepsNoGrants(bus: BusState, busy: bool)
    requires bus.grants == []
    ensures Poller.PollOnce(bus, busy, true).bus.grants == []
  {
  }

  /** Over any run of requests and polls on a line that limits nothing, the last request decides: the GARD is deaf
      to all polls until the next one exactly if the line did not answer it, and else hears the next frame. */
  lemma {:induction false} LastRequestDecides(s: Traffic, events: seq<Event>)
    requires AllValid(events) && s.bus.grants == []
    ensures var t := Run(s, events);
            && t.bus.grants == []
            && (t.running <==> BusyByLastRequest(s, events))
            && (Deaf(t.running, t.bus) <==> BusyByLastRequest(s, events))
            && (Hears(t.running, t.bus) <==> !BusyByLastRequest(s, events))
  {
    if events != [] {
      var front, last := events[..|events| - 1], events[|events| - 1];
      LastRequestDecides(s, front);
      var before := Run(s, front);
      var bus := LineAt(before, last);
      match last
      case Ask(d, _) =>
        Requests.GardStaysBusyIff(d, bus, before.running);
        Requests.ExchangeKeepsNoGrants(d, bus);
      case Listen(_) => PollKeepsNoGrants(bus, before.running);
    }
    DeafOrHearing(Run(s, events).running, Run(s, events).bus);
  }

  /** Once busy, the GARD delivers nothing until some request is answered, however many polls and requests follow. */
  lemma {:induction false} SilentUntilAnswered(s: Traffic, events: seq<Event>)
    requires AllValid(events) && s.bus.grants == [] && s.running && NoneAnswered(s, events)
    ensures Run(s, events).running && Run(s, events).delivered == s.delivered
  {
    LastRequestDecides(s, events);
    if events != [] {
      SilentUntilAnswered(s, events[..|events| - 1]);
    }
  }

  /** And the first answered request ends it: whatever was before, the next poll hears the next frame. */
  lemma AnsweredRequestIsHeard(s: Traffic, events: seq<Event>, e: Event, payload: seq<byte>)
    requires AllValid(events) && s.bus.grants == [] && e.Ask? && e.d.Valid() && Answered(Run(s, events), e)
    requires Poller.Deliverable(payload) && Next(Run(s, events), e).bus.input == []
    ensures var t := Next(Next(Run(s, events), e), Listen(Poller.FrameBytes(payload)));
            t.delivered == Run(s, events).delivered + [payload]
  {
    LastRequestDecides(s, events);
    var before := Run(s, events);
    Requests.GardStaysBusyIff(e.d, LineAt(before, e), before.running);
    Requests.ExchangeKeepsNoGrants(e.d, LineAt(before, e));
    var idle := Next(before, e);
    var line := LineAt(idle, Listen(Poller.FrameBytes(payload)));
    assert line.input == Poller.FrameBytes(payload) + [];
    Poller.PollerDelivers(line, payload, []);
  }
}
