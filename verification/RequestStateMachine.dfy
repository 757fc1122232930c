/**
 * The request/response state machine: one HUB request to the GARD and its answer.
 * The loop is proved against a plan, the list of bus transfers that the request
 * calls for, performed in order until one of them comes back short.
 */
module RequestStateMachine {
  import opened Bytes
  import opened UartBus
  import opened Hub

  datatype SmState =
    | Start | SendRequest | SendAppRequest | RecvPartialResponse | ValidatePartialResponse
    | RecvResponse | RecvAppResponse | SendData | RecvOptionalAck | Complete | ServiceGardRequest

  /** What the caller asks for. */
  datatype Descriptor = Descriptor(
    request: seq<byte>, appRequest: Option<seq<byte>>, validation: seq<byte>, sendData: Option<seq<byte>>,
    responseSize: nat, appResponseSize: Option<nat>, checkStartSignal: bool)
  {
    predicate Valid() {
      |validation| <= |request| && |validation| <= responseSize && (checkStartSignal ==> responseSize == 2)
    }

    /** The comparison the state machine makes: request bytes against validation bytes. */
    predicate ValidationPasses()
      requires Valid()
    {
      request[..|validation|] == validation
    }
  }

  datatype Transfer = Put(data: seq<byte>, during: SmState) | Take(count: nat, during: SmState)

  /** `stoppedIn` is the state recorded when the performance ended. */
  datatype Outcome = Outcome(ok: bool, stoppedIn: SmState, got: seq<byte>, bus: BusState)

  function PerformOne(t: Transfer, bus: BusState): Outcome
  {
    match t
    case Put(data, during) => Outcome(|bus.Accepted(data)| == |data|, during, [], bus.AfterWrite(data))
    case Take(count, during) => Outcome(|bus.Received(count)| == count, during, bus.Received(count), bus.AfterRead(count))
  }

  /** `rest` is reached only over a complete `first`, and its bytes come after. */
  function Then(first: Outcome, rest: Outcome): Outcome
  {
    if first.ok then rest.(got := first.got + rest.got) else first
  }

  function Perform(plan: seq<Transfer>, end: SmState, bus: BusState): Outcome
  {
    if plan == [] then Outcome(true, end, [], bus) else
    var first := PerformOne(plan[0], bus);
    Then(first, Perform(plan[1..], end, first.bus))
  }

  /** The requests, then the part of the answer that is looked at first. */
  function Opening(d: Descriptor): seq<Transfer>
  {
    Sends(d) + [Take(|d.validation|, RecvPartialResponse)]
  }

  function Sends(d: Descriptor): seq<Transfer>
  {
    [Put(d.request, Start)] + (if d.appRequest.Some? then [Put(d.appRequest.value, Start)] else [])
  }

  function Head(d: Descriptor): seq<Transfer>
    requires d.Valid()
  {
    Opening(d) + [Take(d.responseSize - |d.validation|, RecvResponse)]
  }

  /** Whether the data follows the request, given the answer. */
  predicate WantsData(d: Descriptor, reply: seq<byte>)
    requires d.Valid() && |reply| == d.responseSize
  {
    d.sendData.Some? && (!d.checkStartSignal || reply[1] == SEND_DATA)
  }

  function Tail(d: Descriptor, reply: seq<byte>): seq<Transfer>
    requires d.Valid() && |reply| == d.responseSize
  {
    if d.sendData.Some? then
      if WantsData(d, reply) then [Put(d.sendData.value, SendData)] else []
    else if d.appResponseSize.Some? then [Take(d.appResponseSize.value, RecvAppResponse)]
    else []
  }

  /** The whole exchange. */
  function Exchange(d: Descriptor, bus: BusState): Outcome
    requires d.Valid()
  {
    if !d.ValidationPasses() then Perform(Opening(d), ServiceGardRequest, bus)
    else
      var head := Perform(Head(d), RecvResponse, bus);
      if !head.ok then head
      else
        HeadFillsTheResponse(d, bus);
        Then(head, Perform(Tail(d, head.got), if WantsData(d, head.got) then RecvOptionalAck else Complete, head.bus))
  }

  function BytesPut(plan: seq<Transfer>): seq<byte>
  {
    if plan == [] then [] else (if plan[0].Put? then plan[0].data else []) + BytesPut(plan[1..])
  }

  function BytesTaken(plan: seq<Transfer>): nat
  {
    if plan == [] then 0 else (if plan[0].Take? then plan[0].count else 0) + BytesTaken(plan[1..])
  }

  // ---- Performing a plan ----

  lemma ThenIsAssociative(a: Outcome, b: Outcome, c: Outcome)
    ensures Then(a, Then(b, c)) == Then(Then(a, b), c)
  {
    assert a.got + (b.got + c.got) == a.got + b.got + c.got;
  }

  lemma {:induction false} PerformConcat(p: seq<Transfer>, q: seq<Transfer>, mid: SmState, end: SmState, bus: BusState)
    ensures var first := Perform(p, mid, bus);
            Perform(p + q, end, bus) == Then(first, Perform(q, end, first.bus))
  {
    if p == [] {
      assert p + q == q;
      var rest := Perform(q, end, bus);
      assert [] + rest.got == rest.got;
    } else {
      assert (p + q)[0] == p[0] && (p + q)[1..] == p[1..] + q;
      var one := PerformOne(p[0], bus);
      var first := Perform(p[1..], mid, one.bus);
      PerformConcat(p[1..], q, mid, end, one.bus);
      ThenIsAssociative(one, first, Perform(q, end, first.bus));
    }
  }

  /** The books balance between two bus states: `put` is the most that may have been written, all of it if
      `ok`; `got` came off the front of the input. */
  predicate Balances(before: BusState, put: seq<byte>, taken: nat, o: Outcome)
  {
    && before.output <= o.bus.output <= before.output + put
    && before.input == o.got + o.bus.input
    && |o.got| <= taken
    && (o.ok ==> o.bus.output == before.output + put && |o.got| == taken)
  }

  lemma OneTransferBalances(t: Transfer, bus: BusState)
    ensures Balances(bus, if t.Put? then t.data else [], if t.Take? then t.count else 0, PerformOne(t, bus))
  {
    if t.Put? {
      assert bus.output + bus.Accepted(t.data) <= bus.output + t.data;
    } else {
      assert bus.input == bus.Received(t.count) + bus.AfterRead(t.count).input;
    }
  }

  lemma BalancesCompose(bus: BusState, put1: seq<byte>, taken1: nat, first: Outcome, put2: seq<byte>, taken2: nat, rest: Outcome)
    requires Balances(bus, put1, taken1, first)
    requires first.ok ==> Balances(first.bus, put2, taken2, rest)
    ensures Balances(bus, put1 + put2, taken1 + taken2, Then(first, rest))
  {
    assert bus.output + put1 + put2 == bus.output + (put1 + put2);
    if first.ok {
      assert first.got + (rest.got + rest.bus.input) == first.got + rest.got + rest.bus.input;
    } else {
      assert bus.output + put1 <= bus.output + put1 + put2;
    }
  }

  /** However short the transfers are: what was written is a prefix of what the plan puts, what was read is
      the front of the input, and a performance that runs through has moved exactly the planned bytes. */
  lemma {:induction false} PerformMovesBytes(plan: seq<Transfer>, end: SmState, bus: BusState)
    ensures Balances(bus, BytesPut(plan), BytesTaken(plan), Perform(plan, end, bus))
  {
    if plan != [] {
      var first := PerformOne(plan[0], bus);
      OneTransferBalances(plan[0], bus);
      PerformMovesBytes(plan[1..], end, first.bus);
      BalancesCompose(bus, if plan[0].Put? then plan[0].data else [], if plan[0].Take? then plan[0].count else 0,
                      first, BytesPut(plan[1..]), BytesTaken(plan[1..]), Perform(plan[1..], end, first.bus));
    }
  }

  /** A complete performance records the final state, any other the state of the transfer that failed. */
  lemma {:induction false} PerformStops(plan: seq<Transfer>, end: SmState, bus: BusState)
    ensures var o := Perform(plan, end, bus);
            if o.ok then o.stoppedIn == end else exists i :: 0 <= i < |plan| && plan[i].during == o.stoppedIn
  {
    if plan != [] {
      var first := PerformOne(plan[0], bus);
      PerformStops(plan[1..], end, first.bus);
      var rest := Perform(plan[1..], end, first.bus);
      if !first.ok {
        assert plan[0].during == first.stoppedIn;
      } else if !rest.ok {
        var i :| 0 <= i < |plan[1..]| && plan[1..][i].during == rest.stoppedIn;
        assert plan[i + 1].during == rest.stoppedIn;
      }
    }
  }

  /** Over a bus that limits nothing, a plan succeeds exactly when the input is long enough. */
  lemma {:induction false} PerformSucceedsIffInputSuffices(plan: seq<Transfer>, end: SmState, bus: BusState)
    requires bus.grants == []
    ensures Perform(plan, end, bus).ok <==> BytesTaken(plan) <= |bus.input|
  {
    if plan != [] {
      match plan[0]
      case Put(data, during) => PerformSucceedsIffInputSuffices(plan[1..], end, bus.AfterWrite(data));
      case Take(count, during) =>
        if count <= |bus.input| {
          PerformSucceedsIffInputSuffices(plan[1..], end, bus.AfterRead(count));
        }
    }
  }

  lemma BytesOfConcat(p: seq<Transfer>, q: seq<Transfer>)
    ensures BytesPut(p + q) == BytesPut(p) + BytesPut(q) && BytesTaken(p + q) == BytesTaken(p) + BytesTaken(q)
  {
    if p == [] {
      assert p + q == q;
    } else {
      assert (p + q)[1..] == p[1..] + q;
      BytesOfConcat(p[1..], q);
    }
  }

  lemma HeadTotals(d: Descriptor)
    requires d.Valid()
    ensures BytesPut(Opening(d)) == d.request + (if d.appRequest.Some? then d.appRequest.value else [])
    ensures BytesPut(Head(d)) == BytesPut(Opening(d)) && BytesTaken(Head(d)) == d.responseSize
    ensures BytesTaken(Opening(d)) == |d.validation|
  {
    var take := [Take(|d.validation|, RecvPartialResponse)];
    var rest := [Take(d.responseSize - |d.validation|, RecvResponse)];
    assert BytesPut(take) == [] && BytesPut(rest) == [];
    assert BytesTaken(take) == |d.validation| && BytesTaken(rest) == d.responseSize - |d.validation|;
    BytesOfConcat(Sends(d), take);
    BytesOfConcat(Opening(d), rest);
    if d.appRequest.Some? {
      var app := [Put(d.appRequest.value, Start)];
      assert app[1..] == [];
      assert BytesPut(app) == d.appRequest.value + BytesPut([]);
      BytesOfConcat([Put(d.request, Start)], app);
    }
    assert BytesPut([Put(d.request, Start)]) == d.request + BytesPut([]);
  }

  lemma HeadFillsTheResponse(d: Descriptor, bus: BusState)
    requires d.Valid() && Perform(Head(d), RecvResponse, bus).ok
    ensures |Perform(Head(d), RecvResponse, bus).got| == d.responseSize
  {
    HeadTotals(d);
    PerformMovesBytes(Head(d), RecvResponse, bus);
  }

  // ---- The loop ----

  /** The response bytes land at the front of a buffer whose other bytes stay. */
  function Overlay(buffer: seq<byte>, got: seq<byte>): seq<byte>
    requires |got| <= |buffer|
  {
    got + buffer[|got|..]
  }

  class Request {
    const descriptor: Descriptor
    const response: array<byte>
    const appResponse: array?<byte>
    var responseSize: nat
    var state: SmState

    constructor (descriptor: Descriptor, response: array<byte>, appResponse: array?<byte>)
      ensures this.descriptor == descriptor && this.response == response && this.appResponse == appResponse
      ensures responseSize == descriptor.responseSize && state == Start
    {
      this.descriptor, this.response, this.appResponse := descriptor, response, appResponse;
      responseSize, state := descriptor.responseSize, Start;
    }

    /** The buffers can hold what the caller announced. */
    ghost predicate Valid()
      reads this
    {
      && descriptor.Valid()
      && responseSize == descriptor.responseSize <= response.Length
      && (descriptor.appResponseSize.None? <==> appResponse == null)
      && (appResponse != null ==> appResponse != response && descriptor.appResponseSize.value <= appResponse.Length)
    }

    /** The start-signal callback: it also fixes the size of the answer that follows the data. */
    method StartSignalReceived() returns (yes: bool)
      requires Valid() && 2 <= response.Length
      modifies this`responseSize
      ensures yes == (response[1] == SEND_DATA)
      ensures responseSize == if yes then 2 else old(responseSize)
    {
      yes := response[1] == SEND_DATA;
      if yes {
        responseSize := 2;
      }
    }
  }

  /** The states of the machine by how many more passes of the loop they can take. */
  function Rank(s: SmState): (r: nat)
    ensures 1 <= r <= 4
  {
    match s
    case Start => 4
    case SendRequest => 4
    case SendAppRequest => 3
    case RecvPartialResponse => 3
    case ValidatePartialResponse => 3
    case RecvResponse => 3
    case RecvAppResponse => 2
    case SendData => 2
    case RecvOptionalAck => 1
    case Complete => 1
    case ServiceGardRequest => 1
  }

  lemma PerformSingle(t: Transfer, end: SmState, bus: BusState)
    ensures var one := PerformOne(t, bus);
            Perform([t], end, bus) == if one.ok then one.(stoppedIn := end) else one
  {
    var one := PerformOne(t, bus);
    assert one.got + [] == one.got;
  }

  lemma SendsSplit(d: Descriptor, end: SmState, bus: BusState)
    ensures var first := PerformOne(Put(d.request, Start), bus);
            Perform(Sends(d), end, bus) ==
            if !first.ok then first
            else if d.appRequest.None? then first.(stoppedIn := end)
            else
              var second := PerformOne(Put(d.appRequest.value, Start), first.bus);
              if second.ok then second.(stoppedIn := end) else second
  {
    var put := Put(d.request, Start);
    if d.appRequest.Some? {
      PerformConcat([put], [Put(d.appRequest.value, Start)], end, end, bus);
      PerformSingle(Put(d.appRequest.value, Start), end, PerformOne(put, bus).bus);
    } else {
      assert Sends(d) == [put];
    }
    PerformSingle(put, end, bus);
  }

  lemma SendsReadNothing(d: Descriptor, end: SmState, bus: BusState)
    ensures Perform(Sends(d), end, bus).got == []
  {
    SendsSplit(d, end, bus);
  }

  lemma OpeningSplits(d: Descriptor, end: SmState, bus: BusState)
    ensures var sent := Perform(Sends(d), Start, bus);
            Perform(Opening(d), end, bus) ==
            if !sent.ok then sent
            else
              var peek := PerformOne(Take(|d.validation|, RecvPartialResponse), sent.bus);
              if peek.ok then peek.(stoppedIn := end) else peek
  {
    var sent := Perform(Sends(d), Start, bus);
    PerformConcat(Sends(d), [Take(|d.validation|, RecvPartialResponse)], Start, end, bus);
    PerformSingle(Take(|d.validation|, RecvPartialResponse), end, sent.bus);
    SendsReadNothing(d, Start, bus);
    var peek := Perform([Take(|d.validation|, RecvPartialResponse)], end, sent.bus);
    assert [] + peek.got == peek.got;
  }

  lemma HeadSplits(d: Descriptor, bus: BusState)
    requires d.Valid()
    ensures var opening := Perform(Opening(d), ServiceGardRequest, bus);
            Perform(Head(d), RecvResponse, bus) ==
            if !opening.ok then opening
            else
              var rest := PerformOne(Take(d.responseSize - |d.validation|, RecvResponse), opening.bus);
              rest.(got := opening.got + rest.got, stoppedIn := RecvResponse)
  {
    var opening := Perform(Opening(d), ServiceGardRequest, bus);
    PerformConcat(Opening(d), [Take(d.responseSize - |d.validation|, RecvResponse)], ServiceGardRequest, RecvResponse, bus);
    PerformSingle(Take(d.responseSize - |d.validation|, RecvResponse), RecvResponse, opening.bus);
  }

  /** The snapshot an exchange is measured against; `begun` tells that it was entered in `Start`. */
  datatype Origin = Origin(begun: bool, bus: BusState, response: seq<byte>, appResponse: seq<byte>, running: bool)

  ghost predicate Fits(rr: Request, from: Origin)
    reads rr
  {
    rr.Valid() && |from.response| == rr.response.Length && (rr.appResponse != null ==> |from.appResponse| == rr.appResponse.Length)
  }

  /** The first bytes of an exchange are in the response buffer and any further ones in the App buffer. */
  ghost predicate Holds(rr: Request, from: Origin, got: seq<byte>)
    requires Fits(rr, from)
    reads rr, rr.response, rr.appResponse
  {
    var cut := Min(rr.descriptor.responseSize, |got|);
    && rr.response[..] == Overlay(from.response, got[..cut])
    && if rr.appResponse == null then |got| == cut
       else |got| - cut <= |from.appResponse| && rr.appResponse[..] == Overlay(from.appResponse, got[cut..])
  }

  /** Whether the GARD counts as busy after the exchange. */
  ghost predicate CommandRunning(d: Descriptor, bus: BusState, before: bool)
    requires d.Valid()
  {
    var o := Exchange(d, bus);
    if |bus.Accepted(d.request)| < |d.request| then before else !(o.ok && o.stoppedIn == Complete)
  }

  /** The performance `o` of a part of the exchange is what has happened so far. */
  ghost predicate SoFar(gard: Gard, rr: Request, from: Origin, o: Outcome)
    requires Fits(rr, from) && gard.activeBus != null
    reads gard, gard.activeBus, rr, rr.response, rr.appResponse
  {
    && gard.activeBus.State() == o.bus && Holds(rr, from, o.got)
    && (|from.bus.Accepted(rr.descriptor.request)| == |rr.descriptor.request| ==> gard.commandExecution)
    && (|from.bus.Accepted(rr.descriptor.request)| < |rr.descriptor.request| ==> gard.commandExecution == from.running)
  }

  ghost predicate SentDone(gard: Gard, rr: Request, from: Origin)
    requires Fits(rr, from) && gard.activeBus != null
    reads gard, gard.activeBus, rr, rr.response, rr.appResponse
  {
    var o := Perform(Sends(rr.descriptor), Start, from.bus);
    o.ok && SoFar(gard, rr, from, o)
  }

  ghost predicate OpeningDone(gard: Gard, rr: Request, from: Origin)
    requires Fits(rr, from) && gard.activeBus != null
    reads gard, gard.activeBus, rr, rr.response, rr.appResponse
  {
    var o := Perform(Opening(rr.descriptor), ServiceGardRequest, from.bus);
    o.ok && rr.descriptor.ValidationPasses() && SoFar(gard, rr, from, o)
  }

  ghost predicate HeadDone(gard: Gard, rr: Request, from: Origin)
    requires Fits(rr, from) && gard.activeBus != null
    reads gard, gard.activeBus, rr, rr.response, rr.appResponse
  {
    var d := rr.descriptor;
    var o := Perform(Head(d), RecvResponse, from.bus);
    && o.ok && d.ValidationPasses() && SoFar(gard, rr, from, o)
    && (rr.state == SendData <==> d.sendData.Some?)
    && (rr.state == RecvAppResponse <==> d.sendData.None? && d.appResponseSize.Some?)
  }

  /** How far an exchange begun in `Start` has come, told by its recorded state. */
  ghost predicate Progress(gard: Gard, rr: Request, from: Origin)
    requires Fits(rr, from) && gard.activeBus != null
    reads gard, gard.activeBus, rr, rr.response, rr.appResponse
  {
    match rr.state
    case Start => gard.activeBus.State() == from.bus && Holds(rr, from, []) && gard.commandExecution == from.running
    case RecvPartialResponse => SentDone(gard, rr, from)
    case RecvAppResponse => HeadDone(gard, rr, from)
    case SendData => HeadDone(gard, rr, from)
    case SendRequest => false
    case SendAppRequest => false
    case ValidatePartialResponse => false
    case RecvResponse => false
    case _ => Ended(gard, rr, from, true)
  }

  /** The exchange is over, with the given verdict. */
  ghost predicate Ended(gard: Gard, rr: Request, from: Origin, ok: bool)
    requires Fits(rr, from) && gard.activeBus != null
    reads gard, gard.activeBus, rr, rr.response, rr.appResponse
  {
    var o := Exchange(rr.descriptor, from.bus);
    o.ok == ok && rr.state == o.stoppedIn && SoFar(gard, rr, from, o)
  }

  lemma SendsFail(d: Descriptor, bus: BusState)
    requires d.Valid() && !Perform(Sends(d), Start, bus).ok
    ensures Exchange(d, bus) == Perform(Sends(d), Start, bus)
  {
    OpeningSplits(d, ServiceGardRequest, bus);
    HeadSplits(d, bus);
  }

  /** The requests, on the wire: the cases SM_START to SM_SEND_APP_REQUEST. */
  method TransmitRequests(gard: Gard, bus: Bus, rr: Request, ghost from: Origin) returns (ok: bool, fallThrough: bool)
    requires Fits(rr, from) && gard.activeBus == bus
    requires rr.state in {Start, SendRequest, SendAppRequest}
    requires from.begun ==> rr.state == Start && Progress(gard, rr, from)
    modifies gard`commandExecution, bus, rr`state
    ensures ok ==> rr.state == RecvPartialResponse
    ensures ok && !fallThrough ==> old(rr.state) != SendAppRequest
    ensures from.begun ==> if ok then SentDone(gard, rr, from) else Ended(gard, rr, from, false)
  {
    var d := rr.descriptor;
    SendsSplit(d, Start, from.bus);
    ghost var sent := Perform(Sends(d), Start, from.bus);
    if !sent.ok {
      SendsFail(d, from.bus);
    }
    if rr.state == Start || rr.state == SendRequest {
      var n := bus.Write(d.request);
      if n != |d.request| {
        return false, false;
      }
      gard.commandExecution := true;
      if d.appRequest.None? {
        rr.state := RecvPartialResponse;
        return true, false;
      }
    }
    var appRequest := if d.appRequest.Some? then d.appRequest.value else [];
    var n := bus.Write(appRequest);
    if n != |appRequest| {
      return false, false;
    }
    rr.state := RecvPartialResponse;
    return true, true;
  }

  lemma SecondReadExtends(buffer: seq<byte>, before: seq<byte>, after: seq<byte>, first: seq<byte>, second: seq<byte>)
    requires |first| + |second| <= |buffer| && before == Overlay(buffer, first)
    requires after == before[..|first|] + second + before[|first| + |second|..]
    ensures after == Overlay(buffer, first + second)
  {
  }

  lemma WholeCut(s: seq<byte>)
    ensures s[..|s|] == s && s[|s|..] == []
  {
  }

  /** Reads the next `count` bytes of the answer into the response buffer; `o` is what came before. */
  method TakeIntoResponse(gard: Gard, bus: Bus, rr: Request, ghost from: Origin, ghost o: Outcome, offset: nat, count: nat, ghost during: SmState)
    returns (n: nat)
    requires Fits(rr, from) && gard.activeBus == bus && offset + count <= rr.descriptor.responseSize
    requires from.begun ==> o.ok && |o.got| == offset && SoFar(gard, rr, from, o)
    modifies bus, rr.response
    ensures n <= count
    ensures from.begun ==>
      var one := PerformOne(Take(count, during), o.bus);
      (n == count <==> one.ok) && SoFar(gard, rr, from, Then(o, one))
  {
    ghost var before := rr.response[..];
    n := bus.Read(rr.response, offset, count);
    if from.begun {
      ghost var one := PerformOne(Take(count, during), o.bus);
      WholeCut(o.got);
      SecondReadExtends(from.response, before, rr.response[..], o.got, one.got);
      WholeCut(o.got + one.got);
    }
  }

  lemma Cut(first: seq<byte>, second: seq<byte>)
    ensures first[..|first|] == first && first[|first|..] == []
    ensures (first + second)[..|first|] == first && (first + second)[|first|..] == second == [] + second
  {
  }

  lemma FirstReadFills(buffer: seq<byte>, before: seq<byte>, after: seq<byte>, got: seq<byte>)
    requires |got| <= |buffer| && before == Overlay(buffer, []) && after == before[..0] + got + before[|got|..]
    ensures after == Overlay(buffer, got)
  {
    assert before == buffer;
  }

  /** Reads the App Layer's answer behind a complete response. */
  method TakeIntoAppResponse(gard: Gard, bus: Bus, rr: Request, ghost from: Origin, ghost o: Outcome, buffer: array<byte>, count: nat) returns (n: nat)
    requires Fits(rr, from) && gard.activeBus == bus && rr.appResponse == buffer && count == rr.descriptor.appResponseSize.value
    requires from.begun ==> o.ok && |o.got| == rr.descriptor.responseSize && SoFar(gard, rr, from, o)
    modifies bus, buffer
    ensures n <= count
    ensures from.begun ==>
      var one := PerformOne(Take(count, RecvAppResponse), o.bus);
      (n == count <==> one.ok) && SoFar(gard, rr, from, Then(o, one))
  {
    ghost var before := buffer[..];
    n := bus.Read(buffer, 0, count);
    if from.begun {
      ghost var one := PerformOne(Take(count, RecvAppResponse), o.bus);
      Cut(o.got, one.got);
      FirstReadFills(from.appResponse, before, buffer[..], one.got);
    }
  }

  lemma OpeningAfterSends(d: Descriptor, bus: BusState)
    requires d.Valid() && Perform(Sends(d), Start, bus).ok
    ensures var sent := Perform(Sends(d), Start, bus);
            var both := Then(sent, PerformOne(Take(|d.validation|, RecvPartialResponse), sent.bus));
            && sent.got == []
            && if both.ok then Perform(Opening(d), ServiceGardRequest, bus) == both.(stoppedIn := ServiceGardRequest)
               else Exchange(d, bus) == both
  {
    SendsReadNothing(d, Start, bus);
    OpeningSplits(d, ServiceGardRequest, bus);
    HeadSplits(d, bus);
    var sent := Perform(Sends(d), Start, bus);
    var peek := PerformOne(Take(|d.validation|, RecvPartialResponse), sent.bus);
    assert [] + peek.got == peek.got;
  }

  /** The first look at the answer: the cases SM_RECV_PARTIAL_RESPONSE and SM_VALIDATE_PARTIAL_RESPONSE. */
  method ReceivePeek(gard: Gard, bus: Bus, rr: Request, ghost from: Origin) returns (ok: bool)
    requires Fits(rr, from) && gard.activeBus == bus
    requires rr.state in {RecvPartialResponse, ValidatePartialResponse}
    requires from.begun ==> rr.state == RecvPartialResponse && SentDone(gard, rr, from)
    modifies bus, rr`state, rr.response
    ensures ok ==> rr.state in {RecvResponse, ServiceGardRequest}
    ensures from.begun ==>
      if !ok then Ended(gard, rr, from, false)
      else if rr.state == RecvResponse then OpeningDone(gard, rr, from)
      else Ended(gard, rr, from, true)
  {
    var d := rr.descriptor;
    if rr.state == RecvPartialResponse {
      ghost var sent := Perform(Sends(d), Start, from.bus);
      if from.begun {
        OpeningAfterSends(d, from.bus);
      }
      var n := TakeIntoResponse(gard, bus, rr, from, sent, 0, |d.validation|, RecvPartialResponse);
      if n != |d.validation| {
        return false;
      }
      rr.state := ValidatePartialResponse;
    }
    ok := true;
    if d.request[..|d.validation|] != d.validation {
      rr.state := ServiceGardRequest;
    } else {
      rr.state := RecvResponse;
    }
  }

  lemma OpeningIsThePeek(d: Descriptor, bus: BusState)
    requires d.Valid() && Perform(Opening(d), ServiceGardRequest, bus).ok
    ensures |Perform(Opening(d), ServiceGardRequest, bus).got| == |d.validation|
  {
    HeadTotals(d);
    PerformMovesBytes(Opening(d), ServiceGardRequest, bus);
  }

  lemma HeadAfterOpening(d: Descriptor, bus: BusState)
    requires d.Valid() && d.ValidationPasses() && Perform(Opening(d), ServiceGardRequest, bus).ok
    ensures var opening := Perform(Opening(d), ServiceGardRequest, bus);
            var both := Then(opening, PerformOne(Take(d.responseSize - |d.validation|, RecvResponse), opening.bus));
            && |opening.got| == |d.validation|
            && if both.ok then
                 Perform(Head(d), RecvResponse, bus) == both.(stoppedIn := RecvResponse) && |both.got| == d.responseSize &&
                 (d.sendData.None? && d.appResponseSize.None? ==> Exchange(d, bus) == both.(stoppedIn := Complete))
               else Exchange(d, bus) == both
  {
    HeadSplits(d, bus);
    HeadTotals(d);
    PerformMovesBytes(Opening(d), ServiceGardRequest, bus);
    var head := Perform(Head(d), RecvResponse, bus);
    if head.ok {
      HeadFillsTheResponse(d, bus);
      assert head.got + [] == head.got;
    }
  }

  /** The rest of the answer: the case SM_RECV_RESPONSE. */
  method ReceiveRest(gard: Gard, bus: Bus, rr: Request, ghost from: Origin) returns (ok: bool)
    requires Fits(rr, from) && gard.activeBus == bus && rr.state == RecvResponse
    requires from.begun ==> OpeningDone(gard, rr, from)
    modifies bus, rr`state, rr.response
    ensures ok ==> rr.state in {SendData, RecvAppResponse, Complete}
    ensures from.begun ==>
      if !ok then Ended(gard, rr, from, false)
      else if rr.state == Complete then Ended(gard, rr, from, true)
      else HeadDone(gard, rr, from)
  {
    var d := rr.descriptor;
    ghost var opening := Perform(Opening(d), ServiceGardRequest, from.bus);
    if from.begun {
      OpeningIsThePeek(d, from.bus);
    }
    var n := TakeIntoResponse(gard, bus, rr, from, opening, |d.validation|, rr.responseSize - |d.validation|, RecvResponse);
    if from.begun {
      HeadAfterOpening(d, from.bus);
    }
    if n != rr.responseSize - |d.validation| {
      return false;
    }
    ok := true;
    if d.sendData.Some? {
      rr.state := SendData;
    } else if rr.appResponse != null {
      rr.state := RecvAppResponse;
    } else {
      rr.state := Complete;
    }
  }

  lemma TailIsOneTransfer(d: Descriptor, bus: BusState, t: Transfer)
    requires d.Valid() && d.ValidationPasses() && Perform(Head(d), RecvResponse, bus).ok
    requires |Perform(Head(d), RecvResponse, bus).got| == d.responseSize
    requires Tail(d, Perform(Head(d), RecvResponse, bus).got) == [t]
    ensures var head := Perform(Head(d), RecvResponse, bus);
            var one := PerformOne(t, head.bus);
            var end := if d.sendData.Some? then RecvOptionalAck else Complete;
            Exchange(d, bus) == if one.ok then Then(head, one).(stoppedIn := end) else Then(head, one)
  {
    var head := Perform(Head(d), RecvResponse, bus);
    PerformSingle(t, if WantsData(d, head.got) then RecvOptionalAck else Complete, head.bus);
  }

  /** The App Layer's answer: the case SM_RECV_APP_RESPONSE. */
  method ReceiveAppResponse(gard: Gard, bus: Bus, rr: Request, ghost from: Origin) returns (ok: bool)
    requires Fits(rr, from) && gard.activeBus == bus && rr.state == RecvAppResponse
    requires from.begun ==> HeadDone(gard, rr, from)
    modifies bus, rr`state, rr.appResponse
    ensures ok ==> rr.state == Complete
    ensures from.begun ==> Ended(gard, rr, from, ok)
  {
    var d := rr.descriptor;
    if from.begun {
      HeadFillsTheResponse(d, from.bus);
      TailIsOneTransfer(d, from.bus, Take(d.appResponseSize.value, RecvAppResponse));
    }
    if rr.appResponse != null {
      var n := TakeIntoAppResponse(gard, bus, rr, from, Perform(Head(d), RecvResponse, from.bus), rr.appResponse, d.appResponseSize.value);
      if n != d.appResponseSize.value {
        return false;
      }
    }
    rr.state := Complete;
    ok := true;
  }

  lemma NoDataWanted(d: Descriptor, bus: BusState)
    requires d.Valid() && d.ValidationPasses() && Perform(Head(d), RecvResponse, bus).ok && d.sendData.Some?
    requires |Perform(Head(d), RecvResponse, bus).got| == d.responseSize
    requires !WantsData(d, Perform(Head(d), RecvResponse, bus).got)
    ensures Exchange(d, bus) == Perform(Head(d), RecvResponse, bus).(stoppedIn := Complete)
  {
    var head := Perform(Head(d), RecvResponse, bus);
    assert head.got + [] == head.got;
  }

  /** The data, if the answer asks for it: the case SM_SEND_DATA. */
  method TransmitData(gard: Gard, bus: Bus, rr: Request, ghost from: Origin) returns (ok: bool)
    requires Fits(rr, from) && gard.activeBus == bus && rr.state == SendData
    requires from.begun ==> HeadDone(gard, rr, from)
    modifies bus, rr`state, rr`responseSize
    ensures Fits(rr, from)
    ensures ok ==> rr.state in {Complete, RecvOptionalAck}
    ensures from.begun ==> Ended(gard, rr, from, ok)
  {
    var d := rr.descriptor;
    ghost var head := Perform(Head(d), RecvResponse, from.bus);
    if from.begun {
      HeadFillsTheResponse(d, from.bus);
      assert head.got[..|head.got|] == head.got;
      if WantsData(d, head.got) {
        TailIsOneTransfer(d, from.bus, Put(d.sendData.value, SendData));
        assert head.got + [] == head.got;
      } else {
        NoDataWanted(d, from.bus);
      }
    }
    if d.checkStartSignal {
      var yes := rr.StartSignalReceived();
      if !yes {
        rr.state := Complete;
        return true;
      }
    }
    var data := if d.sendData.Some? then d.sendData.value else [];
    var n := bus.Write(data);
    if n != |data| {
      return false;
    }
    rr.state := RecvOptionalAck;
    ok := true;
  }

  datatype Verdict = Fail | Stay | Leave

  /** The cases from SM_RECV_RESPONSE on, none of which falls through. */
  method PassOn(gard: Gard, bus: Bus, rr: Request, ghost from: Origin) returns (verdict: Verdict)
    requires Fits(rr, from) && gard.activeBus == bus
    requires rr.state !in {Start, SendRequest, SendAppRequest, RecvPartialResponse, ValidatePartialResponse}
    requires from.begun ==> if rr.state == RecvResponse then OpeningDone(gard, rr, from) else Progress(gard, rr, from)
    modifies gard`commandExecution, bus, rr`state, rr`responseSize, rr.response, rr.appResponse
    ensures Fits(rr, from)
    ensures verdict == Stay ==> Rank(rr.state) < Rank(old(rr.state))
    ensures from.begun ==> match verdict
                           case Fail => Ended(gard, rr, from, false)
                           case Stay => Progress(gard, rr, from)
                           case Leave => Left(gard, rr, from)
  {
    var ok := true;
    verdict := Stay;
    match rr.state {
      case RecvResponse => ok := ReceiveRest(gard, bus, rr, from);
      case RecvAppResponse => ok := ReceiveAppResponse(gard, bus, rr, from);
      case SendData =>
        ok := TransmitData(gard, bus, rr, from);
        if rr.state == RecvOptionalAck {
          verdict := Leave;
        }
      case Complete =>
        gard.commandExecution := false;
        verdict := Leave;
      case _ => verdict := Leave;
    }
    if !ok {
      verdict := Fail;
    }
  }

  /** One pass of the loop: the switch, entered at the recorded state and falling through. */
  method Pass(gard: Gard, bus: Bus, rr: Request, ghost from: Origin) returns (verdict: Verdict)
    requires Fits(rr, from) && gard.activeBus == bus
    requires from.begun ==> Progress(gard, rr, from)
    modifies gard`commandExecution, bus, rr`state, rr`responseSize, rr.response, rr.appResponse
    ensures Fits(rr, from)
    ensures verdict == Stay ==> Rank(rr.state) < Rank(old(rr.state))
    ensures from.begun ==> match verdict
                           case Fail => Ended(gard, rr, from, false)
                           case Stay => Progress(gard, rr, from)
                           case Leave => Left(gard, rr, from)
  {
    if rr.state in {Start, SendRequest, SendAppRequest} {
      var sent, fallThrough := TransmitRequests(gard, bus, rr, from);
      if !sent {
        return Fail;
      }
      if !fallThrough {
        return Stay;
      }
    }
    if rr.state in {RecvPartialResponse, ValidatePartialResponse} {
      var peeked := ReceivePeek(gard, bus, rr, from);
      if !peeked {
        return Fail;
      }
      if rr.state == ServiceGardRequest {
        return Stay;
      }
    }
    verdict := PassOn(gard, bus, rr, from);
  }

  /** The state in which the loop is left with success. */
  ghost predicate Left(gard: Gard, rr: Request, from: Origin)
    requires Fits(rr, from) && gard.activeBus != null
    reads gard, gard.activeBus, rr, rr.response, rr.appResponse
  {
    var d := rr.descriptor;
    var o := Exchange(d, from.bus);
    && o.ok && rr.state == o.stoppedIn && gard.activeBus.State() == o.bus && Holds(rr, from, o.got)
    && gard.commandExecution == CommandRunning(d, from.bus, from.running)
  }

  /** The bytes taken off the line fill the response and behind it the App response, byte for byte. */
  ghost predicate Landed(rr: Request, from: Origin, input: seq<byte>)
    requires Fits(rr, from)
    reads rr, rr.response, rr.appResponse
  {
    var kept := |from.bus.input| - |input|;
    var cut := if kept < rr.descriptor.responseSize then kept else rr.descriptor.responseSize;
    && 0 <= kept && input == from.bus.input[kept..]
    && (forall i :: 0 <= i < rr.response.Length ==> rr.response[i] == if i < cut then from.bus.input[i] else from.response[i])
    && if rr.appResponse == null then kept == cut
       else
         && kept - cut <= rr.appResponse.Length
         && forall i :: 0 <= i < rr.appResponse.Length ==>
              rr.appResponse[i] == if i < kept - cut then from.bus.input[cut + i] else from.appResponse[i]
  }

  lemma HeldIsLanded(rr: Request, from: Origin)
    requires Fits(rr, from) && Holds(rr, from, Exchange(rr.descriptor, from.bus).got)
    ensures Landed(rr, from, Exchange(rr.descriptor, from.bus).bus.input)
  {
    var o := Exchange(rr.descriptor, from.bus);
    ExchangeInBytes(rr.descriptor, from.bus);
    assert forall i :: 0 <= i < rr.response.Length ==> rr.response[..][i] == rr.response[i];
    assert rr.appResponse != null ==> forall i :: 0 <= i < rr.appResponse.Length ==> rr.appResponse[..][i] == rr.appResponse[i];
  }

  /** The loop. `passes` counts its passes. */
  method Run(gard: Gard, bus: Bus, rr: Request, ghost from: Origin) returns (ok: bool, ghost passes: nat)
    requires Fits(rr, from) && gard.activeBus == bus
    requires from.begun ==>
      && rr.state == Start && from.bus == gard.activeBus.State() && from.running == gard.commandExecution
      && from.response == rr.response[..] && (rr.appResponse != null ==> from.appResponse == rr.appResponse[..])
    modifies gard`commandExecution, bus, rr`state, rr`responseSize, rr.response, rr.appResponse
    ensures passes <= Rank(old(rr.state))
    ensures Fits(rr, from)
    ensures from.begun ==>
      var o := Exchange(rr.descriptor, from.bus);
      && ok == o.ok && rr.state == o.stoppedIn && gard.activeBus.State() == o.bus && Landed(rr, from, gard.activeBus.input)
      && gard.commandExecution == CommandRunning(rr.descriptor, from.bus, from.running)
  {
    passes := 0;
    var verdict := Stay;
    while verdict == Stay
      invariant gard.activeBus == bus && Fits(rr, from)
      invariant passes + (if verdict == Stay then Rank(rr.state) else 0) <= Rank(old(rr.state))
      invariant from.begun ==> match verdict
                               case Fail => Ended(gard, rr, from, false)
                               case Stay => Progress(gard, rr, from)
                               case Leave => Left(gard, rr, from)
      decreases if verdict == Stay then Rank(rr.state) else 0
    {
      passes := passes + 1;
      verdict := Pass(gard, bus, rr, from);
    }
    ok := verdict == Leave;
    if from.begun {
      HeldIsLanded(rr, from);
    }
  }

  lemma RunningInBytes(d: Descriptor, bus: BusState, before: bool)
    requires d.Valid()
    ensures var o := Exchange(d, bus);
            CommandRunning(d, bus, before) ==
            if o.ok then o.stoppedIn != Complete else |o.bus.output| >= |bus.output| + |d.request| || before
  {
    RequestIsOutIff(d, bus);
    ExchangeInBytes(d, bus);
  }

  /** A successful exchange took all of the answer and wrote the requests, and the data if the answer asks for it;
      after a failure the GARD counts as busy if the request went out. */
  lemma RunInBytes(d: Descriptor, bus: BusState, before: bool)
    requires d.Valid()
    ensures var o, running := Exchange(d, bus), CommandRunning(d, bus, before);
            var kept := |bus.input| - |o.bus.input|;
            var requests := bus.output + d.request + (if d.appRequest.Some? then d.appRequest.value else []);
            if !o.ok then
              running == (|o.bus.output| >= |bus.output| + |d.request| || before)
            else if d.request[..|d.validation|] != d.validation then
              o.stoppedIn == ServiceGardRequest && running && kept == |d.validation| && o.bus.output == requests
            else
              && kept == d.responseSize + (if d.sendData.None? && d.appResponseSize.Some? then d.appResponseSize.value else 0)
              && |bus.input| >= d.responseSize
              && if d.sendData.Some? && (!d.checkStartSignal || bus.input[1] == SEND_DATA)
                 then o.stoppedIn == RecvOptionalAck && running && o.bus.output == requests + d.sendData.value
                 else o.stoppedIn == Complete && !running && o.bus.output == requests
  {
    ExchangeInBytes(d, bus);
    RunningInBytes(d, bus, before);
    if Exchange(d, bus).ok && d.request[..|d.validation|] == d.validation {
      AnsweredInBytes(d, bus);
    }
  }

  /** One request and its answer. `passes` counts the passes of the loop. */
  method Execute(gard: Gard, rr: Request) returns (ok: bool, ghost passes: nat)
    requires rr.Valid()
    modifies gard`commandExecution, gard.activeBus, rr`state, rr`responseSize, rr.response, rr.appResponse
    ensures passes <= Rank(old(rr.state))
    ensures gard.activeBus == null ==> !ok && gard.commandExecution == old(gard.commandExecution) && rr.state == old(rr.state)
    ensures gard.activeBus != null && old(rr.state) == Start ==>
      var before := old(gard.activeBus.State());
      var o := Exchange(rr.descriptor, before);
      && rr.Valid() && ok == o.ok && rr.state == o.stoppedIn && gard.activeBus.State() == o.bus
      && gard.commandExecution == CommandRunning(rr.descriptor, before, old(gard.commandExecution))
    // The bytes taken off the line fill the response and behind it the App response.
    ensures gard.activeBus != null && old(rr.state) == Start ==>
      var input, kept := old(gard.activeBus.input), |old(gard.activeBus.input)| - |gard.activeBus.input|;
      var cut := if kept < rr.descriptor.responseSize then kept else rr.descriptor.responseSize;
      && 0 <= kept && gard.activeBus.input == input[kept..]
      && (forall i :: 0 <= i < rr.response.Length ==> rr.response[i] == if i < cut then input[i] else old(rr.response[..])[i])
      && if rr.appResponse == null then kept == cut
         else
           && kept - cut <= rr.appResponse.Length
           && forall i :: 0 <= i < rr.appResponse.Length ==>
                rr.appResponse[i] == if i < kept - cut then input[cut + i] else old(rr.appResponse[..])[i]
    // A success with an answer took all of it and wrote the requests, and the data if the answer asks for it.
    ensures gard.activeBus != null && old(rr.state) == Start && ok ==>
      var d, input := rr.descriptor, old(gard.activeBus.input);
      var kept := |input| - |gard.activeBus.input|;
      var requests := old(gard.activeBus.output) + d.request + (if d.appRequest.Some? then d.appRequest.value else []);
      if d.request[..|d.validation|] != d.validation then
        rr.state == ServiceGardRequest && gard.commandExecution && kept == |d.validation| && gard.activeBus.output == requests
      else
        && kept == d.responseSize + (if d.sendData.None? && d.appResponseSize.Some? then d.appResponseSize.value else 0)
        && if d.sendData.Some? && (!d.checkStartSignal || input[1] == SEND_DATA)
           then rr.state == RecvOptionalAck && gard.commandExecution && gard.activeBus.output == requests + d.sendData.value
           else rr.state == Complete && !gard.commandExecution && gard.activeBus.output == requests
    ensures gard.activeBus != null && old(rr.state) == Start && !ok ==>
      gard.commandExecution == (|gard.activeBus.output| >= |old(gard.activeBus.output)| + |rr.descriptor.request| || old(gard.commandExecution))
  {
    if gard.activeBus == null {
      return false, 0;
    }
    ghost var d := rr.descriptor;
    var bus := gard.activeBus;
    ghost var app := if rr.appResponse == null then [] else rr.appResponse[..];
    ghost var from := Origin(rr.state == Start, BusState(bus.input, bus.output, bus.grants), rr.response[..], app, gard.commandExecution);
    ok, passes := Run(gard, bus, rr, from);
    if from.begun {
      RunInBytes(d, from.bus, from.running);
    }
  }

  // ---- What the exchange guarantees ----

  function Requests(d: Descriptor): seq<byte>
  {
    d.request + (if d.appRequest.Some? then d.appRequest.value else [])
  }

  function Data(d: Descriptor): seq<byte>
  {
    if d.sendData.Some? then d.sendData.value else []
  }

  lemma TailTotals(d: Descriptor, reply: seq<byte>)
    requires d.Valid() && |reply| == d.responseSize
    ensures BytesPut(Tail(d, reply)) == (if WantsData(d, reply) then Data(d) else [])
    ensures BytesTaken(Tail(d, reply)) == (if d.sendData.None? && d.appResponseSize.Some? then d.appResponseSize.value else 0)
  {
    var tail := Tail(d, reply);
    if tail != [] {
      assert tail == [tail[0]] && tail[1..] == [];
      assert BytesPut(tail) == (if tail[0].Put? then tail[0].data else []) + BytesPut([]);
    }
  }

  /** Whatever the transfers do, the bytes written are a prefix of request, App request and data, and the
      bytes kept are the front of the input. */
  lemma ExchangeWritesAPrefix(d: Descriptor, bus: BusState)
    requires d.Valid()
    ensures var o := Exchange(d, bus);
            bus.output <= o.bus.output <= bus.output + (Requests(d) + Data(d)) && bus.input == o.got + o.bus.input
  {
    HeadTotals(d);
    assert bus.output + (Requests(d) + Data(d)) == bus.output + Requests(d) + Data(d);
    if !d.ValidationPasses() {
      PerformMovesBytes(Opening(d), ServiceGardRequest, bus);
    } else {
      var head := Perform(Head(d), RecvResponse, bus);
      PerformMovesBytes(Head(d), RecvResponse, bus);
      if head.ok {
        var end := if WantsData(d, head.got) then RecvOptionalAck else Complete;
        var tail := Perform(Tail(d, head.got), end, head.bus);
        TailTotals(d, head.got);
        PerformMovesBytes(Tail(d, head.got), end, head.bus);
        BalancesCompose(bus, Requests(d), d.responseSize, head, BytesPut(Tail(d, head.got)), BytesTaken(Tail(d, head.got)), tail);
        assert Requests(d) + BytesPut(Tail(d, head.got)) <= Requests(d) + Data(d);
      }
    }
  }

  /** An exchange that reaches COMPLETE has written exactly the requests and has read exactly the response
      and, when there is no data to send, the App response behind it. */
  lemma CompletedExchange(d: Descriptor, bus: BusState)
    requires d.Valid() && Exchange(d, bus).ok && Exchange(d, bus).stoppedIn == Complete
    ensures var o := Exchange(d, bus);
            && o.bus.output == bus.output + Requests(d)
            && |o.got| == d.responseSize + (if d.sendData.None? && d.appResponseSize.Some? then d.appResponseSize.value else 0)
            && bus.input == o.got + o.bus.input
  {
    HeadTotals(d);
    PerformStops(Opening(d), ServiceGardRequest, bus);
    if d.ValidationPasses() {
      var head := Perform(Head(d), RecvResponse, bus);
      PerformMovesBytes(Head(d), RecvResponse, bus);
      var end := if WantsData(d, head.got) then RecvOptionalAck else Complete;
      TailTotals(d, head.got);
      PerformStops(Tail(d, head.got), end, head.bus);
      PerformMovesBytes(Tail(d, head.got), end, head.bus);
      BalancesCompose(bus, Requests(d), d.responseSize, head, BytesPut(Tail(d, head.got)), BytesTaken(Tail(d, head.got)),
                      Perform(Tail(d, head.got), end, head.bus));
      assert Requests(d) + [] == Requests(d);
    }
  }

  lemma PerformKeepsNoGrants(plan: seq<Transfer>, end: SmState, bus: BusState)
    requires bus.grants == []
    ensures Perform(plan, end, bus).bus.grants == []
  {
  }

  lemma ExchangeKeepsNoGrants(d: Descriptor, bus: BusState)
    requires d.Valid() && bus.grants == []
    ensures Exchange(d, bus).bus.grants == []
  {
    PerformKeepsNoGrants(Opening(d), ServiceGardRequest, bus);
    PerformKeepsNoGrants(Head(d), RecvResponse, bus);
    var head := Perform(Head(d), RecvResponse, bus);
    if head.ok {
      HeadFillsTheResponse(d, bus);
      PerformKeepsNoGrants(Tail(d, head.got), if WantsData(d, head.got) then RecvOptionalAck else Complete, head.bus);
    }
  }

  /** Over a bus that limits nothing, a request without data completes exactly when the answer is all there. */
  lemma RequestCompletesIffAnswered(d: Descriptor, bus: BusState)
    requires d.Valid() && d.ValidationPasses() && d.sendData.None? && bus.grants == []
    ensures var o := Exchange(d, bus);
            o.ok && o.stoppedIn == Complete <==>
            |bus.input| >= d.responseSize + (if d.appResponseSize.Some? then d.appResponseSize.value else 0)
  {
    var head := Perform(Head(d), RecvResponse, bus);
    HeadTotals(d);
    PerformStops(Head(d), RecvResponse, bus);
    PerformSucceedsIffInputSuffices(Head(d), RecvResponse, bus);
    PerformMovesBytes(Head(d), RecvResponse, bus);
    if head.ok {
      PerformKeepsNoGrants(Head(d), RecvResponse, bus);
      TailTotals(d, head.got);
      PerformStops(Tail(d, head.got), Complete, head.bus);
      PerformSucceedsIffInputSuffices(Tail(d, head.got), Complete, head.bus);
      PerformMovesBytes(Tail(d, head.got), Complete, head.bus);
      assert |bus.input| == d.responseSize + |head.bus.input|;
    }
  }

  /** What the design asks for: the exchange turns to the GARD's request exactly when the bytes received are not
      those expected. */
  predicate RoutedByTheAnswer(d: Descriptor, bus: BusState)
    requires d.Valid()
  {
    var opening := Perform(Opening(d), ServiceGardRequest, bus);
    opening.ok ==> (Exchange(d, bus).stoppedIn == ServiceGardRequest <==> opening.got != d.validation)
  }

  lemma RouteOfTheCode(d: Descriptor, bus: BusState)
    requires d.Valid() && Perform(Opening(d), ServiceGardRequest, bus).ok
    ensures Exchange(d, bus).stoppedIn == ServiceGardRequest <==> !d.ValidationPasses()
  {
    HeadSplits(d, bus);
    PerformStops(Opening(d), ServiceGardRequest, bus);
    PerformStops(Head(d), RecvResponse, bus);
    if d.ValidationPasses() {
      var head := Perform(Head(d), RecvResponse, bus);
      if head.ok {
        HeadFillsTheResponse(d, bus);
        PerformStops(Tail(d, head.got), if WantsData(d, head.got) then RecvOptionalAck else Complete, head.bus);
      }
    }
  }

  lemma OpeningTakesTheFront(d: Descriptor, input: seq<byte>)
    requires d.Valid() && |input| == |d.validation|
    ensures var opening := Perform(Opening(d), ServiceGardRequest, BusState(input, [], []));
            opening.ok && opening.got == input
  {
    var bus := BusState(input, [], []);
    HeadTotals(d);
    PerformSucceedsIffInputSuffices(Opening(d), ServiceGardRequest, bus);
    PerformMovesBytes(Opening(d), ServiceGardRequest, bus);
  }

  /** Step 4 of the design is that the received bytes decide. The code compares the request instead: it follows
      the design on every bus exactly for the requests that have nothing to validate. */
  lemma RoutedByTheAnswerIff(d: Descriptor)
    requires d.Valid()
    ensures (forall bus: BusState :: RoutedByTheAnswer(d, bus)) <==> d.validation == []
  {
    if d.validation == [] {
      HeadTotals(d);
      forall bus: BusState
        ensures RoutedByTheAnswer(d, bus)
      {
        if Perform(Opening(d), ServiceGardRequest, bus).ok {
          RouteOfTheCode(d, bus);
          PerformMovesBytes(Opening(d), ServiceGardRequest, bus);
        }
      }
    } else {
      var next: byte := if d.validation[0] == 0 then 1 else 0;
      var other := seq(|d.validation|, _ => next);
      var input := if d.ValidationPasses() then other else d.validation;
      assert other[0] != d.validation[0];
      OpeningTakesTheFront(d, input);
      RouteOfTheCode(d, BusState(input, [], []));
      assert !RoutedByTheAnswer(d, BusState(input, [], []));
    }
  }

  /** So an answer to another command is accepted: a PAUSE (0x20) answered by an ORIGINATOR_SYNC completes. */
  lemma ForeignAnswerIsAccepted()
    ensures var d := Descriptor([0x20], None, [0x20], None, 2, None, false);
            var bus := BusState([ORIGINATOR_SYNC, ORIGINATOR_ID_GARD], [], []);
            var o := Exchange(d, bus);
            o.ok && o.stoppedIn == Complete && |o.got| == 2 && o.got[..1] != d.validation
  {
    var d := Descriptor([0x20], None, [0x20], None, 2, None, false);
    var bus := BusState([ORIGINATOR_SYNC, ORIGINATOR_ID_GARD], [], []);
    RequestCompletesIffAnswered(d, bus);
    CompletedExchange(d, bus);
    var o := Exchange(d, bus);
    assert |o.got| == 2;
    assert bus.input[0] == o.got[0];
  }

  /** After data was sent the machine stops in the unfinished ACK state: success, with the GARD still busy. */
  lemma SentDataLeavesTheGardBusy(d: Descriptor, bus: BusState, before: bool)
    requires d.Valid() && d.sendData.Some? && d.ValidationPasses()
    requires var head := Perform(Head(d), RecvResponse, bus);
             head.ok && |head.got| == d.responseSize && WantsData(d, head.got)
    ensures Exchange(d, bus).ok <==> |Perform(Head(d), RecvResponse, bus).bus.Accepted(Data(d))| == |Data(d)|
    ensures Exchange(d, bus).ok ==> Exchange(d, bus).bus.output == bus.output + (Requests(d) + Data(d))
    ensures CommandRunning(d, bus, before)
  {
    HeadTotals(d);
    var head := Perform(Head(d), RecvResponse, bus);
    PerformMovesBytes(Head(d), RecvResponse, bus);
    TailIsOneTransfer(d, bus, Put(d.sendData.value, SendData));
    assert bus.output + (Requests(d) + Data(d)) == bus.output + Requests(d) + Data(d);
    if |bus.Accepted(d.request)| < |d.request| {
      SendsSplit(d, Start, bus);
      SendsFail(d, bus);
      OpeningSplits(d, ServiceGardRequest, bus);
      HeadSplits(d, bus);
      assert false;
    }
  }

  /** What is on the line when a request leaves the GARD busy: too short an answer, an answer that asks for the
      data, or anything at all if the request is not its own validation. */
  predicate StaysBusy(d: Descriptor, input: seq<byte>)
    requires d.Valid()
  {
    || !d.ValidationPasses()
    || |input| < d.responseSize
    || if d.sendData.Some? then WantsData(d, input[..d.responseSize])
       else d.appResponseSize.Some? && |input| < d.responseSize + d.appResponseSize.value
  }

  /** On a line that limits nothing, what is on it decides whether the GARD still counts as busy afterwards. */
  lemma GardStaysBusyIff(d: Descriptor, bus: BusState, before: bool)
    requires d.Valid() && bus.grants == []
    ensures CommandRunning(d, bus, before) <==> StaysBusy(d, bus.input)
  {
    if !d.ValidationPasses() {
      PerformStops(Opening(d), ServiceGardRequest, bus);
    } else if d.sendData.None? {
      RequestCompletesIffAnswered(d, bus);
    } else {
      var head := Perform(Head(d), RecvResponse, bus);
      HeadTotals(d);
      PerformStops(Head(d), RecvResponse, bus);
      PerformSucceedsIffInputSuffices(Head(d), RecvResponse, bus);
      PerformMovesBytes(Head(d), RecvResponse, bus);
      if head.ok {
        assert bus.input[..d.responseSize] == head.got;
        if WantsData(d, head.got) {
          SentDataLeavesTheGardBusy(d, bus, before);
        } else {
          NoDataWanted(d, bus);
        }
      }
    }
  }

  /** What an exchange moves, byte for byte: the bytes that came are the front of the input, and those that went
      are a prefix of request, App request and data, the whole of it as far as the outcome tells. */
  lemma ExchangeInBytes(d: Descriptor, bus: BusState)
    requires d.Valid()
    ensures var o := Exchange(d, bus);
            var requests := d.request + (if d.appRequest.Some? then d.appRequest.value else []);
            var data := if d.sendData.Some? then d.sendData.value else [];
            && bus.output <= o.bus.output <= bus.output + requests + data
            && bus.input == o.got + o.bus.input
            && |o.got| <= d.responseSize + (if d.sendData.None? && d.appResponseSize.Some? then d.appResponseSize.value else 0)
            && (o.ok ==> bus.output + requests <= o.bus.output)
            && (o.ok && d.request[..|d.validation|] != d.validation ==>
                  o.stoppedIn == ServiceGardRequest && |o.got| == |d.validation| && o.bus.output == bus.output + requests)
  {
    ExchangeWritesAPrefix(d, bus);
    HeadTotals(d);
    assert bus.output + (Requests(d) + Data(d)) == bus.output + Requests(d) + Data(d);
    PerformMovesBytes(Opening(d), ServiceGardRequest, bus);
    PerformStops(Opening(d), ServiceGardRequest, bus);
    if d.ValidationPasses() {
      var head := Perform(Head(d), RecvResponse, bus);
      PerformMovesBytes(Head(d), RecvResponse, bus);
      if head.ok {
        HeadFillsTheResponse(d, bus);
        TailTotals(d, head.got);
        PerformMovesBytes(Tail(d, head.got), if WantsData(d, head.got) then RecvOptionalAck else Complete, head.bus);
      }
    }
  }

  /** An answered exchange: the whole answer was read, and it decides whether the data went out behind the
      requests. */
  lemma AnsweredInBytes(d: Descriptor, bus: BusState)
    requires d.Valid() && Exchange(d, bus).ok && d.request[..|d.validation|] == d.validation
    ensures var o := Exchange(d, bus);
            var requests := d.request + (if d.appRequest.Some? then d.appRequest.value else []);
            && |o.got| == d.responseSize + (if d.sendData.None? && d.appResponseSize.Some? then d.appResponseSize.value else 0)
            && |o.got| <= |bus.input|
            && if d.sendData.Some? && (!d.checkStartSignal || bus.input[1] == SEND_DATA)
               then o.stoppedIn == RecvOptionalAck && o.bus.output == bus.output + requests + d.sendData.value
               else o.stoppedIn == Complete && o.bus.output == bus.output + requests
  {
    HeadTotals(d);
    var head := Perform(Head(d), RecvResponse, bus);
    PerformMovesBytes(Head(d), RecvResponse, bus);
    HeadFillsTheResponse(d, bus);
    assert bus.input[..d.responseSize] == head.got;
    var end := if WantsData(d, head.got) then RecvOptionalAck else Complete;
    TailTotals(d, head.got);
    PerformStops(Tail(d, head.got), end, head.bus);
    PerformMovesBytes(Tail(d, head.got), end, head.bus);
  }

  lemma OutputGrowsByTheFirst(plan: seq<Transfer>, end: SmState, bus: BusState)
    requires plan != [] && plan[0].Put? && bus.Accepted(plan[0].data) == plan[0].data
    ensures |bus.output| + |plan[0].data| <= |Perform(plan, end, bus).bus.output|
  {
    PerformMovesBytes(plan[1..], end, PerformOne(plan[0], bus).bus);
  }

  /** Whether the request itself went out shows in the output. */
  lemma RequestIsOutIff(d: Descriptor, bus: BusState)
    requires d.Valid()
    ensures |bus.Accepted(d.request)| < |d.request| <==> |Exchange(d, bus).bus.output| < |bus.output| + |d.request|
  {
    SendsSplit(d, Start, bus);
    if |bus.Accepted(d.request)| < |d.request| {
      SendsFail(d, bus);
    } else {
      OutputGrowsByTheFirst(Opening(d), ServiceGardRequest, bus);
      OutputGrowsByTheFirst(Head(d), RecvResponse, bus);
      var head := Perform(Head(d), RecvResponse, bus);
      if d.ValidationPasses() && head.ok {
        HeadFillsTheResponse(d, bus);
        PerformMovesBytes(Tail(d, head.got), if WantsData(d, head.got) then RecvOptionalAck else Complete, head.bus);
      }
    }
  }
}
