/**
 * The device access layer: the chunked UART read loop, and the byte bus that the
 * layers above see. The operating system is an oracle: a sequence of events decides
 * what select() and read() answer, and on the bus a sequence of grants decides how
 * many bytes each transfer moves.
 */
module UartBus {
  import opened Bytes

  const CHUNK_SIZE := 64
  const MAX_RETRIES := 3

  /** One turn of select() and, when data is announced, read(). */
  datatype UartEvent = Timeout | SelectError | ReadError | Ready(available: nat)

  datatype ReadState = Reading(total: nat, retries: nat) | Finished(total: nat)

  function ReadStep(r: ReadState, e: UartEvent, count: nat, lineLength: nat): ReadState
    requires r.Reading? ==> r.total <= count && r.total <= lineLength
  {
    if r.Finished? then r else
    match e
    case Timeout => r
    case SelectError => Finished(r.total)
    case ReadError => Finished(r.total)
    case Ready(available) =>
      var n := Min(Min(available, Min(count - r.total, CHUNK_SIZE)), lineLength - r.total);
      if n == 0 then
        if r.retries + 1 >= MAX_RETRIES then Finished(r.total) else Reading(r.total, r.retries + 1)
      else if r.total + n < count then Reading(r.total + n, 0)
      else Finished(r.total + n)
  }

  /** The state of the read after all the events. */
  function ReadFold(r: ReadState, events: seq<UartEvent>, count: nat, lineLength: nat): (end: ReadState)
    requires r.total <= count && r.total <= lineLength
    ensures r.total <= end.total <= count && end.total <= lineLength
    decreases |events|
  {
    if events == [] then r else ReadFold(ReadStep(r, events[0], count, lineLength), events[1..], count, lineLength)
  }

  function WithoutTimeouts(events: seq<UartEvent>): seq<UartEvent>
  {
    if events == [] then []
    else (if events[0].Timeout? then [] else [events[0]]) + WithoutTimeouts(events[1..])
  }

  /** No error, and never MAX_RETRIES empty reads without a byte in between. */
  predicate Benign(events: seq<UartEvent>, retries: nat)
  {
    events == [] ||
    match events[0]
    case Timeout => Benign(events[1..], retries)
    case SelectError => false
    case ReadError => false
    case Ready(available) =>
      if available == 0 then retries + 1 < MAX_RETRIES && Benign(events[1..], retries + 1)
      else Benign(events[1..], 0)
  }

  /** The bytes the events offer, at most one chunk each. */
  function Offered(events: seq<UartEvent>): nat
  {
    if events == [] then 0
    else (if events[0].Ready? then Min(events[0].available, CHUNK_SIZE) else 0) + Offered(events[1..])
  }

  /** Time-outs never count: they can be removed or added anywhere without changing the outcome. */
  lemma {:induction false} TimeoutsAreInvisible(r: ReadState, events: seq<UartEvent>, count: nat, lineLength: nat)
    requires r.total <= count && r.total <= lineLength
    ensures ReadFold(r, WithoutTimeouts(events), count, lineLength) == ReadFold(r, events, count, lineLength)
    decreases |events|
  {
    if events != [] {
      var rest := WithoutTimeouts(events[1..]);
      var next := ReadStep(r, events[0], count, lineLength);
      TimeoutsAreInvisible(next, events[1..], count, lineLength);
      if events[0].Timeout? {
        assert WithoutTimeouts(events) == rest;
      } else {
        assert WithoutTimeouts(events)[0] == events[0] && WithoutTimeouts(events)[1..] == rest;
      }
    }
  }

  lemma {:induction false} FinishedStaysFinished(total: nat, events: seq<UartEvent>, count: nat, lineLength: nat)
    requires total <= count && total <= lineLength
    ensures ReadFold(Finished(total), events, count, lineLength) == Finished(total)
    decreases |events|
  {
    if events != [] {
      FinishedStaysFinished(total, events[1..], count, lineLength);
    }
  }

  /** Benign events deliver the whole request exactly when they offer enough bytes; until then the
      read is still waiting, so it never comes back short. */
  lemma {:induction false} BenignReadIsNeverShort(
    total: nat, retries: nat, events: seq<UartEvent>, count: nat, lineLength: nat)
    requires total < count <= lineLength && Benign(events, retries)
    ensures var end := ReadFold(Reading(total, retries), events, count, lineLength);
            if total + Offered(events) >= count then end == Finished(count)
            else end.Reading? && end.total == total + Offered(events)
    decreases |events|
  {
    if events != [] {
      match events[0]
      case Timeout => BenignReadIsNeverShort(total, retries, events[1..], count, lineLength);
      case SelectError => assert false;
      case ReadError => assert false;
      case Ready(available) =>
        var n := Min(available, CHUNK_SIZE);
        if available == 0 {
          BenignReadIsNeverShort(total, retries + 1, events[1..], count, lineLength);
        } else if total + n < count {
          BenignReadIsNeverShort(total + n, 0, events[1..], count, lineLength);
        } else {
          FinishedStaysFinished(count, events[1..], count, lineLength);
        }
    }
  }

  /** A read ends exactly when an error or too many empty reads in a row end it, or enough bytes are offered:
      on time-outs alone it waits for ever. */
  lemma {:induction false} ReadEndsIff(total: nat, retries: nat, events: seq<UartEvent>, count: nat, lineLength: nat)
    requires total < count <= lineLength && retries < MAX_RETRIES
    ensures ReadFold(Reading(total, retries), events, count, lineLength).Finished? <==>
            !Benign(events, retries) || total + Offered(events) >= count
    decreases |events|
  {
    if events != [] {
      match ReadStep(Reading(total, retries), events[0], count, lineLength)
      case Finished(t) => FinishedStaysFinished(t, events[1..], count, lineLength);
      case Reading(t, r) => ReadEndsIff(t, r, events[1..], count, lineLength);
    }
  }

  lemma {:induction false} BenignWithoutTimeouts(events: seq<UartEvent>, retries: nat)
    ensures Benign(WithoutTimeouts(events), retries) <==> Benign(events, retries)
    ensures forall i :: 0 <= i < |WithoutTimeouts(events)| ==> !WithoutTimeouts(events)[i].Timeout?
  {
    if events != [] {
      match events[0]
      case Timeout =>
        assert WithoutTimeouts(events) == WithoutTimeouts(events[1..]);
        BenignWithoutTimeouts(events[1..], retries);
      case SelectError => BenignWithoutTimeouts(events[1..], 0);
      case ReadError => BenignWithoutTimeouts(events[1..], 0);
      case Ready(available) =>
        var rest := WithoutTimeouts(events[1..]);
        assert WithoutTimeouts(events) == [events[0]] + rest && WithoutTimeouts(events)[1..] == rest;
        BenignWithoutTimeouts(events[1..], if available == 0 then retries + 1 else 0);
    }
  }

  /** Three empty reads in a row, from the i-th event on. */
  predicate ThreeEmpty(events: seq<UartEvent>, i: nat)
  {
    i + 2 < |events| && events[i] == Ready(0) && events[i + 1] == Ready(0) && events[i + 2] == Ready(0)
  }

  lemma {:induction false} BenignBehind(events: seq<UartEvent>, retries: nat)
    requires retries < 3 && forall i :: 0 <= i < |events| ==> !events[i].Timeout?
    ensures Benign(events, retries) <==>
            && (forall i :: 0 <= i < |events| ==> events[i].Ready?)
            && (forall i :: 0 <= i < |events| ==> !ThreeEmpty(events, i))
            && !(retries >= 1 && |events| >= 2 && events[0] == events[1] == Ready(0))
            && !(retries >= 2 && |events| >= 1 && events[0] == Ready(0))
  {
    if events != [] && events[0].Ready? {
      var rest, next := events[1..], if events[0] == Ready(0) then retries + 1 else 0;
      assert forall i :: 0 <= i < |rest| ==> rest[i] == events[i + 1];
      assert forall i :: 0 < i < |events| ==> events[i] == rest[i - 1];
      assert forall i :: 0 < i < |events| ==> (ThreeEmpty(events, i) <==> ThreeEmpty(rest, i - 1));
      assert forall i :: 0 <= i < |rest| ==> (ThreeEmpty(rest, i) <==> ThreeEmpty(events, i + 1));
      if next < 3 {
        BenignBehind(rest, next);
        assert ThreeEmpty(events, 0) <==> |events| >= 3 && events[0] == Ready(0) && rest[0] == rest[1] == Ready(0);
      }
    }
  }

  /** Time-outs apart, the events are benign if all of them announce data and no three in a row bring none. */
  lemma BenignIff(events: seq<UartEvent>)
    ensures var w := WithoutTimeouts(events);
            Benign(events, 0) <==>
            && (forall i :: 0 <= i < |w| ==> w[i].Ready?)
            && !exists i :: 0 <= i < |w| && ThreeEmpty(w, i)
  {
    BenignWithoutTimeouts(events, 0);
    BenignBehind(WithoutTimeouts(events), 0);
  }

  /** However much a device announces, one read takes no more than 64 bytes. */
  lemma OneChunk(available: nat, count: nat, lineLength: nat)
    requires 64 < count <= lineLength && available >= 64
    ensures ReadFold(Reading(0, 0), [Ready(available)], count, lineLength) == Reading(64, 0)
  {
    assert [Ready(available)][1..] == [];
    BenignReadIsNeverShort(0, 0, [Ready(available)], count, lineLength);
    assert ReadFold(ReadStep(Reading(0, 0), Ready(available), count, lineLength), [], count, lineLength) == Reading(64, 0);
  }

  /** The UART read loop. It is still `Reading` when the events run out: the C loop would go on waiting. */
  method UartRead(line: seq<byte>, buffer: array<byte>, offset: nat, count: uint32, events: seq<UartEvent>)
    returns (r: ReadState)
    requires 0 < count && offset + count <= buffer.Length
    modifies buffer
    ensures r == ReadFold(Reading(0, 0), events, count, |line|)
    ensures buffer[..] == old(buffer[..offset]) + line[..r.total] + old(buffer[offset + r.total..])
  {
    var total, retries, turn := 0, 0, 0;
    while turn < |events|
      invariant 0 <= turn <= |events| && 0 <= total < count && total <= |line| && 0 <= retries
      invariant ReadFold(Reading(0, 0), events, count, |line|) == ReadFold(Reading(total, retries), events[turn..], count, |line|)
      invariant forall i :: 0 <= i < total ==> buffer[offset + i] == line[i]
      invariant forall i :: 0 <= i < buffer.Length && !(offset <= i < offset + total) ==> buffer[i] == old(buffer[i])
    {
      var event := events[turn];
      turn := turn + 1;
      match event {
        case Timeout =>
        case SelectError =>
          FinishedStaysFinished(total, events[turn..], count, |line|);
          return Finished(total);
        case ReadError =>
          FinishedStaysFinished(total, events[turn..], count, |line|);
          return Finished(total);
        case Ready(available) =>
          var toRead := Min(count - total, CHUNK_SIZE);
          var n := Min(Min(available, toRead), |line| - total);
          if n == 0 {
            retries := retries + 1;
            if retries >= MAX_RETRIES {
              FinishedStaysFinished(total, events[turn..], count, |line|);
              return Finished(total);
            }
            continue;
          }
          forall i | 0 <= i < n {
            buffer[offset + total + i] := line[total + i];
          }
          retries, total := 0, total + n;
          if total == count {
            FinishedStaysFinished(total, events[turn..], count, |line|);
            return Finished(total);
          }
      }
    }
    r := Reading(total, retries);
  }

  /** What a client of the bus can observe: bytes still to come, bytes sent, and the oracle that limits
      each transfer. An exhausted oracle limits nothing. */
  datatype BusState = BusState(input: seq<byte>, output: seq<byte>, grants: seq<nat>) {
    function Limit(count: nat): (n: nat)
      ensures n <= count
    {
      if count == 0 || grants == [] then count else Min(count, grants[0])
    }

    function NextGrants(count: nat): seq<nat> {
      if count == 0 || grants == [] then grants else grants[1..]
    }

    function Received(count: nat): (got: seq<byte>)
      ensures |got| <= count && got <= input
    {
      input[..Min(Limit(count), |input|)]
    }

    function AfterRead(count: nat): BusState {
      BusState(input[|Received(count)|..], output, NextGrants(count))
    }

    function Accepted(data: seq<byte>): (sent: seq<byte>)
      ensures sent <= data
    {
      data[..Limit(|data|)]
    }

    function AfterWrite(data: seq<byte>): BusState {
      BusState(input, output + Accepted(data), NextGrants(|data|))
    }
  }

  /** A finished UART read is one bus transfer: the grant is the number of bytes that arrived. */
  lemma UartReadIsABusTransfer(line: seq<byte>, output: seq<byte>, later: seq<nat>, count: nat, events: seq<UartEvent>)
    requires 0 < count && ReadFold(Reading(0, 0), events, count, |line|).Finished?
    ensures var total := ReadFold(Reading(0, 0), events, count, |line|).total;
            var bus := BusState(line, output, [total] + later);
            bus.Received(count) == line[..total] && bus.AfterRead(count) == BusState(line[total..], output, later)
  {
    var total := ReadFold(Reading(0, 0), events, count, |line|).total;
    assert ([total] + later)[1..] == later;
  }

  class Bus {
    var input: seq<byte>
    var output: seq<byte>
    var grants: seq<nat>

    ghost function State(): BusState
      reads this
    {
      BusState(input, output, grants)
    }

    constructor (input: seq<byte>, grants: seq<nat>)
      ensures State() == BusState(input, [], grants)
    {
      this.input, this.output, this.grants := input, [], grants;
    }

    method Grant(count: nat) returns (limit: nat)
      modifies this`grants
      ensures limit == old(State()).Limit(count) && grants == old(State()).NextGrants(count)
    {
      limit := count;
      if count != 0 && grants != [] {
        limit := Min(count, grants[0]);
        grants := grants[1..];
      }
    }

    /** Moves at most `count` bytes into the buffer at `offset` and tells how many came. */
    method Read(buffer: array<byte>, offset: nat, count: nat) returns (n: nat)
      requires offset + count <= buffer.Length
      modifies this, buffer
      ensures State() == old(State()).AfterRead(count) && n == |old(State()).Received(count)|
      ensures buffer[..] == old(buffer[..offset]) + old(State()).Received(count) + old(buffer[offset + n..])
    {
      var limit := Grant(count);
      n := Min(limit, |input|);
      forall i | 0 <= i < n {
        buffer[offset + i] := input[i];
      }
      input := input[n..];
    }

    /** Takes at most `count` bytes off the line without keeping them. */
    method Drop(count: nat) returns (n: nat)
      modifies this
      ensures State() == old(State()).AfterRead(count) && n == |old(State()).Received(count)|
    {
      var limit := Grant(count);
      n := Min(limit, |input|);
      input := input[n..];
    }

    method Write(data: seq<byte>) returns (n: nat)
      modifies this
      ensures State() == old(State()).AfterWrite(data) && n == |old(State()).Accepted(data)|
    {
      n := Grant(|data|);
      output := output + data[..n];
    }
  }
}
