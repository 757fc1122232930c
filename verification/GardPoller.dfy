/**
 * Receiving what the GARD sends on its own: the sync handshake, the length-prefixed
 * App Layer frame, the choice of the buffer from a peek at its first bytes, and the
 * dispatcher loop that polls for the next frame.
 */
module GardPoller {
  import opened Bytes
  import opened Sequences
  import opened UartBus
  import opened Hub

  const PEEK_SIZE := 4
  const MAX_HMI_METADATA_BUFFER_SIZE := 2048
  const MAX_QR_IMAGE_BUFFER_SIZE := 1920 * 1080

  /** The bytes a frame occupies on the wire. */
  function FrameBytes(payload: seq<byte>): seq<byte>
  {
    [ORIGINATOR_SYNC, ORIGINATOR_ID_GARD, GARD_APP_LAYER_SEND] + ToLittleEndian(|payload|, 3) + payload
  }

  /** The size of the buffer KtLib offers for an App Layer command. */
  function BufferSize(command: byte): Option<nat>
  {
    if command == HMI_METADATA then Some(MAX_HMI_METADATA_BUFFER_SIZE)
    else if command == QR_CODE_IMAGE then Some(MAX_QR_IMAGE_BUFFER_SIZE)
    else None
  }

  /** What the App Layer can take: at least the peek, and no more than the buffer chosen for it. */
  predicate Deliverable(payload: seq<byte>)
  {
    && PEEK_SIZE <= |payload| < 0x100_0000
    && BufferSize(payload[0]).Some? && |payload| <= BufferSize(payload[0]).value
  }

  /** The frame byte by byte: 0x0C and 0xCD, 0x07, the size with the lowest byte first, and the payload. */
  lemma FrameInBytes(payload: seq<byte>)
    requires |payload| < 0x100_0000
    ensures FrameBytes(payload) ==
            [0x0C, 0xCD, 0x07] + [|payload| % 0x100, (|payload| / 0x100) % 0x100, |payload| / 0x1_0000] + payload
  {
    var n := |payload|;
    assert ToLittleEndian(n / 0x1_0000, 1) == [n / 0x1_0000] + ToLittleEndian(n / 0x1_0000 / 0x100, 0);
    assert n / 0x100 / 0x100 == n / 0x1_0000;
    assert ToLittleEndian(n / 0x100, 2) == [(n / 0x100) % 0x100] + ToLittleEndian(n / 0x100 / 0x100, 1);
  }

  /** Metadata may take 2048 bytes, an image 1920 times 1080, and nothing else or shorter is taken. */
  lemma DeliverableIff(payload: seq<byte>)
    ensures Deliverable(payload) <==>
            |payload| >= 4 && ((payload[0] == 0x07 && |payload| <= 2048) || (payload[0] == 0x0A && |payload| <= 2073600))
  {
  }

  /** A stage of the reception: it stops, or it goes on with a value. Either way the bus has moved. */
  datatype Stage<+T> = Stop(bus: BusState) | Go(value: T, bus: BusState)

  const SYNC_REPLY: seq<byte> := [ORIGINATOR_SYNC, ORIGINATOR_ID_GARD]

  function ExpectByte(bus: BusState, expected: byte): Stage<()>
  {
    if bus.Received(1) == [expected] then Go((), bus.AfterRead(1)) else Stop(bus.AfterRead(1))
  }

  function Handshake(bus: BusState): Stage<()>
  {
    var sync := ExpectByte(bus, ORIGINATOR_SYNC);
    if sync.Stop? then sync else
    var id := ExpectByte(sync.bus, ORIGINATOR_ID_GARD);
    if id.Stop? then id else
    if |id.bus.Accepted(SYNC_REPLY)| == 2 then Go((), id.bus.AfterWrite(SYNC_REPLY)) else Stop(id.bus.AfterWrite(SYNC_REPLY))
  }

  /** The size announced by a four-byte header, if it is one of an App Layer frame with a payload. */
  function AnnouncedSize(header: seq<byte>): (size: Option<nat>)
    ensures size.Some? ==> 0 < size.value < 0x100_0000
  {
    if |header| != 4 || header[0] != GARD_APP_LAYER_SEND then None else
    CapacityOfFieldWidths();
    EncodeDecoded(header[1..]);
    var size := FromLittleEndian(header[1..]);
    if size == 0 then None else Some(size)
  }

  function Header(bus: BusState): Stage<nat>
  {
    var size := AnnouncedSize(bus.Received(4));
    if size.Some? then Go(size.value, bus.AfterRead(4)) else Stop(bus.AfterRead(4))
  }

  /** The first bytes of the payload, if there is a buffer that holds the whole. */
  function Peek(bus: BusState, size: nat, hasApp: bool): Stage<seq<byte>>
  {
    var peek := bus.Received(PEEK_SIZE);
    if |peek| == PEEK_SIZE && hasApp && BufferSize(peek[0]).Some? && size <= BufferSize(peek[0]).value
    then Go(peek, bus.AfterRead(PEEK_SIZE)) else Stop(bus.AfterRead(PEEK_SIZE))
  }

  /** The count of bytes still to read behind the peek, in the 32-bit arithmetic of the transfer. */
  function RestSize(size: nat): nat
    requires size < 0x100_0000
  {
    if PEEK_SIZE <= size then size - PEEK_SIZE else 0x1_0000_0000 + size - PEEK_SIZE
  }

  function Rest(bus: BusState, size: nat): Stage<seq<byte>>
    requires size < 0x100_0000
  {
    var rest := bus.Received(RestSize(size));
    if PEEK_SIZE <= size && |rest| == size - PEEK_SIZE then Go(rest, bus.AfterRead(RestSize(size)))
    else Stop(bus.AfterRead(RestSize(size)))
  }

  function ReceiveFrame(bus: BusState, hasApp: bool): Stage<seq<byte>>
  {
    var header := Header(bus);
    if header.Stop? then Stop(header.bus) else
    var peek := Peek(header.bus, header.value, hasApp);
    if peek.Stop? then peek else
    var rest := Rest(peek.bus, header.value);
    if rest.Stop? then rest else Go(peek.value + rest.value, rest.bus)
  }

  /** One poll: it goes through with the payload that is handed to the App Layer. */
  function PollOnce(bus: BusState, busy: bool, hasApp: bool): Stage<seq<byte>>
  {
    if busy then Stop(bus) else
    var synced := Handshake(bus);
    if synced.Stop? then Stop(synced.bus) else ReceiveFrame(synced.bus, hasApp)
  }

  function Delivered(r: Stage<seq<byte>>): seq<seq<byte>>
  {
    if r.Go? then [r.value] else []
  }

  type Poll = BusState -> Stage<seq<byte>>

  function Poller(busy: bool, hasApp: bool): Poll
  {
    bus => PollOnce(bus, busy, hasApp)
  }

  /** The payloads delivered by `polls` polls in a row, in order. */
  function PollRun(poll: Poll, bus: BusState, polls: nat): seq<seq<byte>>
    decreases polls
  {
    if polls == 0 then [] else Delivered(poll(bus)) + PollRun(poll, poll(bus).bus, polls - 1)
  }

  /** The bus after `polls` polls in a row. */
  function BusAfter(poll: Poll, bus: BusState, polls: nat): BusState
    decreases polls
  {
    if polls == 0 then bus else BusAfter(poll, poll(bus).bus, polls - 1)
  }

  function FramesBytes(payloads: seq<seq<byte>>): seq<byte>
  {
    if payloads == [] then [] else FrameBytes(payloads[0]) + FramesBytes(payloads[1..])
  }

  function SyncReplies(count: nat): seq<byte>
  {
    if count == 0 then [] else SYNC_REPLY + SyncReplies(count - 1)
  }

  // ---- One frame ----

  /** The second line is what is left of the first. */
  predicate Ends(line: seq<byte>, left: seq<byte>)
  {
    |left| <= |line| && line[|line| - |left|..] == left
  }

  lemma EndsOfEnds(a: seq<byte>, b: seq<byte>, c: seq<byte>)
    requires Ends(a, b) && Ends(b, c)
    ensures Ends(a, c)
  {
    assert a[|a| - |b|..][|b| - |c|..] == a[|a| - |c|..];
  }

  lemma ExpectedInput(bus: BusState, expected: byte)
    ensures var step := ExpectByte(bus, expected);
            && step.bus.output == bus.output && Ends(bus.input, step.bus.input)
            && (step.Go? ==> bus.input == [expected] + step.bus.input)
  {
    var step := ExpectByte(bus, expected);
    assert bus.input == bus.Received(1) + step.bus.input;
  }

  lemma HandshakeInput(bus: BusState)
    requires Handshake(bus).Go?
    ensures var next := Handshake(bus).bus;
            bus.input == SYNC_REPLY + next.input && next.output == bus.output + SYNC_REPLY
  {
    var sync := ExpectByte(bus, ORIGINATOR_SYNC);
    var id := ExpectByte(sync.bus, ORIGINATOR_ID_GARD);
    ExpectedInput(bus, ORIGINATOR_SYNC);
    ExpectedInput(sync.bus, ORIGINATOR_ID_GARD);
    Associate([ORIGINATOR_SYNC], [ORIGINATOR_ID_GARD], id.bus.input);
    assert id.bus.Accepted(SYNC_REPLY) == SYNC_REPLY;
  }

  lemma HeaderInput(bus: BusState)
    requires Header(bus).Go?
    ensures var h := Header(bus);
            && 0 < h.value < 0x100_0000 && h.bus.output == bus.output
            && bus.input == [GARD_APP_LAYER_SEND] + ToLittleEndian(h.value, 3) + h.bus.input
  {
    var header := bus.Received(4);
    CapacityOfFieldWidths();
    EncodeDecoded(header[1..]);
    assert header == [GARD_APP_LAYER_SEND] + ToLittleEndian(Header(bus).value, 3);
    assert bus.input == header + bus.AfterRead(4).input;
  }

  lemma PeekAndRestInput(bus: BusState, size: nat, hasApp: bool)
    requires size < 0x100_0000 && Peek(bus, size, hasApp).Go? && Rest(Peek(bus, size, hasApp).bus, size).Go?
    ensures var peek := Peek(bus, size, hasApp);
            var rest := Rest(peek.bus, size);
            && hasApp && |peek.value + rest.value| == size && Deliverable(peek.value + rest.value)
            && bus.input == peek.value + rest.value + rest.bus.input && rest.bus.output == bus.output
  {
    var peek := Peek(bus, size, hasApp);
    var rest := Rest(peek.bus, size);
    assert bus.input == peek.value + peek.bus.input;
    assert peek.bus.input == rest.value + rest.bus.input;
    Associate(peek.value, rest.value, rest.bus.input);
  }

  lemma PayloadInput(bus: BusState, hasApp: bool)
    requires ReceiveFrame(bus, hasApp).Go?
    ensures var h := Header(bus);
            var r := ReceiveFrame(bus, hasApp);
            h.Go? && |r.value| == h.value && hasApp && Deliverable(r.value) && h.bus.input == r.value + r.bus.input && r.bus.output == bus.output
  {
    HeaderInput(bus);
    PeekAndRestInput(Header(bus).bus, Header(bus).value, hasApp);
  }

  /** Nothing but a whole frame is ever delivered, however the transfers are cut: the payload is the frame
      at the head of the input, the frame and no more is consumed, and exactly one sync reply is written. */
  lemma DeliveredPayloadIsAFrame(bus: BusState, busy: bool, hasApp: bool)
    requires PollOnce(bus, busy, hasApp).Go?
    ensures var r := PollOnce(bus, busy, hasApp);
            && !busy && hasApp && Deliverable(r.value)
            && bus.input == FrameBytes(r.value) + r.bus.input
            && r.bus.output == bus.output + SYNC_REPLY
  {
    var synced := Handshake(bus).bus;
    var header := Header(synced);
    var r := PollOnce(bus, busy, hasApp);
    HandshakeInput(bus);
    PayloadInput(synced, hasApp);
    HeaderInput(synced);
    var size := [GARD_APP_LAYER_SEND] + ToLittleEndian(header.value, 3);
    Associate(SYNC_REPLY, size, r.value + r.bus.input);
    Associate(SYNC_REPLY + size, r.value, r.bus.input);
    assert SYNC_REPLY + size + r.value == FrameBytes(r.value);
  }

  lemma HandshakeOnFreeBus(bus: BusState, rest: seq<byte>)
    requires bus.grants == [] && bus.input == SYNC_REPLY + rest
    ensures Handshake(bus) == Go((), BusState(rest, bus.output + SYNC_REPLY, []))
  {
    assert bus.AfterRead(1).input == [ORIGINATOR_ID_GARD] + rest;
    assert bus.AfterRead(1).AfterRead(1).input == rest;
    assert bus.AfterRead(1).AfterRead(1).Accepted(SYNC_REPLY) == SYNC_REPLY;
  }

  lemma HeaderOnFreeBus(bus: BusState, size: nat, rest: seq<byte>)
    requires bus.grants == [] && size < 0x100_0000 && bus.input == [GARD_APP_LAYER_SEND] + ToLittleEndian(size, 3) + rest
    ensures Header(bus) == if size == 0 then Stop(BusState(rest, bus.output, [])) else Go(size, BusState(rest, bus.output, []))
  {
    CapacityOfFieldWidths();
    DecodeEncoded(size, 3);
    assert bus.Received(4) == [GARD_APP_LAYER_SEND] + ToLittleEndian(size, 3);
    assert bus.Received(4)[1..] == ToLittleEndian(size, 3);
    assert bus.AfterRead(4).input == rest;
  }

  lemma PayloadOnFreeBus(bus: BusState, payload: seq<byte>, rest: seq<byte>)
    requires bus.grants == [] && PEEK_SIZE <= |payload| < 0x100_0000 && bus.input == payload + rest
    ensures var peek := Peek(bus, |payload|, true);
            && (peek.Go? <==> Deliverable(payload))
            && (peek.Go? ==> peek.value == payload[..PEEK_SIZE])
            && (peek.Go? ==> Rest(peek.bus, |payload|) == Go(payload[PEEK_SIZE..], BusState(rest, bus.output, [])))
  {
    assert bus.Received(PEEK_SIZE) == payload[..PEEK_SIZE];
    var next := bus.AfterRead(PEEK_SIZE);
    assert next.input == payload[PEEK_SIZE..] + rest;
    assert next.Received(|payload| - PEEK_SIZE) == payload[PEEK_SIZE..];
    assert next.AfterRead(|payload| - PEEK_SIZE).input == rest;
  }

  /** On a bus that limits nothing, a frame at the head of the input is delivered exactly when it is
      deliverable; then it alone is consumed. */
  lemma FrameIsDeliveredIffDeliverable(bus: BusState, payload: seq<byte>, rest: seq<byte>)
    requires bus.grants == [] && |payload| < 0x100_0000 && bus.input == FrameBytes(payload) + rest
    ensures PollOnce(bus, false, true).Go? <==> Deliverable(payload)
    ensures Deliverable(payload) ==> PollOnce(bus, false, true) == Go(payload, BusState(rest, bus.output + SYNC_REPLY, []))
  {
    var behindSync := [GARD_APP_LAYER_SEND] + ToLittleEndian(|payload|, 3) + (payload + rest);
    assert bus.input == SYNC_REPLY + behindSync;
    HandshakeOnFreeBus(bus, behindSync);
    var synced := Handshake(bus).bus;
    HeaderOnFreeBus(synced, |payload|, payload + rest);
    if PEEK_SIZE <= |payload| {
      PayloadOnFreeBus(Header(synced).bus, payload, rest);
      assert payload[..PEEK_SIZE] + payload[PEEK_SIZE..] == payload;
    }
  }

  /** What one poll leaves of a frame and the line behind it: of a frame that cannot be delivered, everything
      behind the peek stays; of one shorter than the peek, the wrapped count leaves nothing for 4 GiB. */
  function LeftBehind(payload: seq<byte>, rest: seq<byte>): seq<byte>
    requires |payload| < 0x100_0000
  {
    var line := payload + rest;
    if payload == [] then rest
    else if PEEK_SIZE <= |payload| then
      if Deliverable(payload) then rest else payload[PEEK_SIZE..] + rest
    else if |line| < PEEK_SIZE then []
    else if BufferSize(line[0]).None? then line[PEEK_SIZE..]
    else line[Min(PEEK_SIZE + RestSize(|payload|), |line|)..]
  }

  lemma PeekLeaves(bus: BusState, payload: seq<byte>, rest: seq<byte>)
    requires bus.grants == [] && 0 < |payload| < 0x100_0000 && bus.input == payload + rest
    ensures var peek := Peek(bus, |payload|, true);
            (if peek.Stop? then peek.bus else Rest(peek.bus, |payload|).bus) == BusState(LeftBehind(payload, rest), bus.output, [])
  {
    var peek := Peek(bus, |payload|, true);
    if PEEK_SIZE <= |payload| {
      PayloadOnFreeBus(bus, payload, rest);
      assert bus.AfterRead(PEEK_SIZE).input == payload[PEEK_SIZE..] + rest;
    } else if PEEK_SIZE <= |bus.input| {
      assert bus.Received(PEEK_SIZE)[0] == bus.input[0];
    }
  }

  /** Whatever frame comes on a line that limits nothing, this is what the next poll finds. */
  lemma FrameLeavesBehind(bus: BusState, payload: seq<byte>, rest: seq<byte>)
    requires bus.grants == [] && |payload| < 0x100_0000 && bus.input == FrameBytes(payload) + rest
    ensures PollOnce(bus, false, true).bus == BusState(LeftBehind(payload, rest), bus.output + SYNC_REPLY, [])
  {
    var behindSync := [GARD_APP_LAYER_SEND] + ToLittleEndian(|payload|, 3) + (payload + rest);
    assert bus.input == SYNC_REPLY + behindSync;
    HandshakeOnFreeBus(bus, behindSync);
    var synced := Handshake(bus).bus;
    HeaderOnFreeBus(synced, |payload|, payload + rest);
    if payload == [] {
      assert payload + rest == rest;
    } else {
      PeekLeaves(Header(synced).bus, payload, rest);
    }
  }

  /** The line behind a frame is left alone, for the next polls, exactly if the frame is empty or at least as
      long as the peek, deliverable or not. */
  lemma FollowersSurviveIff(bus: BusState, payload: seq<byte>, rest: seq<byte>)
    requires bus.grants == [] && |payload| < 0x100_0000 && bus.input == FrameBytes(payload) + rest && rest != []
    ensures Ends(PollOnce(bus, false, true).bus.input, rest) <==> !(0 < |payload| < PEEK_SIZE)
  {
    FrameLeavesBehind(bus, payload, rest);
    var left := LeftBehind(payload, rest);
    if 0 < |payload| < PEEK_SIZE {
      assert |left| < |rest|;
    } else {
      assert left == left[..|left| - |rest|] + rest;
    }
  }

  /** A frame shorter than the peek is not only lost: if its first byte names a buffer, the wrapped count
      takes all the input behind it along, whole frames included. */
  lemma ShortFrameSwallowsItsFollowers(bus: BusState, payload: seq<byte>, rest: seq<byte>)
    requires bus.grants == [] && 0 < |payload| < PEEK_SIZE && bus.input == FrameBytes(payload) + rest
    requires BufferSize(payload[0]).Some? && PEEK_SIZE <= |payload| + |rest| < 0xFFFF_0000
    ensures PollOnce(bus, false, true).bus == BusState([], bus.output + SYNC_REPLY, [])
  {
    FrameLeavesBehind(bus, payload, rest);
  }

  // ---- Many frames ----

  lemma PollerDelivers(bus: BusState, payload: seq<byte>, rest: seq<byte>)
    requires bus.grants == [] && Deliverable(payload) && bus.input == FrameBytes(payload) + rest
    ensures Poller(false, true)(bus) == Go(payload, BusState(rest, bus.output + SYNC_REPLY, []))
  {
    FrameIsDeliveredIffDeliverable(bus, payload, rest);
  }

  /** Polls that hand over the frame in front of them. */
  ghost predicate Serves(poll: Poll)
  {
    forall bus: BusState, payload: seq<byte>, later: seq<byte> {:trigger poll(bus), FrameBytes(payload) + later} ::
      Deliverable(payload) && bus.grants == [] && bus.input == FrameBytes(payload) + later ==>
      poll(bus) == Go(payload, BusState(later, bus.output + SYNC_REPLY, []))
  }

  lemma {:induction false} ServedFramesAreDelivered(poll: Poll, bus: BusState, payloads: seq<seq<byte>>, rest: seq<byte>)
    requires Serves(poll) && bus.grants == [] && bus.input == FramesBytes(payloads) + rest
    requires forall i :: 0 <= i < |payloads| ==> Deliverable(payloads[i])
    ensures PollRun(poll, bus, |payloads|) == payloads
    ensures BusAfter(poll, bus, |payloads|) == BusState(rest, bus.output + SyncReplies(|payloads|), [])
    decreases |payloads|
  {
    if payloads == [] {
      assert FramesBytes(payloads) + rest == rest && bus.output + [] == bus.output;
    } else {
      var later := FramesBytes(payloads[1..]) + rest;
      var next := BusState(later, bus.output + SYNC_REPLY, []);
      Associate(FrameBytes(payloads[0]), FramesBytes(payloads[1..]), rest);
      assert bus.input == FrameBytes(payloads[0]) + later;
      assert poll(bus) == Go(payloads[0], next);
      ServedFramesAreDelivered(poll, next, payloads[1..], rest);
      Associate(bus.output, SYNC_REPLY, SyncReplies(|payloads| - 1));
    }
  }

  /** k well-formed frames, k polls: exactly the k payloads in order, everything consumed, k sync replies. */
  lemma EveryFrameIsDelivered(bus: BusState, payloads: seq<seq<byte>>, rest: seq<byte>)
    requires bus.grants == [] && bus.input == FramesBytes(payloads) + rest
    requires forall i :: 0 <= i < |payloads| ==> Deliverable(payloads[i])
    ensures PollRun(Poller(false, true), bus, |payloads|) == payloads
    ensures BusAfter(Poller(false, true), bus, |payloads|) == BusState(rest, bus.output + SyncReplies(|payloads|), [])
  {
    IdlePollerServes();
    ServedFramesAreDelivered(Poller(false, true), bus, payloads, rest);
  }

  lemma IdlePollerServes()
    ensures Serves(Poller(false, true))
  {
    forall bus: BusState, payload: seq<byte>, later: seq<byte> | Deliverable(payload) && bus.grants == [] && bus.input == FrameBytes(payload) + later
      ensures Poller(false, true)(bus) == Go(payload, BusState(later, bus.output + SYNC_REPLY, []))
    {
      PollerDelivers(bus, payload, later);
    }
  }

  /** Polls that skip a byte which is not a sync. */
  ghost predicate Skips(poll: Poll)
  {
    forall bus: BusState :: bus.grants == [] && bus.input != [] && bus.input[0] != ORIGINATOR_SYNC ==>
      poll(bus) == Stop(BusState(bus.input[1..], bus.output, []))
  }

  lemma IdlePollerSkips()
    ensures Skips(Poller(false, true))
  {
    forall bus: BusState | bus.grants == [] && bus.input != [] && bus.input[0] != ORIGINATOR_SYNC
      ensures Poller(false, true)(bus) == Stop(BusState(bus.input[1..], bus.output, []))
    {
      assert bus.Received(1) == [bus.input[0]];
    }
  }

  lemma {:induction false} JunkIsSkippedBy(poll: Poll, bus: BusState, junk: seq<byte>, payload: seq<byte>, rest: seq<byte>)
    requires Skips(poll) && Serves(poll) && ORIGINATOR_SYNC !in junk && Deliverable(payload)
    requires bus.grants == [] && bus.input == junk + (FrameBytes(payload) + rest)
    ensures PollRun(poll, bus, |junk| + 1) == [payload]
    ensures BusAfter(poll, bus, |junk| + 1) == BusState(rest, bus.output + SYNC_REPLY, [])
    decreases |junk|
  {
    if junk == [] {
      assert bus.input == FrameBytes(payload) + rest;
      var next := BusState(rest, bus.output + SYNC_REPLY, []);
      assert poll(bus) == Go(payload, next);
      assert PollRun(poll, next, 0) == [] && BusAfter(poll, next, 0) == next;
    } else {
      assert bus.input[0] == junk[0] && junk[0] in junk;
      var next := BusState(bus.input[1..], bus.output, []);
      assert poll(bus) == Stop(next);
      assert next.input == junk[1..] + (FrameBytes(payload) + rest);
      JunkIsSkippedBy(poll, next, junk[1..], payload, rest);
    }
  }

  /** Resynchronisation: bytes without a sync in front of a frame cost a poll each; the next poll delivers the
      frame, and exactly these bytes and the frame are gone. */
  lemma JunkIsSkipped(bus: BusState, junk: seq<byte>, payload: seq<byte>, rest: seq<byte>)
    requires ORIGINATOR_SYNC !in junk && Deliverable(payload)
    requires bus.grants == [] && bus.input == junk + (FrameBytes(payload) + rest)
    ensures PollRun(Poller(false, true), bus, |junk| + 1) == [payload]
    ensures BusAfter(Poller(false, true), bus, |junk| + 1) == BusState(rest, bus.output + SYNC_REPLY, [])
  {
    IdlePollerSkips();
    IdlePollerServes();
    JunkIsSkippedBy(Poller(false, true), bus, junk, payload, rest);
  }

  /** So a frame that cannot be delivered is overcome: if it has no sync byte behind its first four, the frame
      behind it is the next that is delivered, as many polls later as it has bytes there. */
  lemma UndeliverableFrameIsOvercome(bus: BusState, lost: seq<byte>, payload: seq<byte>, rest: seq<byte>)
    requires PEEK_SIZE <= |lost| < 0x100_0000 && !Deliverable(lost) && ORIGINATOR_SYNC !in lost[PEEK_SIZE..] && Deliverable(payload)
    requires bus.grants == [] && bus.input == FrameBytes(lost) + (FrameBytes(payload) + rest)
    ensures PollRun(Poller(false, true), bus, |lost| - PEEK_SIZE + 2) == [payload]
    ensures BusAfter(Poller(false, true), bus, |lost| - PEEK_SIZE + 2) == BusState(rest, bus.output + SYNC_REPLY + SYNC_REPLY, [])
  {
    var first := Poller(false, true)(bus);
    FrameIsDeliveredIffDeliverable(bus, lost, FrameBytes(payload) + rest);
    FrameLeavesBehind(bus, lost, FrameBytes(payload) + rest);
    JunkIsSkipped(first.bus, lost[PEEK_SIZE..], payload, rest);
    FirstPoll(Poller(false, true), bus, |lost| - PEEK_SIZE + 1);
  }

  lemma FirstPoll(poll: Poll, bus: BusState, polls: nat)
    ensures PollRun(poll, bus, polls + 1) == Delivered(poll(bus)) + PollRun(poll, poll(bus).bus, polls)
    ensures BusAfter(poll, bus, polls + 1) == BusAfter(poll, poll(bus).bus, polls)
  {
  }

  lemma PollOnlyMovesOn(bus: BusState, busy: bool, hasApp: bool)
    ensures var next := PollOnce(bus, busy, hasApp).bus;
            Ends(bus.input, next.input) && bus.output <= next.output
  {
    if !busy {
      var sync := ExpectByte(bus, ORIGINATOR_SYNC);
      ExpectedInput(bus, ORIGINATOR_SYNC);
      ExpectedInput(sync.bus, ORIGINATOR_ID_GARD);
      var synced := Handshake(bus);
      if sync.Go? {
        EndsOfEnds(bus.input, sync.bus.input, synced.bus.input);
      }
      if synced.Go? {
        ReceptionOnlyMovesOn(synced.bus, hasApp);
        EndsOfEnds(bus.input, synced.bus.input, ReceiveFrame(synced.bus, hasApp).bus.input);
      }
    }
  }

  lemma ReceptionOnlyMovesOn(bus: BusState, hasApp: bool)
    ensures var next := ReceiveFrame(bus, hasApp).bus;
            Ends(bus.input, next.input) && next.output == bus.output
  {
    var header := Header(bus);
    assert Ends(bus.input, header.bus.input);
    if header.Go? {
      var peek := Peek(header.bus, header.value, hasApp);
      EndsOfEnds(bus.input, header.bus.input, peek.bus.input);
      if peek.Go? {
        EndsOfEnds(bus.input, peek.bus.input, Rest(peek.bus, header.value).bus.input);
      }
    }
  }

  /** Polls that take bytes off the front of the line only, and deliver nothing but the payload of a whole frame
      that was there. */
  ghost predicate Honest(poll: Poll)
  {
    forall bus: BusState ::
      var r := poll(bus);
      && Ends(bus.input, r.bus.input)
      && |r.bus.output| >= |bus.output| + (if r.Go? then 2 else 0)
      && (r.Go? ==> Deliverable(r.value) && bus.input == FrameBytes(r.value) + r.bus.input)
  }

  lemma IdlePollerIsHonest(hasApp: bool)
    ensures Honest(Poller(false, hasApp))
  {
    forall bus: BusState
      ensures var r := Poller(false, hasApp)(bus);
              && Ends(bus.input, r.bus.input)
              && |r.bus.output| >= |bus.output| + (if r.Go? then 2 else 0)
              && (r.Go? ==> Deliverable(r.value) && bus.input == FrameBytes(r.value) + r.bus.input)
    {
      PollOnlyMovesOn(bus, false, hasApp);
      if PollOnce(bus, false, hasApp).Go? {
        DeliveredPayloadIsAFrame(bus, false, hasApp);
      }
    }
  }

  /** The frames of the payloads one behind the other, with other bytes before, between and behind them. */
  function Woven(gaps: seq<seq<byte>>, payloads: seq<seq<byte>>): seq<byte>
    requires |gaps| == |payloads| + 1
  {
    if payloads == [] then gaps[0] else gaps[0] + (FrameBytes(payloads[0]) + Woven(gaps[1..], payloads[1..]))
  }

  lemma WovenBehind(front: seq<byte>, gaps: seq<seq<byte>>, payloads: seq<seq<byte>>)
    requires |gaps| == |payloads| + 1
    ensures Woven(gaps[0 := front + gaps[0]], payloads) == front + Woven(gaps, payloads)
  {
    var longer := gaps[0 := front + gaps[0]];
    if payloads != [] {
      assert longer[1..] == gaps[1..];
      Associate(front, gaps[0], FrameBytes(payloads[0]) + Woven(gaps[1..], payloads[1..]));
    }
  }

  /** One more poll in front: it delivers the frame it takes, or widens the first gap. */
  lemma NextWoven(taken: seq<byte>, delivered: seq<seq<byte>>, gaps: seq<seq<byte>>, payloads: seq<seq<byte>>) returns (all: seq<seq<byte>>)
    requires |gaps| == |payloads| + 1
    requires delivered == [] || (|delivered| == 1 && taken == FrameBytes(delivered[0]))
    ensures |all| == |delivered + payloads| + 1 && Woven(all, delivered + payloads) == taken + Woven(gaps, payloads)
  {
    if delivered == [] {
      WovenBehind(taken, gaps, payloads);
      assert delivered + payloads == payloads;
      all := gaps[0 := taken + gaps[0]];
    } else {
      all := [[]] + gaps;
      assert all[1..] == gaps && (delivered + payloads)[1..] == payloads;
      assert [] + (taken + Woven(gaps, payloads)) == taken + Woven(gaps, payloads);
    }
  }

  lemma {:induction false} HonestRun(poll: Poll, bus: BusState, polls: nat) returns (gaps: seq<seq<byte>>)
    requires Honest(poll)
    ensures var payloads, end := PollRun(poll, bus, polls), BusAfter(poll, bus, polls);
            |gaps| == |payloads| + 1 && bus.input == Woven(gaps, payloads) + end.input
    decreases polls
  {
    if polls == 0 {
      gaps := [[]];
      assert [] + bus.input == bus.input;
    } else {
      var first := poll(bus);
      var later := HonestRun(poll, first.bus, polls - 1);
      var taken := bus.input[..|bus.input| - |first.bus.input|];
      assert bus.input == taken + first.bus.input;
      var payloads := PollRun(poll, first.bus, polls - 1);
      gaps := NextWoven(taken, Delivered(first), later, payloads);
      Associate(taken, Woven(later, payloads), BusAfter(poll, bus, polls).input);
    }
  }

  lemma {:induction false} HonestDeliveries(poll: Poll, bus: BusState, polls: nat)
    requires Honest(poll)
    ensures var payloads := PollRun(poll, bus, polls);
            && (forall i :: 0 <= i < |payloads| ==> Deliverable(payloads[i]))
            && |BusAfter(poll, bus, polls).output| >= |bus.output| + 2 * |payloads|
    decreases polls
  {
    if polls > 0 {
      HonestDeliveries(poll, poll(bus).bus, polls - 1);
    }
  }

  /** Over any run on any bus, the payloads delivered are those of whole frames that stand on the line one
      behind the other, in this order and in the part that was consumed: none is delivered twice or made up. */
  lemma RunDeliversOnlyFrames(bus: BusState, hasApp: bool, polls: nat) returns (gaps: seq<seq<byte>>)
    ensures var payloads := PollRun(Poller(false, hasApp), bus, polls);
            var end := BusAfter(Poller(false, hasApp), bus, polls);
            && (forall i :: 0 <= i < |payloads| ==> Deliverable(payloads[i]))
            && |gaps| == |payloads| + 1 && bus.input == Woven(gaps, payloads) + end.input
            && |end.output| >= |bus.output| + 2 * |payloads|
  {
    IdlePollerIsHonest(hasApp);
    HonestDeliveries(Poller(false, hasApp), bus, polls);
    gaps := HonestRun(Poller(false, hasApp), bus, polls);
  }

  /** While the GARD counts as busy no poll does anything at all, so nothing is received any more. */
  lemma {:induction false} BusyGardIsNeverServed(bus: BusState, hasApp: bool, polls: nat)
    ensures PollRun(Poller(true, hasApp), bus, polls) == [] && BusAfter(Poller(true, hasApp), bus, polls) == bus
    decreases polls
  {
    if polls > 0 {
      BusyGardIsNeverServed(bus, hasApp, polls - 1);
    }
  }

  lemma {:induction false} PollRunExtends(poll: Poll, bus: BusState, polls: nat)
    ensures var last := poll(BusAfter(poll, bus, polls));
            && PollRun(poll, bus, polls + 1) == PollRun(poll, bus, polls) + Delivered(last)
            && BusAfter(poll, bus, polls + 1) == last.bus
    decreases polls
  {
    if polls == 0 {
      assert PollRun(poll, poll(bus).bus, 0) == [] && BusAfter(poll, poll(bus).bus, 0) == poll(bus).bus;
    } else {
      PollRunExtends(poll, poll(bus).bus, polls - 1);
    }
  }

  // ---- The code ----

  /** What KtLib tells the HUB, given what the handler of the payload told KtLib. On an image it returns the
      handler's result minus one, taken for a truth value. */
  function Verdict(command: byte, handled: bool): bool
  {
    if command == HMI_METADATA then handled
    else if command == QR_CODE_IMAGE then (if handled then 1 else 0) - 1 != 0
    else false
  }

  /** The handler's result reaches the HUB if and only if the payload is metadata; that of an image is inverted. */
  lemma VerdictIsPassedOnIff(command: byte)
    requires BufferSize(command).Some?
    ensures (forall handled: bool :: Verdict(command, handled) == handled) <==> command == HMI_METADATA
    ensures Verdict(QR_CODE_IMAGE, false) && !Verdict(QR_CODE_IMAGE, true)
  {
    if command != HMI_METADATA {
      assert Verdict(command, true) != true;
    }
  }

  /** KtLib as the HUB sees it: two receive buffers, the results of its handlers, and a record of what it was
      handed. */
  class AppLayer {
    const handles: seq<byte> -> bool
    const metadataBuffer: array<byte>
    const qrImageBuffer: array<byte>
    var delivered: seq<seq<byte>>

    constructor (handles: seq<byte> -> bool)
      ensures Valid() && delivered == [] && this.handles == handles
    {
      this.handles := handles;
      metadataBuffer := new byte[MAX_HMI_METADATA_BUFFER_SIZE](_ => 0);
      qrImageBuffer := new byte[MAX_QR_IMAGE_BUFFER_SIZE](_ => 0);
      delivered := [];
    }

    ghost predicate Valid()
    {
      metadataBuffer.Length == MAX_HMI_METADATA_BUFFER_SIZE && qrImageBuffer.Length == MAX_QR_IMAGE_BUFFER_SIZE
    }

    method GetBufferForGardSendData(peek: seq<byte>) returns (buffer: array?<byte>)
      requires Valid() && |peek| == PEEK_SIZE
      ensures buffer == null <==> BufferSize(peek[0]).None?
      ensures buffer != null ==> buffer in {metadataBuffer, qrImageBuffer} && buffer.Length == BufferSize(peek[0]).value
    {
      if peek[0] == HMI_METADATA {
        buffer := metadataBuffer;
      } else if peek[0] == QR_CODE_IMAGE {
        buffer := qrImageBuffer;
      } else {
        buffer := null;
      }
    }

    method HandleGardSendData(buffer: array<byte>, size: nat) returns (status: bool)
      requires 0 < size <= buffer.Length && BufferSize(buffer[0]).Some?
      modifies this`delivered
      ensures status == Verdict(buffer[0], handles(buffer[..size]))
      ensures delivered == old(delivered) + [buffer[..size]]
    {
      delivered := delivered + [buffer[..size]];
      var handled := handles(buffer[..size]);
      if buffer[0] == HMI_METADATA {
        status := handled;
      } else {
        var value := (if handled then 1 else 0) - 1;
        status := value != 0;
      }
    }
  }

  /** Reads into a local buffer. */
  method ReadLocal(bus: Bus, count: nat) returns (got: seq<byte>)
    modifies bus
    ensures got == old(bus.State()).Received(count) && bus.State() == old(bus.State()).AfterRead(count)
  {
    var local := new byte[count](_ => 0);
    var n := bus.Read(local, 0, count);
    got := local[..n];
  }

  /** What the HUB learns from a poll. */
  predicate StatusOf(r: Stage<seq<byte>>, app: AppLayer?)
  {
    r.Go? && app != null && r.value != [] && Verdict(r.value[0], app.handles(r.value))
  }

  /** The payload behind the peek, into the buffer that the peek has chosen. */
  method ReadBehindPeek(bus: Bus, buffer: array<byte>, size: nat, peek: seq<byte>) returns (ok: bool)
    requires size < 0x100_0000 && |peek| == PEEK_SIZE <= buffer.Length && size <= buffer.Length
    modifies bus, buffer
    ensures var rest := Rest(old(bus.State()), size);
            && ok == rest.Go? && bus.State() == rest.bus
            && (ok ==> |rest.value| == size - PEEK_SIZE && buffer[..size] == peek + rest.value)
  {
    forall i | 0 <= i < PEEK_SIZE {
      buffer[i] := peek[i];
    }
    assert buffer[..PEEK_SIZE] == peek;
    if size < PEEK_SIZE {
      // the 32-bit count wraps around: the line is read far past the buffer, and the counts never agree
      var _ := bus.Drop(RestSize(size));
      return false;
    }
    var nread := bus.Read(buffer, PEEK_SIZE, size - PEEK_SIZE);
    ok := nread == size - PEEK_SIZE;
  }

  method HandleAppLayerSendData(gard: Gard, bus: Bus, app: AppLayer?) returns (status: bool)
    requires gard.activeBus == bus && (app != null ==> app.Valid())
    modifies bus, app, if app == null then {} else {app.metadataBuffer, app.qrImageBuffer}
    ensures var r := ReceiveFrame(old(bus.State()), app != null);
            && status == StatusOf(r, app) && bus.State() == r.bus
            && (app != null ==> app.delivered == old(app.delivered) + Delivered(r))
  {
    var header := ReadLocal(bus, 4);
    var announced := AnnouncedSize(header);
    if announced.None? {
      return false;
    }
    var size := announced.value;
    var peek := ReadLocal(bus, PEEK_SIZE);
    if |peek| != PEEK_SIZE {
      return false;
    }
    if app == null {
      return false;
    }
    var buffer := app.GetBufferForGardSendData(peek);
    if buffer == null {
      return false;
    }
    if buffer.Length < size {
      return false;
    }
    var ok := ReadBehindPeek(bus, buffer, size, peek);
    if !ok {
      return false;
    }
    assert buffer[0] == buffer[..size][0] == peek[0];
    status := app.HandleGardSendData(buffer, size);
  }

  /** The first part of a poll: the GARD's sync and the HUB's reply to it. */
  method AcceptSync(bus: Bus) returns (synced: bool)
    modifies bus
    ensures synced == Handshake(old(bus.State())).Go? && bus.State() == Handshake(old(bus.State())).bus
  {
    var command := ReadLocal(bus, 1);
    if |command| != 1 {
      return false;
    }
    if command[0] != ORIGINATOR_SYNC {
      return false;
    }
    var originator := ReadLocal(bus, 1);
    if |originator| != 1 {
      return false;
    }
    if originator[0] != ORIGINATOR_ID_GARD {
      return false;
    }
    assert command == [ORIGINATOR_SYNC] && originator == [ORIGINATOR_ID_GARD];
    var nwrite := bus.Write(SYNC_REPLY);
    synced := nwrite == 2;
  }

  /** The rest of the poll, of a GARD that is not busy and has a bus. */
  method ServeGard(gard: Gard, bus: Bus, app: AppLayer?) returns (status: bool)
    requires !gard.commandExecution && gard.activeBus == bus && (app != null ==> app.Valid())
    modifies gard`commandExecution, bus, app, if app == null then {} else {app.metadataBuffer, app.qrImageBuffer}
    ensures !gard.commandExecution
    ensures var r := PollOnce(old(bus.State()), false, app != null);
            && status == StatusOf(r, app) && bus.State() == r.bus
            && (app != null ==> app.delivered == old(app.delivered) + Delivered(r))
  {
    var synced := AcceptSync(bus);
    if !synced {
      return false;
    }
    gard.commandExecution := true;
    status := HandleAppLayerSendData(gard, bus, app);
    gard.commandExecution := false;
  }

  lemma WhatWasHandedOver(bus: BusState, app: AppLayer?, before: seq<seq<byte>>, after: seq<seq<byte>>)
    requires after == if app == null then before else before + Delivered(PollOnce(bus, false, app != null))
    ensures var r := PollOnce(bus, false, app != null);
            if app == null then !StatusOf(r, app)
            else if after == before then !StatusOf(r, app)
            else
              var payload := after[|after| - 1];
              && after == before + [payload] && payload != []
              && StatusOf(r, app) == (if payload[0] == 0x07 then app.handles(payload) else !app.handles(payload))
              && bus.input == FrameBytes(payload) + r.bus.input
              && r.bus.output == bus.output + [0x0C, 0xCD]
  {
    if PollOnce(bus, false, app != null).Go? {
      DeliveredPayloadIsAFrame(bus, false, app != null);
    }
  }

  method CheckAndExecuteGardCommand(gard: Gard, app: AppLayer?) returns (status: bool)
    requires app != null ==> app.Valid()
    modifies gard`commandExecution, gard.activeBus, app, if app == null then {} else {app.metadataBuffer, app.qrImageBuffer}
    ensures gard.commandExecution == old(gard.commandExecution)
    ensures gard.activeBus == null ==> !status && (app != null ==> app.delivered == old(app.delivered))
    ensures gard.activeBus != null ==>
      var r := Poller(old(gard.commandExecution), app != null)(old(gard.activeBus.State()));
      && status == StatusOf(r, app) && gard.activeBus.State() == r.bus
      && (app != null ==> app.delivered == old(app.delivered) + Delivered(r))
    // Either nothing is handed over, or one payload, the frame of which was taken off the line and acknowledged;
    // its handler's verdict is then passed on, inverted unless it is metadata.
    ensures app == null ==> !status
    ensures gard.activeBus != null && app != null ==>
      if app.delivered == old(app.delivered) then !status else
      var payload := app.delivered[|app.delivered| - 1];
      && app.delivered == old(app.delivered) + [payload] && payload != []
      && status == (if payload[0] == 0x07 then app.handles(payload) else !app.handles(payload))
      && old(gard.activeBus.input) == FrameBytes(payload) + gard.activeBus.input
      && gard.activeBus.output == old(gard.activeBus.output) + [0x0C, 0xCD]
  {
    if gard.commandExecution {
      return false;
    }
    if gard.activeBus == null {
      return false;
    }
    ghost var before := if app == null then [] else app.delivered;
    ghost var start := gard.activeBus.State();
    status := ServeGard(gard, gard.activeBus, app);
    WhatWasHandedOver(start, app, before, if app == null then [] else app.delivered);
  }

  /** The passes the dispatcher makes: one, or as many as it takes the idle callback to ask for a stop. */
  function Passes(runOnce: bool, stops: seq<bool>): nat
  {
    PassesFrom(runOnce, stops, 0)
  }

  function PassesFrom(runOnce: bool, stops: seq<bool>, i: nat): nat
    decreases |stops| - i
  {
    if i >= |stops| then 0 else if runOnce || stops[i] then 1 else 1 + PassesFrom(runOnce, stops, i + 1)
  }

  lemma {:induction false} PassesFromStop(stops: seq<bool>, i: nat)
    requires i < |stops| && stops[|stops| - 1]
    ensures var last := i + PassesFrom(false, stops, i) - 1;
            i <= last < |stops| && stops[last] && forall k :: i <= k < last ==> !stops[k]
    decreases |stops| - i
  {
    if !stops[i] {
      PassesFromStop(stops, i + 1);
    }
  }

  /** The last pass is the first one, or the first in which a stop is asked for. */
  lemma PassesEndAtTheStop(runOnce: bool, stops: seq<bool>)
    requires stops != [] && stops[|stops| - 1]
    ensures var last := Passes(runOnce, stops) - 1;
            if runOnce then last == 0 else 0 <= last < |stops| && stops[last] && forall k :: 0 <= k < last ==> !stops[k]
  {
    PassesFromStop(stops, 0);
  }

  /** What has been delivered, and what is left on the bus, after a number of polls from a given state. */
  ghost predicate Polled(gard: Gard, app: AppLayer, poll: Poll, bus: BusState, delivered: seq<seq<byte>>, polls: nat)
    reads gard, gard.activeBus, app
  {
    && gard.activeBus != null
    && app.delivered == delivered + PollRun(poll, bus, polls)
    && gard.activeBus.State() == BusAfter(poll, bus, polls)
  }

  /** One pass of the dispatcher is one poll. */
  method DispatchOnce(gard: Gard, app: AppLayer, ghost poll: Poll, ghost bus: BusState, ghost delivered: seq<seq<byte>>, ghost polls: nat)
    requires app.Valid() && poll == Poller(gard.commandExecution, true) && Polled(gard, app, poll, bus, delivered, polls)
    modifies gard`commandExecution, gard.activeBus, app, app.metadataBuffer, app.qrImageBuffer
    ensures gard.commandExecution == old(gard.commandExecution)
    ensures Polled(gard, app, poll, bus, delivered, polls + 1)
  {
    PollRunExtends(poll, bus, polls);
    ghost var before := PollRun(poll, bus, polls);
    var _ := CheckAndExecuteGardCommand(gard, app);
    Associate(delivered, before, Delivered(poll(BusAfter(poll, bus, polls))));
  }

  /** The dispatcher. `stops` tells for each pass whether the idle callback asks for a stop in it. */
  method RunDispatcher(gard: Gard, app: AppLayer, runOnce: bool, stops: seq<bool>)
    requires app.Valid() && gard.activeBus != null && stops != [] && stops[|stops| - 1]
    modifies gard`commandExecution, gard.activeBus, app, app.metadataBuffer, app.qrImageBuffer
    ensures gard.commandExecution == old(gard.commandExecution)
    ensures Polled(gard, app, Poller(gard.commandExecution, true), old(gard.activeBus.State()), old(app.delivered), Passes(runOnce, stops))
  {
    var bus := gard.activeBus;
    var i := 0;
    var again := true;
    ghost var b0, poll, total := bus.State(), Poller(gard.commandExecution, true), Passes(runOnce, stops);
    assert Polled(gard, app, poll, b0, app.delivered, 0);
    while again
      invariant 0 <= i <= |stops| && gard.activeBus == bus && gard.commandExecution == old(gard.commandExecution)
      invariant if again then i < |stops| && i + PassesFrom(runOnce, stops, i) == total else i == total
      invariant Polled(gard, app, poll, b0, old(app.delivered), i)
      decreases |stops| - i, again
    {
      DispatchOnce(gard, app, poll, b0, old(app.delivered), i);
      var stopDispatcherLoop := stops[i];
      i := i + 1;
      again := !runOnce && !stopDispatcherLoop;
    }
  }
}
