/**
 * From the wire to the reports: frames sent by the firmware, received by the poller,
 * parsed, partitioned and reported, with the buffers circulating throughout. And the
 * HUB's requests between them.
 */
module MetadataStream {
  import opened Bytes
  import opened Sequences
  import opened UartBus
  import opened Hub
  import opened BufferFifo
  import opened BufferRing
  import opened MetadataLayout
  import opened MetadataHandling
  import opened BufferCirculation
  import Poller = GardPoller

  /** One frame as the firmware composes it. */
  datatype SentFrame = SentFrame(image: seq<int32>, users: seq<WireUser>, ideal: Option<WireIdeal>)
  {
    predicate Valid() {
      Encodable(image, users, ideal) && Reportable(Meant())
    }

    function Payload(): seq<byte>
      requires Valid()
    {
      [HMI_METADATA] + Encode(image, users, ideal)
    }

    /** What the handler is to make of it. */
    function Meant(): Frame
    {
      Frame(seq(|users|, i requires 0 <= i < |users| => Meaning(users[i])),
            if users == [] || ideal.None? then None else Some(SlotByte(ideal.value.index)))
    }
  }

  function Payloads(frames: seq<SentFrame>): (payloads: seq<seq<byte>>)
    requires forall i :: 0 <= i < |frames| ==> frames[i].Valid()
  {
    seq(|frames|, i requires 0 <= i < |frames| => frames[i].Payload())
  }

  /** The frames as the handler is to take them. */
  function AllMeant(frames: seq<SentFrame>): seq<Frame>
    requires forall i :: 0 <= i < |frames| ==> frames[i].Valid()
  {
    seq(|frames|, i requires 0 <= i < |frames| => frames[i].Meant())
  }

  predicate Reportable(frame: Frame)
  {
    ValidUsers(frame.users) && FitsIn(frame.users, frame.idealSlot, MAX_FACES)
  }

  predicate AllReportable(frames: seq<Frame>)
  {
    forall i :: 0 <= i < |frames| ==> Reportable(frames[i])
  }

  /** The reports that the first n frames call for. */
  function ExpectedOf(frames: seq<Frame>, n: nat): seq<Report>
    requires n <= |frames| && AllReportable(frames)
  {
    if n == 0 then [] else
    assert Reportable(frames[n - 1]);
    ExpectedOf(frames, n - 1) + Expected(frames[n - 1])
  }

  /** A payload received whose metadata part reads as the given frame. */
  predicate Carries(payload: seq<byte>, frame: Frame)
  {
    payload != [] && Whole(payload[1..]) && Parse(payload[1..]) == Some(frame) && Reportable(frame)
  }

  predicate AllDeliverable(payloads: seq<seq<byte>>)
  {
    forall i :: 0 <= i < |payloads| ==> Poller.Deliverable(payloads[i])
  }

  predicate AllCarry(payloads: seq<seq<byte>>, frames: seq<Frame>)
  {
    |payloads| == |frames| && forall i :: 0 <= i < |frames| ==> Carries(payloads[i], frames[i])
  }

  /** What is sent can be delivered, and reads as what was meant. */
  lemma SentFrameArrives(frame: SentFrame)
    requires frame.Valid()
    ensures Poller.Deliverable(frame.Payload()) && Carries(frame.Payload(), frame.Meant())
  {
    EncodedHeader(frame.image, frame.users, frame.ideal);
    ParseEncoded(frame.image, frame.users, frame.ideal);
    var body := Encode(frame.image, frame.users, frame.ideal);
    assert frame.Payload()[1..] == body;
    assert Parse(body).value.users == frame.Meant().users;
  }

  lemma AgreeConcat(a: seq<Report>, b: seq<Report>, a': seq<Report>, b': seq<Report>)
    requires Agree(a, b) && Agree(a', b')
    ensures Agree(a + a', b + b')
  {
  }

  /** Some of the first n frames had users, so that a report was made. */
  predicate AnyUsers(frames: seq<Frame>, n: nat)
    requires n <= |frames|
  {
    n > 0 && (frames[n - 1].users != [] || AnyUsers(frames, n - 1))
  }

  /** None of them has unidentified users who keep an id found in the buffer. */
  predicate NoIdsKept(frames: seq<Frame>, n: nat)
    requires n <= |frames| && AllReportable(frames)
  {
    n > 0 ==>
      assert Reportable(frames[n - 1]);
      KeepsNoIds(frames[n - 1].users, frames[n - 1].idealSlot) && NoIdsKept(frames, n - 1)
  }

  ghost predicate HoldUsers(held: set<Buffer>)
    reads held
  {
    forall b :: b in held ==> MAX_FACES <= |b.faces|
  }

  /** The buffers are where they belong: all of `held`, in a state from which a frame can be served. They are in
      circulation, with the same sizes from then on, if they were at first or a report was made since. */
  ghost predicate InService(app: App, held: set<Buffer>, fifo0: seq<Buffer>, ring0: seq<Slot>, reported: bool)
    reads app.fifo, app.fifo.contents, app.ring, app.ring.slots, held
  {
    && app.Ready() && app.HeldBuffers() == held && app.onIdentified && app.onUnidentified
    && HoldUsers(held)
    && Started(app.fifo.contents, app.ring.Contents())
    && |app.ring.Contents()| == |ring0|
    && (Circulating(app.fifo.contents, app.ring.Contents()) <==> Circulating(fifo0, ring0) || reported)
    && (Circulating(fifo0, ring0) ==> |app.fifo.contents| == |fifo0|)
  }

  /** What the first n frames called for has been reported: all of it but for the ids that unidentified users
      may have kept. */
  predicate Reported(reports: seq<Report>, frames: seq<Frame>, n: nat)
  {
    && n <= |frames| && AllReportable(frames) && Agree(reports, ExpectedOf(frames, n))
    && (NoIdsKept(frames, n) ==> reports == ExpectedOf(frames, n))
  }

  /** The same for one frame. */
  predicate ReportsOn(reports: seq<Report>, frame: Frame)
  {
    && Reportable(frame) && Agree(reports, Expected(frame))
    && (KeepsNoIds(frame.users, frame.idealSlot) ==> reports == Expected(frame))
  }

  method ServeFrame(app: App, payload: seq<byte>, ghost frame: Frame, ghost held: set<Buffer>, ghost fifo0: seq<Buffer>,
                    ghost ring0: seq<Slot>, ghost reported: bool)
    returns (ghost added: seq<Report>)
    requires InService(app, held, fifo0, ring0, reported) && Carries(payload, frame)
    modifies app`reports, app.fifo, app.ring`head, app.ring`tail, app.ring.slots, held
    ensures InService(app, held, fifo0, ring0, reported || frame.users != []) && app.ring.slots == old(app.ring.slots)
    ensures app.reports == old(app.reports) + added && ReportsOn(added, frame)
  {
    app.HandlePayload(payload[1..]);
    added := app.reports[|old(app.reports)|..];
  }

  lemma ReportedGrows(before: seq<Report>, added: seq<Report>, frames: seq<Frame>, n: nat)
    requires n < |frames| && Reported(before, frames, n) && ReportsOn(added, frames[n])
    ensures Reported(before + added, frames, n + 1)
  {
    AgreeConcat(before, ExpectedOf(frames, n), added, Expected(frames[n]));
  }

  /** The next of several frames. */
  method ServeNext(app: App, payload: seq<byte>, ghost frames: seq<Frame>, ghost n: nat, ghost held: set<Buffer>,
                   ghost fifo0: seq<Buffer>, ghost ring0: seq<Slot>)
    requires n < |frames| && Carries(payload, frames[n]) && Reported(app.reports, frames, n)
    requires InService(app, held, fifo0, ring0, AnyUsers(frames, n))
    modifies app`reports, app.fifo, app.ring`head, app.ring`tail, app.ring.slots, held
    ensures Reported(app.reports, frames, n + 1) && app.ring.slots == old(app.ring.slots)
    ensures InService(app, held, fifo0, ring0, AnyUsers(frames, n + 1))
  {
    ghost var before := app.reports;
    ghost var added := ServeFrame(app, payload, frames[n], held, fifo0, ring0, AnyUsers(frames, n));
    ReportedGrows(before, added, frames, n);
  }

  /** The handler over any number of received payloads: every user of every frame is reported, in order, and
      no buffer is ever lost or missing; from start-up, the first frame with users brings them into circulation. */
  method ServeFrames(app: App, received: seq<seq<byte>>, ghost frames: seq<Frame>)
    requires app.Ready() && InService(app, app.HeldBuffers(), app.fifo.contents, app.ring.Contents(), false) && app.reports == []
    requires AllCarry(received, frames)
    modifies app`reports, app.fifo, app.ring`head, app.ring`tail, app.ring.slots, app.HeldBuffers()
    ensures app.ring.slots == old(app.ring.slots)
    ensures InService(app, old(app.HeldBuffers()), old(app.fifo.contents), old(app.ring.Contents()), AnyUsers(frames, |frames|))
    ensures Reported(app.reports, frames, |frames|)
  {
    ghost var held, fifo0, ring0 := app.HeldBuffers(), app.fifo.contents, app.ring.Contents();
    for k := 0 to |received|
      invariant InService(app, held, fifo0, ring0, AnyUsers(frames, k)) && app.ring.slots == old(app.ring.slots)
      invariant Reported(app.reports, frames, k)
    {
      ServeNext(app, received[k], frames, k, held, fifo0, ring0);
    }
  }

  lemma SentFramesArrive(frames: seq<SentFrame>)
    requires forall i :: 0 <= i < |frames| ==> frames[i].Valid()
    ensures AllDeliverable(Payloads(frames))
    ensures AllCarry(Payloads(frames), AllMeant(frames)) && AllReportable(AllMeant(frames))
  {
    forall i | 0 <= i < |frames|
      ensures Poller.Deliverable(Payloads(frames)[i]) && Carries(Payloads(frames)[i], AllMeant(frames)[i])
    {
      SentFrameArrives(frames[i]);
    }
  }

  /** The dispatcher hands over every frame on the line. */
  method ReceiveAll(gard: Gard, layer: Poller.AppLayer, stops: seq<bool>, ghost payloads: seq<seq<byte>>)
    requires gard.activeBus != null && !gard.commandExecution && layer.Valid() && layer.delivered == []
    requires gard.activeBus.input == Poller.FramesBytes(payloads) && gard.activeBus.grants == []
    requires AllDeliverable(payloads)
    requires stops != [] && stops[|stops| - 1] && Poller.Passes(false, stops) == |payloads|
    modifies gard`commandExecution, gard.activeBus, layer, layer.metadataBuffer, layer.qrImageBuffer
    ensures layer.delivered == payloads && gard.activeBus.input == []
    ensures gard.activeBus.output == old(gard.activeBus.output) + Poller.SyncReplies(|payloads|)
  {
    assert gard.activeBus.input == Poller.FramesBytes(payloads) + [];
    Poller.EveryFrameIsDelivered(gard.activeBus.State(), payloads, []);
    Poller.RunDispatcher(gard, layer, false, stops);
    assert [] + payloads == payloads;
  }

  lemma {:induction false} OneMoreReply(count: nat)
    ensures Poller.SyncReplies(count + 1) == Poller.SyncReplies(count) + Poller.SYNC_REPLY
  {
    if count > 0 {
      OneMoreReply(count - 1);
    } else {
      assert Poller.SYNC_REPLY + [] == [] + Poller.SYNC_REPLY;
    }
  }

  /** The line when i of its frames have been received. */
  function LineAfter(output: seq<byte>, payloads: seq<seq<byte>>, i: nat): BusState
    requires i <= |payloads|
  {
    BusState(Poller.FramesBytes(payloads[i..]), output + Poller.SyncReplies(i), [])
  }

  lemma NextOnTheLine(output: seq<byte>, payloads: seq<seq<byte>>, i: nat)
    requires i < |payloads| && Poller.Deliverable(payloads[i])
    ensures var line := LineAfter(output, payloads, i);
            Poller.Poller(false, true)(line) == Poller.Go(payloads[i], LineAfter(output, payloads, i + 1))
  {
    var line := LineAfter(output, payloads, i);
    assert payloads[i..][1..] == payloads[i + 1..];
    Poller.PollerDelivers(line, payloads[i], Poller.FramesBytes(payloads[i + 1..]));
    OneMoreReply(i);
    Associate(output, Poller.SyncReplies(i), Poller.SYNC_REPLY);
  }

  /** The next payload on the line: the dispatcher, run once. */
  method ReceiveNext(gard: Gard, layer: Poller.AppLayer, ghost output: seq<byte>, ghost payloads: seq<seq<byte>>, ghost i: nat)
    returns (payload: seq<byte>)
    requires layer.Valid() && !gard.commandExecution && i < |payloads| && Poller.Deliverable(payloads[i])
    requires gard.activeBus != null && gard.activeBus.State() == LineAfter(output, payloads, i)
    modifies gard`commandExecution, gard.activeBus, layer, layer.metadataBuffer, layer.qrImageBuffer
    ensures !gard.commandExecution && payload == payloads[i]
    ensures gard.activeBus.State() == LineAfter(output, payloads, i + 1)
  {
    NextOnTheLine(output, payloads, i);
    OnePoll(Poller.Poller(false, true), LineAfter(output, payloads, i));
    Poller.RunDispatcher(gard, layer, true, [true]);
    payload := layer.delivered[|layer.delivered| - 1];
  }

  lemma OnePoll(poll: Poller.Poll, bus: BusState)
    ensures Poller.PollRun(poll, bus, 1) == Poller.Delivered(poll(bus)) && Poller.BusAfter(poll, bus, 1) == poll(bus).bus
  {
    assert Poller.PollRun(poll, poll(bus).bus, 0) == [] && Poller.BusAfter(poll, poll(bus).bus, 0) == poll(bus).bus;
  }

  /** Receiving touches nothing that the application's side depends on. */
  method ReceiveBesides(gard: Gard, layer: Poller.AppLayer, app: App, ghost output: seq<byte>, ghost payloads: seq<seq<byte>>, ghost i: nat,
                        ghost held: set<Buffer>, ghost fifo0: seq<Buffer>, ghost ring0: seq<Slot>, ghost reported: bool)
    returns (payload: seq<byte>)
    requires layer.Valid() && !gard.commandExecution && i < |payloads| && Poller.Deliverable(payloads[i])
    requires gard.activeBus != null && gard.activeBus.State() == LineAfter(output, payloads, i)
    requires InService(app, held, fifo0, ring0, reported)
    modifies gard`commandExecution, gard.activeBus, layer, layer.metadataBuffer, layer.qrImageBuffer
    ensures !gard.commandExecution && payload == payloads[i]
    ensures gard.activeBus.State() == LineAfter(output, payloads, i + 1)
    ensures InService(app, held, fifo0, ring0, reported)
    ensures app.reports == old(app.reports) && app.ring.slots == old(app.ring.slots)
  {
    payload := ReceiveNext(gard, layer, output, payloads, i);
  }

  /** One pass: a frame is received and handled. */
  method PassAndReport(gard: Gard, layer: Poller.AppLayer, app: App, ghost output: seq<byte>, ghost payloads: seq<seq<byte>>, ghost i: nat,
                       ghost frames: seq<Frame>, ghost held: set<Buffer>, ghost fifo0: seq<Buffer>, ghost ring0: seq<Slot>)
    returns (ghost added: seq<Report>)
    requires layer.Valid() && !gard.commandExecution && i < |payloads| == |frames|
    requires Poller.Deliverable(payloads[i]) && Carries(payloads[i], frames[i])
    requires gard.activeBus != null && gard.activeBus.State() == LineAfter(output, payloads, i)
    requires InService(app, held, fifo0, ring0, AnyUsers(frames, i))
    modifies gard`commandExecution, gard.activeBus, layer, layer.metadataBuffer, layer.qrImageBuffer
    modifies app`reports, app.fifo, app.ring`head, app.ring`tail, app.ring.slots, held
    ensures !gard.commandExecution && gard.activeBus.State() == LineAfter(output, payloads, i + 1)
    ensures InService(app, held, fifo0, ring0, AnyUsers(frames, i + 1))
    ensures app.reports == old(app.reports) + added && ReportsOn(added, frames[i])
    ensures app.ring.slots == old(app.ring.slots)
  {
    var payload := ReceiveBesides(gard, layer, app, output, payloads, i, held, fifo0, ring0, AnyUsers(frames, i));
    added := ServeFrame(app, payload, frames[i], held, fifo0, ring0, AnyUsers(frames, i));
  }

  /** From the i-th on, each frame on the line can be delivered and reads as what was meant. */
  predicate Ahead(payloads: seq<seq<byte>>, frames: seq<Frame>, i: nat)
    requires |payloads| == |frames|
    decreases |payloads| - i
  {
    i < |payloads| ==> Poller.Deliverable(payloads[i]) && Carries(payloads[i], frames[i]) && Ahead(payloads, frames, i + 1)
  }

  lemma {:induction false} AllAhead(payloads: seq<seq<byte>>, frames: seq<Frame>, i: nat)
    requires AllDeliverable(payloads) && AllCarry(payloads, frames)
    ensures Ahead(payloads, frames, i)
    decreases |payloads| - i
  {
    if i < |payloads| {
      AllAhead(payloads, frames, i + 1);
    }
  }

  /** A line with frames, and the buffers in service when it is first looked at. */
  datatype Task = Task(output: seq<byte>, payloads: seq<seq<byte>>, frames: seq<Frame>, held: set<Buffer>, fifo0: seq<Buffer>, ring0: seq<Slot>)

  /** The first i frames have been received and reported, the others are ahead. */
  ghost predicate OnTheWay(gard: Gard, layer: Poller.AppLayer, app: App, task: Task, i: nat)
    reads gard, gard.activeBus, app, app.fifo, app.fifo.contents, app.ring, app.ring.slots, task.held
  {
    && i <= |task.payloads| == |task.frames| && Ahead(task.payloads, task.frames, i)
    && layer.Valid() && !gard.commandExecution
    && gard.activeBus != null && gard.activeBus.State() == LineAfter(task.output, task.payloads, i)
    && InService(app, task.held, task.fifo0, task.ring0, AnyUsers(task.frames, i)) && Reported(app.reports, task.frames, i)
  }

  method PassNext(gard: Gard, layer: Poller.AppLayer, app: App, ghost task: Task, ghost i: nat)
    requires OnTheWay(gard, layer, app, task, i) && i < |task.frames|
    modifies gard`commandExecution, gard.activeBus, layer, layer.metadataBuffer, layer.qrImageBuffer
    modifies app`reports, app.fifo, app.ring`head, app.ring`tail, app.ring.slots, task.held
    ensures OnTheWay(gard, layer, app, task, i + 1) && app.ring.slots == old(app.ring.slots)
  {
    ghost var before := app.reports;
    ghost var added := PassAndReport(gard, layer, app, task.output, task.payloads, i, task.frames, task.held, task.fifo0, task.ring0);
    ReportedGrows(before, added, task.frames, i);
  }

  /** The dispatcher run once for each frame, which is handled before the next run. */
  method PassAll(gard: Gard, layer: Poller.AppLayer, app: App, runs: nat, ghost task: Task)
    requires OnTheWay(gard, layer, app, task, 0) && runs == |task.frames|
    modifies gard`commandExecution, gard.activeBus, layer, layer.metadataBuffer, layer.qrImageBuffer
    modifies app`reports, app.fifo, app.ring`head, app.ring`tail, app.ring.slots, task.held
    ensures OnTheWay(gard, layer, app, task, |task.frames|)
  {
    for i := 0 to runs
      invariant OnTheWay(gard, layer, app, task, i) && app.ring.slots == old(app.ring.slots) && gard.activeBus == old(gard.activeBus)
    {
      PassNext(gard, layer, app, task, i);
    }
  }

  /** The whole way: k frames on the wire, k runs of the dispatcher, each of which receives a frame that is
      handled before the next; then every user of every frame has been reported in order, with every buffer
      still in service and the line read to its end. */
  method ReceiveAndReport(gard: Gard, layer: Poller.AppLayer, app: App, runs: nat, ghost frames: seq<SentFrame>)
    requires gard.activeBus != null && !gard.commandExecution && layer.Valid()
    requires runs == |frames| && forall i :: 0 <= i < |frames| ==> frames[i].Valid()
    requires gard.activeBus.input == Poller.FramesBytes(Payloads(frames)) && gard.activeBus.grants == []
    requires app.Ready() && InService(app, app.HeldBuffers(), app.fifo.contents, app.ring.Contents(), false) && app.reports == []
    modifies gard`commandExecution, gard.activeBus, layer, layer.metadataBuffer, layer.qrImageBuffer
    modifies app`reports, app.fifo, app.ring`head, app.ring`tail, app.ring.slots, app.HeldBuffers()
    ensures InService(app, old(app.HeldBuffers()), old(app.fifo.contents), old(app.ring.Contents()), AnyUsers(AllMeant(frames), |frames|))
    ensures Reported(app.reports, AllMeant(frames), |frames|)
    ensures gard.activeBus != null && gard.activeBus.input == []
    ensures gard.activeBus.State() == BusState([], old(gard.activeBus.output) + Poller.SyncReplies(|frames|), [])
  {
    ghost var task := Task(gard.activeBus.output, Payloads(frames), AllMeant(frames), app.HeldBuffers(), app.fifo.contents, app.ring.Contents());
    SentFramesArrive(frames);
    AllAhead(task.payloads, task.frames, 0);
    LineEnds(task.output, task.payloads);
    PassAll(gard, layer, app, runs, task);
  }

  lemma LineEnds(output: seq<byte>, payloads: seq<seq<byte>>)
    ensures LineAfter(output, payloads, 0) == BusState(Poller.FramesBytes(payloads), output, [])
    ensures LineAfter(output, payloads, |payloads|) == BusState([], output + Poller.SyncReplies(|payloads|), [])
  {
    assert payloads[0..] == payloads && output + [] == output && payloads[|payloads|..] == [];
  }
}
