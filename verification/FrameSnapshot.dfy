/**
 * The overlay's list of bounding boxes: the listener collects the faces of a frame and
 * puts them up at once, a second thread clears what has become stale, and the drawing
 * threads read. Only putting up, clearing and reading happen under the lock.
 */
module FrameSnapshot {
  import opened Bytes
  import opened Sequences
  import opened Hub
  import opened BufferFifo
  import opened MetadataLayout
  import opened MetadataHandling
  import opened BufferCirculation
  import opened FaceStream

  datatype Entry = Entry(faceId: uint32, ideal: bool, name: string, x1: int, y1: int, x2: int, y2: int, icons: seq<bool>)

  /** The name is looked up by face id in a file, whose contents may change from face to face. */
  function EntryOf(face: FaceData, name: string): Entry
  {
    Entry(face.faceId, face.ideal, name, face.box.left, face.box.top, face.box.right, face.box.bottom,
          [face.glasses, face.gloves, face.hat])
  }

  /** The entries are those of the faces, one for each and in order, whatever their names. */
  predicate Shows(entries: seq<Entry>, faces: seq<FaceData>)
  {
    |entries| == |faces| && forall i :: 0 <= i < |faces| ==> entries[i] == EntryOf(faces[i], entries[i].name)
  }

  /** That is: the same ids, ideal flags and boxes, and the icons in the order glasses, gloves, hat. */
  lemma ShowsIff(entries: seq<Entry>, faces: seq<FaceData>)
    ensures Shows(entries, faces) <==>
            && |entries| == |faces|
            && (forall i :: 0 <= i < |faces| ==> entries[i].faceId == faces[i].faceId && entries[i].ideal == faces[i].ideal)
            && (forall i :: 0 <= i < |faces| ==> entries[i].x1 == faces[i].box.left && entries[i].y1 == faces[i].box.top)
            && (forall i :: 0 <= i < |faces| ==> entries[i].x2 == faces[i].box.right && entries[i].y2 == faces[i].box.bottom)
            && (forall i :: 0 <= i < |faces| ==> entries[i].icons == [faces[i].glasses, faces[i].gloves, faces[i].hat])
  {
    if Shows(entries, faces) {
      assert forall i :: 0 <= i < |faces| ==> entries[i].icons == EntryOf(faces[i], entries[i].name).icons;
    } else if |entries| == |faces| {
      var i :| 0 <= i < |faces| && entries[i] != EntryOf(faces[i], entries[i].name);
    }
  }

  /** The first face of a frame starts the collection afresh. */
  function Collected(accumulator: seq<Entry>, faceIndex: nat, entry: Entry): seq<Entry>
  {
    if faceIndex == 1 then [entry] else accumulator + [entry]
  }

  // ---- All interleavings ----

  /** Where the listener is: waiting for a report, having seen that it is empty, in the middle of its faces,
      having collected the last of them, or about to note the time at which it put them up. */
  datatype Listener = Waiting | Emptying | Collecting(done: nat) | Committing | Stamping

  datatype System = System(position: nat, listener: Listener, accumulator: seq<Entry>, shared: seq<Entry>,
                           lastEvent: Option<real>, stale: bool, seen: seq<seq<Entry>>)

  /** The steps of all threads. The time is noted behind the lock; the clearer looks at it without the lock and
      clears afterwards; an exception makes the listener drop the rest of a report. */
  datatype Step = Receive | Face(name: string) | Commit | Stamp(now: real) | Abandon | Check(now: real) | Clear | Read

  const INITIAL := System(0, Waiting, [], [], None, false, [])

  const STALE_TIMEOUT := 1.0

  predicate Consistent(frames: seq<seq<FaceData>>, s: System)
  {
    && s.position <= |frames|
    && (!s.listener.Waiting? && !s.listener.Stamping? ==> s.position < |frames|)
    && (s.listener.Collecting? ==> s.listener.done < |frames[s.position]|)
  }

  /** The verdict of the clearer, from the time of the last event. */
  predicate IsStale(lastEvent: Option<real>, now: real)
  {
    lastEvent.Some? && now - lastEvent.value > STALE_TIMEOUT
  }

  /** A step that its thread cannot take now changes nothing. */
  function Next(frames: seq<seq<FaceData>>, s: System, step: Step): (r: System)
    requires Consistent(frames, s)
    ensures Consistent(frames, r)
  {
    match step
    case Receive =>
      if s.listener != Waiting || s.position == |frames| then s
      else s.(listener := if frames[s.position] == [] then Emptying else Collecting(0))
    case Face(name) =>
      if !s.listener.Collecting? then s else
      var faces, index := frames[s.position], s.listener.done + 1;
      s.(accumulator := Collected(s.accumulator, index, EntryOf(faces[index - 1], name)),
         listener := if index == |faces| then Committing else Collecting(index))
    case Commit =>
      if s.listener.Emptying? then s.(shared := [], accumulator := [], listener := Waiting, position := s.position + 1)
      else if s.listener.Committing? then s.(shared := s.accumulator, listener := Stamping, position := s.position + 1)
      else s
    case Stamp(now) => if s.listener.Stamping? then s.(lastEvent := Some(now), listener := Waiting) else s
    case Abandon =>
      if s.listener.Waiting? || s.listener.Stamping? then s else s.(listener := Waiting, position := s.position + 1)
    case Check(now) => if s.stale then s else s.(stale := IsStale(s.lastEvent, now))
    case Clear => if s.stale then s.(shared := [], stale := false) else s
    case Read => s.(seen := s.seen + [s.shared])
  }

  function Run(frames: seq<seq<FaceData>>, steps: seq<Step>): (s: System)
    ensures Consistent(frames, s)
  {
    if steps == [] then INITIAL else Next(frames, Run(frames, steps[..|steps| - 1]), steps[|steps| - 1])
  }

  /** What ought to be on display: the last report put up, until it is cleared. */
  function OnDisplay(frames: seq<seq<FaceData>>, steps: seq<Step>): Option<nat>
  {
    if steps == [] then None else
    var front := steps[..|steps| - 1];
    var s := Run(frames, front);
    match steps[|steps| - 1]
    case Commit =>
      if s.listener.Committing? then Some(s.position) else if s.listener.Emptying? then None else OnDisplay(frames, front)
    case Clear => if s.stale then None else OnDisplay(frames, front)
    case _ => OnDisplay(frames, front)
  }

  /** For each time that somebody reads, what ought to be on display. */
  function OnReading(frames: seq<seq<FaceData>>, steps: seq<Step>): (d: seq<Option<nat>>)
  {
    if steps == [] then [] else
    var front := steps[..|steps| - 1];
    OnReading(frames, front) + if steps[|steps| - 1] == Read then [OnDisplay(frames, front)] else []
  }

  /** A list of entries that is one complete report, number d, in order; or empty. */
  predicate IsSnapshot(frames: seq<seq<FaceData>>, entries: seq<Entry>, d: Option<nat>)
  {
    if d.None? then entries == [] else d.value < |frames| && frames[d.value] != [] && Shows(entries, frames[d.value])
  }

  /** What the listener has collected of the report it is at. */
  predicate Partial(frames: seq<seq<FaceData>>, s: System)
    requires Consistent(frames, s)
  {
    match s.listener
    case Collecting(done) => done > 0 ==> Shows(s.accumulator, frames[s.position][..done])
    case Committing => frames[s.position] != [] && Shows(s.accumulator, frames[s.position])
    case _ => true
  }

  lemma CollectedShows(accumulator: seq<Entry>, faces: seq<FaceData>, done: nat, name: string)
    requires done < |faces| && (done > 0 ==> Shows(accumulator, faces[..done]))
    ensures Shows(Collected(accumulator, done + 1, EntryOf(faces[done], name)), faces[..done + 1])
  {
  }

  lemma {:induction false} ListenerCollects(frames: seq<seq<FaceData>>, steps: seq<Step>)
    ensures Partial(frames, Run(frames, steps))
  {
    if steps != [] {
      var s, step := Run(frames, steps[..|steps| - 1]), steps[|steps| - 1];
      ListenerCollects(frames, steps[..|steps| - 1]);
      if step.Face? && s.listener.Collecting? {
        var faces := frames[s.position];
        CollectedShows(s.accumulator, faces, s.listener.done, step.name);
        assert faces[..|faces|] == faces;
      }
    }
  }

  /** In every interleaving, the shared list is the report last put up, complete and in order, or empty when
      it has been cleared since. */
  lemma {:induction false} SharedListIsASnapshot(frames: seq<seq<FaceData>>, steps: seq<Step>)
    ensures var s, d := Run(frames, steps), OnDisplay(frames, steps);
            && IsSnapshot(frames, s.shared, d)
            && (d.None? ==> s.shared == [])
            && (d.Some? ==> d.value < s.position && s.shared != [] && Shows(s.shared, frames[d.value]))
  {
    if steps != [] {
      SharedListIsASnapshot(frames, steps[..|steps| - 1]);
      ListenerCollects(frames, steps[..|steps| - 1]);
    }
  }

  /** Every reader sees a complete report or nothing, and never an older report after a newer one. */
  lemma {:induction false} ReadersSeeSnapshots(frames: seq<seq<FaceData>>, steps: seq<Step>)
    ensures var s, d := Run(frames, steps), OnReading(frames, steps);
            && |d| == |s.seen|
            && (forall i :: 0 <= i < |d| ==> if d[i].None? then s.seen[i] == [] else d[i].value < |frames| && Shows(s.seen[i], frames[d[i].value]))
            && forall i, j :: 0 <= i < j < |d| && d[i].Some? && d[j].Some? ==> d[i].value <= d[j].value
  {
    if steps != [] {
      var front := steps[..|steps| - 1];
      ReadersSeeSnapshots(frames, front);
      SharedListIsASnapshot(frames, front);
      ReadingsPrecedeTheDisplay(frames, front);
    }
  }

  lemma {:induction false} ReadingsPrecedeTheDisplay(frames: seq<seq<FaceData>>, steps: seq<Step>)
    ensures forall i :: 0 <= i < |OnReading(frames, steps)| && OnReading(frames, steps)[i].Some? ==>
      && OnReading(frames, steps)[i].value < Run(frames, steps).position
      && (OnDisplay(frames, steps).Some? ==> OnReading(frames, steps)[i].value <= OnDisplay(frames, steps).value)
  {
    if steps != [] {
      var front := steps[..|steps| - 1];
      ReadingsPrecedeTheDisplay(frames, front);
      SharedListIsASnapshot(frames, front);
    }
  }

  lemma RunAppend(frames: seq<seq<FaceData>>, steps: seq<Step>, step: Step)
    ensures Run(frames, steps + [step]) == Next(frames, Run(frames, steps), step)
  {
    assert (steps + [step])[..|steps|] == steps;
  }

  lemma DisplayAppend(frames: seq<seq<FaceData>>, steps: seq<Step>, step: Step)
    ensures var s, after := Run(frames, steps), OnDisplay(frames, steps + [step]);
            if step == Commit && s.listener.Committing? then after == Some(s.position)
            else if (step == Commit && s.listener.Emptying?) || (step == Clear && s.stale) then after == None
            else after == OnDisplay(frames, steps)
  {
    assert (steps + [step])[..|steps|] == steps;
  }

  /** What happens between putting a report up and noting the time: everybody but the listener. */
  predicate Meanwhile(steps: seq<Step>)
  {
    forall i :: 0 <= i < |steps| ==> steps[i].Check? || steps[i].Clear? || steps[i].Read?
  }

  /** No check among the steps finds the list stale. */
  predicate NoneFindsStale(lastEvent: Option<real>, steps: seq<Step>)
  {
    forall i :: 0 <= i < |steps| && steps[i].Check? ==> !IsStale(lastEvent, steps[i].now)
  }

  /** Steps of all threads before the time-out of the report put up last, and before the next is put up. */
  predicate BeforeTimeout(steps: seq<Step>, stamp: real)
  {
    forall i :: 0 <= i < |steps| ==> !steps[i].Commit? && (steps[i].Check? ==> steps[i].now - stamp <= STALE_TIMEOUT)
  }

  lemma MeanwhileGrows(lastEvent: Option<real>, shorter: seq<Step>, last: Step)
    requires Meanwhile(shorter + [last])
    ensures Meanwhile(shorter) && (last.Check? || last.Clear? || last.Read?)
    ensures NoneFindsStale(lastEvent, shorter + [last]) <==>
            NoneFindsStale(lastEvent, shorter) && (last.Check? ==> !IsStale(lastEvent, last.now))
  {
    var steps := shorter + [last];
    assert steps[|shorter|] == last;
    assert forall i :: 0 <= i < |shorter| ==> steps[i] == shorter[i];
  }

  /** The time is still to be noted; `clean` tells that report p is on display and no verdict taken against it. */
  predicate Pending(s: System, lastEvent: Option<real>, display: Option<nat>, p: nat, clean: bool)
  {
    s.listener.Stamping? && s.lastEvent == lastEvent && (display == Some(p) && !s.stale <==> clean)
  }

  lemma MeanwhileStep(frames: seq<seq<FaceData>>, s: System, step: Step, lastEvent: Option<real>, display: Option<nat>, p: nat, clean: bool)
    requires Consistent(frames, s) && Pending(s, lastEvent, display, p, clean) && (step.Check? || step.Clear? || step.Read?)
    ensures Pending(Next(frames, s, step), lastEvent, if step.Clear? && s.stale then None else display, p,
                    clean && (step.Check? ==> !IsStale(lastEvent, step.now)))
  {
  }

  lemma {:induction false} VerdictsMeanwhile(frames: seq<seq<FaceData>>, front: seq<Step>, between: seq<Step>)
    requires Run(frames, front).listener.Committing? && Meanwhile(between)
    ensures var before, steps := Run(frames, front), front + [Commit] + between;
            Pending(Run(frames, steps), before.lastEvent, OnDisplay(frames, steps), before.position,
                    !before.stale && NoneFindsStale(before.lastEvent, between))
    decreases |between|
  {
    var before := Run(frames, front);
    if between == [] {
      RunAppend(frames, front, Commit);
      DisplayAppend(frames, front, Commit);
      assert front + [Commit] + between == front + [Commit];
    } else {
      var shorter, last := between[..|between| - 1], between[|between| - 1];
      var steps := front + [Commit] + shorter;
      assert between == shorter + [last];
      MeanwhileGrows(before.lastEvent, shorter, last);
      VerdictsMeanwhile(frames, front, shorter);
      assert front + [Commit] + between == steps + [last];
      RunAppend(frames, steps, last);
      DisplayAppend(frames, steps, last);
      MeanwhileStep(frames, Run(frames, steps), last, before.lastEvent, OnDisplay(frames, steps), before.position,
                    !before.stale && NoneFindsStale(before.lastEvent, shorter));
    }
  }

  /** No verdict is taken, and the time last noted is the given one. */
  predicate IsQuiet(s: System, stamp: real)
  {
    !s.stale && !s.listener.Stamping? && s.lastEvent == Some(stamp)
  }

  lemma QuietStep(frames: seq<seq<FaceData>>, s: System, step: Step, stamp: real)
    requires Consistent(frames, s) && IsQuiet(s, stamp)
    requires !step.Commit? && (step.Check? ==> step.now - stamp <= STALE_TIMEOUT)
    ensures IsQuiet(Next(frames, s, step), stamp)
  {
  }

  lemma BeforeTimeoutGrows(shorter: seq<Step>, last: Step, stamp: real)
    requires BeforeTimeout(shorter + [last], stamp)
    ensures BeforeTimeout(shorter, stamp) && !last.Commit? && (last.Check? ==> last.now - stamp <= STALE_TIMEOUT)
  {
    var steps := shorter + [last];
    assert steps[|shorter|] == last;
    assert forall i :: 0 <= i < |shorter| ==> steps[i] == shorter[i];
  }

  lemma {:induction false} QuietUntilTimeout(frames: seq<seq<FaceData>>, steps: seq<Step>, stamp: real, rest: seq<Step>)
    requires IsQuiet(Run(frames, steps), stamp) && BeforeTimeout(rest, stamp)
    ensures OnDisplay(frames, steps + rest) == OnDisplay(frames, steps) && IsQuiet(Run(frames, steps + rest), stamp)
    decreases |rest|
  {
    if rest == [] {
      assert steps + rest == steps;
    } else {
      var shorter, last := rest[..|rest| - 1], rest[|rest| - 1];
      assert rest == shorter + [last];
      BeforeTimeoutGrows(shorter, last, stamp);
      QuietUntilTimeout(frames, steps, stamp, shorter);
      QuietStep(frames, Run(frames, steps + shorter), last, stamp);
      assert steps + rest == (steps + shorter) + [last];
      RunAppend(frames, steps + shorter, last);
      DisplayAppend(frames, steps + shorter, last);
    }
  }

  /** The report put up stays on display until its own time-out, whatever all threads do. */
  ghost predicate StaysUntilTimeout(frames: seq<seq<FaceData>>, front: seq<Step>, between: seq<Step>, stamp: real)
  {
    forall rest: seq<Step> | BeforeTimeout(rest, stamp) ::
      OnDisplay(frames, front + [Commit] + between + [Stamp(stamp)] + rest) == Some(Run(frames, front).position)
  }

  /** A report stays on display until its time-out exactly if no verdict is taken, and not yet acted on, when it
      is put up, and none is taken against the old time before the new one is noted. */
  lemma ReportStaysIff(frames: seq<seq<FaceData>>, front: seq<Step>, between: seq<Step>, stamp: real)
    requires Run(frames, front).listener.Committing? && Meanwhile(between)
    ensures StaysUntilTimeout(frames, front, between, stamp) <==>
            !Run(frames, front).stale && NoneFindsStale(Run(frames, front).lastEvent, between)
  {
    var put := front + [Commit] + between;
    var stamped := put + [Stamp(stamp)];
    VerdictsMeanwhile(frames, front, between);
    RunAppend(frames, put, Stamp(stamp));
    DisplayAppend(frames, put, Stamp(stamp));
    if !Run(frames, front).stale && NoneFindsStale(Run(frames, front).lastEvent, between) {
      forall rest: seq<Step> | BeforeTimeout(rest, stamp)
        ensures OnDisplay(frames, stamped + rest) == Some(Run(frames, front).position)
      {
        QuietUntilTimeout(frames, stamped, stamp, rest);
      }
    } else {
      var rest := if Run(frames, put).stale then [Clear] else [];
      DisplayAppend(frames, stamped, Clear);
      assert stamped + [] == stamped;
      assert BeforeTimeout(rest, stamp) && OnDisplay(frames, stamped + rest) != Some(Run(frames, front).position);
    }
  }

  /** Both happen: a verdict taken before the report is put up wipes it as soon as it is there, and so does one
      that is taken between putting it up and noting the time. */
  lemma FreshReportIsWiped(frames: seq<seq<FaceData>>) returns (front: seq<Step>, quiet: seq<Step>)
    requires |frames| >= 2 && |frames[0]| == |frames[1]| == 1
    ensures Run(frames, front).listener.Committing? && Run(frames, front).position == 1 && Run(frames, front).stale
    ensures !StaysUntilTimeout(frames, front, [], 2.0)
    ensures Run(frames, quiet).listener.Committing? && Run(frames, quiet).position == 1 && !Run(frames, quiet).stale
    ensures !StaysUntilTimeout(frames, quiet, [Check(2.0)], 2.0)
  {
    var first := DeliverOne(frames, []);
    RunAppend(frames, first, Commit);
    RunAppend(frames, first + [Commit], Stamp(0.0));
    var shown := first + [Commit] + [Stamp(0.0)];
    quiet := DeliverOne(frames, shown);
    RunAppend(frames, shown, Check(2.0));
    front := DeliverOne(frames, shown + [Check(2.0)]);
    ReportStaysIff(frames, front, [], 2.0);
    var check := [Check(2.0)];
    assert check[0].Check? && IsStale(Some(0.0), check[0].now);
    ReportStaysIff(frames, quiet, check, 2.0);
  }

  lemma DeliverOne(frames: seq<seq<FaceData>>, before: seq<Step>) returns (steps: seq<Step>)
    requires var s := Run(frames, before); s.listener.Waiting? && s.position < |frames| && |frames[s.position]| == 1
    ensures var s, t := Run(frames, before), Run(frames, steps);
            t.listener.Committing? && t.position == s.position && t.stale == s.stale && t.lastEvent == s.lastEvent
  {
    RunAppend(frames, before, Receive);
    RunAppend(frames, before + [Receive], Face(""));
    steps := before + [Receive] + [Face("")];
  }

  // ---- The overlay ----

  /** A list that its holders share and change in place. */
  class BoxList {
    var items: seq<Entry>

    constructor (items: seq<Entry>)
      ensures this.items == items
    {
      this.items := items;
    }
  }

  class Overlay {
    var state: BoxList
    var accumulator: BoxList

    constructor ()
      ensures Valid() && state.items == [] && fresh(state) && fresh(accumulator)
    {
      state := new BoxList([]);
      accumulator := new BoxList([]);
    }

    /** The list on display is never the one that the listener is adding to. */
    ghost predicate Valid()
      reads this
    {
      state != accumulator
    }

    method EmptyFrame()
      requires Valid()
      modifies this
      ensures Valid() && fresh(state) && fresh(accumulator) && state.items == [] && accumulator.items == []
    {
      state := new BoxList([]);
      accumulator := new BoxList([]);
    }

    /** The callback for one face, numbered from one. */
    method IpcEvent(face: FaceData, name: string, faceCount: nat, faceIndex: nat)
      requires Valid() && 1 <= faceIndex <= faceCount
      modifies this, accumulator
      ensures Valid()
      ensures accumulator == old(accumulator) || fresh(accumulator)
      ensures accumulator.items == (if faceIndex == 1 then [] else old(accumulator.items)) +
                [Entry(face.faceId, face.ideal, name, face.box.left, face.box.top, face.box.right, face.box.bottom,
                       [face.glasses, face.gloves, face.hat])]
      ensures if faceIndex == faceCount then fresh(state) && state.items == accumulator.items
              else state == old(state) && state.items == old(state.items)
    {
      var entry := EntryOf(face, name);
      if faceIndex == 1 {
        accumulator := new BoxList([entry]);
      } else {
        accumulator.items := accumulator.items + [entry];
      }
      if faceIndex == faceCount {
        state := new BoxList(accumulator.items);
      }
    }

    /** Clearing what is on display leaves what is being collected. */
    method ClearStale()
      requires Valid()
      modifies state
      ensures state.items == [] && accumulator.items == old(accumulator.items)
    {
      state.items := [];
    }

    method Snapshot() returns (boxes: seq<Entry>)
      ensures boxes == state.items
    {
      boxes := state.items;
    }

    /** The callbacks for one report put it up, whatever was collected before. */
    method Deliver(faces: seq<FaceData>, names: seq<string>)
      requires Valid() && |names| == |faces|
      modifies this, accumulator
      ensures Valid() && fresh(state) && (accumulator == old(accumulator) || fresh(accumulator))
      ensures Shows(state.items, faces)
    {
      if faces == [] {
        EmptyFrame();
        return;
      }
      for i := 0 to |faces|
        invariant Valid() && (accumulator == old(accumulator) || fresh(accumulator))
        invariant i > 0 ==> Shows(accumulator.items, faces[..i])
        invariant i == |faces| ==> fresh(state) && state.items == accumulator.items
      {
        CollectedShows(accumulator.items, faces, i, names[i]);
        ghost var before := accumulator.items;
        IpcEvent(faces[i], names[i], |faces|, i + 1);
        assert accumulator.items == Collected(before, i + 1, EntryOf(faces[i], names[i]));
      }
      assert faces[..|faces|] == faces;
    }

    /** One report off the connection, whatever pieces its bytes arrive in. */
    method ReceiveReport(line: seq<byte>, sizes: seq<nat>) returns (faces: Option<seq<FaceData>>)
      requires |sizes| > |line| && forall i :: 0 <= i < |sizes| ==> sizes[i] > 0
      ensures faces == Received(line)
      ensures faces.Some? ==> ReportLength(|faces.value|) <= |line|
    {
      var header := Wire.RecvExact(line, PPE_DATA_SIZE, sizes);
      if header.None? {
        return None;
      }
      var count := Wire.Read32(header.value);
      var behind := line[PPE_DATA_SIZE..];
      var payload := Wire.RecvExact(behind, FACE_DATA_SIZE * count, sizes);
      if payload.None? {
        return None;
      }
      assert line[PPE_DATA_SIZE..ReportLength(count)] == behind[..FACE_DATA_SIZE * count];
      faces := Some(DecodeFaces(payload.value, count));
    }

    /** The listener on one connection, until it is closed: whatever pieces the bytes arrive in, the complete
        reports are put up one after the other, and the last of them stays. `sizes` are the pieces, `names`
        the names found, for each report in turn. */
    method Listen(line: seq<byte>, sizes: nat -> seq<nat>, names: nat -> nat -> string) returns (ghost delivered: seq<seq<FaceData>>)
      requires Valid()
      requires forall k :: |sizes(k)| > |line| && forall i :: 0 <= i < |sizes(k)| ==> sizes(k)[i] > 0
      modifies this, accumulator
      ensures Valid() && delivered == AllReceived(line)
      ensures if delivered == [] then state == old(state) && state.items == old(state.items)
              else fresh(state) && Shows(state.items, delivered[|delivered| - 1])
    {
      var rest, turn := line, 0;
      delivered := [];
      while true
        invariant Valid() && (accumulator == old(accumulator) || fresh(accumulator)) && |rest| <= |line|
        invariant AllReceived(line) == delivered + AllReceived(rest)
        invariant delivered == [] ==> state == old(state) && state.items == old(state.items)
        invariant delivered != [] ==> fresh(state) && Shows(state.items, delivered[|delivered| - 1])
        decreases |rest|
      {
        var faces := ReceiveReport(rest, sizes(turn));
        if faces.None? {
          return;
        }
        var length := ReportLength(|faces.value|);
        Deliver(faces.value, seq(|faces.value|, i requires 0 <= i < |faces.value| => names(turn)(i)));
        FirstReceived(rest, faces.value);
        Associate(delivered, [faces.value], AllReceived(rest[length..]));
        delivered := delivered + [faces.value];
        rest, turn := rest[length..], turn + 1;
      }
    }
  }

  // ---- From the camera to the overlay ----

  /** The reports on one camera frame, as they are to be sent. */
  predicate ReportsOn(frame: Frame, reports: seq<SentReport>)
    requires ValidUsers(frame.users)
  {
    && |reports| == |Expected(frame)|
    && (forall i :: 0 <= i < |reports| ==> reports[i].Valid() && reports[i].faces == Expected(frame)[i].faces)
  }

  /** The bytes for one camera frame, received in any pieces: the overlay ends up with its last report, and
      hence with all its users exactly if they are all identified or all not. */
  method ShowCameraFrame(overlay: Overlay, frame: Frame, reports: seq<SentReport>, sizes: nat -> seq<nat>, names: nat -> nat -> string)
    requires overlay.Valid() && ValidUsers(frame.users) && frame.users != [] && ReportsOn(frame, reports)
    requires forall k :: |sizes(k)| > |SentBytes(reports)| && forall i :: 0 <= i < |sizes(k)| ==> sizes(k)[i] > 0
    modifies overlay, overlay.accumulator
    ensures var expected := Expected(frame);
            expected != [] && Shows(overlay.state.items, expected[|expected| - 1].faces)
    ensures |overlay.state.items| == |frame.users| <==>
            forall i, j :: 0 <= i < j < |frame.users| ==> (frame.users[i].faceId == 0 <==> frame.users[j].faceId == 0)
  {
    var line := SentBytes(reports);
    OnlyWholeReportsArrive(reports, |line|);
    AllReportsFit(reports);
    assert line[..|line|] == line;
    LastReportIsCompleteIff(frame);
    ghost var delivered := overlay.Listen(line, sizes, names);
    assert delivered == FacesOf(reports);
  }
}
