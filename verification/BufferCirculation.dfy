/**
 * The buffers in circulation: each lies in KtLib's FIFO, in the application's ring, or
 * is being filled. A report takes the oldest buffer of the FIFO, hands the oldest of
 * the ring to KtLib in exchange, and puts the reported one back into the ring.
 */
module BufferCirculation {
  import opened Bytes
  import opened Sequences
  import opened Hub
  import opened BufferFifo
  import opened BufferRing
  import opened MetadataLayout
  import opened MetadataHandling

  const PPE_DATA_SIZE := 4
  const FACE_DATA_SIZE := 28
  const MAX_FACES := 10

  function ReportLength(faces: nat): nat
  {
    PPE_DATA_SIZE + FACE_DATA_SIZE * faces
  }

  datatype Report = Report(identified: bool, faces: seq<FaceData>)

  // ---- The buffers as values ----

  function BuffersOf(slots: seq<Slot>): seq<Buffer>
  {
    seq(|slots|, i requires 0 <= i < |slots| => slots[i].buffer)
  }

  function Held(fifo: seq<Buffer>, ring: seq<Slot>): set<Buffer>
  {
    set b | b in fifo + BuffersOf(ring)
  }

  predicate LongEnough(ring: seq<Slot>)
  {
    forall i :: 0 <= i < |ring| ==> ring[i].length >= MIN_BUF_SIZE
  }

  /** Every buffer is in one place. */
  predicate Circulating(fifo: seq<Buffer>, ring: seq<Slot>)
  {
    Distinct(fifo + BuffersOf(ring)) && fifo != [] && ring != [] && LongEnough(ring)
  }

  /** The start-up state: KtLib was given the whole pool, and the ring still offers all of it but the first. */
  predicate Doubled(fifo: seq<Buffer>, ring: seq<Slot>)
  {
    Distinct(fifo) && |fifo| == POOL_SIZE && BuffersOf(ring) == fifo[1..] && LongEnough(ring)
  }

  predicate Started(fifo: seq<Buffer>, ring: seq<Slot>)
  {
    Circulating(fifo, ring) || Doubled(fifo, ring)
  }

  /** The two queues after the oldest buffer of the FIFO was reported with the given length. */
  ghost function FifoAfter(fifo: seq<Buffer>, ring: seq<Slot>): seq<Buffer>
    requires fifo != [] && ring != []
  {
    Linked(fifo[1..], ring[0].buffer)
  }

  ghost function RingAfter(fifo: seq<Buffer>, ring: seq<Slot>, length: nat): seq<Slot>
    requires fifo != [] && ring != []
  {
    ring[1..] + [Slot(fifo[0], length)]
  }

  /** Nothing is lost between two states of the queues, and the second is a circulation. */
  predicate Moved(fifo: seq<Buffer>, ring: seq<Slot>, fifo': seq<Buffer>, ring': seq<Slot>)
  {
    && Circulating(fifo', ring') && Held(fifo', ring') == Held(fifo, ring)
    && |ring'| == |ring| && (Circulating(fifo, ring) ==> |fifo'| == |fifo|)
  }

  /** The start-up state is not a circulation: nine buffers are in two places. */
  lemma DoubledIsNotCirculating(fifo: seq<Buffer>, ring: seq<Slot>)
    requires Doubled(fifo, ring)
    ensures !Circulating(fifo, ring)
  {
    var all := fifo + BuffersOf(ring);
    assert all[1] == fifo[1] == fifo[1..][0] == all[|fifo|];
  }

  /** The exchange never links a buffer behind itself, keeps every buffer, and ends in a circulation; from a
      circulation it keeps both lengths. */
  lemma ReportKeepsTheBuffers(fifo: seq<Buffer>, ring: seq<Slot>, length: nat)
    requires Started(fifo, ring) && length >= MIN_BUF_SIZE
    ensures fifo[0] !in fifo[1..] + BuffersOf(ring)
    ensures |fifo| > 1 ==> fifo[|fifo| - 1] != ring[0].buffer
    ensures FifoAfter(fifo, ring)[0] == if |fifo| > 1 then fifo[1] else ring[0].buffer
    ensures Moved(fifo, ring, FifoAfter(fifo, ring), RingAfter(fifo, ring, length))
    ensures Doubled(fifo, ring) ==> |FifoAfter(fifo, ring)| == 1
  {
    var rest, next := fifo[1..], ring[0].buffer;
    var all := fifo + BuffersOf(ring);
    var fifo', ring' := FifoAfter(fifo, ring), RingAfter(fifo, ring, length);
    var ringRest := BuffersOf(ring)[1..];
    assert BuffersOf(ring') == ringRest + [fifo[0]];
    assert all[|fifo|] == next;
    if Circulating(fifo, ring) {
      assert forall i :: 0 <= i < |rest| ==> rest[i] == all[i + 1];
      LinkingLosesNothingIff(rest, next);
      var all' := fifo' + BuffersOf(ring');
      assert all' == all[1..] + [all[0]] by {
        assert rest + [next] + ringRest == all[1..];
      }
      assert rest + BuffersOf(ring) == all[1..];
      SameElements(all, all');
    } else {
      DoubledIsNotCirculating(fifo, ring);
      assert rest[0] == next;
      LinkingTheHeadAgain(rest, next);
      var all' := fifo' + BuffersOf(ring');
      assert fifo' + ringRest == rest;
      assert all' == fifo[1..] + [fifo[0]];
      SameElements(fifo, all');
      assert Held(fifo, ring) == set b | b in fifo;
    }
  }

  /** The buffer that will come to the front next is not the one at the front. */
  lemma NextBufferIsAnother(fifo: seq<Buffer>, ring: seq<Slot>)
    requires Started(fifo, ring)
    ensures FifoAfter(fifo, ring)[0] == if |fifo| > 1 then fifo[1] else ring[0].buffer
    ensures FifoAfter(fifo, ring)[0] != fifo[0]
  {
    ReportKeepsTheBuffers(fifo, ring, MIN_BUF_SIZE);
    assert |fifo| > 1 ==> fifo[1] == (fifo[1..] + BuffersOf(ring))[0];
    assert BuffersOf(ring)[0] == (fifo[1..] + BuffersOf(ring))[|fifo| - 1];
  }

  lemma SameElements(s: seq<Buffer>, rotated: seq<Buffer>)
    requires Distinct(s) && s != [] && rotated == s[1..] + [s[0]]
    ensures Distinct(rotated) && (set b | b in rotated) == (set b | b in s)
  {
    assert forall i :: 0 <= i < |rotated| ==> rotated[i] == if i < |s| - 1 then s[i + 1] else s[0];
    forall b | b in s ensures b in rotated {
      var i :| 0 <= i < |s| && s[i] == b;
      assert rotated[if i == 0 then |s| - 1 else i - 1] == b;
    }
  }

  // ---- The code ----

  class App {
    const fifo: BufFifo
    const ring: Ring
    const onIdentified: bool
    const onUnidentified: bool
    var reports: seq<Report>

    /** kt_app_main's start-up: a pool of ten buffers in the ring, and all ten added to KtLib. */
    constructor (onIdentified: bool, onUnidentified: bool, pool: seq<Buffer>)
      requires |pool| == POOL_SIZE && Distinct(pool)
      modifies pool
      ensures Ready() && reports == [] && fresh({fifo, ring, ring.slots})
      ensures this.onIdentified == onIdentified && this.onUnidentified == onUnidentified
      ensures fifo.contents == pool && Doubled(fifo.contents, ring.Contents()) && BuffersOf(ring.Contents()) == pool[1..]
      ensures forall b :: b in pool ==> b.faces == old(b.faces)
    {
      var size := ReportLength(MAX_FACES);
      var kt := new BufFifo();
      var slots := seq(POOL_SIZE, i requires 0 <= i < POOL_SIZE => Slot(pool[i], size));
      var own := new Ring(slots);
      fifo, ring, reports := kt, own, [];
      this.onIdentified, this.onUnidentified := onIdentified, onUnidentified;
      new;
      for i := 0 to POOL_SIZE
        invariant kt.Valid() && kt.contents == pool[..i]
        invariant own.Valid() && own.Contents() == slots[1..] && fresh(own.slots) && reports == []
        invariant forall b :: b in pool ==> b.faces == old(b.faces)
      {
        assert pool[i] !in pool[..i];
        kt.Add(pool[i], size);
        assert pool[..i] + [pool[i]] == pool[..i + 1];
      }
      assert pool[..POOL_SIZE] == pool;
      assert BuffersOf(slots[1..]) == pool[1..];
    }

    ghost predicate Ready()
      reads fifo, fifo.contents, ring
    {
      fifo.Valid() && ring.Valid()
    }

    ghost function HeldBuffers(): set<Buffer>
      requires Ready()
      reads fifo, fifo.contents, ring, ring.slots
    {
      Held(fifo.contents, ring.Contents())
    }

    /** The first half of the exchange: the oldest buffer of the ring goes to KtLib. */
    method HandOver() returns (given: bool)
      requires Ready()
      requires ring.Contents() != [] ==> ring.Contents()[0].length >= MIN_BUF_SIZE
      requires ring.Contents() != [] && fifo.contents != [] ==> fifo.contents[|fifo.contents| - 1] != ring.Contents()[0].buffer
      modifies fifo, ring`head, HeldBuffers()
      ensures Ready() && given == (old(ring.Contents()) != [])
      ensures !given ==> fifo.contents == old(fifo.contents) && ring.Contents() == []
      ensures given ==>
        && fifo.contents == Linked(old(fifo.contents), old(ring.Contents())[0].buffer)
        && ring.Contents() == old(ring.Contents())[1..]
      ensures forall b: Buffer :: old(allocated(b)) ==> b.faces == old(b.faces) && b.faceCount == old(b.faceCount)
    {
      HeldMembers(fifo.contents, ring.Contents());
      var next, length := ring.Get();
      given := next != null;
      if given {
        fifo.Add(next, length);
      }
    }

    /** The exchange at the end of a face callback. With an empty ring there is nothing to exchange, and the
        reported buffer is lost. */
    method Exchange(buffer: Buffer)
      requires Ready()
      requires ring.Contents() != [] ==> ring.Contents()[0].length >= MIN_BUF_SIZE
      requires ring.Contents() != [] && fifo.contents != [] ==> fifo.contents[|fifo.contents| - 1] != ring.Contents()[0].buffer
      modifies fifo, ring`head, ring`tail, ring.slots, HeldBuffers()
      ensures Ready() && ring.slots == old(ring.slots)
      ensures old(ring.Contents()) == [] ==> fifo.contents == old(fifo.contents) && ring.Contents() == []
      ensures old(ring.Contents()) != [] ==>
        && fifo.contents == Linked(old(fifo.contents), old(ring.Contents())[0].buffer)
        && ring.Contents() == old(ring.Contents())[1..] + [Slot(buffer, ReportLength(old(buffer.faceCount)))]
      ensures forall b: Buffer :: old(allocated(b)) ==> b.faces == old(b.faces) && b.faceCount == old(b.faceCount)
    {
      var given := HandOver();
      if given {
        var full := ring.Add(buffer, ReportLength(buffer.faceCount));
      }
    }

    method FaceCallback(identified: bool, buffer: Buffer)
      requires Ready() && buffer.faceCount <= |buffer.faces|
      requires ring.Contents() != [] ==> ring.Contents()[0].length >= MIN_BUF_SIZE
      requires ring.Contents() != [] && fifo.contents != [] ==> fifo.contents[|fifo.contents| - 1] != ring.Contents()[0].buffer
      modifies this`reports, fifo, ring`head, ring`tail, ring.slots, HeldBuffers()
      ensures Ready() && ring.slots == old(ring.slots)
      ensures reports == old(reports) + [Report(identified, old(buffer.faces[..buffer.faceCount]))]
      ensures old(ring.Contents()) == [] ==> fifo.contents == old(fifo.contents) && ring.Contents() == []
      ensures old(ring.Contents()) != [] ==>
        && fifo.contents == Linked(old(fifo.contents), old(ring.Contents())[0].buffer)
        && ring.Contents() == old(ring.Contents())[1..] + [Slot(buffer, ReportLength(old(buffer.faceCount)))]
      ensures forall b: Buffer :: old(allocated(b)) ==> b.faces == old(b.faces) && b.faceCount == old(b.faceCount)
    {
      reports := reports + [Report(identified, buffer.faces[..buffer.faceCount])];
      Exchange(buffer);
    }

    /** Reports the buffer that was taken from the FIFO `f0`: nothing is lost. */
    method ReportTaken(identified: bool, buffer: Buffer, ghost f0: seq<Buffer>)
      requires Ready() && Started(f0, ring.Contents()) && fifo.contents == f0[1..] && buffer == f0[0]
      requires 0 < buffer.faceCount <= |buffer.faces|
      modifies this`reports, fifo, ring`head, ring`tail, ring.slots, HeldBuffers()
      ensures Ready() && ring.slots == old(ring.slots)
      ensures Moved(f0, old(ring.Contents()), fifo.contents, ring.Contents())
      ensures fifo.contents == FifoAfter(f0, old(ring.Contents()))
      ensures reports == old(reports) + [Report(identified, old(buffer.faces[..buffer.faceCount]))]
      ensures forall b: Buffer :: old(allocated(b)) ==> b.faces == old(b.faces)
    {
      ReportKeepsTheBuffers(f0, ring.Contents(), ReportLength(buffer.faceCount));
      FaceCallback(identified, buffer);
    }

    /** The buffers can hold all the users of a frame. */
    ghost predicate Roomy()
      requires Ready()
      reads fifo, fifo.contents, ring, ring.slots, HeldBuffers()
    {
      forall b :: b in HeldBuffers() ==> MAX_FACES <= |b.faces|
    }

    /** Takes the oldest buffer and fills it with the identified users. */
    method TakeAndFill(users: seq<TrackedUser>, ideal: Option<nat>) returns (buffer: Buffer, identified: nat, unidentified: nat)
      requires Ready() && Roomy() && Started(fifo.contents, ring.Contents())
      requires ValidUsers(users) && FitsIn(users, ideal, MAX_FACES)
      modifies fifo, HeldBuffers()
      ensures Ready() && ring.Contents() == old(ring.Contents())
      ensures buffer == old(fifo.contents)[0] && fifo.contents == old(fifo.contents)[1..]
      ensures identified == |Faces(users, ideal, true, |users|)| && unidentified == |Faces(users, ideal, false, |users|)|
      ensures |buffer.faces| == old(|fifo.contents[0].faces|) && buffer.faceCount == identified <= |buffer.faces|
      ensures buffer.faces[..identified] == Faces(users, ideal, true, |users|)
      ensures identified == 0 ==> buffer.faces == AfterUnlinking(old(fifo.contents[0].faces))
      ensures forall b: Buffer :: old(allocated(b)) && b != buffer ==> b.faces == old(b.faces)
    {
      HeldMembers(fifo.contents, ring.Contents());
      buffer := fifo.Get();
      ghost var stale := buffer.faces;
      var inside;
      identified, unidentified, inside := FillIdentified(buffer, users, ideal);
      assert identified == 0 ==> Faces(users, ideal, true, |users|) + stale[0..] == stale;
    }

    /** The first half of a frame: fill a buffer with the identified users and report it if there are any. */
    method ReportIdentified(users: seq<TrackedUser>, ideal: Option<nat>) returns (buffer: Buffer?, identified: nat, unidentified: nat)
      requires Ready() && Roomy() && Started(fifo.contents, ring.Contents())
      requires ValidUsers(users) && FitsIn(users, ideal, MAX_FACES)
      modifies this`reports, fifo, ring`head, ring`tail, ring.slots, HeldBuffers()
      ensures Ready() && ring.slots == old(ring.slots)
      ensures identified == |Faces(users, ideal, true, |users|)| && unidentified == |Faces(users, ideal, false, |users|)|
      ensures if identified != 0 && onIdentified then
          && buffer == null
          && Moved(old(fifo.contents), old(ring.Contents()), fifo.contents, ring.Contents())
          && fifo.contents[0] == old(LastBuffer(|Faces(users, ideal, true, |users|)|))
          && fifo.contents[0].faces == old(LastBuffer(|Faces(users, ideal, true, |users|)|).faces)
        else
          && buffer == old(fifo.contents)[0] && |buffer.faces| == |old(fifo.contents[0].faces)|
          && fifo.contents == old(fifo.contents)[1..] && ring.Contents() == old(ring.Contents()) && reports == old(reports)
          && Held(fifo.contents, ring.Contents()) < old(HeldBuffers())
          && (identified == 0 ==> buffer.faces == AfterUnlinking(old(fifo.contents[0].faces)))
      ensures onIdentified ==> reports == old(reports) + IdentifiedReport(users, ideal)
      ensures forall b: Buffer :: old(allocated(b)) ==> |b.faces| == old(|b.faces|)
      ensures forall b: Buffer :: old(allocated(b)) && b != old(fifo.contents[0]) ==> b.faces == old(b.faces)
    {
      ghost var f0, r0 := fifo.contents, ring.Contents();
      ghost var next := LastBuffer(1);
      NextBufferIsAnother(f0, r0);
      buffer, identified, unidentified := TakeAndFill(users, ideal);
      if identified != 0 && onIdentified {
        ReportTaken(true, buffer, f0);
        assert fifo.contents[0] == next && next != buffer;
        buffer := null;
      } else {
        TakenIsMissing(f0, r0);
      }
    }

    /** Fills the buffer that was kept, or the next one, with the unidentified users. */
    method FillSecond(taken: Buffer?, users: seq<TrackedUser>, ideal: Option<nat>, identified: nat, ghost f0: seq<Buffer>)
      returns (buffer: Buffer, ghost stale: seq<FaceData>)
      requires Ready() && f0 != []
      requires taken == null ==> fifo.contents == f0 && MAX_FACES <= |f0[0].faces|
      requires taken != null ==> fifo.contents == f0[1..] && taken == f0[0] && MAX_FACES <= |taken.faces|
      requires ValidUsers(users) && FitsIn(users, ideal, MAX_FACES) && identified == |Faces(users, ideal, true, |users|)|
      modifies fifo, f0
      ensures Ready() && fifo.contents == f0[1..] && buffer == f0[0]
      ensures stale == if taken == null then AfterUnlinking(old(f0[0].faces)) else old(f0[0].faces)
      ensures |stale| == |buffer.faces| >= MAX_FACES && buffer.faceCount == |Faces(users, ideal, false, |users|)| <= |stale|
      ensures buffer.faces[..buffer.faceCount] == WithStaleIds(Faces(users, ideal, false, |users|), stale, identified)
      ensures forall b: Buffer :: old(allocated(b)) ==> |b.faces| == old(|b.faces|)
    {
      if taken == null {
        buffer := fifo.Get();
      } else {
        buffer := taken;
      }
      stale := buffer.faces;
      var count, inside := FillUnidentified(buffer, users, ideal, identified);
    }

    /** The second half: fill a buffer, a fresh one if the first was reported, with the unidentified users. */
    method ReportUnidentified(taken: Buffer?, users: seq<TrackedUser>, ideal: Option<nat>, identified: nat, ghost f0: seq<Buffer>)
      returns (ghost stale: seq<FaceData>)
      requires Ready() && Started(f0, ring.Contents())
      requires taken == null ==> Roomy() && fifo.contents == f0
      requires taken != null ==> fifo.contents == f0[1..] && taken == f0[0] && MAX_FACES <= |taken.faces|
      requires ValidUsers(users) && FitsIn(users, ideal, MAX_FACES)
      requires identified == |Faces(users, ideal, true, |users|)| && Faces(users, ideal, false, |users|) != []
      modifies this`reports, fifo, ring`head, ring`tail, ring.slots, HeldBuffers(), f0
      ensures Ready() && ring.slots == old(ring.slots)
      ensures |stale| >= MAX_FACES && stale == if taken == null then AfterUnlinking(old(f0[0].faces)) else old(f0[0].faces)
      ensures if onUnidentified then
                && Moved(f0, old(ring.Contents()), fifo.contents, ring.Contents())
                && reports == old(reports) + UnidentifiedReport(users, ideal, stale)
              else
                && Held(fifo.contents, ring.Contents()) < Held(f0, old(ring.Contents()))
                && |ring.Contents()| == |old(ring.Contents())| && reports == old(reports)
      ensures forall b: Buffer :: old(allocated(b)) ==> |b.faces| == old(|b.faces|)
    {
      ghost var r0 := ring.Contents();
      HeldMembers(f0, r0);
      var buffer;
      buffer, stale := FillSecond(taken, users, ideal, identified, f0);
      if onUnidentified {
        ReportTaken(false, buffer, f0);
      } else {
        TakenIsMissing(f0, r0);
      }
    }

    /** The buffer in which the unidentified users of a frame are written. */
    ghost function LastBuffer(identified: nat): Buffer
      requires Ready() && Started(fifo.contents, ring.Contents())
      reads fifo, fifo.contents, ring, ring.slots
      ensures LastBuffer(identified) in HeldBuffers()
    {
      HeldMembers(fifo.contents, ring.Contents());
      if identified == 0 then fifo.contents[0]
      else if |fifo.contents| > 1 then fifo.contents[1] else ring.Contents()[0].buffer
    }

    /** Whether a frame with users ends with a report, so that no buffer stays behind. */
    predicate EndsWithReport(unidentified: nat)
    {
      if unidentified != 0 then onUnidentified else onIdentified
    }

    /** A frame with users. */
    method ReportUsers(users: seq<TrackedUser>, ideal: Option<nat>) returns (ghost last: Buffer)
      requires Ready() && Roomy() && Started(fifo.contents, ring.Contents())
      requires ValidUsers(users) && users != [] && FitsIn(users, ideal, MAX_FACES)
      modifies this`reports, fifo, ring`head, ring`tail, ring.slots, HeldBuffers()
      ensures Ready() && ring.slots == old(ring.slots)
      ensures forall b: Buffer :: old(allocated(b)) ==> |b.faces| == old(|b.faces|)
      ensures if EndsWithReport(|Faces(users, ideal, false, |users|)|)
              then Moved(old(fifo.contents), old(ring.Contents()), fifo.contents, ring.Contents())
              else Held(fifo.contents, ring.Contents()) < old(HeldBuffers()) && |ring.Contents()| == |old(ring.Contents())|
      ensures last == old(LastBuffer(|Faces(users, ideal, true, |users|)|))
      ensures onIdentified && onUnidentified ==> reports == old(reports) + ReportsOf(users, ideal, AfterUnlinking(old(last.faces)))
    {
      GroupsAddUp(users, ideal, |users|);
      ghost var f0, before := fifo.contents, reports;
      last := LastBuffer(|Faces(users, ideal, true, |users|)|);
      ReportsJoin(before, users, ideal, AfterUnlinking(last.faces));
      var buffer, identified, unidentified := ReportIdentified(users, ideal);
      if unidentified != 0 {
        ghost var f1, r1 := if buffer == null then fifo.contents else f0, ring.Contents();
        HeldMembers(f1, r1);
        ghost var held := ReportUnidentified(buffer, users, ideal, identified, f1);
      }
    }

    /** One metadata frame. */
    method HandleReceivedMetadata(users: seq<TrackedUser>, ideal: Option<nat>)
      requires Ready() && Roomy() && Started(fifo.contents, ring.Contents())
      requires ValidUsers(users) && FitsIn(users, ideal, MAX_FACES)
      modifies this`reports, fifo, ring`head, ring`tail, ring.slots, HeldBuffers()
      ensures Ready() && ring.slots == old(ring.slots) && HeldBuffers() <= old(HeldBuffers()) && Roomy()
      ensures users == [] ==> fifo.contents == old(fifo.contents) && ring.Contents() == old(ring.Contents()) && reports == old(reports)
      ensures users != [] ==>
        (HeldBuffers() == old(HeldBuffers()) <==> EndsWithReport(|Faces(users, ideal, false, |users|)|))
      ensures users != [] && HeldBuffers() == old(HeldBuffers()) ==>
        Moved(old(fifo.contents), old(ring.Contents()), fifo.contents, ring.Contents())
      ensures users != [] && onIdentified && onUnidentified ==>
        var last := old(LastBuffer(|Faces(users, ideal, true, |users|)|));
        reports == old(reports) + ReportsOf(users, ideal, AfterUnlinking(old(last.faces)))
    {
      if users == [] {
        return;
      }
      ghost var last := ReportUsers(users, ideal);
    }

    /** The same, for the bytes of a frame as they were received. */
    method HandlePayload(payload: seq<byte>)
      requires Ready() && Roomy() && Started(fifo.contents, ring.Contents()) && onIdentified && onUnidentified
      requires Whole(payload) && Parse(payload).Some? && FitsIn(Parse(payload).value.users, Parse(payload).value.idealSlot, MAX_FACES)
      modifies this`reports, fifo, ring`head, ring`tail, ring.slots, HeldBuffers()
      ensures Ready() && ring.slots == old(ring.slots) && HeldBuffers() == old(HeldBuffers()) && Roomy()
      ensures Started(fifo.contents, ring.Contents()) && |ring.Contents()| == |old(ring.Contents())|
      ensures Circulating(fifo.contents, ring.Contents()) <==>
              Circulating(old(fifo.contents), old(ring.Contents())) || Parse(payload).value.users != []
      ensures Circulating(old(fifo.contents), old(ring.Contents())) ==> |fifo.contents| == |old(fifo.contents)|
      ensures var frame := Parse(payload).value;
              && old(reports) <= reports && Agree(reports[|old(reports)|..], Expected(frame))
              && (KeepsNoIds(frame.users, frame.idealSlot) ==> reports[|old(reports)|..] == Expected(frame))
    {
      var frame := Parse(payload).value;
      ghost var last := LastBuffer(|Faces(frame.users, frame.idealSlot, true, |frame.users|)|);
      ghost var held := last.faces;
      HandleReceivedMetadata(frame.users, frame.idealSlot);
      ReportsAgree(frame, held);
    }
  }

  function IdentifiedReport(users: seq<TrackedUser>, ideal: Option<nat>): seq<Report>
    requires ValidUsers(users)
  {
    var faces := Faces(users, ideal, true, |users|);
    if faces == [] then [] else [Report(true, faces)]
  }

  function UnidentifiedReport(users: seq<TrackedUser>, ideal: Option<nat>, stale: seq<FaceData>): seq<Report>
    requires ValidUsers(users) && |Faces(users, ideal, false, |users|)| <= |stale|
  {
    var faces := Faces(users, ideal, false, |users|);
    if faces == [] then [] else [Report(false, WithStaleIds(faces, stale, |Faces(users, ideal, true, |users|)|))]
  }

  /** The reports a frame calls for, as the code makes them; `stale` is what the last buffer held. */
  function ReportsOf(users: seq<TrackedUser>, ideal: Option<nat>, stale: seq<FaceData>): seq<Report>
    requires ValidUsers(users) && |Faces(users, ideal, false, |users|)| <= |stale|
  {
    IdentifiedReport(users, ideal) + UnidentifiedReport(users, ideal, stale)
  }

  lemma ReportsJoin(before: seq<Report>, users: seq<TrackedUser>, ideal: Option<nat>, stale: seq<FaceData>)
    requires ValidUsers(users) && |Faces(users, ideal, false, |users|)| <= |stale|
    ensures before + IdentifiedReport(users, ideal) + UnidentifiedReport(users, ideal, stale) == before + ReportsOf(users, ideal, stale)
    ensures Faces(users, ideal, false, |users|) == [] ==> before + IdentifiedReport(users, ideal) == before + ReportsOf(users, ideal, stale)
  {
    Associate(before, IdentifiedReport(users, ideal), UnidentifiedReport(users, ideal, stale));
  }

  /** The reports a frame calls for, as they are meant. */
  function Expected(frame: Frame): seq<Report>
    requires ValidUsers(frame.users)
  {
    var unidentified := Faces(frame.users, frame.idealSlot, false, |frame.users|);
    IdentifiedReport(frame.users, frame.idealSlot) + if unidentified == [] then [] else [Report(false, unidentified)]
  }

  /** Equal but for the face ids of the unidentified. */
  predicate AgreeOn(actual: Report, expected: Report)
  {
    && actual.identified == expected.identified && |actual.faces| == |expected.faces|
    && (actual.identified ==> actual == expected)
    && forall i :: 0 <= i < |actual.faces| ==> actual.faces[i].(faceId := 0) == expected.faces[i].(faceId := 0)
  }

  predicate Agree(actual: seq<Report>, expected: seq<Report>)
  {
    |actual| == |expected| && forall i :: 0 <= i < |actual| ==> AgreeOn(actual[i], expected[i])
  }

  /** What that amounts to: one report for each group that has users, the identified first; the i-th face shows
      the i-th user of the group, with box and ideal flag, and for the identified the face id. */
  lemma ReportsShowTheUsers(reports: seq<Report>, frame: Frame)
    requires ValidUsers(frame.users) && Agree(reports, Expected(frame))
    ensures var users, n := frame.users, |frame.users|;
            var known, unknown := Positions(users, true, n), Positions(users, false, n);
            && |reports| == (if known != [] then 1 else 0) + (if unknown != [] then 1 else 0)
            && (known != [] ==>
                 && reports[0].identified && |reports[0].faces| == |known|
                 && forall i :: 0 <= i < |known| ==>
                      && known[i] < n
                      && reports[0].faces[i] == FaceData(users[known[i]].faceId, frame.idealSlot == Some(known[i]),
                                                         users[known[i]].box, false, false, false))
            && (unknown != [] ==>
                 && !reports[|reports| - 1].identified && |reports[|reports| - 1].faces| == |unknown|
                 && forall i :: 0 <= i < |unknown| ==>
                      && unknown[i] < n
                      && reports[|reports| - 1].faces[i].(faceId := 0) ==
                         FaceData(0, frame.idealSlot == Some(unknown[i]), users[unknown[i]].box, false, false, false))
  {
    FacesAreInOrder(frame.users, frame.idealSlot, true, |frame.users|);
    FacesAreInOrder(frame.users, frame.idealSlot, false, |frame.users|);
  }

  /** And in the reports as they are meant, the unidentified have face id zero. */
  lemma UnknownsAreMeantWithoutIds(frame: Frame)
    requires ValidUsers(frame.users) && Positions(frame.users, false, |frame.users|) != []
    ensures Expected(frame) != []
    ensures var last := Expected(frame)[|Expected(frame)| - 1];
            !last.identified && forall i :: 0 <= i < |last.faces| ==> last.faces[i].faceId == 0
  {
    FacesAreInOrder(frame.users, frame.idealSlot, false, |frame.users|);
  }

  lemma ReportsAgree(frame: Frame, held: seq<FaceData>)
    requires ValidUsers(frame.users) && |Faces(frame.users, frame.idealSlot, false, |frame.users|)| <= |held|
    ensures Agree(ReportsOf(frame.users, frame.idealSlot, AfterUnlinking(held)), Expected(frame))
    ensures KeepsNoIds(frame.users, frame.idealSlot) ==> ReportsOf(frame.users, frame.idealSlot, AfterUnlinking(held)) == Expected(frame)
  {
    if KeepsNoIds(frame.users, frame.idealSlot) {
      IdsAreRight(frame.users, frame.idealSlot, held);
    }
  }

  lemma TakenIsMissing(fifo: seq<Buffer>, ring: seq<Slot>)
    requires Started(fifo, ring)
    ensures fifo[0] in Held(fifo, ring) && Held(fifo[1..], ring) == Held(fifo, ring) - {fifo[0]}
  {
    ReportKeepsTheBuffers(fifo, ring, MIN_BUF_SIZE);
    HeldMembers(fifo, ring);
    assert fifo + BuffersOf(ring) == [fifo[0]] + (fifo[1..] + BuffersOf(ring));
  }

  lemma HeldMembers(fifo: seq<Buffer>, ring: seq<Slot>)
    ensures forall i :: 0 <= i < |fifo| ==> fifo[i] in Held(fifo, ring)
    ensures forall i :: 0 <= i < |ring| ==> ring[i].buffer in Held(fifo, ring)
  {
    var all := fifo + BuffersOf(ring);
    assert forall i :: 0 <= i < |fifo| ==> fifo[i] == all[i];
    assert forall i :: 0 <= i < |ring| ==> ring[i].buffer == all[|fifo| + i];
  }
}
