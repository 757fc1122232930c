/**
 * The stream of face reports between the application and its viewer: a count, and as
 * many records, as they lie in the application's memory.
 */
module FaceStream {
  import opened Bytes
  import opened Hub
  import opened BufferFifo
  import opened MetadataLayout
  import opened MetadataHandling
  import opened BufferCirculation
  import Wire = ProfileWire

  // ---- The sender ----

  predicate IsInt32(n: int)
  {
    -0x8000_0000 <= n < 0x8000_0000
  }

  predicate Fits(face: FaceData)
  {
    IsInt32(face.box.left) && IsInt32(face.box.top) && IsInt32(face.box.right) && IsInt32(face.box.bottom)
  }

  /** The faces of a report together with the padding bytes of each record, which hold anything. */
  datatype SentReport = SentReport(faces: seq<FaceData>, padding: seq<seq<byte>>) {
    predicate Valid() {
      && |padding| == |faces| < 0x1_0000_0000
      && (forall i :: 0 <= i < |faces| ==> Fits(faces[i]))
      && forall i :: 0 <= i < |padding| ==> |padding[i]| == 4
    }
  }

  function Flag(b: bool): byte
  {
    if b then 1 else 0
  }

  function FaceBytes(face: FaceData, padding: seq<byte>): (s: seq<byte>)
    requires Fits(face) && |padding| == 4
    ensures |s| == FACE_DATA_SIZE
  {
    Corners(face.box.left, face.box.top, face.box.right, face.box.bottom, Wire.Field32(face.faceId) + [Flag(face.ideal)] + padding[..3])
    + [Flag(face.hat), Flag(face.glasses), Flag(face.gloves), padding[3]]
  }

  function Corners(left: int32, top: int32, right: int32, bottom: int32, before: seq<byte>): (s: seq<byte>)
    ensures |s| == |before| + 16
  {
    before + Word(left) + Word(top) + Word(right) + Word(bottom)
  }

  function FacesBytes(faces: seq<FaceData>, padding: seq<seq<byte>>): (s: seq<byte>)
    requires |padding| == |faces| && forall i :: 0 <= i < |faces| ==> Fits(faces[i]) && |padding[i]| == 4
    ensures |s| == FACE_DATA_SIZE * |faces|
  {
    if faces == [] then [] else FaceBytes(faces[0], padding[0]) + FacesBytes(faces[1..], padding[1..])
  }

  function ReportBytes(r: SentReport): (s: seq<byte>)
    requires r.Valid()
    ensures |s| == ReportLength(|r.faces|)
  {
    Wire.Field32(|r.faces|) + FacesBytes(r.faces, r.padding)
  }

  function SentBytes(reports: seq<SentReport>): seq<byte>
    requires forall i :: 0 <= i < |reports| ==> reports[i].Valid()
  {
    if reports == [] then [] else ReportBytes(reports[0]) + SentBytes(reports[1..])
  }

  function FacesOf(reports: seq<SentReport>): (all: seq<seq<FaceData>>)
    ensures |all| == |reports|
  {
    seq(|reports|, i requires 0 <= i < |reports| => reports[i].faces)
  }

  // ---- The viewer ----

  function SignedAt(s: seq<byte>, offset: nat): int32
    requires offset + 4 <= |s|
  {
    Signed(Wire.Read32(s[offset..offset + 4]))
  }

  function DecodeFace(s: seq<byte>): FaceData
    requires |s| == FACE_DATA_SIZE
  {
    FaceData(Wire.Read32(s[..4]), s[4] != 0, Box(SignedAt(s, 8), SignedAt(s, 12), SignedAt(s, 16), SignedAt(s, 20)),
             s[24] != 0, s[25] != 0, s[26] != 0)
  }

  function DecodeFaces(s: seq<byte>, count: nat): (faces: seq<FaceData>)
    requires |s| == FACE_DATA_SIZE * count
    ensures |faces| == count
    decreases count
  {
    if count == 0 then [] else [DecodeFace(s[..FACE_DATA_SIZE])] + DecodeFaces(s[FACE_DATA_SIZE..], count - 1)
  }

  /** One turn of the listener; None if the connection is closed before the report is complete. */
  function Received(stream: seq<byte>): Option<seq<FaceData>>
  {
    if |stream| < PPE_DATA_SIZE then None else
    var count := Wire.Read32(stream[..PPE_DATA_SIZE]);
    if |stream| < ReportLength(count) then None else
    Some(DecodeFaces(stream[PPE_DATA_SIZE..ReportLength(count)], count))
  }

  /** All reports read off a stream until it is closed. */
  function AllReceived(stream: seq<byte>): (all: seq<seq<FaceData>>)
    decreases |stream|
  {
    var faces := Received(stream);
    if faces.None? then [] else [faces.value] + AllReceived(stream[ReportLength(|faces.value|)..])
  }

  /** The fields of a record by offset, as they lie in the application's memory. */
  lemma FaceOffsets(s: seq<byte>)
    requires |s| == 28
    ensures var f := DecodeFace(s);
            && f.faceId == s[0] as int + 0x100 * s[1] as int + 0x1_0000 * s[2] as int + 0x100_0000 * s[3] as int
            && (f.ideal <==> s[4] != 0)
            && f.box == Box(Int32At(s, 8), Int32At(s, 12), Int32At(s, 16), Int32At(s, 20))
            && (f.hat <==> s[24] != 0) && (f.glasses <==> s[25] != 0) && (f.gloves <==> s[26] != 0)
  {
    LowByteFirst(s[..4]);
  }

  // ---- Agreement ----

  lemma SignedOfWord(n: int32)
    ensures Signed(Wire.Read32(Word(n))) == n
  {
    Wire.Read32OfField(Unsigned(n));
    SignedUnsigned(n);
  }

  lemma FaceIsRecovered(face: FaceData, padding: seq<byte>)
    requires Fits(face) && |padding| == 4
    ensures DecodeFace(FaceBytes(face, padding)) == face
  {
    var s, b := FaceBytes(face, padding), face.box;
    Wire.Read32OfField(face.faceId);
    SignedOfWord(b.left);
    SignedOfWord(b.top);
    SignedOfWord(b.right);
    SignedOfWord(b.bottom);
    assert s[..4] == Wire.Field32(face.faceId);
    assert s[8..12] == Word(b.left) && s[12..16] == Word(b.top) && s[16..20] == Word(b.right) && s[20..24] == Word(b.bottom);
  }

  lemma {:induction false} FacesAreRecovered(faces: seq<FaceData>, padding: seq<seq<byte>>)
    requires |padding| == |faces| && forall i :: 0 <= i < |faces| ==> Fits(faces[i]) && |padding[i]| == 4
    ensures DecodeFaces(FacesBytes(faces, padding), |faces|) == faces
  {
    if faces != [] {
      var s := FacesBytes(faces, padding);
      assert s[..FACE_DATA_SIZE] == FaceBytes(faces[0], padding[0]);
      assert s[FACE_DATA_SIZE..] == FacesBytes(faces[1..], padding[1..]);
      FaceIsRecovered(faces[0], padding[0]);
      FacesAreRecovered(faces[1..], padding[1..]);
    }
  }

  /** The viewer reads exactly the report that was sent, if all of its bytes arrive, and nothing otherwise. */
  lemma ReportIsReceivedIffComplete(r: SentReport, rest: seq<byte>, cut: nat)
    requires r.Valid() && cut <= |ReportBytes(r) + rest|
    ensures Received((ReportBytes(r) + rest)[..cut]) == if cut >= ReportLength(|r.faces|) then Some(r.faces) else None
  {
    var s := (ReportBytes(r) + rest)[..cut];
    if cut >= PPE_DATA_SIZE {
      assert s[..PPE_DATA_SIZE] == Wire.Field32(|r.faces|);
      Wire.Read32OfField(|r.faces|);
      if cut >= ReportLength(|r.faces|) {
        assert s[PPE_DATA_SIZE..ReportLength(|r.faces|)] == FacesBytes(r.faces, r.padding);
        FacesAreRecovered(r.faces, r.padding);
      }
    }
  }

  /** The number of reports that fit completely into the first bytes of the stream. */
  function CompleteReports(reports: seq<SentReport>, cut: nat): (k: nat)
    ensures k <= |reports|
  {
    if reports == [] || cut < ReportLength(|reports[0].faces|) then 0
    else 1 + CompleteReports(reports[1..], cut - ReportLength(|reports[0].faces|))
  }

  lemma CutBehind(front: seq<byte>, rest: seq<byte>, cut: nat)
    requires |front| <= cut <= |front| + |rest|
    ensures (front + rest)[..cut][|front|..] == rest[..cut - |front|]
  {
  }

  lemma FirstOfFaces(reports: seq<SentReport>, k: nat)
    requires reports != [] && k < |reports|
    ensures FacesOf(reports)[..1 + k] == [reports[0].faces] + FacesOf(reports[1..])[..k]
  {
  }

  lemma FirstReceived(stream: seq<byte>, faces: seq<FaceData>)
    requires Received(stream) == Some(faces)
    ensures ReportLength(|faces|) <= |stream|
    ensures AllReceived(stream) == [faces] + AllReceived(stream[ReportLength(|faces|)..])
  {
  }

  /** Wherever the connection breaks, the viewer has received a prefix of the reports, each complete and in
      order: all those whose last byte has arrived. */
  lemma {:induction false} OnlyWholeReportsArrive(reports: seq<SentReport>, cut: nat)
    requires (forall i :: 0 <= i < |reports| ==> reports[i].Valid()) && cut <= |SentBytes(reports)|
    ensures AllReceived(SentBytes(reports)[..cut]) == FacesOf(reports)[..CompleteReports(reports, cut)]
  {
    if reports != [] {
      var first, rest := reports[0], SentBytes(reports[1..]);
      var s, length := SentBytes(reports)[..cut], ReportLength(|first.faces|);
      ReportIsReceivedIffComplete(first, rest, cut);
      if cut >= length {
        CutBehind(ReportBytes(first), rest, cut);
        OnlyWholeReportsArrive(reports[1..], cut - length);
        FirstOfFaces(reports, CompleteReports(reports[1..], cut - length));
        FirstReceived(s, first.faces);
      }
    }
  }

  /** If all bytes arrive, all reports do. */
  lemma {:induction false} AllReportsFit(reports: seq<SentReport>)
    requires forall i :: 0 <= i < |reports| ==> reports[i].Valid()
    ensures CompleteReports(reports, |SentBytes(reports)|) == |reports|
  {
    if reports != [] {
      AllReportsFit(reports[1..]);
    }
  }

  // ---- What becomes of a camera frame ----

  /** The application sends one report for the identified and one for the unidentified, and the viewer takes
      each for a frame of its own: in the end it shows all users if and only if they are all of one kind. */
  lemma LastReportIsCompleteIff(frame: Frame)
    requires ValidUsers(frame.users) && frame.users != []
    ensures var reports := Expected(frame);
            && reports != []
            && (|reports[|reports| - 1].faces| == |frame.users| <==> |reports| == 1)
            && (|reports| == 1 <==> forall i, j :: 0 <= i < j < |frame.users| ==> (frame.users[i].faceId == 0 <==> frame.users[j].faceId == 0))
  {
    var users, ideal := frame.users, frame.idealSlot;
    GroupsAddUp(users, ideal, |users|);
    GroupIsEmptyIff(users, ideal, true, |users|);
    GroupIsEmptyIff(users, ideal, false, |users|);
    assert users[0].faceId == 0 || users[0].faceId != 0;
  }

  lemma {:induction false} GroupIsEmptyIff(users: seq<TrackedUser>, ideal: Option<nat>, identified: bool, n: nat)
    requires n <= |users| && ValidUsers(users)
    ensures Faces(users, ideal, identified, n) == [] <==> forall i :: 0 <= i < n ==> (users[i].faceId == 0 <==> identified)
  {
    if n > 0 {
      GroupIsEmptyIff(users, ideal, identified, n - 1);
    }
  }
}
