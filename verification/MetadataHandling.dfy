/**
 * The users of a metadata frame, split into identified and unidentified ones, and the
 * two loops that write the faces of each group into a buffer.
 */
module MetadataHandling {
  import opened Hub
  import opened BufferFifo
  import opened MetadataLayout

  // ---- What is to be reported ----

  predicate Selected(user: TrackedUser, identified: bool)
  {
    (user.faceId != 0) == identified
  }

  function FaceOf(user: TrackedUser, ideal: bool): FaceData
    requires user.faceId < 0x10
  {
    FaceData(user.faceId, ideal, user.box, false, false, false)
  }

  /** Every face id is a nibble. */
  predicate ValidUsers(users: seq<TrackedUser>)
  {
    forall i :: 0 <= i < |users| ==> users[i].faceId < 0x10
  }

  /** The faces of the identified, or of the unidentified, among the first n users. */
  function Faces(users: seq<TrackedUser>, ideal: Option<nat>, identified: bool, n: nat): (faces: seq<FaceData>)
    requires n <= |users| && ValidUsers(users)
    ensures |faces| <= n
  {
    if n == 0 then [] else
    Faces(users, ideal, identified, n - 1) +
    if Selected(users[n - 1], identified) then [FaceOf(users[n - 1], ideal == Some(n - 1))] else []
  }

  /** What the unidentified loop leaves: it writes the face id of slot k only, and that of the ideal user;
      the other slots keep the ids that the buffer happened to hold. */
  function WithStaleIds(faces: seq<FaceData>, stale: seq<FaceData>, k: nat): (written: seq<FaceData>)
    requires |faces| <= |stale|
    ensures |written| == |faces|
  {
    seq(|faces|, i requires 0 <= i < |faces| =>
      faces[i].(faceId := if i == k || faces[i].ideal then 0 else stale[i].faceId))
  }

  /** One more user: one of the two groups grows by its face. */
  lemma NextUser(users: seq<TrackedUser>, ideal: Option<nat>, i: nat)
    requires i < |users| && ValidUsers(users)
    ensures var face := FaceOf(users[i], ideal == Some(i));
            && (users[i].faceId == 0 ==>
                 && Faces(users, ideal, true, i + 1) == Faces(users, ideal, true, i)
                 && Faces(users, ideal, false, i + 1) == Faces(users, ideal, false, i) + [face])
            && (users[i].faceId != 0 ==>
                 && Faces(users, ideal, true, i + 1) == Faces(users, ideal, true, i) + [face]
                 && Faces(users, ideal, false, i + 1) == Faces(users, ideal, false, i))
  {
  }

  /** How many faces show a box. */
  function FacesWith(faces: seq<FaceData>, box: Box): nat
  {
    if faces == [] then 0 else FacesWith(faces[..|faces| - 1], box) + if faces[|faces| - 1].box == box then 1 else 0
  }

  lemma FacesWithAppend(faces: seq<FaceData>, face: FaceData, box: Box)
    ensures FacesWith(faces + [face], box) == FacesWith(faces, box) + if face.box == box then 1 else 0
  {
    assert (faces + [face])[..|faces|] == faces;
  }

  /** How many of the first n users stand in it. */
  function UsersWith(users: seq<TrackedUser>, box: Box, n: nat): nat
    requires n <= |users|
  {
    if n == 0 then 0 else UsersWith(users, box, n - 1) + if users[n - 1].box == box then 1 else 0
  }

  lemma {:induction false} GroupsAddUp(users: seq<TrackedUser>, ideal: Option<nat>, n: nat)
    requires n <= |users| && ValidUsers(users)
    ensures |Faces(users, ideal, true, n)| + |Faces(users, ideal, false, n)| == n
  {
    if n > 0 {
      GroupsAddUp(users, ideal, n - 1);
    }
  }

  function ReportedWith(users: seq<TrackedUser>, ideal: Option<nat>, box: Box, n: nat): nat
    requires n <= |users| && ValidUsers(users)
  {
    FacesWith(Faces(users, ideal, true, n), box) + FacesWith(Faces(users, ideal, false, n), box)
  }

  lemma NextReportedWith(users: seq<TrackedUser>, ideal: Option<nat>, box: Box, i: nat)
    requires i < |users| && ValidUsers(users)
    ensures ReportedWith(users, ideal, box, i + 1) == ReportedWith(users, ideal, box, i) + if users[i].box == box then 1 else 0
  {
    NextUser(users, ideal, i);
    FacesWithAppend(Faces(users, ideal, users[i].faceId != 0, i), FaceOf(users[i], ideal == Some(i)), box);
  }

  lemma {:induction false} EachBoxIsReported(users: seq<TrackedUser>, ideal: Option<nat>, box: Box, n: nat)
    requires n <= |users| && ValidUsers(users)
    ensures ReportedWith(users, ideal, box, n) == UsersWith(users, box, n)
  {
    if n > 0 {
      EachBoxIsReported(users, ideal, box, n - 1);
      NextReportedWith(users, ideal, box, n - 1);
    }
  }

  /** Every user is reported exactly once: the two groups together have as many faces as there are users, and
      each box is shown as often as users stand in it. */
  lemma EveryUserIsReportedOnce(users: seq<TrackedUser>, ideal: Option<nat>, box: Box, n: nat)
    requires n <= |users| && ValidUsers(users)
    ensures |Faces(users, ideal, true, n)| + |Faces(users, ideal, false, n)| == n
    ensures ReportedWith(users, ideal, box, n) == UsersWith(users, box, n)
  {
    GroupsAddUp(users, ideal, n);
    EachBoxIsReported(users, ideal, box, n);
  }

  /** The users of a group, by number and in order. */
  function Positions(users: seq<TrackedUser>, identified: bool, n: nat): (positions: seq<nat>)
    requires n <= |users|
  {
    if n == 0 then [] else
    Positions(users, identified, n - 1) + if Selected(users[n - 1], identified) then [n - 1] else []
  }

  /** The order is kept and nothing is changed on the way: the faces of a group show the id and the box of its
      users, taken in ascending order, the ideal one flagged, and the equipment flags are off. */
  lemma {:induction false} FacesAreInOrder(users: seq<TrackedUser>, ideal: Option<nat>, identified: bool, n: nat)
    requires n <= |users| && ValidUsers(users)
    ensures var p := Positions(users, identified, n);
            var faces := Faces(users, ideal, identified, n);
            && |p| == |faces|
            && (forall i, j :: 0 <= i < j < |p| ==> p[i] < p[j])
            && (forall i :: 0 <= i < |p| ==> p[i] < n && faces[i].faceId == users[p[i]].faceId && faces[i].box == users[p[i]].box)
            && (forall i :: 0 <= i < |p| ==> (faces[i].ideal <==> ideal == Some(p[i])))
            && (forall i :: 0 <= i < |p| ==> !faces[i].hat && !faces[i].glasses && !faces[i].gloves)
            && (forall i :: 0 <= i < |p| ==> (faces[i].faceId != 0 <==> identified))
  {
    if n > 0 {
      FacesAreInOrder(users, ideal, identified, n - 1);
    }
  }

  lemma {:induction false} PositionsAreBelow(users: seq<TrackedUser>, identified: bool, n: nat)
    requires n <= |users|
    ensures forall u :: u in Positions(users, identified, n) ==> u < n
  {
    if n > 0 {
      PositionsAreBelow(users, identified, n - 1);
    }
  }

  /** A user is in a group exactly when the group is that of its face id. */
  lemma {:induction false} PositionsAreComplete(users: seq<TrackedUser>, identified: bool, n: nat)
    requires n <= |users|
    ensures forall u :: 0 <= u < n ==> ((users[u].faceId != 0) == identified <==> u in Positions(users, identified, n))
  {
    if n > 0 {
      PositionsAreComplete(users, identified, n - 1);
      var shorter, p := Positions(users, identified, n - 1), Positions(users, identified, n);
      forall u | 0 <= u < n ensures (users[u].faceId != 0) == identified <==> u in p {
        if u == n - 1 {
          assert Selected(users[u], identified) ==> p[|p| - 1] == u;
          PositionsAreBelow(users, identified, n - 1);
        } else {
          assert u in shorter <==> u in p;
        }
      }
    }
  }

  function IdealCount(faces: seq<FaceData>): nat
  {
    if faces == [] then 0 else IdealCount(faces[..|faces| - 1]) + if faces[|faces| - 1].ideal then 1 else 0
  }

  lemma IdealCountAppend(faces: seq<FaceData>, face: FaceData)
    ensures IdealCount(faces + [face]) == IdealCount(faces) + if face.ideal then 1 else 0
  {
    assert (faces + [face])[..|faces|] == faces;
  }

  /** The entries of both groups that are flagged ideal. */
  function IdealTotal(users: seq<TrackedUser>, ideal: Option<nat>, n: nat): nat
    requires n <= |users| && ValidUsers(users)
  {
    IdealCount(Faces(users, ideal, true, n)) + IdealCount(Faces(users, ideal, false, n))
  }

  lemma NextIdealTotal(users: seq<TrackedUser>, ideal: Option<nat>, i: nat)
    requires i < |users| && ValidUsers(users)
    ensures IdealTotal(users, ideal, i + 1) == IdealTotal(users, ideal, i) + if ideal == Some(i) then 1 else 0
  {
    NextUser(users, ideal, i);
    IdealCountAppend(Faces(users, ideal, users[i].faceId != 0, i), FaceOf(users[i], ideal == Some(i)));
  }

  /** Exactly one entry of the two reports is flagged ideal if the ideal slot names a user, and none else. */
  lemma {:induction false} OneIdealFace(users: seq<TrackedUser>, ideal: Option<nat>, n: nat)
    requires n <= |users| && ValidUsers(users)
    ensures IdealTotal(users, ideal, n) == if ideal.Some? && ideal.value < n then 1 else 0
  {
    if n > 0 {
      OneIdealFace(users, ideal, n - 1);
      NextIdealTotal(users, ideal, n - 1);
    }
  }

  /** The report on the unidentified carries only zero ids exactly when the buffer held zeros in every slot
      that the loop does not reach. */
  lemma UnidentifiedIdsAreZeroIff(users: seq<TrackedUser>, ideal: Option<nat>, stale: seq<FaceData>)
    requires ValidUsers(users) && |Faces(users, ideal, false, |users|)| <= |stale|
    ensures var faces := Faces(users, ideal, false, |users|);
            var k := |Faces(users, ideal, true, |users|)|;
            WithStaleIds(faces, stale, k) == faces <==>
            forall i :: 0 <= i < |faces| && i != k && !faces[i].ideal ==> stale[i].faceId == 0
  {
    var faces := Faces(users, ideal, false, |users|);
    var k := |Faces(users, ideal, true, |users|)|;
    var written := WithStaleIds(faces, stale, k);
    FacesAreInOrder(users, ideal, false, |users|);
    assert forall i :: 0 <= i < |faces| ==> faces[i].faceId == 0;
    if forall i :: 0 <= i < |faces| && i != k && !faces[i].ideal ==> stale[i].faceId == 0 {
      assert forall i :: 0 <= i < |faces| ==> written[i] == faces[i];
    }
    if written == faces {
      assert forall i :: 0 <= i < |faces| ==> written[i].faceId == 0;
    }
  }

  /** No unidentified user keeps an id that it finds: each is in the slot that the loop zeroes or in the first,
      which unlinking the buffer zeroed, or is ideal. */
  predicate KeepsNoIds(users: seq<TrackedUser>, ideal: Option<nat>)
    requires ValidUsers(users)
  {
    var faces, k := Faces(users, ideal, false, |users|), |Faces(users, ideal, true, |users|)|;
    forall i :: 0 <= i < |faces| ==> i == 0 || i == k || faces[i].ideal
  }

  lemma IdsAreRight(users: seq<TrackedUser>, ideal: Option<nat>, held: seq<FaceData>)
    requires ValidUsers(users) && KeepsNoIds(users, ideal) && |Faces(users, ideal, false, |users|)| <= |held|
    ensures var faces, k := Faces(users, ideal, false, |users|), |Faces(users, ideal, true, |users|)|;
            WithStaleIds(faces, AfterUnlinking(held), k) == faces
  {
    UnidentifiedIdsAreZeroIff(users, ideal, AfterUnlinking(held));
  }

  /** The ids are right in whatever buffer from the FIFO the frame is written exactly if no unidentified user
      keeps what it finds; for any other frame there is a buffer that gives a wrong one. */
  lemma IdsAreRightInEveryBufferIff(users: seq<TrackedUser>, ideal: Option<nat>)
    requires ValidUsers(users)
    ensures var faces, k := Faces(users, ideal, false, |users|), |Faces(users, ideal, true, |users|)|;
            (forall held: seq<FaceData> :: |faces| <= |held| ==> WithStaleIds(faces, AfterUnlinking(held), k) == faces) <==>
            KeepsNoIds(users, ideal)
  {
    var faces, k := Faces(users, ideal, false, |users|), |Faces(users, ideal, true, |users|)|;
    if KeepsNoIds(users, ideal) {
      forall held: seq<FaceData> | |faces| <= |held|
        ensures WithStaleIds(faces, AfterUnlinking(held), k) == faces
      {
        IdsAreRight(users, ideal, held);
      }
    } else {
      var used := FaceData(1, false, Box(0, 0, 0, 0), false, false, false);
      var held := seq(|faces|, _ => used);
      UnidentifiedIdsAreZeroIff(users, ideal, AfterUnlinking(held));
      assert WithStaleIds(faces, AfterUnlinking(held), k) != faces;
    }
  }

  /** Two unknown users, in a buffer that last held an identified user with id 6 in its second slot: the
      second unknown is reported as face 6. */
  lemma UnknownReportedUnderAnotherId()
    ensures var box := Box(0, 0, 0, 0);
            var users := [TrackedUser(0, box), TrackedUser(0, box)];
            var stale := [FaceData(0, false, box, false, false, false), FaceData(6, false, box, false, false, false)];
            && Faces(users, None, true, 2) == [] && |Faces(users, None, false, 2)| == 2
            && WithStaleIds(Faces(users, None, false, 2), stale, 0)[1].faceId == 6
  {
    var box := Box(0, 0, 0, 0);
    var users := [TrackedUser(0, box), TrackedUser(0, box)];
    assert Faces(users, None, true, 1) == Faces(users, None, true, 0);
    assert |Faces(users, None, false, 1)| == 1;
    assert Faces(users, None, false, 2) == Faces(users, None, false, 1) + [FaceOf(users[1], false)];
  }

  // ---- Filling a buffer ----

  /** The whole buffer after the identified loop has written so many faces. */
  function Filled(faces: seq<FaceData>, stale: seq<FaceData>): (slots: seq<FaceData>)
    requires |faces| <= |stale|
    ensures |slots| == |stale|
  {
    faces + stale[|faces|..]
  }

  lemma NextFilled(faces: seq<FaceData>, stale: seq<FaceData>, face: FaceData)
    requires |faces| < |stale|
    ensures Filled(faces, stale)[|faces| := face] == Filled(faces + [face], stale)
  {
  }

  /** The faces that fit into a buffer: the loops do not look at its size. The second one needs the slot behind
      the identified as well. */
  predicate IdentifiedFit(users: seq<TrackedUser>, ideal: Option<nat>, capacity: nat)
    requires ValidUsers(users)
  {
    |Faces(users, ideal, true, |users|)| <= capacity
  }

  predicate UnidentifiedFit(users: seq<TrackedUser>, ideal: Option<nat>, capacity: nat)
    requires ValidUsers(users)
  {
    var identified, unidentified := |Faces(users, ideal, true, |users|)|, |Faces(users, ideal, false, |users|)|;
    unidentified == 0 || (unidentified <= capacity && identified < capacity)
  }

  predicate FitsIn(users: seq<TrackedUser>, ideal: Option<nat>, capacity: nat)
    requires ValidUsers(users)
  {
    IdentifiedFit(users, ideal, capacity) && UnidentifiedFit(users, ideal, capacity)
  }

  /** As many users as a buffer holds always fit; one more, if all are identified, does not. */
  lemma CapacityOfABuffer(users: seq<TrackedUser>, ideal: Option<nat>, capacity: nat)
    requires ValidUsers(users)
    ensures |users| <= capacity ==> FitsIn(users, ideal, capacity)
    ensures |users| > capacity && Faces(users, ideal, false, |users|) == [] ==> !FitsIn(users, ideal, capacity)
  {
    GroupsAddUp(users, ideal, |users|);
  }

  /** The first loop; `inside` tells whether every write fell inside the buffer. */
  method FillIdentified(buffer: Buffer, users: seq<TrackedUser>, ideal: Option<nat>) returns (identified: nat, unidentified: nat, inside: bool)
    requires ValidUsers(users)
    modifies buffer`faces, buffer`faceCount
    ensures |buffer.faces| == old(|buffer.faces|)
    ensures identified == |Faces(users, ideal, true, |users|)| && unidentified == |Faces(users, ideal, false, |users|)|
    ensures buffer.faceCount == identified
    ensures inside <==> IdentifiedFit(users, ideal, |buffer.faces|)
    ensures inside ==> buffer.faces == Faces(users, ideal, true, |users|) + old(buffer.faces)[identified..]
    ensures inside ==>
      var p := Positions(users, true, |users|);
      && |p| == identified <= |buffer.faces|
      && forall i :: 0 <= i < identified ==>
           p[i] < |users| && buffer.faces[i] == FaceData(users[p[i]].faceId, ideal == Some(p[i]), users[p[i]].box, false, false, false)
  {
    identified, unidentified, inside := 0, 0, true;
    ghost var stale := buffer.faces;
    assert Filled([], stale) == stale;
    for i := 0 to |users|
      invariant identified == |Faces(users, ideal, true, i)| && unidentified == |Faces(users, ideal, false, i)|
      invariant |buffer.faces| == |stale| && (inside <==> identified <= |stale|)
      invariant inside ==> buffer.faces == Filled(Faces(users, ideal, true, i), stale)
    {
      NextUser(users, ideal, i);
      if users[i].faceId == 0 {
        unidentified := unidentified + 1;
        continue;
      }
      if identified < |buffer.faces| {
        var face := FaceData(users[i].faceId, ideal == Some(i), users[i].box, false, false, false);
        NextFilled(Faces(users, ideal, true, i), stale, face);
        buffer.faces := buffer.faces[identified := face];
      } else {
        inside := false;
      }
      identified := identified + 1;
    }
    buffer.faceCount := identified;
    FacesAreInOrder(users, ideal, true, |users|);
  }

  /** The whole buffer after the unidentified loop has written so many faces. */
  function Overwritten(faces: seq<FaceData>, stale: seq<FaceData>, k: nat): (slots: seq<FaceData>)
    requires |faces| <= |stale|
    ensures |slots| == |stale|
  {
    seq(|stale|, i requires 0 <= i < |stale| =>
      if i < |faces| then faces[i].(faceId := if i == k || faces[i].ideal then 0 else stale[i].faceId)
      else if i == k && faces != [] then stale[i].(faceId := 0) else stale[i])
  }

  /** One turn of that loop: slot k's id is zeroed, then the next slot's ideal flag and box are set, and its
      id too if this is the ideal user. */
  lemma NextOverwritten(faces: seq<FaceData>, stale: seq<FaceData>, k: nat, face: FaceData)
    requires |faces| < |stale| && k < |stale| && face.faceId == 0 && !face.hat && !face.glasses && !face.gloves
    ensures var zeroed := Overwritten(faces, stale, k)[k := Overwritten(faces, stale, k)[k].(faceId := 0)];
            var id := if face.ideal then 0 else zeroed[|faces|].faceId;
            zeroed[|faces| := face.(faceId := id)] == Overwritten(faces + [face], stale, k)
  {
  }

  /** What that turn writes: the id into slot k, everything else into the next slot. */
  method WriteUnidentified(buffer: Buffer, k: nat, slot: nat, box: Box, ideal: bool)
    requires k < |buffer.faces| && slot < |buffer.faces|
    modifies buffer`faces
    ensures var zeroed := old(buffer.faces)[k := old(buffer.faces)[k].(faceId := 0)];
            buffer.faces == zeroed[slot := FaceData(if ideal then 0 else zeroed[slot].faceId, ideal, box, false, false, false)]
  {
    buffer.faces := buffer.faces[k := buffer.faces[k].(faceId := 0)];
    var face := buffer.faces[slot];
    buffer.faces := buffer.faces[slot := FaceData(face.faceId, ideal, box, false, false, false)];
    if ideal {
      buffer.faces := buffer.faces[slot := buffer.faces[slot].(faceId := 0)];
    }
  }

  /** The second loop. */
  method FillUnidentified(buffer: Buffer, users: seq<TrackedUser>, ideal: Option<nat>, identified: nat) returns (unidentified: nat, inside: bool)
    requires ValidUsers(users) && identified == |Faces(users, ideal, true, |users|)|
    modifies buffer`faces, buffer`faceCount
    ensures |buffer.faces| == old(|buffer.faces|)
    ensures unidentified == buffer.faceCount == |Faces(users, ideal, false, |users|)|
    ensures inside <==> UnidentifiedFit(users, ideal, |buffer.faces|)
    ensures inside ==>
      && unidentified <= |buffer.faces|
      && buffer.faces[..unidentified] == WithStaleIds(Faces(users, ideal, false, |users|), old(buffer.faces), identified)
  {
    unidentified, inside := 0, true;
    ghost var stale := buffer.faces;
    assert Overwritten([], stale, identified) == stale;
    for i := 0 to |users|
      invariant unidentified == |Faces(users, ideal, false, i)| && |buffer.faces| == |stale|
      invariant inside <==> unidentified == 0 || (unidentified <= |stale| && identified < |stale|)
      invariant inside ==> buffer.faces == Overwritten(Faces(users, ideal, false, i), stale, identified)
    {
      NextUser(users, ideal, i);
      if users[i].faceId != 0 {
        continue;
      }
      if identified < |buffer.faces| && unidentified < |buffer.faces| {
        NextOverwritten(Faces(users, ideal, false, i), stale, identified, FaceOf(users[i], ideal == Some(i)));
        WriteUnidentified(buffer, identified, unidentified, users[i].box, ideal == Some(i));
      } else {
        inside := false;
      }
      unidentified := unidentified + 1;
    }
    buffer.faceCount := unidentified;
  }
}
