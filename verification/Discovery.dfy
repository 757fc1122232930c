/**
 * GARD discovery and HUB initialisation: one GARD per distinct profile id, each with
 * the busses that lead to it, and the choice of the active bus.
 * The profile id a bus answers with is an input; an answer is never 0.
 */
module Discovery {
  import opened Hub

  datatype BusType = Unknown | I2c | Uart | Pcie | Usb | MipiCsi2

  datatype BusHandle = BusHandle(number: nat, kind: BusType)

  type ProfileId = id: int | 0 < id < 0x1_0000_0000 witness 1

  /** What the discovery command brought back on each bus. */
  type Answers = seq<Option<ProfileId>>

  // ---- The intended grouping ----

  predicate IsFirst(answers: Answers, i: nat)
    requires i < |answers|
  {
    answers[i].Some? && forall j :: 0 <= j < i ==> answers[j] != answers[i]
  }

  /** The distinct ids, in the order of their first appearance among the first n busses. */
  function FirstIds(answers: Answers, n: nat): (ids: seq<ProfileId>)
    requires n <= |answers|
    ensures |ids| <= n
  {
    if n == 0 then [] else FirstIds(answers, n - 1) + if IsFirst(answers, n - 1) then [answers[n - 1].value] else []
  }

  /** The numbers of the busses that answer with `id`, ascending, among the first n. */
  function Members(answers: Answers, id: ProfileId, n: nat): (members: seq<nat>)
    requires n <= |answers|
    ensures |members| <= n && forall i :: 0 <= i < |members| ==> members[i] < n
  {
    if n == 0 then [] else Members(answers, id, n - 1) + if answers[n - 1] == Some(id) then [n - 1] else []
  }

  function Busses(busses: seq<BusHandle>, members: seq<nat>): seq<BusHandle>
    requires forall i :: 0 <= i < |members| ==> members[i] < |busses|
  {
    seq(|members|, i requires 0 <= i < |members| => busses[members[i]])
  }

  lemma {:induction false} MembersAreTheMatches(answers: Answers, id: ProfileId, n: nat)
    requires n <= |answers|
    ensures var m := Members(answers, id, n);
            && (forall i :: 0 <= i < |m| ==> m[i] < n && answers[m[i]] == Some(id))
            && (forall i, j :: 0 <= i < j < |m| ==> m[i] < m[j])
            && (forall k :: 0 <= k < n && answers[k] == Some(id) ==> k in m)
  {
    if n > 0 {
      MembersAreTheMatches(answers, id, n - 1);
      var shorter, m := Members(answers, id, n - 1), Members(answers, id, n);
      assert forall i :: 0 <= i < |m| ==> m[i] == if i < |shorter| then shorter[i] else n - 1;
      forall k | 0 <= k < n && answers[k] == Some(id) ensures k in m {
        if k == n - 1 {
          assert m[|m| - 1] == k;
        } else {
          assert k in shorter;
        }
      }
    }
  }

  /** One id is answered before the other is answered at all. */
  predicate Precedes(answers: Answers, id: ProfileId, other: ProfileId, n: nat)
    requires n <= |answers|
  {
    exists k :: 0 <= k < n && answers[k] == Some(id) && forall l :: 0 <= l <= k ==> answers[l] != Some(other)
  }

  lemma {:induction false} FirstIdsAreDistinct(answers: Answers, n: nat)
    requires n <= |answers|
    ensures var ids := FirstIds(answers, n);
            && (forall k :: 0 <= k < n && answers[k].Some? ==> answers[k].value in ids)
            && (forall i :: 0 <= i < |ids| ==> exists k :: 0 <= k < n && answers[k] == Some(ids[i]))
            && (forall i, j :: 0 <= i < j < |ids| ==> ids[i] != ids[j])
            && (forall i, j :: 0 <= i < j < |ids| ==> Precedes(answers, ids[i], ids[j], n))
  {
    if n > 0 {
      FirstIdsAreDistinct(answers, n - 1);
      var shorter, ids := FirstIds(answers, n - 1), FirstIds(answers, n);
      forall k | 0 <= k < n && answers[k].Some? ensures answers[k].value in ids {
        if k < n - 1 {
          assert answers[k].value in shorter;
        } else if IsFirst(answers, k) {
          assert ids[|ids| - 1] == answers[k].value;
        } else {
          var j :| 0 <= j < k && answers[j] == answers[k];
          assert answers[j].value in shorter;
        }
      }
      forall i | 0 <= i < |ids| ensures exists k :: 0 <= k < n && answers[k] == Some(ids[i]) {
        if i < |shorter| {
          var k :| 0 <= k < n - 1 && answers[k] == Some(shorter[i]);
          assert answers[k] == Some(ids[i]);
        } else {
          assert answers[n - 1] == Some(ids[i]);
        }
      }
      if IsFirst(answers, n - 1) {
        forall i | 0 <= i < |shorter| ensures shorter[i] != answers[n - 1].value {
          var k :| 0 <= k < n - 1 && answers[k] == Some(shorter[i]);
        }
      }
    }
  }

  /** The groups partition the responding busses: every responding bus is in the group of exactly one GARD,
      and no other bus is in any. */
  lemma GroupsPartitionTheRespondingBusses(answers: Answers)
    ensures var ids := FirstIds(answers, |answers|);
            && (forall k :: 0 <= k < |answers| ==>
                 (answers[k].Some? <==> exists g :: 0 <= g < |ids| && k in Members(answers, ids[g], |answers|)))
            && (forall g, h, k :: 0 <= g < h < |ids| && k in Members(answers, ids[g], |answers|) ==>
                 k !in Members(answers, ids[h], |answers|))
  {
    var ids := FirstIds(answers, |answers|);
    FirstIdsAreDistinct(answers, |answers|);
    forall g | 0 <= g < |ids|
      ensures forall k :: k in Members(answers, ids[g], |answers|) <==> 0 <= k < |answers| && answers[k] == Some(ids[g])
    {
      MembersAreTheMatches(answers, ids[g], |answers|);
    }
    forall k | 0 <= k < |answers| && answers[k].Some?
      ensures exists g :: 0 <= g < |ids| && k in Members(answers, ids[g], |answers|)
    {
      var g :| 0 <= g < |ids| && ids[g] == answers[k].value;
      assert k in Members(answers, ids[g], |answers|);
    }
  }

  // ---- What the code stores ----

  datatype Device = Device(bus: Option<BusHandle>, profileId: int, isUnique: bool)

  const NO_DEVICE := Device(None, 0, false)

  /** The state of the HUB's records for a GARD; a bus slot that was never written is None. */
  datatype GardInfo = GardInfo(profileId: int, numBusses: nat, dalBusses: seq<Option<BusHandle>>, activeBus: Option<BusHandle>)

  function DeviceAt(busses: seq<BusHandle>, answers: Answers, i: nat): Device
    requires i < |busses| == |answers|
  {
    match answers[i]
    case None => NO_DEVICE
    case Some(id) => Device(Some(busses[i]), id, IsFirst(answers, i))
  }

  predicate DevicesMatch(devices: seq<Device>, busses: seq<BusHandle>, answers: Answers, n: nat)
    requires |busses| == |answers| && n <= |devices| == |answers|
  {
    && (forall i :: 0 <= i < n ==> devices[i] == DeviceAt(busses, answers, i))
    && (forall i :: n <= i < |answers| ==> devices[i] == NO_DEVICE)
  }

  /** The first loop: talk to every bus and count the distinct ids. */
  method DiscoverDevices(busses: seq<BusHandle>, answers: Answers) returns (devices: array<Device>, numGards: nat)
    requires |busses| == |answers|
    ensures fresh(devices) && devices.Length == |answers| && DevicesMatch(devices[..], busses, answers, |answers|)
    ensures numGards == |FirstIds(answers, |answers|)|
  {
    devices := new Device[|busses|](_ => NO_DEVICE);
    numGards := 0;
    for i := 0 to |busses|
      invariant DevicesMatch(devices[..], busses, answers, i)
      invariant numGards == |FirstIds(answers, i)|
    {
      if answers[i].Some? {
        var profileId := answers[i].value;
        devices[i] := Device(Some(busses[i]), profileId, true);
        var j := 0;
        while j < i
          invariant 0 <= j <= i && DevicesMatch(devices[..][i := NO_DEVICE], busses, answers, i)
          invariant devices[i] == Device(Some(busses[i]), profileId, true)
          invariant forall k :: 0 <= k < j ==> answers[k] != answers[i]
        {
          assert devices[j] == devices[..][i := NO_DEVICE][j];
          if devices[j].profileId == profileId {
            devices[i] := devices[i].(isUnique := false);
            break;
          }
          j := j + 1;
        }
        assert j < i ==> answers[j] == answers[i];
        assert devices[i].isUnique <==> IsFirst(answers, i);
        if devices[i].isUnique {
          numGards := numGards + 1;
        }
      }
    }
  }

  /** The busses of a GARD among the first k, each in the slot of its own number if there is one. */
  predicate ListedByNumber(list: seq<Option<BusHandle>>, busses: seq<BusHandle>, answers: Answers, id: ProfileId, k: nat)
    requires |list| <= |busses| == |answers|
  {
    forall i :: 0 <= i < |list| ==> list[i] == if i < k && answers[i] == Some(id) then Some(busses[i]) else None
  }

  /** The same busses, one behind the other. */
  predicate ListedByCount(list: seq<Option<BusHandle>>, busses: seq<BusHandle>, answers: Answers, id: ProfileId, k: nat)
    requires k <= |busses| == |answers|
  {
    var m := Members(answers, id, k);
    |m| <= |list| && forall p :: 0 <= p < |m| ==> list[p] == Some(busses[m[p]])
  }

  lemma NextByCount(list: seq<Option<BusHandle>>, busses: seq<BusHandle>, answers: Answers, id: ProfileId, k: nat)
    requires k < |busses| == |answers| && answers[k] == Some(id)
    requires |Members(answers, id, k)| < |list| && ListedByCount(list, busses, answers, id, k)
    ensures ListedByCount(list[|Members(answers, id, k)| := Some(busses[k])], busses, answers, id, k + 1)
  {
    assert Members(answers, id, k + 1) == Members(answers, id, k) + [k];
  }

  lemma NextByNumber(list: seq<Option<BusHandle>>, busses: seq<BusHandle>, answers: Answers, id: ProfileId, k: nat)
    requires k < |busses| == |answers| && |list| <= |busses| && answers[k] == Some(id) && ListedByNumber(list, busses, answers, id, k)
    ensures ListedByNumber(if k < |list| then list[k := Some(busses[k])] else list, busses, answers, id, k + 1)
  {
  }

  lemma RoomForTheNext(answers: Answers, id: ProfileId, k: nat)
    requires k < |answers| && answers[k] == Some(id)
    ensures |Members(answers, id, k)| < |Members(answers, id, |answers|)|
  {
    MembersArePrefixes(answers, id, k + 1, |answers|);
  }

  /** The busses of one GARD. The source indexes the list by the number of the bus, and keeps a count of the
      busses recorded so far that it does not use: `byCount` tells which of the two is the index, `inBounds`
      whether every write fell inside the list. */
  method RecordBusses(devices: array<Device>, profileId: ProfileId, numBusses: nat, byCount: bool, busses: seq<BusHandle>, answers: Answers)
    returns (dalBusses: seq<Option<BusHandle>>, inBounds: bool)
    requires |busses| == |answers| == devices.Length && DevicesMatch(devices[..], busses, answers, |answers|)
    requires numBusses == |Members(answers, profileId, |answers|)|
    ensures |dalBusses| == numBusses
    ensures if byCount then inBounds && dalBusses == Record(busses, answers, profileId).dalBusses
            else
              && (inBounds <==> IndicesFit(answers, profileId))
              && ListedByNumber(dalBusses, busses, answers, profileId, |answers|)
  {
    dalBusses := seq(numBusses, _ => None);
    inBounds := true;
    var cnt := 0;
    for k := 0 to devices.Length
      invariant |dalBusses| == numBusses && cnt == |Members(answers, profileId, k)|
      invariant if byCount then inBounds && ListedByCount(dalBusses, busses, answers, profileId, k)
                else
                  && (inBounds <==> forall i :: 0 <= i < k && answers[i] == Some(profileId) ==> i < numBusses)
                  && ListedByNumber(dalBusses, busses, answers, profileId, k)
    {
      assert devices[k] == devices[..][k] == DeviceAt(busses, answers, k);
      if devices[k].profileId == profileId {
        RoomForTheNext(answers, profileId, k);
        if byCount {
          NextByCount(dalBusses, busses, answers, profileId, k);
        } else {
          NextByNumber(dalBusses, busses, answers, profileId, k);
        }
        var index := if byCount then cnt else k;
        if index < numBusses {
          dalBusses := dalBusses[index := devices[k].bus];
        } else {
          inBounds := false;
        }
        cnt := cnt + 1;
      }
    }
  }

  lemma {:induction false} MembersArePrefixes(answers: Answers, id: ProfileId, n: nat, end: nat)
    requires n <= end <= |answers|
    ensures Members(answers, id, n) <= Members(answers, id, end)
  {
    if n < end {
      MembersArePrefixes(answers, id, n, end - 1);
    }
  }

  method CountBusses(devices: array<Device>, profileId: ProfileId, busses: seq<BusHandle>, answers: Answers) returns (count: nat)
    requires |busses| == |answers| == devices.Length && DevicesMatch(devices[..], busses, answers, |answers|)
    ensures count == |Members(answers, profileId, |answers|)|
  {
    count := 0;
    for k := 0 to devices.Length
      invariant count == |Members(answers, profileId, k)|
    {
      assert devices[k] == devices[..][k];
      if devices[k].profileId == profileId {
        count := count + 1;
      }
    }
  }

  /** What discovery leaves for a GARD when no write goes astray. */
  function Record(busses: seq<BusHandle>, answers: Answers, id: ProfileId): GardInfo
    requires |busses| == |answers|
  {
    var list := Busses(busses, Members(answers, id, |answers|));
    GardInfo(id, |list|, seq(|list|, i requires 0 <= i < |list| => Some(list[i])), None)
  }

  /** Every bus that answers with the id has a number below the count of such busses. */
  predicate IndicesFit(answers: Answers, id: ProfileId)
  {
    forall k :: 0 <= k < |answers| && answers[k] == Some(id) ==> k < |Members(answers, id, |answers|)|
  }

  lemma {:induction false} MembersOfAFullPrefix(answers: Answers, id: ProfileId, n: nat)
    requires n <= |answers| && |Members(answers, id, n)| == n
    ensures Members(answers, id, n) == seq(n, i => i)
    ensures forall k :: 0 <= k < n ==> answers[k] == Some(id)
  {
    if n > 0 {
      MembersOfAFullPrefix(answers, id, n - 1);
    }
  }

  lemma {:induction false} MembersStopGrowing(answers: Answers, id: ProfileId, n: nat, end: nat)
    requires n <= end <= |answers| && forall k :: n <= k < end ==> answers[k] != Some(id)
    ensures Members(answers, id, end) == Members(answers, id, n)
  {
    if n < end {
      MembersStopGrowing(answers, id, n, end - 1);
    }
  }

  /** If the indices fit, the busses of the GARD are exactly the first ones. */
  lemma FittingIndicesAreAPrefix(answers: Answers, id: ProfileId)
    requires IndicesFit(answers, id)
    ensures var count := |Members(answers, id, |answers|)|;
            && Members(answers, id, |answers|) == seq(count, i => i)
            && forall k :: 0 <= k < |answers| ==> (answers[k] == Some(id) <==> k < count)
  {
    var count := |Members(answers, id, |answers|)|;
    MembersStopGrowing(answers, id, count, |answers|);
    MembersOfAFullPrefix(answers, id, count);
  }

  /** Once a bus has not answered, or has answered differently, no later bus answers. */
  predicate SingleLeadingGroup(answers: Answers)
  {
    forall i, j :: 0 <= i < j < |answers| && answers[j].Some? ==> answers[i] == answers[j]
  }

  /** Bus lists are written inside their bounds for every GARD exactly when the responding busses are the
      first ones and all lead to the same GARD. */
  lemma IndicesFitIffSingleLeadingGroup(answers: Answers)
    ensures (forall k :: 0 <= k < |answers| && answers[k].Some? ==> IndicesFit(answers, answers[k].value))
            <==> SingleLeadingGroup(answers)
  {
    if forall k :: 0 <= k < |answers| && answers[k].Some? ==> IndicesFit(answers, answers[k].value) {
      forall i, j | 0 <= i < j < |answers| && answers[j].Some? ensures answers[i] == answers[j] {
        FittingIndicesAreAPrefix(answers, answers[j].value);
      }
    }
    if SingleLeadingGroup(answers) {
      forall k | 0 <= k < |answers| && answers[k].Some? ensures IndicesFit(answers, answers[k].value) {
        forall j | 0 <= j < |answers| && answers[j] == answers[k]
          ensures j < |Members(answers, answers[k].value, |answers|)|
        {
          MembersOfALeadingRun(answers, answers[k].value, j + 1);
          MembersGrow(answers, answers[k].value, j + 1, |answers|);
        }
      }
    }
  }

  lemma {:induction false} MembersOfALeadingRun(answers: Answers, id: ProfileId, n: nat)
    requires n <= |answers| && forall k :: 0 <= k < n ==> answers[k] == Some(id)
    ensures |Members(answers, id, n)| == n
  {
    if n > 0 {
      MembersOfALeadingRun(answers, id, n - 1);
    }
  }

  lemma {:induction false} MembersGrow(answers: Answers, id: ProfileId, n: nat, end: nat)
    requires n <= end <= |answers|
    ensures |Members(answers, id, n)| <= |Members(answers, id, end)|
  {
    if n < end {
      MembersGrow(answers, id, n, end - 1);
    }
  }

  /** Two GARDs on two busses: the second GARD's only bus is written behind its one-element list. */
  lemma TwoGardsDoNotFit()
    ensures !SingleLeadingGroup([Some(7), Some(8)])
    ensures Members([Some(7), Some(8)], 8, 2) == [1] && !IndicesFit([Some(7), Some(8)], 8)
  {
    var answers: Answers := [Some(7), Some(8)];
    assert answers[0] != answers[1];
    assert Members(answers, 8, 1) == Members(answers, 8, 0);
    assert Members(answers, 8, 2) == [1];
    assert answers[1] == Some(8);
  }

  /** The record of a GARD as the code makes it: complete if its indices fit, else only counted. */
  predicate Recorded(gard: GardInfo, busses: seq<BusHandle>, answers: Answers, id: ProfileId)
    requires |busses| == |answers|
  {
    && gard.profileId == id && gard.activeBus == None
    && gard.numBusses == |gard.dalBusses| == |Members(answers, id, |answers|)|
    && (IndicesFit(answers, id) ==> gard == Record(busses, answers, id))
  }

  /** The record of one GARD: count its busses, then list them. */
  method RecordGard(devices: array<Device>, profileId: ProfileId, byCount: bool, busses: seq<BusHandle>, answers: Answers)
    returns (gard: GardInfo, inBounds: bool)
    requires |busses| == |answers| == devices.Length && DevicesMatch(devices[..], busses, answers, |answers|)
    ensures Recorded(gard, busses, answers, profileId)
    ensures inBounds <==> byCount || IndicesFit(answers, profileId)
    ensures inBounds ==> gard == Record(busses, answers, profileId)
    ensures RecordedBy(gard, busses, answers, profileId, byCount)
  {
    var count := CountBusses(devices, profileId, busses, answers);
    var list;
    list, inBounds := RecordBusses(devices, profileId, count, byCount, busses, answers);
    gard := GardInfo(profileId, count, list, None);
    if !byCount {
      RecordedListIsTheGroup(busses, answers, profileId, list);
    }
  }

  /** Discovery. The GARDs, their number, order and bus counts are right for all answers; the bus lists are
      right, and all writes are inside them, exactly when they are indexed by the count, or when the busses of a
      single GARD come first. */
  method DiscoverGards(busses: seq<BusHandle>, answers: Answers, byCount: bool) returns (gards: array<GardInfo>, inBounds: bool)
    requires |busses| == |answers|
    ensures fresh(gards)
    ensures gards.Length == |FirstIds(answers, |answers|)|
    ensures forall g :: 0 <= g < gards.Length ==> Recorded(gards[g], busses, answers, FirstIds(answers, |answers|)[g])
    ensures inBounds <==> byCount || SingleLeadingGroup(answers)
    ensures inBounds ==> forall g :: 0 <= g < gards.Length ==> gards[g] == Record(busses, answers, FirstIds(answers, |answers|)[g])
  {
    var devices, numGards := DiscoverDevices(busses, answers);
    gards := new GardInfo[numGards](_ => GardInfo(0, 0, [], None));
    ghost var ids, found := FirstIds(answers, |answers|), devices[..];
    var j := 0;
    inBounds := true;
    for i := 0 to |busses|
      invariant devices[..] == found
      invariant j == |FirstIds(answers, i)| <= numGards && FirstIds(answers, i) <= ids
      invariant forall g :: 0 <= g < j ==> RecordedBy(gards[g], busses, answers, ids[g], byCount)
      invariant inBounds <==> byCount || forall g :: 0 <= g < j ==> IndicesFit(answers, ids[g])
    {
      assert devices[i] == devices[..][i];
      FirstIdsAreAPrefix(answers, i + 1, |answers|);
      if devices[i].isUnique {
        var ok;
        gards[j], ok := RecordGard(devices, answers[i].value, byCount, busses, answers);
        assert ids[j] == answers[i].value;
        inBounds := inBounds && ok;
        j := j + 1;
      }
    }
    AllFitIff(answers);
    assert forall g :: 0 <= g < gards.Length ==> RecordedBy(gards[g], busses, answers, ids[g], byCount);
  }

  /** The same, with the list indexed by the count if `byCount`: then it is always complete. */
  predicate RecordedBy(gard: GardInfo, busses: seq<BusHandle>, answers: Answers, id: ProfileId, byCount: bool)
    requires |busses| == |answers|
  {
    Recorded(gard, busses, answers, id) && (byCount ==> gard == Record(busses, answers, id))
  }

  lemma AllFitIff(answers: Answers)
    ensures SingleLeadingGroup(answers) <==>
            forall g :: 0 <= g < |FirstIds(answers, |answers|)| ==> IndicesFit(answers, FirstIds(answers, |answers|)[g])
  {
    EveryIdIsFirstSomewhere(answers);
    IndicesFitIffSingleLeadingGroup(answers);
  }

  lemma {:induction false} FirstIdsAreAPrefix(answers: Answers, n: nat, end: nat)
    requires n <= end <= |answers|
    ensures FirstIds(answers, n) <= FirstIds(answers, end)
  {
    if n < end {
      FirstIdsAreAPrefix(answers, n, end - 1);
    }
  }

  lemma EveryIdIsFirstSomewhere(answers: Answers)
    ensures (forall g :: 0 <= g < |FirstIds(answers, |answers|)| ==> IndicesFit(answers, FirstIds(answers, |answers|)[g]))
            <==> (forall k :: 0 <= k < |answers| && answers[k].Some? ==> IndicesFit(answers, answers[k].value))
  {
    FirstIdsAreDistinct(answers, |answers|);
  }

  lemma RecordedListIsTheGroup(busses: seq<BusHandle>, answers: Answers, id: ProfileId, list: seq<Option<BusHandle>>)
    requires |busses| == |answers| && |list| == |Members(answers, id, |answers|)|
    requires ListedByNumber(list, busses, answers, id, |answers|)
    ensures IndicesFit(answers, id) ==> GardInfo(id, |list|, list, None) == Record(busses, answers, id)
  {
    if IndicesFit(answers, id) {
      FittingIndicesAreAPrefix(answers, id);
      MembersAreTheMatches(answers, id, |answers|);
      forall k | 0 <= k < |list| ensures list[k] == Some(busses[Members(answers, id, |answers|)[k]]) {
        assert answers[k] == Some(id);
      }
    }
  }

  // ---- Choosing the active bus ----

  datatype HubState = PreinitDone | DiscoverDone | InitDone

  predicate HasUart(busses: seq<Option<BusHandle>>)
  {
    exists k :: 0 <= k < |busses| && busses[k].Some? && busses[k].value.kind == Uart
  }

  /** The first UART bus of the list. */
  predicate IsFirstUart(busses: seq<Option<BusHandle>>, bus: BusHandle)
  {
    exists k :: 0 <= k < |busses| && busses[k] == Some(bus) && bus.kind == Uart && !HasUart(busses[..k])
  }

  method ChooseActiveBus(busses: seq<Option<BusHandle>>, current: Option<BusHandle>) returns (active: Option<BusHandle>)
    requires forall k :: 0 <= k < |busses| ==> busses[k].Some?
    ensures if HasUart(busses) then active.Some? && IsFirstUart(busses, active.value) else active == current
  {
    for k := 0 to |busses|
      invariant !HasUart(busses[..k])
    {
      if busses[k].value.kind == Uart {
        return busses[k];
      }
      assert forall i :: 0 <= i < k + 1 ==> busses[..k + 1][i] == if i < k then busses[..k][i] else busses[k];
    }
    assert busses[..|busses|] == busses;
    active := current;
  }

  /** hub_init: it succeeds exactly when every GARD can be reached over a UART, and then the first UART bus
      of each is the active one. */
  method InitHub(state: HubState, gards: array<GardInfo>) returns (ok: bool, newState: HubState)
    requires forall g :: 0 <= g < gards.Length ==> gards[g].activeBus == None
    requires forall g, k :: 0 <= g < gards.Length && 0 <= k < |gards[g].dalBusses| ==> gards[g].dalBusses[k].Some?
    modifies gards
    ensures ok <==> state == DiscoverDone && forall g :: 0 <= g < gards.Length ==> HasUart(old(gards[g].dalBusses))
    ensures newState == if ok then InitDone else state
    ensures forall g :: 0 <= g < gards.Length ==> gards[g] == old(gards[g]).(activeBus := gards[g].activeBus)
    ensures ok ==> forall g :: 0 <= g < gards.Length ==> gards[g].activeBus.Some? && IsFirstUart(gards[g].dalBusses, gards[g].activeBus.value)
  {
    if state != DiscoverDone {
      return false, state;
    }
    for i := 0 to gards.Length
      invariant forall g :: 0 <= g < gards.Length ==> gards[g] == old(gards[g]).(activeBus := gards[g].activeBus)
      invariant forall g :: i <= g < gards.Length ==> gards[g] == old(gards[g])
      invariant forall g :: 0 <= g < i ==> HasUart(gards[g].dalBusses) && gards[g].activeBus.Some? && IsFirstUart(gards[g].dalBusses, gards[g].activeBus.value)
    {
      var active := ChooseActiveBus(gards[i].dalBusses, gards[i].activeBus);
      gards[i] := gards[i].(activeBus := active);
      if active.None? {
        return false, state;
      }
    }
    return true, InitDone;
  }

  predicate HasUartBus(busses: seq<BusHandle>, answers: Answers, id: ProfileId)
    requires |busses| == |answers|
  {
    exists k :: 0 <= k < |busses| && answers[k] == Some(id) && busses[k].kind == Uart
  }

  predicate NoUartBefore(busses: seq<BusHandle>, answers: Answers, id: ProfileId, k: int)
    requires |busses| == |answers| && k <= |busses|
  {
    forall i :: 0 <= i < k && answers[i] == Some(id) ==> busses[i].kind != Uart
  }

  /** The bus is the first of those that lead to the GARD over a UART. */
  predicate IsFirstUartOf(busses: seq<BusHandle>, answers: Answers, id: ProfileId, bus: BusHandle)
    requires |busses| == |answers|
  {
    exists k :: 0 <= k < |busses| && answers[k] == Some(id) && busses[k] == bus && bus.kind == Uart && NoUartBefore(busses, answers, id, k)
  }

  /** If the lines are distinct, that tells one bus, and of all of the GARD's over a UART it has the least place. */
  lemma FirstUartIsLeast(busses: seq<BusHandle>, answers: Answers, id: ProfileId, k: nat)
    requires |busses| == |answers| && k < |busses| && forall i, j :: 0 <= i < j < |busses| ==> busses[i] != busses[j]
    ensures IsFirstUartOf(busses, answers, id, busses[k]) <==>
            && answers[k] == Some(id) && busses[k].kind == Uart
            && forall i :: 0 <= i < k && answers[i] == Some(id) ==> busses[i].kind != Uart
  {
    if answers[k] == Some(id) && busses[k].kind == Uart && NoUartBefore(busses, answers, id, k) {
      assert IsFirstUartOf(busses, answers, id, busses[k]);
    }
  }

  /** The p-th bus of a GARD's list. */
  lemma GroupAt(busses: seq<BusHandle>, answers: Answers, id: ProfileId, p: nat)
    requires |busses| == |answers| && p < |Members(answers, id, |answers|)|
    ensures var m := Members(answers, id, |answers|)[p];
            answers[m] == Some(id) && Record(busses, answers, id).dalBusses[p] == Some(busses[m])
  {
    MembersAreTheMatches(answers, id, |answers|);
  }

  /** What the list of a GARD says of UART busses is what the answers say. */
  lemma GroupHasUart(busses: seq<BusHandle>, answers: Answers, id: ProfileId)
    requires |busses| == |answers|
    ensures HasUart(Record(busses, answers, id).dalBusses) <==> HasUartBus(busses, answers, id)
  {
    var m, list := Members(answers, id, |answers|), Record(busses, answers, id).dalBusses;
    if k :| 0 <= k < |busses| && answers[k] == Some(id) && busses[k].kind == Uart {
      MembersAreTheMatches(answers, id, |answers|);
      var i :| 0 <= i < |m| && m[i] == k;
      assert list[i].value.kind == Uart;
    }
    if i :| 0 <= i < |list| && list[i].Some? && list[i].value.kind == Uart {
      GroupAt(busses, answers, id, i);
    }
  }

  lemma NoUartInFront(busses: seq<BusHandle>, answers: Answers, id: ProfileId, p: nat)
    requires |busses| == |answers| && p < |Members(answers, id, |answers|)|
    requires !HasUart(Record(busses, answers, id).dalBusses[..p])
    ensures NoUartBefore(busses, answers, id, Members(answers, id, |answers|)[p])
  {
    var m, front := Members(answers, id, |answers|), Record(busses, answers, id).dalBusses[..p];
    MembersAreTheMatches(answers, id, |answers|);
    forall i | 0 <= i < m[p] && answers[i] == Some(id)
      ensures busses[i].kind != Uart
    {
      var q :| 0 <= q < |m| && m[q] == i;
      assert q < p;
      assert front[q] == Some(busses[i]);
    }
  }

  lemma FirstUartOfTheGroup(busses: seq<BusHandle>, answers: Answers, id: ProfileId, bus: BusHandle)
    requires |busses| == |answers| && IsFirstUart(Record(busses, answers, id).dalBusses, bus)
    ensures IsFirstUartOf(busses, answers, id, bus)
  {
    var list := Record(busses, answers, id).dalBusses;
    var p :| 0 <= p < |list| && list[p] == Some(bus) && bus.kind == Uart && !HasUart(list[..p]);
    GroupAt(busses, answers, id, p);
    NoUartInFront(busses, answers, id, p);
  }

  /** All GARDs can be reached over a UART if each bus that answers is one of a GARD that can. */
  lemma AllHaveUartIff(busses: seq<BusHandle>, answers: Answers)
    requires |busses| == |answers|
    ensures (forall g :: 0 <= g < |FirstIds(answers, |answers|)| ==> HasUartBus(busses, answers, FirstIds(answers, |answers|)[g])) <==>
            (forall k :: 0 <= k < |answers| && answers[k].Some? ==> HasUartBus(busses, answers, answers[k].value))
  {
    FirstIdsAreDistinct(answers, |answers|);
  }

  /** Discovery and initialisation together: with the lists indexed by the count for all answers, and as the code
      stands for those that it handles. They succeed exactly when every GARD has a UART, and then each GARD's
      active bus is its first UART. */
  method BringUp(busses: seq<BusHandle>, answers: Answers, byCount: bool) returns (ok: bool, gards: array<GardInfo>)
    requires |busses| == |answers| && (byCount || SingleLeadingGroup(answers))
    ensures gards.Length == |FirstIds(answers, |answers|)|
    ensures ok <==> forall k :: 0 <= k < |answers| && answers[k].Some? ==>
      exists j :: 0 <= j < |busses| && answers[j] == answers[k] && busses[j].kind == Uart
    ensures ok ==> forall g :: 0 <= g < gards.Length ==>
      && gards[g].activeBus.Some? && gards[g].profileId == FirstIds(answers, |answers|)[g]
      && IsFirstUartOf(busses, answers, gards[g].profileId, gards[g].activeBus.value)
  {
    var inBounds;
    gards, inBounds := DiscoverGards(busses, answers, byCount);
    ghost var before, ids := gards[..], FirstIds(answers, |answers|);
    forall g | 0 <= g < |ids|
      ensures HasUart(before[g].dalBusses) <==> HasUartBus(busses, answers, ids[g])
    {
      assert before[g] == Record(busses, answers, ids[g]);
      GroupHasUart(busses, answers, ids[g]);
    }
    AllHaveUartIff(busses, answers);
    var state: HubState;
    ok, state := InitHub(DiscoverDone, gards);
    if ok {
      forall g | 0 <= g < |ids|
        ensures IsFirstUartOf(busses, answers, ids[g], gards[g].activeBus.value)
      {
        assert gards[g].dalBusses == before[g].dalBusses == Record(busses, answers, ids[g]).dalBusses;
        FirstUartOfTheGroup(busses, answers, ids[g], gards[g].activeBus.value);
      }
    }
  }
}
