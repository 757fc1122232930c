/**
 * The request/response socket between the C server and the Python client: loops that
 * move exactly as many bytes as asked for however the stream is cut, and the layout of
 * the LIST and UPDATE messages on both sides.
 */
module ProfileWire {
  import opened Bytes
  import opened Hub
  import opened MetadataLayout
  import opened FaceDatabase
  import opened Mailbox

  // ---- Moving bytes ----

  /** What one recv() or send() does: moves at most so many bytes, is interrupted, or fails. */
  datatype SocketEvent = Chunk(size: nat) | Interrupted | Failed

  /** A transfer that is complete, broken off, or still going on when the events end. */
  datatype Progress = Complete | Broken | Underway

  /** Every event is harmless: it fails nothing and, when receiving, does not report the end of the stream. */
  predicate Harmless(events: seq<SocketEvent>)
  {
    forall i :: 0 <= i < |events| ==> !events[i].Failed? && events[i] != Chunk(0)
  }

  function Moved(events: seq<SocketEvent>): nat
  {
    if events == [] then 0 else (if events[0].Chunk? then events[0].size else 0) + Moved(events[1..])
  }

  lemma {:induction false} MovedExtends(events: seq<SocketEvent>, n: nat)
    requires n < |events|
    ensures Moved(events[..n + 1]) == Moved(events[..n]) + if events[n].Chunk? then events[n].size else 0
  {
    if n > 0 {
      MovedExtends(events[1..], n - 1);
      assert events[..n + 1][1..] == events[1..][..n] && events[..n][1..] == events[1..][..n - 1];
    } else {
      assert events[..1] == [events[0]] && events[..1][1..] == [];
    }
  }

  lemma {:induction false} MovedGrows(events: seq<SocketEvent>, n: nat)
    requires n <= |events|
    ensures Moved(events[..n]) <= Moved(events)
  {
    if n > 0 {
      MovedGrows(events[1..], n - 1);
      assert events[..n][1..] == events[1..][..n - 1];
    }
  }

  /** recv_all of the server: whatever the cuts, it ends with exactly the first `length` bytes or reports that
      it broke off; with harmless events it completes as soon as they offer enough. `used` is the number of
      events it took. */
  method RecvAll(line: seq<byte>, length: nat, events: seq<SocketEvent>) returns (p: Progress, got: seq<byte>, used: nat)
    ensures used <= |events|
    ensures got <= line && |got| <= length
    ensures p == Complete <==> |got| == length
    ensures Harmless(events) && length <= |line| ==> !p.Broken? && (p == Complete <==> Moved(events) >= length)
  {
    got := [];
    var turn := 0;
    while |got| < length
      invariant 0 <= turn <= |events| && got <= line && |got| <= length
      invariant Harmless(events) && length <= |line| ==> |got| == Min(length, Moved(events[..turn]))
      decreases |events| - turn
    {
      if turn == |events| {
        assert events[..turn] == events;
        return Underway, got, turn;
      }
      MovedExtends(events, turn);
      MovedGrows(events, turn + 1);
      var event := events[turn];
      turn := turn + 1;
      match event {
        case Failed => return Broken, got, turn;
        case Interrupted =>
        case Chunk(size) =>
          var n := Min(Min(size, length - |got|), |line| - |got|);
          if n == 0 {
            return Broken, got, turn;
          }
          got := line[..|got| + n];
      }
    }
    MovedGrows(events, turn);
    return Complete, got, turn;
  }

  /** send_all of the server. */
  method SendAll(data: seq<byte>, events: seq<SocketEvent>) returns (p: Progress, sent: seq<byte>, used: nat)
    ensures used <= |events|
    ensures sent <= data && (p == Complete <==> sent == data)
    ensures Failed !in events ==> !p.Broken? && (p == Complete <==> Moved(events) >= |data|)
  {
    sent := [];
    var turn := 0;
    while |sent| < |data|
      invariant 0 <= turn <= |events| && sent <= data
      invariant Failed !in events ==> |sent| == Min(|data|, Moved(events[..turn]))
      decreases |events| - turn
    {
      if turn == |events| {
        assert events[..turn] == events;
        return Underway, sent, turn;
      }
      MovedExtends(events, turn);
      var event := events[turn];
      turn := turn + 1;
      match event {
        case Failed => return Broken, sent, turn;
        case Interrupted =>
        case Chunk(size) => sent := data[..|sent| + Min(size, |data| - |sent|)];
      }
    }
    MovedGrows(events, turn);
    return Complete, sent, turn;
  }

  /** recv_exact of the client, which grows its buffer chunk by chunk; None stands for a closed connection. */
  method RecvExact(line: seq<byte>, n: nat, sizes: seq<nat>) returns (r: Option<seq<byte>>)
    requires forall i :: 0 <= i < |sizes| ==> sizes[i] > 0
    requires Min(n, |line| + 1) <= |sizes|
    ensures r == if n <= |line| then Some(line[..n]) else None
  {
    var buffer: seq<byte> := [];
    var turn := 0;
    while |buffer| < n
      invariant buffer <= line && |buffer| <= n && 0 <= turn <= |buffer|
      decreases n - |buffer|
    {
      var chunk := line[|buffer|..|buffer| + Min(Min(sizes[turn], n - |buffer|), |line| - |buffer|)];
      if chunk == [] {
        assert |buffer| == |line|;
        return None;
      }
      assert line[..|buffer|] + chunk == line[..|buffer| + |chunk|];
      buffer := buffer + chunk;
      turn := turn + 1;
    }
    assert buffer == line[..n];
    r := Some(buffer);
  }

  // ---- Layouts ----

  const UPDATE_COMMAND := 4
  const LIST_COMMAND := 5
  const NAME_ARRAY := 256
  const NAME_FIELD := 255
  const PROFILE_SIZE := 260

  function Field32(n: uint32): (s: seq<byte>)
    ensures |s| == 4
  {
    ToLittleEndian(n, 4)
  }

  function Read32(s: seq<byte>): (n: uint32)
    requires |s| == 4
  {
    CapacityOfFieldWidths();
    EncodeDecoded(s);
    FromLittleEndian(s)
  }

  lemma Read32OfField(n: uint32)
    ensures Read32(Field32(n)) == n
  {
    CapacityOfFieldWidths();
    DecodeEncoded(n, 4);
  }

  /** The text in a character array: up to its NUL. */
  function CString(field: seq<byte>): (s: seq<byte>)
    ensures |s| <= |field| && 0 !in s
  {
    if field == [] || field[0] == 0 then [] else [field[0]] + CString(field[1..])
  }

  lemma {:induction false} CStringStopsAtNul(s: seq<byte>, behind: seq<byte>)
    ensures CString(s + [0] + behind) == CString(s)
    ensures 0 !in s ==> CString(s) == s
  {
    if s != [] {
      assert (s + [0] + behind)[1..] == s[1..] + [0] + behind;
      CStringStopsAtNul(s[1..], behind);
    }
  }

  /** The fixed arrays holding the names of a table: each the text, its NUL, and whatever was behind before. */
  predicate Store(fields: seq<seq<byte>>, t: Table)
  {
    && |fields| == |t|
    && (forall i :: 0 <= i < |fields| ==> |fields[i]| == NAME_ARRAY)
    && (forall i :: 0 <= i < |fields| ==> CString(fields[i]) == t[i].name && |t[i].name| < NAME_ARRAY)
  }

  /** The bytes of a field, the lowest first. */
  lemma FieldBytes(n: uint32)
    ensures var s := Field32(n); s[0] as int + 0x100 * s[1] as int + 0x1_0000 * s[2] as int + 0x100_0000 * s[3] as int == n
  {
    Read32OfField(n);
    LowByteFirst(Field32(n));
  }

  lemma SmallField(n: byte)
    ensures Field32(n) == [n, 0, 0, 0]
  {
    FieldBytes(n);
  }

  // ---- LIST ----

  function ResponseHeader(cmd: uint32, retCode: int32): (s: seq<byte>)
    ensures |s| == 8
  {
    Field32(cmd) + Field32(Unsigned(retCode))
  }

  /** The server's profiles: each id with its name array, sent as it lies in memory. */
  function ProfilesBytes(t: Table, fields: seq<seq<byte>>): (s: seq<byte>)
    requires |fields| == |t| && forall i :: 0 <= i < |t| ==> |fields[i]| == NAME_ARRAY
    ensures |s| == PROFILE_SIZE * |t|
  {
    if t == [] then [] else Field32(t[0].faceId) + fields[0] + ProfilesBytes(t[1..], fields[1..])
  }

  function ListReply(t: Table, fields: seq<seq<byte>>): seq<byte>
    requires |t| <= MAX_PROFILES && |fields| == |t| && forall i :: 0 <= i < |t| ==> |fields[i]| == NAME_ARRAY
  {
    ResponseHeader(LIST_COMMAND, SUCCESS) + Field32(|t|) + ProfilesBytes(t, fields)
  }

  function DecodeProfiles(data: seq<byte>, count: nat): Table
    requires |data| == PROFILE_SIZE * count
    decreases count
  {
    if count == 0 then [] else
    [Profile(Read32(data[..4]), CString(data[4..PROFILE_SIZE]))] + DecodeProfiles(data[PROFILE_SIZE..], count - 1)
  }

  /** The client's reading of a reply to LIST: header, count, records, at most a hundred kept. None stands for
      a communication failure, or for a verdict other than success. */
  function ClientList(stream: seq<byte>): Option<Table>
  {
    if |stream| < 8 || Read32(stream[..4]) != LIST_COMMAND || Signed(Read32(stream[4..8])) != SUCCESS then None else
    if |stream| < 12 then None else
    var count := Read32(stream[8..12]);
    if |stream| < 12 + PROFILE_SIZE * count then None else
    var all := DecodeProfiles(stream[12..12 + PROFILE_SIZE * count], count);
    Some(if count <= MAX_PROFILES then all else all[..Min(MAX_PROFILES, |all|)])
  }

  lemma {:induction false} ProfilesDecode(t: Table, fields: seq<seq<byte>>)
    requires Store(fields, t)
    ensures DecodeProfiles(ProfilesBytes(t, fields), |t|) == t
  {
    if t != [] {
      var data := ProfilesBytes(t, fields);
      Read32OfField(t[0].faceId);
      assert data[..4] == Field32(t[0].faceId);
      assert data[4..PROFILE_SIZE] == fields[0];
      assert data[PROFILE_SIZE..] == ProfilesBytes(t[1..], fields[1..]);
      ProfilesDecode(t[1..], fields[1..]);
      assert Profile(t[0].faceId, t[0].name) == t[0];
    }
  }

  /** The client's table is the server's table, for every table, whatever lies behind the names' terminators
      and whatever follows on the stream. */
  lemma ListAgrees(t: Table, fields: seq<seq<byte>>, rest: seq<byte>)
    requires |t| <= MAX_PROFILES && Store(fields, t)
    ensures ClientList(ListReply(t, fields) + rest) == Some(t)
  {
    var body := ProfilesBytes(t, fields);
    var stream := ListReply(t, fields) + rest;
    Read32OfField(LIST_COMMAND);
    Read32OfField(Unsigned(SUCCESS));
    Read32OfField(|t|);
    assert stream[..4] == Field32(LIST_COMMAND);
    assert stream[4..8] == Field32(Unsigned(SUCCESS));
    assert stream[8..12] == Field32(|t|);
    assert stream[12..12 + PROFILE_SIZE * |t|] == body;
    ProfilesDecode(t, fields);
  }

  /** The reply byte by byte: command 5, verdict 0, and the count. */
  lemma ListHeaderBytes(t: Table, fields: seq<seq<byte>>)
    requires |t| <= MAX_PROFILES && Store(fields, t)
    ensures var reply := ListReply(t, fields);
            |reply| == 12 + 260 * |t| && reply[..12] == [5, 0, 0, 0, 0, 0, 0, 0, |t|, 0, 0, 0]
  {
    SmallField(5);
    SmallField(0);
    SmallField(|t|);
  }

  /** And behind them 260 bytes a profile: the id, the lowest byte first, and the 256 bytes of the name array. */
  lemma ListRecordBytes(t: Table, fields: seq<seq<byte>>, i: nat)
    requires |t| <= MAX_PROFILES && Store(fields, t) && i < |t|
    ensures 12 + 260 * i + 260 <= |ListReply(t, fields)|
    ensures var record := ListReply(t, fields)[12 + 260 * i..12 + 260 * i + 260];
            && record[0] as int + 0x100 * record[1] as int + 0x1_0000 * record[2] as int + 0x100_0000 * record[3] as int == t[i].faceId
            && record[4..] == fields[i]
  {
    FieldBytes(t[i].faceId);
    ProfileInProfiles(t, fields, i);
    SliceBehind(ResponseHeader(LIST_COMMAND, SUCCESS) + Field32(|t|), ProfilesBytes(t, fields), 260 * i, 260);
    assert (Field32(t[i].faceId) + fields[i])[4..] == fields[i];
  }

  lemma {:induction false} ProfileInProfiles(t: Table, fields: seq<seq<byte>>, i: nat)
    requires |fields| == |t| && i < |t| && forall k :: 0 <= k < |t| ==> |fields[k]| == NAME_ARRAY
    ensures ProfilesBytes(t, fields)[260 * i..260 * i + 260] == Field32(t[i].faceId) + fields[i]
  {
    if i > 0 {
      ProfileInProfiles(t[1..], fields[1..], i - 1);
      var rest := ProfilesBytes(t[1..], fields[1..]);
      assert ProfilesBytes(t, fields)[260 * i..260 * i + 260] == rest[260 * (i - 1)..260 * (i - 1) + 260];
    }
  }

  lemma RepliesHaveTheirLength(t: Table, fields: seq<seq<byte>>, cut: nat)
    requires |t| <= MAX_PROFILES && Store(fields, t) && cut < |ListReply(t, fields)|
    ensures ClientList(ListReply(t, fields)[..cut]).None?
  {
    var reply := ListReply(t, fields);
    if cut >= 12 {
      Read32OfField(|t|);
      assert reply[..cut][8..12] == Field32(|t|);
    }
  }

  /** A front of a reply is read as the table, or as nothing if it is not the whole. */
  lemma FrontOfAReply(t: Table, fields: seq<seq<byte>>, sent: seq<byte>)
    requires |t| <= MAX_PROFILES && Store(fields, t) && sent <= ListReply(t, fields)
    ensures ClientList(sent) == if sent == ListReply(t, fields) then Some(t) else None
  {
    var reply := ListReply(t, fields);
    if sent == reply {
      ListAgrees(t, fields, []);
      assert reply + [] == reply;
    } else {
      assert sent == reply[..|sent|] && reply[..|reply|] == reply;
      RepliesHaveTheirLength(t, fields, |sent|);
    }
  }

  // ---- LIST, as code ----

  method SendHeaderOnly(cmd: uint32, retCode: int32, events: seq<SocketEvent>) returns (p: Progress, sent: seq<byte>, used: nat)
    ensures used <= |events| && sent <= ResponseHeader(cmd, retCode)
    ensures p == Complete <==> sent == ResponseHeader(cmd, retCode)
    ensures Failed !in events ==> !p.Broken?
  {
    p, sent, used := SendAll(ResponseHeader(cmd, retCode), events);
  }

  /** The profiles one by one, each id and then its name array. */
  method SendProfiles(t: Table, fields: seq<seq<byte>>, events: seq<SocketEvent>) returns (p: Progress, sent: seq<byte>)
    requires |fields| == |t| && forall i :: 0 <= i < |t| ==> |fields[i]| == NAME_ARRAY
    ensures sent <= ProfilesBytes(t, fields)
    ensures p == Complete <==> sent == ProfilesBytes(t, fields)
    ensures Failed !in events ==> !p.Broken?
  {
    var left := events;
    var used := 0;
    sent := [];
    ghost var all := ProfilesBytes(t, fields);
    for i := 0 to |t|
      invariant sent + ProfilesBytes(t[i..], fields[i..]) == all && |sent| == PROFILE_SIZE * i
      invariant Failed !in events ==> Failed !in left
    {
      var id := Field32(t[i].faceId);
      ghost var rest := ProfilesBytes(t[i + 1..], fields[i + 1..]);
      NextProfile(t, fields, i);
      Regroup4(sent, id, fields[i], rest);
      var piece;
      p, piece, used := SendAll(id, left);
      if p != Complete {
        PartSent(sent, id, fields[i] + rest, piece);
        return p, sent + piece;
      }
      sent, left := sent + id, left[used..];
      p, piece, used := SendAll(fields[i], left);
      if p != Complete {
        PartSent(sent, fields[i], rest, piece);
        return p, sent + piece;
      }
      sent, left := sent + fields[i], left[used..];
    }
    assert t[|t|..] == [] && sent + [] == sent;
    p := Complete;
  }

  lemma NextProfile(t: Table, fields: seq<seq<byte>>, i: nat)
    requires |fields| == |t| && i < |t| && forall k :: 0 <= k < |t| ==> |fields[k]| == NAME_ARRAY
    ensures ProfilesBytes(t[i..], fields[i..]) == Field32(t[i].faceId) + fields[i] + ProfilesBytes(t[i + 1..], fields[i + 1..])
  {
    assert t[i..][1..] == t[i + 1..] && fields[i..][1..] == fields[i + 1..];
  }

  lemma Regroup4(a: seq<byte>, b: seq<byte>, c: seq<byte>, d: seq<byte>)
    ensures a + (b + c + d) == a + b + (c + d) == a + b + c + d
  {
  }

  /** A piece that was sent in part only leaves a proper front of the whole. */
  lemma PartSent(before: seq<byte>, data: seq<byte>, rest: seq<byte>, piece: seq<byte>)
    requires piece <= data && piece != data
    ensures before + piece <= before + data + rest && before + piece != before + data + rest
  {
    assert |piece| < |data|;
    assert (before + data + rest)[..|before + piece|] == before + piece;
  }

  /** send_list_profiles_payload: the number of profiles, and the profiles. */
  method SendListProfilesPayload(t: Table, fields: seq<seq<byte>>, events: seq<SocketEvent>) returns (p: Progress, sent: seq<byte>)
    requires |t| <= MAX_PROFILES && |fields| == |t| && forall i :: 0 <= i < |t| ==> |fields[i]| == NAME_ARRAY
    ensures sent <= Field32(|t|) + ProfilesBytes(t, fields)
    ensures p == Complete <==> sent == Field32(|t|) + ProfilesBytes(t, fields)
    ensures Failed !in events ==> !p.Broken?
  {
    var count, used;
    p, count, used := SendAll(Field32(|t|), events);
    if p != Complete {
      PartSent([], Field32(|t|), ProfilesBytes(t, fields), count);
      assert [] + count == count && [] + Field32(|t|) == Field32(|t|);
      return p, count;
    }
    var profiles;
    p, profiles := SendProfiles(t, fields, events[used..]);
    sent := count + profiles;
    if p != Complete {
      PartSent(count, ProfilesBytes(t, fields), [], profiles);
    }
  }

  /** The server's answer to LIST: whatever send() does, a front of the reply is on the wire, all of it exactly
      when the transfer is complete. */
  method SendListReply(t: Table, fields: seq<seq<byte>>, events: seq<SocketEvent>) returns (p: Progress, sent: seq<byte>)
    requires |t| <= MAX_PROFILES && |fields| == |t| && forall i :: 0 <= i < |t| ==> |fields[i]| == NAME_ARRAY
    ensures sent <= ListReply(t, fields)
    ensures p == Complete <==> sent == ListReply(t, fields)
    ensures Failed !in events ==> !p.Broken?
  {
    ghost var payload := Field32(|t|) + ProfilesBytes(t, fields);
    var header, used;
    p, header, used := SendHeaderOnly(LIST_COMMAND, SUCCESS, events);
    Regroup4([], ResponseHeader(LIST_COMMAND, SUCCESS), Field32(|t|), ProfilesBytes(t, fields));
    if p != Complete {
      PartSent([], ResponseHeader(LIST_COMMAND, SUCCESS), payload, header);
      assert [] + header == header;
      return p, header;
    }
    var rest;
    p, rest := SendListProfilesPayload(t, fields, events[used..]);
    sent := header + rest;
    if p != Complete {
      PartSent(header, payload, [], rest);
    }
  }

  /** The client's three reads of the reply, in whatever pieces the bytes come. */
  method ReceiveList(line: seq<byte>, sizes: nat -> seq<nat>) returns (r: Option<Table>)
    requires forall k :: |sizes(k)| > |line| && forall i :: 0 <= i < |sizes(k)| ==> sizes(k)[i] > 0
    ensures r == ClientList(line)
  {
    var header := RecvExact(line, 8, sizes(0));
    if header.None? {
      return None;
    }
    assert header.value[..4] == line[..4] && header.value[4..8] == line[4..8];
    if Read32(header.value[..4]) != LIST_COMMAND || Signed(Read32(header.value[4..8])) != SUCCESS {
      return None;
    }
    var countBuffer := RecvExact(line[8..], 4, sizes(1));
    if countBuffer.None? {
      return None;
    }
    assert countBuffer.value == line[8..12];
    var count := Read32(countBuffer.value);
    var data: seq<byte> := [];
    if count > 0 {
      var records := RecvExact(line[12..], PROFILE_SIZE * count, sizes(2));
      if records.None? {
        return None;
      }
      data := records.value;
    }
    assert data == line[12..12 + PROFILE_SIZE * count];
    var all := DecodeProfiles(data, count);
    r := Some(if count <= MAX_PROFILES then all else all[..Min(MAX_PROFILES, |all|)]);
  }

  /** LIST from end to end: the client has exactly the server's table if the server got its reply out, and
      nothing at all if the connection broke before; no other outcome exists. */
  method ListOverTheWire(t: Table, fields: seq<seq<byte>>, events: seq<SocketEvent>, sizes: nat -> seq<nat>) returns (p: Progress, r: Option<Table>)
    requires |t| <= MAX_PROFILES && Store(fields, t)
    requires forall k :: |sizes(k)| > |ListReply(t, fields)| && forall i :: 0 <= i < |sizes(k)| ==> sizes(k)[i] > 0
    ensures r == if p == Complete then Some(t) else None
    ensures Failed !in events ==> !p.Broken?
  {
    var sent;
    p, sent := SendListReply(t, fields, events);
    r := ReceiveList(sent, sizes);
    FrontOfAReply(t, fields, sent);
  }

  // ---- UPDATE ----

  /** The name as the client puts it into the 255-byte field. */
  function CutTo254(name: seq<byte>): (cut: seq<byte>)
    ensures cut <= name && |cut| == if |name| <= 254 then |name| else 254
  {
    name[..Min(|name|, NAME_FIELD - 1)]
  }

  function Zeros(n: nat): (s: seq<byte>)
    ensures |s| == n
  {
    seq(n, _ => 0)
  }

  function UpdateMessage(faceId: uint32, name: seq<byte>): (s: seq<byte>)
    ensures |s| == 8 + NAME_FIELD
  {
    Field32(UPDATE_COMMAND) + Field32(faceId) + (CutTo254(name) + Zeros(NAME_FIELD - |CutTo254(name)|))
  }

  /** The server's reading of a request: the command, then for UPDATE the id and the field, whose last byte is
      overwritten with a terminator. */
  function ServerUpdate(stream: seq<byte>): Option<Request>
  {
    if |stream| < 8 + NAME_FIELD || Read32(stream[..4]) != UPDATE_COMMAND then None else
    var field := stream[8..8 + NAME_FIELD][NAME_FIELD - 1 := 0];
    Some(Request(UpdateFaceProfile, Read32(stream[4..8]), CString(field)))
  }

  /** The request byte by byte: command 4, the id, and 255 bytes for the name, padded with zeros. */
  lemma UpdateMessageBytes(faceId: uint32, name: seq<byte>)
    ensures var m := UpdateMessage(faceId, name);
            && |m| == 263 && m[..4] == [4, 0, 0, 0]
            && m[4] as int + 0x100 * m[5] as int + 0x1_0000 * m[6] as int + 0x100_0000 * m[7] as int == faceId
            && forall i :: 0 <= i < 255 ==> m[8 + i] == if i < |name| && i < 254 then name[i] else 0
  {
    SmallField(4);
    FieldBytes(faceId);
  }

  /** The text in a field is all that comes before the first NUL. */
  lemma {:induction false} CStringEndsAtNul(field: seq<byte>)
    ensures CString(field) <= field
    ensures |CString(field)| < |field| ==> field[|CString(field)|] == 0
  {
    if field != [] && field[0] != 0 {
      CStringEndsAtNul(field[1..]);
    }
  }

  /** The name that is meant: as much of the given one as comes before a NUL and fits into 254 bytes. */
  lemma MeantName(name: seq<byte>)
    ensures var meant := CString(CutTo254(name));
            && meant <= name && |meant| <= 254 && 0 !in meant
            && (|meant| == |name| || |meant| == 254 || name[|meant|] == 0)
            && (|name| <= 254 && 0 !in name ==> meant == name)
  {
    CStringEndsAtNul(CutTo254(name));
  }

  /** The server understands what the client meant: the id, and as much of the name as comes before a NUL and
      fits into 254 bytes. */
  lemma UpdateAgrees(faceId: uint32, name: seq<byte>, rest: seq<byte>)
    ensures ServerUpdate(UpdateMessage(faceId, name) + rest) == Some(Request(UpdateFaceProfile, faceId, CString(CutTo254(name))))
    ensures var meant := ServerUpdate(UpdateMessage(faceId, name) + rest).value.name;
            && meant <= name && |meant| <= 254 && 0 !in meant
            && (|meant| == |name| || |meant| == 254 || name[|meant|] == 0)
    ensures |name| <= 254 && 0 !in name ==>
      ServerUpdate(UpdateMessage(faceId, name) + rest) == Some(Request(UpdateFaceProfile, faceId, name))
  {
    MeantName(name);
    var cut := CutTo254(name);
    var zeros := Zeros(NAME_FIELD - |cut|);
    var stream := UpdateMessage(faceId, name) + rest;
    Read32OfField(UPDATE_COMMAND);
    Read32OfField(faceId);
    assert stream[..4] == Field32(UPDATE_COMMAND);
    assert stream[4..8] == Field32(faceId);
    var field := stream[8..8 + NAME_FIELD];
    assert field == cut + zeros;
    assert field[NAME_FIELD - 1 := 0] == cut + [0] + zeros[1..];
    CStringStopsAtNul(cut, zeros[1..]);
  }

  // ---- UPDATE, as code ----

  /** read_update_profile_payload: the id, and the name field with its last byte overwritten. */
  method ReadUpdateProfilePayload(line: seq<byte>, events: seq<SocketEvent>) returns (p: Progress, r: Option<Request>)
    ensures p == Complete <==> r.Some?
    ensures p == Complete ==>
      && |line| >= 4 + NAME_FIELD
      && r == Some(Request(UpdateFaceProfile, Read32(line[..4]), CString(line[4..4 + NAME_FIELD][NAME_FIELD - 1 := 0])))
    ensures Harmless(events) && |line| >= 4 + NAME_FIELD ==> !p.Broken?
  {
    var id, name, used;
    p, id, used := RecvAll(line, 4, events);
    if p != Complete {
      return p, None;
    }
    p, name, used := RecvAll(line[4..], NAME_FIELD, events[used..]);
    if p != Complete {
      return p, None;
    }
    assert id == line[..4] && name == line[4..4 + NAME_FIELD];
    r := Some(Request(UpdateFaceProfile, Read32(id), CString(name[NAME_FIELD - 1 := 0])));
  }

  /** The server's reading of an UPDATE: it has the request that is on the line, or it has none and has broken
      off or is still waiting; with harmless events and the whole message it never breaks off. */
  method ReceiveUpdate(line: seq<byte>, events: seq<SocketEvent>) returns (p: Progress, r: Option<Request>)
    ensures r.Some? ==> p == Complete && r == ServerUpdate(line)
    ensures p == Complete && r.None? ==> |line| >= 4 && Read32(line[..4]) != UPDATE_COMMAND
    ensures Harmless(events) && |line| >= 8 + NAME_FIELD ==> !p.Broken?
  {
    var cmd, used;
    p, cmd, used := RecvAll(line, 4, events);
    if p != Complete {
      return p, None;
    }
    assert cmd == line[..4];
    if Read32(cmd) != UPDATE_COMMAND {
      return Complete, None;
    }
    p, r := ReadUpdateProfilePayload(line[4..], events[used..]);
    if r.Some? {
      assert line[4..][..4] == line[4..8] && line[4..][4..4 + NAME_FIELD] == line[8..8 + NAME_FIELD];
    }
  }

  /** UPDATE from end to end: if the server gets a request, it is the one the client meant. */
  method UpdateOverTheWire(faceId: uint32, name: seq<byte>, events: seq<SocketEvent>) returns (p: Progress, r: Option<Request>)
    ensures r == if p == Complete then Some(Request(UpdateFaceProfile, faceId, CString(CutTo254(name)))) else None
    ensures r.Some? ==>
      var meant := r.value.name;
      meant <= name && |meant| <= 254 && 0 !in meant && (|meant| == |name| || |meant| == 254 || name[|meant|] == 0)
    ensures r.Some? && |name| <= 254 && 0 !in name ==> r == Some(Request(UpdateFaceProfile, faceId, name))
    ensures Harmless(events) ==> !p.Broken?
  {
    var message := UpdateMessage(faceId, name);
    p, r := ReceiveUpdate(message, events);
    UpdateAgrees(faceId, name, []);
    assert message + [] == message;
    Read32OfField(UPDATE_COMMAND);
    assert message[..4] == Field32(UPDATE_COMMAND);
  }

  /** UPDATE and then LIST, from the client and back, in whatever pieces the bytes go: if all arrives, the list
      shows the table with the one name replaced. */
  method UpdateThenList(initial: Table, faceId: uint32, name: seq<byte>, fields: seq<seq<byte>>, requestEvents: seq<SocketEvent>,
                        replyEvents: seq<SocketEvent>, sizes: nat -> seq<nat>) returns (update: Option<Request>, list: Option<Table>)
    requires |initial| <= MAX_PROFILES && Store(fields, Renamed(initial, faceId, CString(CutTo254(name))))
    requires forall k :: |sizes(k)| > 12 + PROFILE_SIZE * |initial| && forall i :: 0 <= i < |sizes(k)| ==> sizes(k)[i] > 0
    ensures update.Some? ==> forall e: Execution :: e.request == update.value ==>
      list in {None, Some(Effect(initial, e))} && Effect(initial, e) == Renamed(initial, faceId, CString(CutTo254(name)))
    ensures list.Some? && UniqueIds(initial) && |name| <= 254 && 0 !in name ==>
      && |list.value| == |initial|
      && forall i :: 0 <= i < |initial| ==>
           list.value[i] == if initial[i].faceId == faceId then Profile(faceId, name) else initial[i]
    ensures update.None? ==> list.None?
  {
    var p;
    p, update := UpdateOverTheWire(faceId, name, requestEvents);
    if update.None? {
      return update, None;
    }
    var renamed := Renamed(initial, faceId, CString(CutTo254(name)));
    assert |renamed| == |initial|;
    p, list := ListOverTheWire(renamed, fields, replyEvents, sizes);
    MeantName(name);
    if UniqueIds(initial) {
      RenamedEntries(initial, faceId, CString(CutTo254(name)));
    }
  }
}
