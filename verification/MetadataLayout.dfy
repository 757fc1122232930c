/**
 * The packed binary layout of the HMI metadata: a three-byte size, a fixed header, one
 * record per tracked user, and an optional ideal-user record that is recognised by
 * nothing but the bytes left over. The sender writes it; the handler reads it by
 * address arithmetic and shifts.
 */
module MetadataLayout {
  import opened Bytes
  import opened Hub
  import opened BufferFifo

  const RESPONSE_TYPE: byte := 1
  const VERSION: byte := 8
  const USER_OUTPUT_DATA: byte := 0
  const IDEAL_USER_OUTPUT_DATA: byte := 1
  const MAX_USERS_SUPPORTED_PER_FRAME := 20

  const SIZE_FIELD := 3
  const HEADER_SIZE := 32
  const USER_RECORD_SIZE := 76
  const IDEAL_RECORD_SIZE := 28

  type int32 = n: int | -0x8000_0000 <= n < 0x8000_0000

  function Unsigned(n: int32): uint32
  {
    if n < 0 then n + 0x1_0000_0000 else n
  }

  function Signed(n: uint32): int32
  {
    if n < 0x8000_0000 then n else n - 0x1_0000_0000
  }

  // ---- The sender ----

  /** A user record; `rest` stands for the eleven fields behind the box that the handler does not use. */
  datatype WireUser = WireUser(reserved: seq<byte>, id: int32, available: int32, confidence: int32,
                               left: int32, top: int32, right: int32, bottom: int32, rest: seq<int32>)
  {
    predicate Valid() { |reserved| == 3 && |rest| == 11 }
  }

  datatype WireIdeal = WireIdeal(reserved: seq<byte>, index: int32, rest: seq<int32>) {
    predicate Valid() { |reserved| == 3 && |rest| == 5 }
  }

  function Word(n: int32): (s: seq<byte>)
    ensures |s| == 4
  {
    ToLittleEndian(Unsigned(n), 4)
  }

  function Words(ns: seq<int32>): (s: seq<byte>)
    ensures |s| == 4 * |ns|
  {
    if ns == [] then [] else Word(ns[0]) + Words(ns[1..])
  }

  function EncodeUser(u: WireUser): (s: seq<byte>)
    requires u.Valid()
    ensures |s| == USER_RECORD_SIZE
  {
    Record(USER_OUTPUT_DATA, u.reserved, [u.id, u.available, u.confidence, u.left, u.top, u.right, u.bottom] + u.rest)
  }

  function EncodeUsers(us: seq<WireUser>): (s: seq<byte>)
    requires forall i :: 0 <= i < |us| ==> us[i].Valid()
    ensures |s| == USER_RECORD_SIZE * |us|
  {
    if us == [] then [] else EncodeUser(us[0]) + EncodeUsers(us[1..])
  }

  function EncodeIdeal(ideal: Option<WireIdeal>): (s: seq<byte>)
    requires ideal.Some? ==> ideal.value.Valid()
    ensures |s| == if ideal.Some? then IDEAL_RECORD_SIZE else 0
  {
    if ideal.None? then []
    else Record(IDEAL_USER_OUTPUT_DATA, ideal.value.reserved, [ideal.value.index] + ideal.value.rest)
  }

  /** `image` stands for the six fields on the image and the region of interest. */
  function EncodeHeader(image: seq<int32>, users: nat): (s: seq<byte>)
    requires |image| == 6 && users < 0x8000_0000
    ensures |s| == HEADER_SIZE
  {
    Record(RESPONSE_TYPE, [VERSION, 0, 0], image + [users])
  }

  function Encode(image: seq<int32>, us: seq<WireUser>, ideal: Option<WireIdeal>): seq<byte>
    requires |image| == 6 && |us| < 0x8000_0000 && (ideal.Some? ==> ideal.value.Valid())
    requires forall i :: 0 <= i < |us| ==> us[i].Valid()
  {
    var metadata := EncodeHeader(image, |us|) + EncodeUsers(us) + EncodeIdeal(ideal);
    ToLittleEndian(|metadata|, SIZE_FIELD) + metadata
  }

  /** The packed id of a tracked user: bits 0-7 the tracker's number, 16-19 the face id, 24-27 its status,
      and the sentinel in bit 31, which makes every id negative. */
  function PackId(userId: nat, faceId: nat, status: nat): (id: int32)
    requires userId < 0x100 && faceId < 0x10 && status < 0x10
    ensures id < 0
  {
    Signed(0x8000_0000 + 0x100_0000 * status + 0x1_0000 * faceId + userId)
  }

  /** The packed index of the ideal user: bits 0-7 its slot, above them four more fields. */
  function PackIndex(slot: nat, others: nat): int32
    requires slot < 0x100 && others < 0x100_0000
  {
    Signed(0x100 * others + slot)
  }

  // ---- The handler ----

  /** A user as the handler sees it. */
  datatype TrackedUser = TrackedUser(faceId: nat, box: Box)

  datatype Frame = Frame(users: seq<TrackedUser>, idealSlot: Option<nat>)

  function Int32At(buffer: seq<byte>, offset: nat): int32
    requires offset + 4 <= |buffer|
  {
    CapacityOfFieldWidths();
    EncodeDecoded(buffer[offset..offset + 4]);
    Signed(FromLittleEndian(buffer[offset..offset + 4]))
  }

  /** The arithmetic shift of a 32-bit integer, taken for unsigned and masked to four bits. */
  function FaceNibble(id: int32): (nibble: nat)
    ensures nibble < 0x10
  {
    ((id / 0x1_0000) % 0x1_0000_0000) % 0x10
  }

  /** Masking a 32-bit integer to its low byte. */
  function SlotByte(index: int32): (slot: nat)
    ensures slot < 0x100
  {
    index % 0x100
  }

  function UserOffset(i: nat): nat
  {
    SIZE_FIELD + HEADER_SIZE + USER_RECORD_SIZE * i
  }

  /** The buffer holds the header, the announced records and, if anything follows, an ideal index. */
  predicate Whole(buffer: seq<byte>)
  {
    && UserOffset(0) <= |buffer|
    && 0 <= Int32At(buffer, SIZE_FIELD + 28)
    && var end := UserOffset(Int32At(buffer, SIZE_FIELD + 28));
       end == |buffer| || end + 8 <= |buffer|
  }

  function UserAt(buffer: seq<byte>, i: nat): TrackedUser
    requires UserOffset(i) + USER_RECORD_SIZE <= |buffer|
  {
    var base := UserOffset(i);
    TrackedUser(FaceNibble(Int32At(buffer, base + 4)),
                Box(Int32At(buffer, base + 16), Int32At(buffer, base + 20), Int32At(buffer, base + 24), Int32At(buffer, base + 28)))
  }

  /** What the handler extracts, or None if one of its assertions fails. */
  function Parse(buffer: seq<byte>): Option<Frame>
    requires Whole(buffer)
  {
    var count := Int32At(buffer, SIZE_FIELD + 28);
    var end := UserOffset(count);
    if buffer[SIZE_FIELD] != RESPONSE_TYPE || buffer[SIZE_FIELD + 1] != VERSION || count > MAX_USERS_SUPPORTED_PER_FRAME then None
    else if count > 0 && end < |buffer| && buffer[end] != IDEAL_USER_OUTPUT_DATA then None
    else if exists i :: 0 <= i < count && buffer[UserOffset(i)] != USER_OUTPUT_DATA then None
    else
      var users := seq(count, i requires 0 <= i < count => UserAt(buffer, i));
      Some(Frame(users, if count == 0 || end >= |buffer| then None else Some(SlotByte(Int32At(buffer, end + 4)))))
  }

  /** Four bytes, the lowest first, and negative from 0x80 in the highest on. */
  lemma Int32InBytes(buffer: seq<byte>, offset: nat)
    requires offset + 4 <= |buffer|
    ensures Int32At(buffer, offset) ==
            buffer[offset] as int + 0x100 * buffer[offset + 1] as int + 0x1_0000 * buffer[offset + 2] as int
            + 0x100_0000 * buffer[offset + 3] as int - if buffer[offset + 3] >= 0x80 then 0x1_0000_0000 else 0
  {
    LowByteFirst(buffer[offset..offset + 4]);
  }

  /** The signed shift and the masks take the bits they are meant to: 16 to 19 of the id, 0 to 7 of the index. */
  lemma MasksAreBits(n: int32)
    ensures FaceNibble(n) == (Unsigned(n) / 0x1_0000) % 0x10 && SlotByte(n) == Unsigned(n) % 0x100
  {
    var high, low := n / 0x1_0000, n % 0x1_0000;
    assert n == 0x1_0000 * high + low;
    if n < 0 {
      assert Unsigned(n) == 0x1_0000 * (high + 0x1_0000) + low;
      assert Unsigned(n) / 0x1_0000 == high + 0x1_0000;
      assert high % 0x1_0000_0000 == high + 0x1_0000_0000;
    }
  }

  // ---- Round trip ----

  lemma SignedUnsigned(n: int32)
    ensures Signed(Unsigned(n)) == n
  {
  }

  lemma Int32AtWord(buffer: seq<byte>, offset: nat, n: int32)
    requires offset + 4 <= |buffer| && buffer[offset..offset + 4] == Word(n)
    ensures Int32At(buffer, offset) == n
  {
    CapacityOfFieldWidths();
    DecodeEncoded(Unsigned(n), 4);
    SignedUnsigned(n);
  }

  lemma {:induction false} WordInWords(ns: seq<int32>, k: nat)
    requires k < |ns|
    ensures Words(ns)[4 * k..4 * k + 4] == Word(ns[k])
  {
    if k > 0 {
      WordInWords(ns[1..], k - 1);
      assert Words(ns)[4 * k..4 * k + 4] == Words(ns[1..])[4 * (k - 1)..4 * (k - 1) + 4];
    }
  }

  lemma {:induction false} UserInUsers(us: seq<WireUser>, i: nat)
    requires i < |us| && forall j :: 0 <= j < |us| ==> us[j].Valid()
    ensures EncodeUsers(us)[USER_RECORD_SIZE * i..USER_RECORD_SIZE * i + USER_RECORD_SIZE] == EncodeUser(us[i])
  {
    if i > 0 {
      UserInUsers(us[1..], i - 1);
      var shorter := EncodeUsers(us[1..]);
      assert EncodeUsers(us)[USER_RECORD_SIZE * i..USER_RECORD_SIZE * i + USER_RECORD_SIZE]
          == shorter[USER_RECORD_SIZE * (i - 1)..USER_RECORD_SIZE * (i - 1) + USER_RECORD_SIZE];
    }
  }

  /** What a record means to the handler. */
  function Meaning(u: WireUser): TrackedUser
  {
    TrackedUser(FaceNibble(u.id), Box(u.left, u.top, u.right, u.bottom))
  }

  /** A record: its tag, three reserved bytes and its words. */
  function Record(tag: byte, reserved: seq<byte>, ns: seq<int32>): (s: seq<byte>)
    requires |reserved| == 3
    ensures |s| == 4 + 4 * |ns| && s[0] == tag
  {
    [tag] + reserved + Words(ns)
  }

  /** A word of a record, read inside the whole buffer. */
  lemma FieldOfRecord(buffer: seq<byte>, base: nat, tag: byte, reserved: seq<byte>, ns: seq<int32>, k: nat)
    requires |reserved| == 3 && k < |ns| && base + 4 + 4 * |ns| <= |buffer|
    requires buffer[base..base + 4 + 4 * |ns|] == Record(tag, reserved, ns)
    ensures buffer[base] == tag && Int32At(buffer, base + 4 + 4 * k) == ns[k]
  {
    FieldSlice(tag, reserved, ns, k);
    WordAt(buffer, base, Record(tag, reserved, ns), 4 + 4 * k, ns[k]);
  }

  lemma WordAt(buffer: seq<byte>, base: nat, record: seq<byte>, at: nat, n: int32)
    requires base + |record| <= |buffer| && buffer[base..base + |record|] == record
    requires at + 4 <= |record| && record[at..at + 4] == Word(n)
    ensures buffer[base] == record[0] && Int32At(buffer, base + at) == n
  {
    assert record[0] == buffer[base];
    SliceOfSlice(buffer, base, |record|, at, 4);
    Int32AtWord(buffer, base + at, n);
  }

  lemma FieldSlice(tag: byte, reserved: seq<byte>, ns: seq<int32>, k: nat)
    requires |reserved| == 3 && k < |ns|
    ensures Record(tag, reserved, ns)[4 + 4 * k..4 + 4 * k + 4] == Word(ns[k])
  {
    WordInWords(ns, k);
    SliceBehind([tag] + reserved, Words(ns), 4 * k, 4);
  }

  lemma SliceOfSlice(s: seq<byte>, base: nat, length: nat, at: nat, count: nat)
    requires base + length <= |s| && at + count <= length
    ensures s[base..base + length][at..at + count] == s[base + at..base + at + count]
  {
    var inner := s[base..base + length];
    var part, whole := inner[at..at + count], s[base + at..base + at + count];
    assert forall i :: 0 <= i < count ==> part[i] == whole[i];
  }

  lemma SliceBetween(front: seq<byte>, s: seq<byte>, back: seq<byte>)
    ensures (front + s + back)[|front|..|front| + |s|] == s
  {
  }

  lemma SliceBehind(front: seq<byte>, s: seq<byte>, at: nat, count: nat)
    requires at + count <= |s|
    ensures (front + s)[|front| + at..|front| + at + count] == s[at..at + count]
  {
  }

  lemma UserRead(buffer: seq<byte>, i: nat, u: WireUser)
    requires u.Valid() && UserOffset(i) + USER_RECORD_SIZE <= |buffer|
    requires buffer[UserOffset(i)..UserOffset(i) + USER_RECORD_SIZE] == EncodeUser(u)
    ensures buffer[UserOffset(i)] == USER_OUTPUT_DATA && UserAt(buffer, i) == Meaning(u)
  {
    var base := UserOffset(i);
    var ns := [u.id, u.available, u.confidence, u.left, u.top, u.right, u.bottom] + u.rest;
    FieldOfRecord(buffer, base, USER_OUTPUT_DATA, u.reserved, ns, 0);
    FieldOfRecord(buffer, base, USER_OUTPUT_DATA, u.reserved, ns, 3);
    FieldOfRecord(buffer, base, USER_OUTPUT_DATA, u.reserved, ns, 4);
    FieldOfRecord(buffer, base, USER_OUTPUT_DATA, u.reserved, ns, 5);
    FieldOfRecord(buffer, base, USER_OUTPUT_DATA, u.reserved, ns, 6);
  }

  /** The handler reads back what the sender wrote, for every number of users it accepts: the users in order,
      and the ideal record from the byte count alone. */
  lemma ParseEncoded(image: seq<int32>, us: seq<WireUser>, ideal: Option<WireIdeal>)
    requires Encodable(image, us, ideal)
    ensures var buffer := Encode(image, us, ideal);
            && Whole(buffer)
            && Parse(buffer) == Some(Frame(seq(|us|, i requires 0 <= i < |us| => Meaning(us[i])),
                                           if us == [] || ideal.None? then None else Some(SlotByte(ideal.value.index))))
    ensures var users := Parse(Encode(image, us, ideal)).value.users;
            && |users| == |us|
            && forall i :: 0 <= i < |us| ==>
                 && users[i].box == Box(us[i].left, us[i].top, us[i].right, us[i].bottom)
                 && users[i].faceId == (Unsigned(us[i].id) / 0x1_0000) % 0x10
  {
    forall i | 0 <= i < |us| ensures FaceNibble(us[i].id) == (Unsigned(us[i].id) / 0x1_0000) % 0x10 {
      MasksAreBits(us[i].id);
    }
    var buffer := Encode(image, us, ideal);
    EncodedHeader(image, us, ideal);
    forall i | 0 <= i < |us|
      ensures buffer[UserOffset(i)] == USER_OUTPUT_DATA && UserAt(buffer, i) == Meaning(us[i])
    {
      EncodedUser(image, us, ideal, i);
    }
    if ideal.Some? {
      EncodedIdeal(image, us, ideal);
    }
    assert seq(|us|, i requires 0 <= i < |us| => UserAt(buffer, i)) == seq(|us|, i requires 0 <= i < |us| => Meaning(us[i]));
  }

  predicate Encodable(image: seq<int32>, us: seq<WireUser>, ideal: Option<WireIdeal>)
  {
    && |image| == 6 && |us| <= MAX_USERS_SUPPORTED_PER_FRAME && (ideal.Some? ==> ideal.value.Valid())
    && forall i :: 0 <= i < |us| ==> us[i].Valid()
  }

  lemma EncodedHeader(image: seq<int32>, us: seq<WireUser>, ideal: Option<WireIdeal>)
    requires Encodable(image, us, ideal)
    ensures var buffer := Encode(image, us, ideal);
            && |buffer| == UserOffset(|us|) + (if ideal.Some? then IDEAL_RECORD_SIZE else 0)
            && buffer[SIZE_FIELD] == RESPONSE_TYPE && buffer[SIZE_FIELD + 1] == VERSION
            && Int32At(buffer, SIZE_FIELD + 28) == |us|
  {
    var buffer := Encode(image, us, ideal);
    var header := EncodeHeader(image, |us|);
    assert buffer == buffer[..SIZE_FIELD] + header + (EncodeUsers(us) + EncodeIdeal(ideal));
    SliceBetween(buffer[..SIZE_FIELD], header, EncodeUsers(us) + EncodeIdeal(ideal));
    assert buffer[SIZE_FIELD + 1] == header[1];
    FieldOfRecord(buffer, SIZE_FIELD, RESPONSE_TYPE, [VERSION, 0, 0], image + [|us|], 6);
  }

  lemma EncodedUsers(image: seq<int32>, us: seq<WireUser>, ideal: Option<WireIdeal>)
    requires Encodable(image, us, ideal)
    ensures var buffer := Encode(image, us, ideal);
            && UserOffset(|us|) <= |buffer|
            && buffer[UserOffset(0)..UserOffset(0) + USER_RECORD_SIZE * |us|] == EncodeUsers(us)
  {
    var header, users, last := EncodeHeader(image, |us|), EncodeUsers(us), EncodeIdeal(ideal);
    var size := ToLittleEndian(|header + users + last|, SIZE_FIELD);
    Regroup(size, header, users, last);
    SliceBetween(size + header, users, last);
  }

  lemma Regroup(a: seq<byte>, b: seq<byte>, c: seq<byte>, d: seq<byte>)
    ensures a + (b + c + d) == a + b + c + d
  {
  }

  lemma EncodedUser(image: seq<int32>, us: seq<WireUser>, ideal: Option<WireIdeal>, i: nat)
    requires Encodable(image, us, ideal) && i < |us|
    ensures var buffer := Encode(image, us, ideal);
            && UserOffset(i) + USER_RECORD_SIZE <= |buffer|
            && buffer[UserOffset(i)] == USER_OUTPUT_DATA && UserAt(buffer, i) == Meaning(us[i])
  {
    EncodedUsers(image, us, ideal);
    UserInUsers(us, i);
    var buffer := Encode(image, us, ideal);
    SliceOfSlice(buffer, UserOffset(0), USER_RECORD_SIZE * |us|, USER_RECORD_SIZE * i, USER_RECORD_SIZE);
    UserRead(buffer, i, us[i]);
  }

  lemma EncodedIdeal(image: seq<int32>, us: seq<WireUser>, ideal: Option<WireIdeal>)
    requires Encodable(image, us, ideal) && ideal.Some?
    ensures var buffer := Encode(image, us, ideal);
            var end := UserOffset(|us|);
            && end + 8 <= |buffer|
            && buffer[end] == IDEAL_USER_OUTPUT_DATA && Int32At(buffer, end + 4) == ideal.value.index
  {
    var buffer := Encode(image, us, ideal);
    var end := UserOffset(|us|);
    assert buffer == buffer[..end] + EncodeIdeal(ideal) + [];
    SliceBetween(buffer[..end], EncodeIdeal(ideal), []);
    FieldOfRecord(buffer, end, IDEAL_USER_OUTPUT_DATA, ideal.value.reserved, [ideal.value.index] + ideal.value.rest, 0);
  }

  /** The frame by absolute offsets: the tags, the number of users, and the fields of a user that the handler
      reads; a user takes 76 bytes, from 35 on. */
  lemma WireOffsets(image: seq<int32>, us: seq<WireUser>, ideal: Option<WireIdeal>, i: nat)
    requires Encodable(image, us, ideal) && i < |us|
    ensures var buffer, at := Encode(image, us, ideal), 35 + 76 * i;
            && |buffer| == 35 + 76 * |us| + (if ideal.Some? then 28 else 0)
            && buffer[..3] == ToLittleEndian(|buffer| - 3, 3) && buffer[3] == 1 && buffer[4] == 8 && Int32At(buffer, 31) == |us|
            && buffer[at] == 0 && Int32At(buffer, at + 4) == us[i].id
            && Int32At(buffer, at + 16) == us[i].left && Int32At(buffer, at + 20) == us[i].top
            && Int32At(buffer, at + 24) == us[i].right && Int32At(buffer, at + 28) == us[i].bottom
    ensures var buffer, at := Encode(image, us, ideal), 35 + 76 * |us|;
            ideal.Some? ==> buffer[at] == 1 && Int32At(buffer, at + 4) == ideal.value.index
  {
    EncodedHeader(image, us, ideal);
    EncodedUser(image, us, ideal, i);
    EncodedId(image, us, ideal, i);
    if ideal.Some? {
      EncodedIdeal(image, us, ideal);
    }
  }

  lemma EncodedId(image: seq<int32>, us: seq<WireUser>, ideal: Option<WireIdeal>, i: nat)
    requires Encodable(image, us, ideal) && i < |us|
    ensures UserOffset(i) + USER_RECORD_SIZE <= |Encode(image, us, ideal)|
    ensures Int32At(Encode(image, us, ideal), UserOffset(i) + 4) == us[i].id
  {
    EncodedUsers(image, us, ideal);
    UserInUsers(us, i);
    var buffer, u := Encode(image, us, ideal), us[i];
    SliceOfSlice(buffer, UserOffset(0), USER_RECORD_SIZE * |us|, USER_RECORD_SIZE * i, USER_RECORD_SIZE);
    var ns := [u.id, u.available, u.confidence, u.left, u.top, u.right, u.bottom] + u.rest;
    FieldOfRecord(buffer, UserOffset(i), USER_OUTPUT_DATA, u.reserved, ns, 0);
  }

  /** Every packed id, negative as it is, gives its face id back to the shift and mask of the handler. */
  lemma PackedFaceIdIsRecovered(userId: nat, faceId: nat, status: nat)
    requires userId < 0x100 && faceId < 0x10 && status < 0x10
    ensures FaceNibble(PackId(userId, faceId, status)) == faceId
  {
    var id: int := PackId(userId, faceId, status);
    assert id == 0x1_0000 * (0x100 * status + faceId - 0x8000) + userId;
    assert id / 0x1_0000 == 0x100 * status + faceId - 0x8000;
    assert (id / 0x1_0000) % 0x1_0000_0000 == 0x100 * status + faceId - 0x8000 + 0x1_0000_0000;
  }

  lemma PackedSlotIsRecovered(slot: nat, others: nat)
    requires slot < 0x100 && others < 0x100_0000
    ensures SlotByte(PackIndex(slot, others)) == slot
  {
    assert PackIndex(slot, others) == 0x100 * (if others < 0x80_0000 then others else others - 0x100_0000) + slot;
  }
}
