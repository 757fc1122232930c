/**
 * KtLib's buffer FIFO: a singly linked list whose links live inside the buffers that
 * the application has handed over.
 */
module BufferFifo {
  import opened Bytes
  import opened Sequences

  const MIN_BUF_SIZE := 16

  datatype Box = Box(left: int, top: int, right: int, bottom: int)

  /** One face of a report. The three protective-equipment flags are constant in this release. */
  datatype FaceData = FaceData(faceId: uint32, ideal: bool, box: Box, hat: bool, glasses: bool, gloves: bool)

  /** A metadata buffer. Its first sixteen bytes serve twice, as the list header while the buffer is in the
      FIFO and as the count and the first face of a report after that. */
  class Buffer {
    var next: Buffer?
    var length: nat
    var faceCount: nat
    var faces: seq<FaceData>

    constructor (faces: seq<FaceData>, length: nat)
      ensures this.faces == faces && this.length == length && next == null
    {
      next, this.length, faceCount, this.faces := null, length, 0, faces;
    }
  }

  /** Linking a buffer behind the list: it is appended, unless it is already linked; then everything behind
      it is lost. */
  ghost function Linked(contents: seq<Buffer>, buffer: Buffer): seq<Buffer>
  {
    if buffer !in contents then contents + [buffer]
    else var i :| 0 <= i < |contents| && contents[i] == buffer; contents[..i + 1]
  }

  /** What the next field of an unlinked buffer leaves of the first face: its upper half is the face id. */
  function AfterUnlinking(faces: seq<FaceData>): seq<FaceData>
  {
    if faces == [] then [] else faces[0 := faces[0].(faceId := 0)]
  }

  class BufFifo {
    var head: Buffer?
    var tail: Buffer?
    ghost var contents: seq<Buffer>

    ghost predicate Valid()
      reads this, contents
    {
      && Distinct(contents)
      && (contents == [] ==> head == null && tail == null)
      && (contents != [] ==> head == contents[0] && tail == contents[|contents| - 1] && contents[|contents| - 1].next == null)
      && forall i :: 0 <= i < |contents| - 1 ==> contents[i].next == contents[i + 1]
    }

    constructor ()
      ensures Valid() && contents == []
    {
      head, tail, contents := null, null, [];
    }

    predicate IsEmpty()
      requires Valid()
      reads this, contents
      ensures IsEmpty() <==> contents == []
    {
      head == null
    }

    /** Removes the oldest buffer and unlinks it. */
    method Get() returns (buffer: Buffer)
      requires Valid() && contents != []
      modifies this, head`next, head`faces
      ensures Valid()
      ensures buffer == old(contents)[0] && contents == old(contents)[1..] && buffer !in contents
      ensures buffer.next == null && buffer.faces == AfterUnlinking(old(contents[0].faces))
      ensures |buffer.faces| == old(|contents[0].faces|)
      ensures forall i :: 0 <= i < |buffer.faces| ==>
        buffer.faces[i] == if i == 0 then old(contents[0].faces)[0].(faceId := 0) else old(contents[0].faces)[i]
    {
      buffer := head;
      head := buffer.next;
      if head == null {
        tail := null;
      }
      buffer.next := null;
      buffer.faces := AfterUnlinking(buffer.faces);
      contents := contents[1..];
    }

    /** The buffer whose link changes when `buffer` is added. */
    ghost function LastOr(buffer: Buffer): Buffer
      reads this
    {
      if tail == null then buffer else tail
    }

    /** Links a buffer behind the last one. The list stays a list exactly when the buffer was not already
        the last; if it was, it now points to itself. */
    method Add(buffer: Buffer, length: nat)
      requires Valid() && length >= MIN_BUF_SIZE
      modifies this, buffer`next, buffer`length, LastOr(buffer)`next
      ensures buffer.length == length && tail == buffer
      ensures if old(contents) != [] && buffer == old(contents)[|old(contents)| - 1] then buffer.next == buffer && !Valid()
              else Valid() && contents == Linked(old(contents), buffer)
    {
      ghost var before := contents;
      buffer.next := null;
      buffer.length := length;
      if head == null {
        head := buffer;
      } else {
        tail.next := buffer;
      }
      tail := buffer;
      if !(before != [] && buffer == before[|before| - 1]) {
        contents := Linked(before, buffer);
        if buffer in before {
          ghost var i :| 0 <= i < |before| && before[i] == buffer;
          assert contents == before[..i + 1];
        }
      }
    }

    /** Hands every buffer held to the deallocator, oldest first. */
    method Release() returns (freed: seq<Buffer>)
      requires Valid()
      modifies this, contents
      ensures Valid() && contents == [] && freed == old(contents)
    {
      freed := [];
      ghost var all := contents;
      while !IsEmpty()
        invariant Valid() && |freed| <= |all| && freed == all[..|freed|] && contents == all[|freed|..]
        decreases |contents|
      {
        ghost var k := |freed|;
        assert head == all[k];
        var buffer := Get();
        freed := freed + [buffer];
        assert all[k..][1..] == all[k + 1..];
        assert freed == all[..k + 1];
      }
    }
  }

  /** Linking appends exactly if the buffer is not in the list; and no other buffer is lost exactly if it is not
      in the list, or was its last. Otherwise the list ends with it from then on. */
  lemma LinkingLosesNothingIff(contents: seq<Buffer>, buffer: Buffer)
    requires Distinct(contents)
    ensures Linked(contents, buffer) == contents + [buffer] <==> buffer !in contents
    ensures (forall b :: b in contents ==> b in Linked(contents, buffer)) <==>
            buffer !in contents || contents[|contents| - 1] == buffer
    ensures buffer in contents ==> exists i :: 0 <= i < |contents| && contents[i] == buffer && Linked(contents, buffer) == contents[..i + 1]
  {
    if buffer in contents {
      var linked := Linked(contents, buffer);
      assert |linked| <= |contents|;
      assert linked == contents[..|linked|] && linked[|linked| - 1] == buffer;
      var last := contents[|contents| - 1];
      if last in linked {
        var i :| 0 <= i < |linked| && linked[i] == last;
        assert contents[i] == contents[|contents| - 1];
      }
    }
  }

  /** A buffer linked a second time while it is the oldest one is the only one left. */
  lemma LinkingTheHeadAgain(contents: seq<Buffer>, buffer: Buffer)
    requires Distinct(contents) && contents != [] && contents[0] == buffer
    ensures Linked(contents, buffer) == [buffer]
  {
    assert buffer in contents;
  }

  /** The freed buffers are each freed once. */
  lemma ReleasedOnce(fifo: BufFifo)
    requires fifo.Valid()
    ensures |set b | b in fifo.contents| == |fifo.contents|
  {
    DistinctCardinality(fifo.contents);
  }
}
