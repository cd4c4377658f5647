/**
 * The draining piece store: the sequential-read cursor of
 * packages/shared/src/readProgress.ts, the store of
 * packages/shared/src/opfsChunkStore.ts, and the worker that keeps the piece
 * files, packages/shared/src/opfsWorkerCore.ts. The desktop app's
 * apps/desktop/src/lib/fsChunkStore.ts follows the same rules.
 */
module ChunkStore {
  import opened Bytes
  import opened CipherStore

  // --- the cursor ----------------------------------------------------------------

  /** Where a read from byte 0 stands after a report that [start, end) was read. */
  function Advanced(consumed: nat, length: nat, start: nat, end: nat): nat {
    if start <= consumed && end > consumed then Min(end, length) else consumed
  }

  function Behind(consumed: nat, chunkLength: nat, length: nat): nat
    requires chunkLength > 0
  {
    if consumed >= length then PieceCount(length, chunkLength) else consumed / chunkLength
  }

  /** The end of piece `i`, the short last one included. */
  function PieceEnd(i: nat, chunkLength: nat, length: nat): nat {
    Min((i + 1) * chunkLength, length)
  }

  /** A piece is behind the read exactly when its last byte has been consumed. */
  lemma BehindExact(consumed: nat, chunkLength: nat, length: nat, i: nat)
    requires chunkLength > 0 && i < PieceCount(length, chunkLength)
    ensures i < Behind(consumed, chunkLength, length) <==> PieceEnd(i, chunkLength, length) <= consumed
  {
    StartsInside(length, chunkLength, i);
    if consumed < length {
      var q, r := DivMod(consumed, chunkLength);
      if i < q {
        MulMonotone(i + 1, q, chunkLength);
      } else {
        MulMonotone(q + 1, i + 1, chunkLength);
        assert (q + 1) * chunkLength == q * chunkLength + chunkLength;
      }
    }
  }

  lemma BehindBounded(consumed: nat, chunkLength: nat, length: nat)
    requires chunkLength > 0
    ensures Behind(consumed, chunkLength, length) <= PieceCount(length, chunkLength)
  {
    if consumed < length {
      DivMonotone(consumed, length + chunkLength - 1, chunkLength);
    }
  }

  lemma BehindMonotone(c: nat, c': nat, chunkLength: nat, length: nat)
    requires chunkLength > 0 && c <= c'
    ensures Behind(c, chunkLength, length) <= Behind(c', chunkLength, length)
  {
    BehindBounded(c, chunkLength, length);
    if c' < length {
      DivMonotone(c, c', chunkLength);
    }
  }

  class SequentialReadCursor {
    const chunkLength: nat
    const length: nat
    var consumed: nat

    ghost predicate Valid()
      reads this
    {
      chunkLength > 0 && consumed <= length
    }

    constructor (chunkLength: nat, length: nat)
      requires chunkLength > 0
      ensures Valid() && consumed == 0
      ensures this.chunkLength == chunkLength && this.length == length
    {
      this.chunkLength, this.length, consumed := chunkLength, length, 0;
    }

    method Advance(start: nat, end: nat) returns (pieces: nat)
      requires Valid()
      modifies this
      ensures Valid()
      ensures consumed == Advanced(old(consumed), length, start, end) >= old(consumed)
      ensures pieces == Behind(consumed, chunkLength, length)
    {
      if start <= consumed && end > consumed {
        consumed := Min(end, length);
      }
      pieces := PiecesBehind();
    }

    method PiecesBehind() returns (pieces: nat)
      requires Valid()
      ensures pieces == Behind(consumed, chunkLength, length)
    {
      if consumed >= length {
        return CeilDiv(length, chunkLength);
      }
      return consumed / chunkLength;
    }
  }

  // --- the store -----------------------------------------------------------------

  /** What a store remembers about the save. */
  datatype Progress = Progress(draining: bool, reapedUpTo: nat, consumed: nat)

  /** A `removeChunks` message: pieces from..upTo-1 may go. */
  type Removal = (nat, nat)

  /** What a store does when it looks for pieces to free, and the messages it posts. */
  function Reaped(p: Progress, chunkLength: nat, length: nat): (Progress, seq<Removal>)
    requires chunkLength > 0
  {
    var upTo := Behind(p.consumed, chunkLength, length);
    if !p.draining || upTo <= p.reapedUpTo then (p, [])
    else (p.(reapedUpTo := upTo), [(p.reapedUpTo, upTo)])
  }

  function Consumed(p: Progress, chunkLength: nat, length: nat, start: nat, end: nat): (Progress, seq<Removal>)
    requires chunkLength > 0
  {
    Reaped(p.(consumed := Advanced(p.consumed, length, start, end)), chunkLength, length)
  }

  function Drained(p: Progress, chunkLength: nat, length: nat): (Progress, seq<Removal>)
    requires chunkLength > 0
  {
    Reaped(p.(draining := true), chunkLength, length)
  }

  function ExpectedLength(index: nat, chunkLength: nat, length: nat): int
    requires chunkLength > 0
  {
    var last := Max(0, PieceCount(length, chunkLength) - 1);
    if index == last then length - last * chunkLength else chunkLength
  }

  /** The length the store expects of a piece file is the length of that piece. */
  lemma ExpectedLengthExact(data: seq<Byte>, chunkLength: nat, i: nat)
    requires chunkLength > 0 && i < PieceCount(|data|, chunkLength)
    ensures ExpectedLength(i, chunkLength, |data|) == |Piece(data, chunkLength, i)| > 0
  {
    var n := PieceCount(|data|, chunkLength);
    PieceLength(data, chunkLength, i);
    LastPieceEnds(|data|, chunkLength);
    if i < n - 1 {
      MulMonotone(i + 1, n - 1, chunkLength);
      NextStart(i, chunkLength);
    }
  }

  class DrainingStore {
    const chunkLength: nat
    const length: nat
    const cursor: SequentialReadCursor
    var draining: bool
    var reapedUpTo: nat
    /** Removal messages posted to the worker, oldest first. */
    var posted: seq<Removal>

    ghost predicate Valid()
      reads this, cursor
    {
      cursor.Valid() && cursor.chunkLength == chunkLength && cursor.length == length
    }

    ghost function State(): Progress
      reads this, cursor
    {
      Progress(draining, reapedUpTo, cursor.consumed)
    }

    constructor (chunkLength: nat, length: nat)
      requires chunkLength > 0
      ensures Valid() && fresh(cursor)
      ensures this.chunkLength == chunkLength && this.length == length
      ensures State() == Progress(false, 0, 0) && posted == []
    {
      this.chunkLength, this.length := chunkLength, length;
      cursor := new SequentialReadCursor(chunkLength, length);
      draining, reapedUpTo, posted := false, 0, [];
    }

    method Reap()
      requires Valid()
      modifies this
      ensures Valid()
      ensures (State(), posted) == (var (p, m) := Reaped(old(State()), chunkLength, length); (p, old(posted) + m))
    {
      assert old(posted) + [] == old(posted);
      if !draining {
        return;
      }
      var upTo := cursor.PiecesBehind();
      if upTo <= reapedUpTo {
        return;
      }
      var from := reapedUpTo;
      reapedUpTo := upTo;
      posted := posted + [(from, upTo)];
    }

    method OnConsumed(start: nat, end: nat)
      requires Valid()
      modifies this, cursor
      ensures Valid()
      ensures (State(), posted)
           == (var (p, m) := Consumed(old(State()), chunkLength, length, start, end); (p, old(posted) + m))
    {
      var _ := cursor.Advance(start, end);
      Reap();
    }

    method StartDraining()
      requires Valid()
      modifies this
      ensures Valid()
      ensures (State(), posted) == (var (p, m) := Drained(old(State()), chunkLength, length); (p, old(posted) + m))
    {
      draining := true;
      Reap();
    }
  }

  // --- the worker's piece files --------------------------------------------------

  /**
   * Reading a piece file: it must have its full length; the answer is the
   * requested stretch, zero where it reaches past the end of the file.
   */
  function ReadPiece(piece: Option<seq<Byte>>, offset: nat, len: Option<nat>, expected: int): Result<seq<Byte>, string>
  {
    if piece.None? then Err("NotFoundError")
    else if |piece.value| != expected then Err("chunk is incomplete")
    else
      var end := if len.Some? then offset + len.value else |piece.value|;
      if end < offset then Err("RangeError")
      else Ok(seq(end - offset, k requires 0 <= k < end - offset =>
                if offset + k < |piece.value| then piece.value[offset + k] else 0))
  }

  /** A request inside the piece gets exactly its bytes, or an error. */
  lemma ReadPieceExact(piece: seq<Byte>, offset: nat, len: nat)
    requires offset + len <= |piece|
    ensures ReadPiece(Some(piece), offset, Some(len), |piece|) == Ok(piece[offset..offset + len])
  {
    var r := ReadPiece(Some(piece), offset, Some(len), |piece|);
    assert r.value == piece[offset..offset + len];
  }

  /**
   * A read is refused exactly if the piece is missing or not of its expected
   * size, or starts past its end without a length. Without a length it gets the
   * rest of the piece, the whole from 0; zeros stand past the end.
   */
  lemma ReadPieceAnswers(piece: Option<seq<Byte>>, offset: nat, len: Option<nat>, expected: int)
    ensures var r := ReadPiece(piece, offset, len, expected);
            && (r.Ok? <==> piece.Some? && |piece.value| == expected && (len.Some? || offset <= |piece.value|))
            && (r.Ok? && len.None? ==> r.value == piece.value[offset..] && (offset == 0 ==> r.value == piece.value))
            && (r.Ok? && len.Some? ==>
                  |r.value| == len.value
                  && forall k :: 0 <= k < len.value ==>
                       r.value[k] == if offset + k < |piece.value| then piece.value[offset + k] else 0)
  {
    var r := ReadPiece(piece, offset, len, expected);
    if r.Ok? && len.None? {
      assert r.value == piece.value[offset..];
    }
  }

  class PieceDirectory {
    var files: map<nat, seq<Byte>>

    constructor ()
      ensures files == map[]
    {
      files := map[];
    }

    /** The whole buffer goes in at 0, then the file is cut to its length. */
    method Put(index: nat, buf: seq<Byte>)
      modifies this
      ensures files == old(files)[index := buf]
    {
      if index !in files {
        files := files[index := []];
      }
      var written := buf + files[index][Min(|buf|, |files[index]|)..];
      files := files[index := written];
      files := files[index := files[index][..|buf|]];
    }

    method Get(index: nat, offset: nat, len: Option<nat>, expected: int) returns (r: Result<seq<Byte>, string>)
      ensures r == ReadPiece(if index in files then Some(files[index]) else None, offset, len, expected)
    {
      if index !in files {
        return Err("NotFoundError");
      }
      var size := |files[index]|;
      if size != expected {
        return Err("chunk is incomplete");
      }
      var end := if len.Some? then offset + len.value else size;
      if end < offset {
        return Err("RangeError");
      }
      var out := new Byte[end - offset](_ => 0);
      var n := Max(0, Min(out.Length, size - offset));
      forall k | 0 <= k < n {
        out[k] := files[index][offset + k];
      }
      r := Ok(out[..]);
      assert out[..] == ReadPiece(Some(files[index]), offset, len, expected).value;
    }

    /** A removal that fails goes unreported; `stays` are the pieces that happens to. */
    method RemoveChunks(from: nat, upTo: nat, stays: set<nat>)
      modifies this
      ensures files == old(files) - (Range(from, upTo) - stays)
    {
      var i := from;
      while i < upTo
        invariant from <= i <= Max(from, upTo)
        invariant files == old(files) - (Range(from, i) - stays)
      {
        if i !in stays {
          files := files - {i};
        }
        i := i + 1;
      }
    }
  }
}
