/** The seeder's piece store (src/server/cipherStore.ts) and the hashing pass (src/server/torrents.ts). */
module CipherStore {
  import opened Bytes
  import opened Ctr
  import Cipher
  import CipherKeys

  const KIB: nat := 1024

  method PieceLengthFor(size: nat) returns (pieceLength: nat)
    ensures pieceLength > 0
    ensures exists k: nat :: k <= 5 && pieceLength == 256 * KIB * Pow2(k)
    ensures pieceLength >= CeilDiv(size, 1024) || pieceLength == 8 * KIB * KIB
    ensures pieceLength > 256 * KIB ==> pieceLength / 2 < CeilDiv(size, 1024)
    ensures size <= 8 * KIB * KIB * KIB ==> PieceCount(size, pieceLength) <= 1024
  {
    var target := CeilDiv(size, 1024);
    pieceLength := 256 * KIB;
    ghost var k: nat := 0;
    while pieceLength < target && pieceLength < 8 * KIB * KIB
      invariant k <= 5 && pieceLength == 256 * KIB * Pow2(k)
      invariant pieceLength > 256 * KIB ==> pieceLength / 2 < target
      decreases 5 - k
    {
      pieceLength := pieceLength * 2;
      k := k + 1;
    }
    if size <= 8 * KIB * KIB * KIB {
      FewPieces(size, pieceLength);
    }
  }

  function Pow2(k: nat): nat {
    if k == 0 then 1 else 2 * Pow2(k - 1)
  }

  function PieceCount(length: nat, pieceLength: nat): nat
    requires pieceLength > 0
  {
    CeilDiv(length, pieceLength)
  }

  lemma FewPieces(size: nat, pieceLength: nat)
    requires pieceLength > 0 && pieceLength * 1024 >= size
    ensures PieceCount(size, pieceLength) <= 1024
  {
    var a := size + pieceLength - 1;
    var q, r := DivMod(a, pieceLength);
    if q > 1024 {
      MulMonotone(1025, q, pieceLength);
    }
  }

  /** Piece `i` of a byte string cut every `pieceLength` bytes, the last piece short. */
  function Piece(data: seq<Byte>, pieceLength: nat, i: nat): seq<Byte>
    requires pieceLength > 0
  {
    CipherKeys.Span(data, i * pieceLength, i * pieceLength + pieceLength)
  }

  function Pieces(data: seq<Byte>, pieceLength: nat, n: nat): (ps: seq<seq<Byte>>)
    requires pieceLength > 0
    ensures |ps| == n
  {
    seq(n, i requires 0 <= i < n => Piece(data, pieceLength, i))
  }

  /** Cutting loses and repeats nothing. */
  lemma {:induction false} PiecesJoin(data: seq<Byte>, pieceLength: nat, n: nat)
    requires pieceLength > 0
    ensures Flatten(Pieces(data, pieceLength, n)) == CipherKeys.Span(data, 0, n * pieceLength)
  {
    if n > 0 {
      var ps := Pieces(data, pieceLength, n);
      assert ps[..n - 1] == Pieces(data, pieceLength, n - 1);
      PiecesJoin(data, pieceLength, n - 1);
      OnePieceMore(data, pieceLength, n - 1);
    }
  }

  lemma OnePieceMore(data: seq<Byte>, pieceLength: nat, i: nat)
    requires pieceLength > 0
    ensures CipherKeys.Span(data, 0, i * pieceLength) + Piece(data, pieceLength, i)
         == CipherKeys.Span(data, 0, (i + 1) * pieceLength)
  {
    var lo := i * pieceLength;
    assert (i + 1) * pieceLength == lo + pieceLength;
    SpanJoins(data, lo, lo + pieceLength);
  }

  lemma SpanJoins(data: seq<Byte>, mid: nat, to: nat)
    requires mid <= to
    ensures CipherKeys.Span(data, 0, mid) + CipherKeys.Span(data, mid, to) == CipherKeys.Span(data, 0, to)
  {}

  lemma AllPiecesJoin(data: seq<Byte>, pieceLength: nat)
    requires pieceLength > 0
    ensures Flatten(Pieces(data, pieceLength, PieceCount(|data|, pieceLength))) == data
  {
    var n := PieceCount(|data|, pieceLength);
    var q, r := DivMod(|data| + pieceLength - 1, pieceLength);
    assert n * pieceLength >= |data|;
    PiecesJoin(data, pieceLength, n);
  }

  /**
   * The hashing pass: the plaintext streams once through one cipher into the
   * piece hasher, and through the checksum on its way. What each hasher is fed
   * comes back as its input bytes.
   */
  method BuildMeta(chunks: seq<seq<Byte>>, aes: BlockCipher, iv: Counter)
    returns (hashed: seq<Byte>, checksummed: seq<Byte>)
    ensures hashed == Encrypt(aes, iv, Flatten(chunks))
    ensures checksummed == Flatten(chunks)
  {
    var cipher := new Cipher.CtrStream(aes, iv);
    hashed, checksummed := [], [];
    for k := 0 to |chunks|
      invariant cipher.aes == aes && cipher.iv == iv && fresh(cipher)
      invariant checksummed == Flatten(chunks[..k])
      invariant cipher.pos == |checksummed|
      invariant hashed == Encrypt(aes, iv, checksummed)
    {
      assert chunks[..k + 1][..k] == chunks[..k];
      CryptConcat(aes, iv, checksummed, chunks[k], 0);
      checksummed := checksummed + chunks[k];
      var ct := cipher.Update(chunks[k]);
      hashed := hashed + ct;
    }
    assert chunks[..|chunks|] == chunks;
  }

  class CipherChunkStore {
    const chunkLength: nat
    const length: nat
    const file: seq<Byte>
    const aes: BlockCipher
    const iv: Counter
    /** Whether the source file's handle is open. */
    var open: bool

    ghost predicate Valid() {
      chunkLength > 0 && length == |file|
    }

    constructor (chunkLength: nat, file: seq<Byte>, aes: BlockCipher, iv: Counter)
      requires chunkLength > 0
      ensures Valid() && !open
      ensures this.chunkLength == chunkLength && this.file == file && this.aes == aes && this.iv == iv
    {
      this.chunkLength, this.length, this.file := chunkLength, |file|, file;
      this.aes, this.iv, this.open := aes, iv, false;
    }

    /** Where a `get` starts in the file, and how much it wants. */
    function From(index: nat, offset: Option<int>): int {
      index * chunkLength + (if offset.Some? then offset.value else 0)
    }

    function Want(index: nat, offset: Option<int>, len: Option<int>): int {
      if len.Some? then len.value
      else Min(chunkLength, length - index * chunkLength) - (if offset.Some? then offset.value else 0)
    }

    predicate InRange(index: nat, offset: Option<int>, len: Option<int>) {
      From(index, offset) >= 0 && Want(index, offset, len) >= 0
      && From(index, offset) + Want(index, offset, len) <= length
    }

    /**
     * One file read answers a `get`. An out-of-range request is refused; any
     * other gets the matching slice of the whole-file encryption, cut where
     * the read came back short.
     */
    method Get(index: nat, offset: Option<int>, len: Option<int>) returns (r: Result<seq<Byte>, string>, ghost got: nat)
      requires Valid()
      modifies this`open
      ensures r.Ok? <==> InRange(index, offset, len)
      ensures open == (old(open) || r.Ok?)
      ensures r.Ok? ==>
                var from, want := From(index, offset), Want(index, offset, len);
                got <= want && (got == 0 ==> want == 0)
                && r.value == Encrypt(aes, iv, file)[from..from + got]
                && (r.value == Encrypt(aes, iv, file)[from..from + want] <==> got == want)
    {
      var pieceStart := index * chunkLength;
      var pieceLength := Min(chunkLength, length - pieceStart);
      var off := if offset.Some? then offset.value else 0;
      var wantLength := if len.Some? then len.value else pieceLength - off;
      var absOffset := pieceStart + off;
      got := 0;
      if absOffset < 0 || wantLength < 0 || absOffset + wantLength > length {
        return Err("cipher store: read out of range"), 0;
      }
      open := true;
      var ct;
      ct, got := ReadAndEncrypt(absOffset, wantLength);
      r := Ok(ct);
    }

    /** The read behind a `get`: one file read, encrypted where it lies. */
    method ReadAndEncrypt(from: nat, want: nat) returns (r: seq<Byte>, ghost got: nat)
      requires Valid() && from + want <= |file|
      ensures got <= want && (got == 0 ==> want == 0)
      ensures r == Encrypt(aes, iv, file)[from..from + got]
      ensures r == Encrypt(aes, iv, file)[from..from + want] <==> got == want
    {
      var plain := CipherKeys.ReadAt(file, from, want);
      got := |plain|;
      r := Cipher.EncryptRange(plain, aes, iv, from);
      Cipher.EncryptRangeIsSlice(aes, iv, file, from, from + got);
      SliceShort(Encrypt(aes, iv, file), from, got, want);
    }
  }

  lemma SliceShort(s: seq<Byte>, from: nat, got: nat, want: nat)
    requires got <= want && from + want <= |s|
    ensures s[from..from + got] == s[from..from + want] <==> got == want
  {
    assert |s[from..from + got]| == got && |s[from..from + want]| == want;
  }

  /**
   * A whole-piece `get` asks for exactly the bytes of that piece of the hashed
   * stream, and asking past the last piece is refused.
   */
  lemma WholePieceRequest(store: CipherChunkStore, index: nat)
    requires store.Valid()
    ensures store.InRange(index, None, None) <==> index * store.chunkLength <= store.length
    ensures store.InRange(index, None, None) ==>
              var from, ct := store.From(index, None), Encrypt(store.aes, store.iv, store.file);
              ct[from..from + store.Want(index, None, None)] == Piece(ct, store.chunkLength, index)
  {}

  /**
   * A `get` with offset and length asks for that stretch of the piece, which
   * is the same stretch of the whole file's ciphertext. One that runs past the
   * piece goes on in the file.
   */
  lemma PartRequest(store: CipherChunkStore, index: nat, offset: nat, len: nat)
    requires store.Valid()
    ensures store.InRange(index, Some(offset), Some(len)) <==> index * store.chunkLength + offset + len <= store.length
    ensures store.InRange(index, Some(offset), Some(len)) ==>
              var at, ct := index * store.chunkLength + offset, Encrypt(store.aes, store.iv, store.file);
              && store.From(index, Some(offset)) == at && store.Want(index, Some(offset), Some(len)) == len
              && ct[at..at + len] == CipherKeys.Span(ct, at, (at + len - 1) + 1)
              && (offset + len <= store.chunkLength ==>
                    offset + len <= |Piece(ct, store.chunkLength, index)|
                    && ct[at..at + len] == Piece(ct, store.chunkLength, index)[offset..offset + len])
  {
    if store.InRange(index, Some(offset), Some(len)) && offset + len <= store.chunkLength {
      InsideSpan(Encrypt(store.aes, store.iv, store.file), index * store.chunkLength,
                 index * store.chunkLength + store.chunkLength, offset, len);
    }
  }

  /** A `get` with only an offset asks for the rest of the piece. */
  lemma RestRequest(store: CipherChunkStore, index: nat, offset: nat)
    requires store.Valid() && index < PieceCount(store.length, store.chunkLength)
    ensures var ct := Encrypt(store.aes, store.iv, store.file);
            var piece := Piece(ct, store.chunkLength, index);
            && (store.InRange(index, Some(offset), None) <==> offset <= |piece|)
            && (offset <= |piece| ==>
                  var from, want := store.From(index, Some(offset)), store.Want(index, Some(offset), None);
                  ct[from..from + want] == piece[offset..])
  {
    var ct, start := Encrypt(store.aes, store.iv, store.file), index * store.chunkLength;
    PieceLength(ct, store.chunkLength, index);
    NextStart(index, store.chunkLength);
    var end := Min(start + store.chunkLength, |ct|);
    if offset <= end - start {
      assert ct[start..end][offset..] == ct[start + offset..end];
    }
  }

  lemma InsideSpan(s: seq<Byte>, lo: nat, hi: nat, offset: nat, len: nat)
    requires lo + offset + len <= |s| && lo + offset + len <= hi
    ensures offset + len <= |CipherKeys.Span(s, lo, hi)|
    ensures CipherKeys.Span(s, lo, hi)[offset..offset + len] == s[lo + offset..lo + offset + len]
  {}

  lemma NextStart(i: nat, chunkLength: nat)
    ensures (i + 1) * chunkLength == i * chunkLength + chunkLength
  {}

  /**
   * Seeding the whole file, one whole-piece `get` after another. Each piece
   * that comes back is a non-empty prefix of that piece of the hashed stream,
   * and together they are that stream exactly if no read came back short.
   */
  method SeedAll(store: CipherChunkStore) returns (pieces: seq<seq<Byte>>)
    requires store.Valid()
    modifies store`open
    ensures var ct := Encrypt(store.aes, store.iv, store.file);
            && |pieces| == PieceCount(store.length, store.chunkLength)
            && (forall i :: 0 <= i < |pieces| ==>
                  pieces[i] != [] && pieces[i] <= Piece(ct, store.chunkLength, i))
            && (Flatten(pieces) == ct
                <==> forall i :: 0 <= i < |pieces| ==> |pieces[i]| == store.Want(i, None, None))
  {
    pieces := [];
    var n := PieceCount(store.length, store.chunkLength);
    ghost var ct := Encrypt(store.aes, store.iv, store.file);
    for i := 0 to n
      invariant |pieces| == i
      invariant forall j :: 0 <= j < i ==> pieces[j] != [] && pieces[j] <= Piece(ct, store.chunkLength, j)
    {
      StartsInside(store.length, store.chunkLength, i);
      WholePieceRequest(store, i);
      var r, got := store.Get(i, None, None);
      SlicePrefix(ct, store.From(i, None), got, store.Want(i, None, None));
      pieces := pieces + [r.value];
    }
    SeededExactly(store, pieces);
  }

  lemma SlicePrefix(s: seq<Byte>, from: nat, got: nat, want: nat)
    requires got <= want && from + want <= |s|
    ensures s[from..from + got] <= s[from..from + want]
  {
    assert s[from..from + want][..got] == s[from..from + got];
  }

  lemma SeededExactly(store: CipherChunkStore, pieces: seq<seq<Byte>>)
    requires store.Valid() && |pieces| == PieceCount(store.length, store.chunkLength)
    requires var ct := Encrypt(store.aes, store.iv, store.file);
             forall i :: 0 <= i < |pieces| ==> pieces[i] <= Piece(ct, store.chunkLength, i)
    ensures Flatten(pieces) == Encrypt(store.aes, store.iv, store.file)
            <==> forall i :: 0 <= i < |pieces| ==> |pieces[i]| == store.Want(i, None, None)
  {
    var ct := Encrypt(store.aes, store.iv, store.file);
    var whole := Pieces(ct, store.chunkLength, |pieces|);
    AllPiecesJoin(ct, store.chunkLength);
    FlattenPrefixes(pieces, whole);
    forall i | 0 <= i < |pieces|
      ensures |whole[i]| == store.Want(i, None, None)
      ensures pieces[i] == whole[i] <==> |pieces[i]| == |whole[i]|
    {
      StartsInside(store.length, store.chunkLength, i);
      WholePieceRequest(store, i);
    }
  }

  /** A piece runs from its start to the next one's, or to the end of the file. */
  lemma PieceLength(data: seq<Byte>, chunkLength: nat, i: nat)
    requires chunkLength > 0 && i < PieceCount(|data|, chunkLength)
    ensures i * chunkLength < |data|
    ensures i * chunkLength < Min((i + 1) * chunkLength, |data|)
    ensures Piece(data, chunkLength, i) == data[i * chunkLength..Min((i + 1) * chunkLength, |data|)]
    ensures |Piece(data, chunkLength, i)| == Min((i + 1) * chunkLength, |data|) - i * chunkLength
  {
    StartsInside(|data|, chunkLength, i);
    assert (i + 1) * chunkLength == i * chunkLength + chunkLength;
  }

  /** The last piece reaches the end of the file, and no other does. */
  lemma LastPieceEnds(length: nat, chunkLength: nat)
    requires chunkLength > 0 && length > 0
    ensures var n := PieceCount(length, chunkLength); n > 0 && (n - 1) * chunkLength < length <= n * chunkLength
  {
    var n, r := DivMod(length + chunkLength - 1, chunkLength);
    assert (n - 1) * chunkLength == n * chunkLength - chunkLength;
  }

  lemma StartsInside(length: nat, chunkLength: nat, i: nat)
    requires chunkLength > 0 && i < PieceCount(length, chunkLength)
    ensures i * chunkLength < length
  {
    var q, r := DivMod(length + chunkLength - 1, chunkLength);
    MulMonotone(i + 1, q, chunkLength);
  }
}
