/** The browser's half of the transfer cipher, packages/shared/src/browserCrypto.ts. */
module BrowserCrypto {
  import opened Bytes
  import opened Ctr

  const HALF: nat := 8

  method AddToCounter(iv: Counter, blocks: nat) returns (counter: array<Octet>)
    ensures fresh(counter) && counter[..] == CounterAt(iv, blocks)
  {
    counter := new Octet[BLOCK_LEN](i requires 0 <= i < BLOCK_LEN => iv[i]);
    assert counter[..] == iv;
    var carry: nat := blocks;
    var i: int := BLOCK_LEN - 1;
    CarryStart(iv, blocks);
    while i >= 0 && carry > 0
      invariant -1 <= i < BLOCK_LEN
      invariant CarryInv(iv, blocks, counter[..], i, carry)
    {
      ghost var before, carried := counter[..], carry;
      var sum := counter[i] + carry % 256;
      counter[i] := sum % 256;
      carry := carry / 256 + sum / 256;
      CarryStep(iv, blocks, before, i, carried, counter[..], carry);
      i := i - 1;
    }
    CarryDone(iv, blocks, counter[..], i, carry);
  }

  /** WebCrypto's counter block `j` when only the low 64 bits count (`length: 64`). */
  function WebCounterAt(c: Counter, j: nat): Counter {
    c[..HALF] + Digits(Value(c[HALF..]) + j, HALF)
  }

  /** One `crypto.subtle.encrypt` call with `length: 64`. */
  function WebEncrypt(aes: BlockCipher, c: Counter, data: seq<Byte>): (r: seq<Byte>)
    ensures |r| == |data|
  {
    seq(|data|, i requires 0 <= i < |data| => data[i] ^ aes(WebCounterAt(c, i / BLOCK_LEN))[i % BLOCK_LEN])
  }

  /** The bytes one `ctrXor` call produces. */
  function Xored(aes: BlockCipher, iv: Counter, chunk: seq<Byte>, off: nat): (r: seq<Byte>)
    ensures |r| == |chunk|
  {
    WebEncrypt(aes, CounterAt(iv, off / BLOCK_LEN), Zeros(off % BLOCK_LEN) + chunk)[off % BLOCK_LEN..]
  }

  method CtrXor(chunk: seq<Byte>, absoluteOffset: nat, aes: BlockCipher, baseIv: Counter) returns (r: seq<Byte>)
    ensures r == Xored(aes, baseIv, chunk, absoluteOffset)
    ensures NoWrap(baseIv, absoluteOffset, |chunk|) ==> r == Crypt(aes, baseIv, chunk, absoluteOffset)
  {
    var blockOffset := absoluteOffset % BLOCK_LEN;
    var blockIndex := absoluteOffset / BLOCK_LEN;
    var counter := AddToCounter(baseIv, blockIndex);
    var padded := new Byte[blockOffset + |chunk|](_ => 0);
    forall i | 0 <= i < |chunk| {
      padded[blockOffset + i] := chunk[i];
    }
    assert padded[..] == Zeros(blockOffset) + chunk;
    var c: Counter := counter[..];
    assert c == CounterAt(baseIv, blockIndex);
    var out := WebEncrypt(aes, c, padded[..]);
    r := out[blockOffset..];
    if NoWrap(baseIv, absoluteOffset, |chunk|) {
      XoredIsCrypt(aes, baseIv, chunk, absoluteOffset);
    }
  }

  /** How far the low 64 counter bits are above zero when a call at `off` starts. */
  function LowHalf(iv: Counter, off: nat): nat {
    Value(CounterAt(iv, off / BLOCK_LEN)[HALF..])
  }

  /** The low 64 counter bits do not wrap while one call covers `len` bytes from `off`. */
  predicate NoWrap(iv: Counter, off: nat, len: nat) {
    LowHalf(iv, off) + CeilDiv(off % BLOCK_LEN + len, BLOCK_LEN) <= Pow256(HALF)
  }

  lemma WebCounterExact(c: Counter, j: nat)
    requires Value(c[HALF..]) + j < Pow256(HALF)
    ensures WebCounterAt(c, j) == CounterAt(c, j)
  {
    var hi, lo := c[..HALF], c[HALF..];
    assert c == hi + lo;
    ValueConcat(hi, lo);
    DigitsSplit(Value(hi), Value(lo) + j, HALF, HALF);
    DigitsOfValue(hi);
  }

  /** At the first wrapped block WebCrypto restarts the low half; Node carries. */
  lemma WebCounterWraps(c: Counter, j: nat)
    requires Value(c[HALF..]) + j == Pow256(HALF)
    ensures WebCounterAt(c, j) != CounterAt(c, j)
  {
    var hi, lo := c[..HALF], c[HALF..];
    assert c == hi + lo;
    ValueConcat(hi, lo);
    DigitsSplit(Value(hi) + 1, 0, HALF, HALF);
    assert (Value(hi) + 1) * Pow256(HALF) == Value(c) + j;
    ValueBound(hi);
    ValueOfDigits(Value(hi) + 1, HALF);
    SuccModDiffers(Value(hi), Pow256(HALF));
    assert CounterAt(c, j)[..HALF] == Digits(Value(hi) + 1, HALF);
    assert WebCounterAt(c, j)[..HALF] == hi;
  }

  lemma SuccModDiffers(v: nat, n: nat)
    requires v < n && n > 1
    ensures (v + 1) % n != v
  {
    if v + 1 == n {
      DivModUnique(v + 1, n, 1, 0);
    } else {
      DivModUnique(v + 1, n, 0, v + 1);
    }
  }

  lemma SeekArithmetic(off: nat, i: nat)
    ensures off / BLOCK_LEN + (off % BLOCK_LEN + i) / BLOCK_LEN == (off + i) / BLOCK_LEN
    ensures (off % BLOCK_LEN + i) % BLOCK_LEN == (off + i) % BLOCK_LEN
  {}

  /** Byte `i` of a browser call, in terms of the counter it uses. */
  lemma XoredByte(aes: BlockCipher, iv: Counter, chunk: seq<Byte>, off: nat, i: nat)
    requires i < |chunk|
    ensures Xored(aes, iv, chunk, off)[i]
         == chunk[i] ^ aes(WebCounterAt(CounterAt(iv, off / BLOCK_LEN),
                                        (off % BLOCK_LEN + i) / BLOCK_LEN))[(off + i) % BLOCK_LEN]
  {
    PaddedByte(aes, CounterAt(iv, off / BLOCK_LEN), chunk, off % BLOCK_LEN, i);
    SeekArithmetic(off, i);
  }

  lemma PaddedByte(aes: BlockCipher, c: Counter, chunk: seq<Byte>, pad: nat, i: nat)
    requires i < |chunk|
    ensures WebEncrypt(aes, c, Zeros(pad) + chunk)[pad..][i]
         == chunk[i] ^ aes(WebCounterAt(c, (pad + i) / BLOCK_LEN))[(pad + i) % BLOCK_LEN]
  {
    var padded := Zeros(pad) + chunk;
    assert padded[pad + i] == chunk[i];
    assert WebEncrypt(aes, c, padded)[pad..][i] == WebEncrypt(aes, c, padded)[pad + i];
  }

  /** Byte `i` of the server's cipher, seeking the same way. */
  lemma CryptByte(aes: BlockCipher, iv: Counter, chunk: seq<Byte>, off: nat, i: nat)
    requires i < |chunk|
    ensures Crypt(aes, iv, chunk, off)[i]
         == chunk[i] ^ aes(CounterAt(CounterAt(iv, off / BLOCK_LEN),
                                     (off % BLOCK_LEN + i) / BLOCK_LEN))[(off + i) % BLOCK_LEN]
  {
    SeekArithmetic(off, i);
    CounterCompose(iv, off / BLOCK_LEN, (off % BLOCK_LEN + i) / BLOCK_LEN);
    var j := (off + i) / BLOCK_LEN;
    assert CounterAt(iv, j) == CounterAt(CounterAt(iv, off / BLOCK_LEN), (off % BLOCK_LEN + i) / BLOCK_LEN);
    assert KeyByte(aes, iv, off + i) == aes(CounterAt(iv, j))[(off + i) % BLOCK_LEN];
    assert Crypt(aes, iv, chunk, off)[i] == chunk[i] ^ KeyByte(aes, iv, off + i);
  }

  lemma XoredIsCrypt(aes: BlockCipher, iv: Counter, chunk: seq<Byte>, off: nat)
    requires NoWrap(iv, off, |chunk|)
    ensures Xored(aes, iv, chunk, off) == Crypt(aes, iv, chunk, off)
  {
    forall i | 0 <= i < |chunk|
      ensures Xored(aes, iv, chunk, off)[i] == Crypt(aes, iv, chunk, off)[i]
    {
      XoredByte(aes, iv, chunk, off, i);
      CryptByte(aes, iv, chunk, off, i);
      WebCounterExact(CounterAt(iv, off / BLOCK_LEN), (off % BLOCK_LEN + i) / BLOCK_LEN);
    }
  }

  /** A block cipher that tells block `c` apart from every other. */
  function Marking(c: Counter): BlockCipher {
    (b: Counter) => if b == c then seq(BLOCK_LEN, _ => 1) else seq(BLOCK_LEN, _ => 0)
  }

  lemma XoredDiverges(iv: Counter, chunk: seq<Byte>, off: nat) returns (aes: BlockCipher)
    requires !NoWrap(iv, off, |chunk|)
    ensures Xored(aes, iv, chunk, off) != Crypt(aes, iv, chunk, off)
  {
    var c := CounterAt(iv, off / BLOCK_LEN);
    ValueBound(c[HALF..]);
    var j := Pow256(HALF) - Value(c[HALF..]);
    WebCounterWraps(c, j);
    aes := Marking(CounterAt(c, j));
    var i := BlockStart(off, j, |chunk|);
    XoredByte(aes, iv, chunk, off, i);
    CryptByte(aes, iv, chunk, off, i);
    MarkedByteDiffers(c, j, chunk[i]);
  }

  /** Where in a call from `off` its block `j` begins. */
  lemma BlockStart(off: nat, j: nat, len: nat) returns (i: nat)
    requires 0 < j < CeilDiv(off % BLOCK_LEN + len, BLOCK_LEN)
    ensures i < len && (off % BLOCK_LEN + i) / BLOCK_LEN == j && (off + i) % BLOCK_LEN == 0
  {
    i := BLOCK_LEN * j - off % BLOCK_LEN;
    SeekArithmetic(off, i);
  }

  lemma MarkedByteDiffers(c: Counter, j: nat, a: Byte)
    requires WebCounterAt(c, j) != CounterAt(c, j)
    ensures a ^ Marking(CounterAt(c, j))(WebCounterAt(c, j))[0] != a ^ Marking(CounterAt(c, j))(CounterAt(c, j))[0]
  {
    XorOneDiffers(a);
  }

  lemma XorOneDiffers(a: Byte)
    ensures a ^ 1 != a ^ 0
  {}

  /** The exact condition under which one browser call agrees with the server's cipher. */
  lemma CtrXorExactlyWhenNoWrap(iv: Counter, chunk: seq<Byte>, off: nat)
    ensures NoWrap(iv, off, |chunk|)
            <==> forall aes: BlockCipher :: Xored(aes, iv, chunk, off) == Crypt(aes, iv, chunk, off)
  {
    if NoWrap(iv, off, |chunk|) {
      forall aes: BlockCipher
        ensures Xored(aes, iv, chunk, off) == Crypt(aes, iv, chunk, off)
      {
        XoredIsCrypt(aes, iv, chunk, off);
      }
    } else {
      var aes := XoredDiverges(iv, chunk, off);
    }
  }

  /** The number all-ones bytes spell. */
  lemma {:induction false} ValueOfOnes(s: seq<Octet>)
    requires forall i :: 0 <= i < |s| ==> s[i] == 255
    ensures Value(s) == Pow256(|s|) - 1
  {
    if s != [] {
      ValueOfOnes(s[..|s| - 1]);
    }
  }

  /**
   * Real inputs wrap: with an IV of all ones a first call of two blocks does,
   * while one block is still fine.
   */
  lemma ShortCallWraps(iv: Counter)
    requires forall i :: 0 <= i < BLOCK_LEN ==> iv[i] == 255
    ensures NoWrap(iv, 0, BLOCK_LEN) && !NoWrap(iv, 0, BLOCK_LEN + 1)
  {
    ValueOfOnes(iv[HALF..]);
    StartCounter(iv);
  }

  lemma StartCounter(iv: Counter)
    ensures CounterAt(iv, 0) == iv
  {
    DigitsOfValue(iv);
  }

  /** So for such an IV some block cipher makes the browser's answer differ from the server's, for any 17 bytes. */
  lemma RealInputDiverges(iv: Counter, chunk: seq<Byte>) returns (aes: BlockCipher)
    requires (forall i :: 0 <= i < BLOCK_LEN ==> iv[i] == 255) && |chunk| == BLOCK_LEN + 1
    ensures Xored(aes, iv, chunk, 0) != Crypt(aes, iv, chunk, 0)
  {
    ShortCallWraps(iv);
    aes := XoredDiverges(iv, chunk, 0);
  }

  // --- chunked transfers ---------------------------------------------------------

  /** Every chunk of a stream that starts at byte `start`, through its own call. */
  function XoredAll(aes: BlockCipher, iv: Counter, start: nat, chunks: seq<seq<Byte>>): (r: seq<seq<Byte>>)
    ensures |r| == |chunks|
    ensures |Flatten(r)| == |Flatten(chunks)|
  {
    if chunks == [] then []
    else
      var init, last := chunks[..|chunks| - 1], chunks[|chunks| - 1];
      var done := XoredAll(aes, iv, start, init);
      var now := Xored(aes, iv, last, start + |Flatten(init)|);
      FlattenAppend(done, now);
      done + [now]
  }

  /** No chunk of the stream makes its own call wrap. */
  predicate NoChunkWraps(iv: Counter, start: nat, chunks: seq<seq<Byte>>) {
    chunks == []
    || (var init, last := chunks[..|chunks| - 1], chunks[|chunks| - 1];
        NoChunkWraps(iv, start, init) && NoWrap(iv, start + |Flatten(init)|, |last|))
  }

  lemma {:induction false} ChunkedIsOneShot(aes: BlockCipher, iv: Counter, start: nat, chunks: seq<seq<Byte>>)
    requires NoChunkWraps(iv, start, chunks)
    ensures Flatten(XoredAll(aes, iv, start, chunks)) == Crypt(aes, iv, Flatten(chunks), start)
  {
    if chunks != [] {
      var init, last := chunks[..|chunks| - 1], chunks[|chunks| - 1];
      ChunkedIsOneShot(aes, iv, start, init);
      XoredIsCrypt(aes, iv, last, start + |Flatten(init)|);
      FlattenAppend(XoredAll(aes, iv, start, init), Xored(aes, iv, last, start + |Flatten(init)|));
      CryptConcat(aes, iv, Flatten(init), last, start);
    }
  }

  lemma {:induction false} ChunkedDiverges(iv: Counter, start: nat, chunks: seq<seq<Byte>>)
    returns (aes: BlockCipher)
    requires !NoChunkWraps(iv, start, chunks)
    ensures Flatten(XoredAll(aes, iv, start, chunks)) != Crypt(aes, iv, Flatten(chunks), start)
  {
    var init, last := chunks[..|chunks| - 1], chunks[|chunks| - 1];
    var off := start + |Flatten(init)|;
    if NoChunkWraps(iv, start, init) {
      aes := XoredDiverges(iv, last, off);
    } else {
      aes := ChunkedDiverges(iv, start, init);
    }
    var done, now := XoredAll(aes, iv, start, init), Xored(aes, iv, last, off);
    FlattenAppend(done, now);
    CryptConcat(aes, iv, Flatten(init), last, start);
    ConcatDiffers(Flatten(done), Crypt(aes, iv, Flatten(init), start), now, Crypt(aes, iv, last, off));
  }

  lemma ConcatDiffers(a: seq<Byte>, b: seq<Byte>, x: seq<Byte>, y: seq<Byte>)
    requires |a| == |b| && (a != b || x != y)
    ensures a + x != b + y
  {
    assert (a + x)[..|a|] == a && (b + y)[..|b|] == b;
    assert (a + x)[|a|..] == x && (b + y)[|b|..] == y;
  }

  /** Any chunking equals the one-shot result exactly when no chunk's call wraps. */
  lemma ChunkedExactlyWhenNoChunkWraps(iv: Counter, start: nat, chunks: seq<seq<Byte>>)
    ensures NoChunkWraps(iv, start, chunks)
            <==> forall aes: BlockCipher ::
                   Flatten(XoredAll(aes, iv, start, chunks)) == Crypt(aes, iv, Flatten(chunks), start)
  {
    if NoChunkWraps(iv, start, chunks) {
      forall aes: BlockCipher
        ensures Flatten(XoredAll(aes, iv, start, chunks)) == Crypt(aes, iv, Flatten(chunks), start)
      {
        ChunkedIsOneShot(aes, iv, start, chunks);
      }
    } else {
      var aes := ChunkedDiverges(iv, start, chunks);
    }
  }

  /** A download of bytes start.. of the server's ciphertext decrypts to the file's own bytes. */
  lemma DownloadDecrypts(aes: BlockCipher, iv: Counter, file: seq<Byte>, start: nat, chunks: seq<seq<Byte>>)
    requires start + |Flatten(chunks)| <= |file|
    requires Flatten(chunks) == Encrypt(aes, iv, file)[start..start + |Flatten(chunks)|]
    requires NoChunkWraps(iv, start, chunks)
    ensures Flatten(XoredAll(aes, iv, start, chunks)) == file[start..start + |Flatten(chunks)|]
  {
    var end := start + |Flatten(chunks)|;
    ChunkedIsOneShot(aes, iv, start, chunks);
    CryptSlice(aes, iv, file, 0, start, end);
    CryptInvolution(aes, iv, file[start..end], start);
  }

  /** Room in the low half of the counter for all of a file of `size` bytes. */
  predicate Room(iv: Counter, size: nat) {
    Value(iv[HALF..]) + CeilDiv(size, BLOCK_LEN) <= Pow256(HALF)
  }

  lemma {:induction false} RoomForFile(iv: Counter, size: nat, start: nat, chunks: seq<seq<Byte>>)
    requires Room(iv, size) && start + |Flatten(chunks)| <= size
    ensures NoChunkWraps(iv, start, chunks)
  {
    if chunks != [] {
      var init, last := chunks[..|chunks| - 1], chunks[|chunks| - 1];
      RoomForFile(iv, size, start, init);
      RoomForCall(iv, size, start + |Flatten(init)|, |last|);
    }
  }

  /**
   * The browser picks the chunks; whatever it picks, no call wraps, exactly if
   * the low half has room for the whole file.
   */
  lemma EveryChunkingExactly(iv: Counter, file: seq<Byte>)
    ensures Room(iv, |file|)
            <==> forall chunks :: Flatten(chunks) == file ==> NoChunkWraps(iv, 0, chunks)
  {
    if Room(iv, |file|) {
      forall chunks | Flatten(chunks) == file
        ensures NoChunkWraps(iv, 0, chunks)
      {
        RoomForFile(iv, |file|, 0, chunks);
      }
    } else {
      assert [file][..0] == [];
      FlattenAppend([], file);
      assert [] + [file] == [file];
      StartCounter(iv);
      assert !NoChunkWraps(iv, 0, [file]);
    }
  }

  lemma RoomForCall(iv: Counter, size: nat, off: nat, len: nat)
    requires Room(iv, size) && off + len <= size
    ensures NoWrap(iv, off, len)
  {
    var b := off / BLOCK_LEN;
    var blocks := CeilDiv(off % BLOCK_LEN + len, BLOCK_LEN);
    if blocks == 0 || Value(iv[HALF..]) + b == Pow256(HALF) {
      ValueBound(CounterAt(iv, b)[HALF..]);
    } else {
      assert b + blocks <= CeilDiv(size, BLOCK_LEN);
      WebCounterExact(iv, b);
      ValueOfDigits(Value(iv[HALF..]) + b, HALF);
      DivModUnique(Value(iv[HALF..]) + b, Pow256(HALF), 0, Value(iv[HALF..]) + b);
      assert CounterAt(iv, b)[HALF..] == Digits(Value(iv[HALF..]) + b, HALF);
    }
  }

  // --- the file iterator and the upload ------------------------------------------

  /** The patched file iterator: decrypts each chunk where it stands and reports it. */
  class FileIterator {
    const aes: BlockCipher
    const iv: Counter
    var offset: nat

    constructor (aes: BlockCipher, iv: Counter, start: nat)
      ensures this.aes == aes && this.iv == iv && offset == start
    {
      this.aes, this.iv, this.offset := aes, iv, start;
    }

    /** One `next()` for a chunk the inner iterator produced; [start, end) goes to the progress listener. */
    method Next(chunk: seq<Byte>) returns (plain: seq<Byte>, start: nat, end: nat)
      modifies this
      ensures plain == Xored(aes, iv, chunk, old(offset))
      ensures start == old(offset) && end == offset == old(offset) + |chunk|
    {
      plain := CtrXor(chunk, offset, aes, iv);
      start := offset;
      offset := offset + |chunk|;
      end := offset;
    }
  }

  /** The reports of a drained iterator: one interval a chunk, back to back from the start. */
  function Reports(start: nat, chunks: seq<seq<Byte>>): (r: seq<(nat, nat)>)
    ensures |r| == |chunks|
  {
    if chunks == [] then []
    else
      var init := chunks[..|chunks| - 1];
      Reports(start, init) + [(start + |Flatten(init)|, start + |Flatten(chunks)|)]
  }

  lemma {:induction false} ReportAt(start: nat, chunks: seq<seq<Byte>>, k: nat)
    requires k < |chunks|
    ensures Reports(start, chunks)[k] == (start + |Flatten(chunks[..k])|, start + |Flatten(chunks[..k + 1])|)
    decreases |chunks|
  {
    var init := chunks[..|chunks| - 1];
    if k < |init| {
      assert init[..k] == chunks[..k] && init[..k + 1] == chunks[..k + 1];
      ReportAt(start, init, k);
      assert Reports(start, chunks)[k] == Reports(start, init)[k];
    } else {
      assert chunks[..k + 1] == chunks && init == chunks[..k];
    }
  }

  lemma OneMoreChunk(aes: BlockCipher, iv: Counter, start: nat, chunks: seq<seq<Byte>>, k: nat)
    requires k < |chunks|
    ensures var done, now, off := chunks[..k], chunks[..k + 1], start + |Flatten(chunks[..k])|;
            && |Flatten(now)| == |Flatten(done)| + |chunks[k]|
            && XoredAll(aes, iv, start, now) == XoredAll(aes, iv, start, done) + [Xored(aes, iv, chunks[k], off)]
            && Reports(start, now) == Reports(start, done) + [(off, off + |chunks[k]|)]
  {
    assert chunks[..k + 1][..k] == chunks[..k];
  }

  /** Draining the iterator: the plaintext it yields and the reports it makes. */
  method Drain(aes: BlockCipher, iv: Counter, start: nat, chunks: seq<seq<Byte>>)
    returns (plain: seq<seq<Byte>>, reports: seq<(nat, nat)>)
    ensures plain == XoredAll(aes, iv, start, chunks)
    ensures reports == Reports(start, chunks)
  {
    var it := new FileIterator(aes, iv, start);
    plain, reports := [], [];
    for k := 0 to |chunks|
      invariant it.aes == aes && it.iv == iv
      invariant it.offset == start + |Flatten(chunks[..k])|
      invariant plain == XoredAll(aes, iv, start, chunks[..k])
      invariant reports == Reports(start, chunks[..k])
    {
      OneMoreChunk(aes, iv, start, chunks, k);
      var out, from, to := it.Next(chunks[k]);
      plain := plain + [out];
      reports := reports + [(from, to)];
    }
    assert chunks[..|chunks|] == chunks;
  }

  method EncryptFileForUpload(chunks: seq<seq<Byte>>, aes: BlockCipher, iv: Counter) returns (parts: seq<seq<Byte>>)
    ensures parts == XoredAll(aes, iv, 0, chunks)
  {
    parts := [];
    var offset := 0;
    for k := 0 to |chunks|
      invariant offset == |Flatten(chunks[..k])|
      invariant parts == XoredAll(aes, iv, 0, chunks[..k])
    {
      assert chunks[..k + 1][..k] == chunks[..k];
      var cipher := CtrXor(chunks[k], offset, aes, iv);
      parts := parts + [cipher];
      offset := offset + |chunks[k]|;
    }
    assert chunks[..|chunks|] == chunks;
  }
}
