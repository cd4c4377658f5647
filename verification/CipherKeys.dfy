/** The on-the-fly range encryptor, src/server/cipherKeys.ts, and the webseed answer built on it. */
module CipherKeys {
  import opened Bytes
  import opened Ctr
  import opened RangeHeaders
  import Cipher

  const READ_CHUNK: nat := 64 * 1024

  /** The part of `s` in [lo, hi), however far the bounds reach past it. */
  function Span(s: seq<Byte>, lo: nat, hi: int): (r: seq<Byte>)
    ensures lo <= hi <= |s| ==> r == s[lo..hi]
  {
    var to := Min(hi, |s|);
    if lo < to then s[lo..to] else []
  }

  /**
   * `fh.read`: at most `len` bytes from `pos`. A read may come back short, but
   * it is empty only at the end of the file.
   */
  method ReadAt(file: seq<Byte>, pos: nat, len: nat) returns (bytes: seq<Byte>)
    ensures |bytes| <= len && pos + |bytes| <= Max(pos, |file|)
    ensures bytes == [] <==> len == 0 || pos >= |file|
    ensures pos + |bytes| <= |file| ==> bytes == file[pos..pos + |bytes|]
  {
    if len == 0 || pos >= |file| {
      return [];
    }
    assert 1 <= len && 1 <= |file| - pos;
    var n: nat :| 1 <= n && n <= len && n <= |file| - pos;
    bytes := file[pos..pos + n];
  }

  /** The ciphertext of bytes start..end (inclusive), as the stream yields it. */
  method EncryptedRange(file: seq<Byte>, aes: BlockCipher, iv: Counter, start: nat, end: int)
    returns (out: seq<seq<Byte>>)
    ensures Flatten(out) == Span(Encrypt(aes, iv, file), start, end + 1)
    ensures forall chunk :: chunk in out ==> chunk != []
  {
    var blockIndex := start / BLOCK_LEN;
    var intra := start % BLOCK_LEN;
    out := Generate(file, aes, iv, blockIndex, intra, end);
  }

  /** The generator: reads from the start of block `blockIndex`, drops the first `intra` bytes. */
  method Generate(file: seq<Byte>, aes: BlockCipher, iv: Counter, blockIndex: nat, intra: nat, end: int)
    returns (out: seq<seq<Byte>>)
    ensures Flatten(out) == Span(Encrypt(aes, iv, file), blockIndex * BLOCK_LEN + intra, end + 1)
    ensures forall chunk :: chunk in out ==> chunk != []
  {
    ghost var pos: nat;
    out, pos := ReadOn(file, aes, iv, blockIndex, intra, end);
    SpanEnds(Encrypt(aes, iv, file), blockIndex * BLOCK_LEN + intra, pos, end + 1, blockIndex * BLOCK_LEN);
  }

  /** The generator's loop: it reads on to `end`, or to the end of the file. */
  method ReadOn(file: seq<Byte>, aes: BlockCipher, iv: Counter, blockIndex: nat, intra: nat, end: int)
    returns (out: seq<seq<Byte>>, pos: nat)
    ensures Flatten(out) == Span(Encrypt(aes, iv, file), blockIndex * BLOCK_LEN + intra, pos)
    ensures forall chunk :: chunk in out ==> chunk != []
    ensures blockIndex * BLOCK_LEN <= pos <= Max(blockIndex * BLOCK_LEN, end + 1) && (pos > end || pos >= |file|)
  {
    var alignedStart := blockIndex * BLOCK_LEN;
    var cipher := Cipher.CtrCipherAt(aes, iv, blockIndex);
    var dropped := 0;
    ghost var ct, start := Encrypt(aes, iv, file), alignedStart + intra;
    out, pos := [], alignedStart;
    while pos <= end
      invariant fresh(cipher) && cipher.aes == aes && cipher.iv == CounterAt(iv, blockIndex)
      invariant cipher.pos == pos - alignedStart
      invariant alignedStart <= pos <= Max(alignedStart, end + 1)
      invariant dropped == Min(intra, pos - alignedStart)
      invariant Flatten(out) == Span(ct, start, pos)
      invariant forall chunk :: chunk in out ==> chunk != []
      decreases end - pos
    {
      var chunk, pos', dropped' := ReadAndEncrypt(file, cipher, blockIndex, intra, pos, dropped, end, iv);
      if pos' == pos {
        return;
      }
      YieldedJoins(out, chunk);
      pos, dropped, out := pos', dropped', Yielded(out, chunk);
    }
  }

  /** An empty chunk is not yielded. */
  function Yielded(out: seq<seq<Byte>>, chunk: seq<Byte>): seq<seq<Byte>> {
    if |chunk| > 0 then out + [chunk] else out
  }

  lemma YieldedJoins(out: seq<seq<Byte>>, chunk: seq<Byte>)
    ensures Flatten(Yielded(out, chunk)) == Flatten(out) + chunk
    ensures (forall c :: c in out ==> c != []) ==> forall c :: c in Yielded(out, chunk) ==> c != []
  {
    FlattenAppend(out, chunk);
  }

  /** One turn of the generator: a read, its encryption, less what is still to drop. No progress means end of file. */
  method ReadAndEncrypt(file: seq<Byte>, cipher: Cipher.CtrStream, ghost blockIndex: nat, intra: nat,
                        pos: nat, dropped: nat, end: int, ghost iv: Counter)
    returns (chunk: seq<Byte>, pos': nat, dropped': nat)
    requires blockIndex * BLOCK_LEN <= pos <= end && cipher.iv == CounterAt(iv, blockIndex)
    requires cipher.pos == pos - blockIndex * BLOCK_LEN
    requires dropped == Min(intra, pos - blockIndex * BLOCK_LEN)
    modifies cipher
    ensures cipher.pos == pos' - blockIndex * BLOCK_LEN
    ensures dropped' == Min(intra, pos' - blockIndex * BLOCK_LEN)
    ensures pos <= pos' <= end + 1 && (pos' == pos ==> pos >= |file|)
    ensures var ct, start := Encrypt(cipher.aes, iv, file), blockIndex * BLOCK_LEN + intra;
            pos' > pos ==> Span(ct, start, pos) + chunk == Span(ct, start, pos')
  {
    ghost var ct, alignedStart := Encrypt(cipher.aes, iv, file), blockIndex * BLOCK_LEN;
    var toRead := Min(READ_CHUNK, end - pos + 1);
    var bytes := ReadAt(file, pos, toRead);
    if |bytes| == 0 {
      return [], pos, dropped;
    }
    SeekedSlice(cipher.aes, iv, file, blockIndex, pos, pos + |bytes|);
    chunk := cipher.Update(bytes);
    pos' := pos + |bytes|;
    chunk, dropped' := DropPrefix(chunk, dropped, intra, ct, pos, pos', alignedStart);
    SpanGrows(ct, alignedStart + intra, pos, pos', chunk);
  }

  lemma SpanEnds(s: seq<Byte>, start: nat, pos: nat, end: int, aligned: nat)
    requires aligned <= start && aligned <= pos <= Max(aligned, end) && (pos >= end || pos >= |s|)
    ensures Span(s, start, pos) == Span(s, start, end)
  {}

  /** The generator's own prefix dropping, for a chunk that is ciphertext from `at` on. */
  method DropPrefix(chunk: seq<Byte>, dropped: nat, intra: nat,
                    ghost ct: seq<Byte>, ghost at: nat, ghost to: nat, ghost aligned: nat)
    returns (kept: seq<Byte>, dropped': nat)
    requires aligned <= at <= to <= |ct| && chunk == ct[at..to]
    requires dropped == Min(intra, at - aligned)
    ensures dropped' == Min(intra, to - aligned)
    ensures kept == ct[Min(Max(at, aligned + intra), to)..to]
  {
    kept, dropped' := chunk, dropped;
    if dropped < intra {
      var drop := Min(intra - dropped, |chunk|);
      dropped' := dropped + drop;
      kept := chunk[drop..];
    }
  }

  lemma SeekedSlice(aes: BlockCipher, iv: Counter, file: seq<Byte>, blockIndex: nat, lo: nat, hi: nat)
    requires blockIndex * BLOCK_LEN <= lo <= hi <= |file|
    ensures Crypt(aes, CounterAt(iv, blockIndex), file[lo..hi], lo - blockIndex * BLOCK_LEN)
         == Encrypt(aes, iv, file)[lo..hi]
  {
    CryptSeek(aes, iv, blockIndex, file[lo..hi], lo - blockIndex * BLOCK_LEN);
    CryptSlice(aes, iv, file, 0, lo, hi);
  }

  lemma SpanGrows(s: seq<Byte>, start: nat, pos: nat, pos': nat, chunk: seq<Byte>)
    requires pos <= pos' <= |s| && chunk == s[Min(Max(pos, start), pos')..pos']
    ensures Span(s, start, pos) + chunk == Span(s, start, pos')
  {}

  // --- the webseed's answer, the /api/raw handler of src/server/app.ts -----------

  datatype Response = Response(status: nat, contentLength: nat, body: seq<Byte>)

  /** The bytes at the positions `wanted` picks, in order. */
  function Selected(data: seq<Byte>, wanted: nat -> bool, from: nat): seq<Byte>
    requires from <= |data|
    decreases |data| - from
  {
    if from == |data| then []
    else (if wanted(from) then [data[from]] else []) + Selected(data, wanted, from + 1)
  }

  /** The bytes of the ciphertext a request wants, in order. */
  function WantedBytes(h: RangeHeader, ct: seq<Byte>): seq<Byte> {
    Selected(ct, (p: nat) => Wanted(h, |ct|, p), 0)
  }

  lemma {:induction false} NoneSelected(data: seq<Byte>, wanted: nat -> bool, from: nat)
    requires from <= |data| && forall p: nat | from <= p < |data| :: !wanted(p)
    ensures Selected(data, wanted, from) == []
    decreases |data| - from
  {
    if from < |data| {
      NoneSelected(data, wanted, from + 1);
    }
  }

  lemma {:induction false} RunSelected(data: seq<Byte>, wanted: nat -> bool, from: nat, hi: nat)
    requires from <= hi <= |data| && forall p: nat | from <= p < |data| :: wanted(p) <==> p < hi
    ensures Selected(data, wanted, from) == data[from..hi]
    decreases |data| - from
  {
    if from < hi {
      RunSelected(data, wanted, from + 1, hi);
      assert data[from..hi] == [data[from]] + data[from + 1..hi];
    } else {
      NoneSelected(data, wanted, from);
    }
  }

  lemma {:induction false} SelectedIsSpan(data: seq<Byte>, wanted: nat -> bool, from: nat, lo: nat, hi: nat)
    requires from <= lo <= hi <= |data|
    requires forall p: nat | from <= p < |data| :: wanted(p) <==> lo <= p < hi
    ensures Selected(data, wanted, from) == data[lo..hi]
    decreases |data| - from
  {
    if from < lo {
      SelectedIsSpan(data, wanted, from + 1, lo, hi);
    } else {
      RunSelected(data, wanted, lo, hi);
    }
  }

  lemma WantedIsSpan(h: RangeHeader, ct: seq<Byte>, lo: nat, hi: nat)
    requires lo <= hi <= |ct|
    requires forall p: nat | p < |ct| :: Wanted(h, |ct|, p) <==> lo <= p < hi
    ensures WantedBytes(h, ct) == ct[lo..hi]
  {
    SelectedIsSpan(ct, (p: nat) => Wanted(h, |ct|, p), 0, lo, hi);
  }

  /** The answer carries exactly the wanted bytes, says how many, and refuses only when there are none. */
  ghost predicate Answers(h: RangeHeader, ct: seq<Byte>, head: bool, res: Response) {
    var all := WantedBytes(h, ct);
    && res.status == (match ParseSingleRange(h, |ct|) case Whole => 200 case Part(_, _) => 206 case _ => 416)
    && (res.status != 416 ==> res.contentLength == |all|)
    && (res.status == 416 ==> all == [])
    && res.body == if head || res.status == 416 then [] else all
  }

  lemma AnswersWhole(h: RangeHeader, ct: seq<Byte>, head: bool, res: Response)
    requires Answers(h, ct, head, res) && h == NoRange
    ensures res == Response(200, |ct|, if head then [] else ct)
  {
    WantedIsSpan(h, ct, 0, |ct|);
  }

  lemma AnswersPart(a: string, b: string, ct: seq<Byte>, head: bool, res: Response)
    requires Answers(Spec(Group(a), Group(b)), ct, head, res) && (a != "" || b != "")
    ensures var (first, last) := Bounds(a, b, |ct|);
            if first <= last
            then last < |ct| && res == Response(206, last - first + 1, if head then [] else ct[first..last + 1])
            else res.status == 416 && res.body == []
  {
    var h := Spec(Group(a), Group(b));
    var (first, last) := Bounds(a, b, |ct|);
    ParsedBounds(a, b, |ct|);
    ParseExact(h, |ct|);
    if first <= last {
      WantedIsSpan(h, ct, first, last + 1);
    }
  }

  /** What the parser makes of an asked range. */
  lemma ParsedBounds(a: string, b: string, size: nat)
    requires a != "" || b != ""
    ensures var (first, last) := Bounds(a, b, size);
            && last < size
            && ParseSingleRange(Spec(Group(a), Group(b)), size)
               == if first <= last then Part(first, last) else Unsatisfiable
  {}

  /**
   * The handler past authorization. A header that asks for no range gets the
   * whole ciphertext; one that asks for a range gets its bytes as far as the
   * file has them, and is refused if it has none.
   */
  method ServeRaw(file: seq<Byte>, aes: BlockCipher, iv: Counter, header: Option<string>, head: bool)
    returns (res: Response)
    ensures Answers(HeaderOf(header), Encrypt(aes, iv, file), head, res)
    ensures (forall a, b :: !Asks(header, a, b)) ==>
              res == Response(200, |file|, if head then [] else Encrypt(aes, iv, file))
    ensures forall a, b :: Asks(header, a, b) ==>
              var (first, last) := Bounds(a, b, |file|);
              if first <= last
              then last < |file|
                   && res == Response(206, last - first + 1, if head then [] else Encrypt(aes, iv, file)[first..last + 1])
              else res.status == 416 && res.body == []
  {
    res := ServeParsed(file, aes, iv, HeaderOf(header), head);
    ghost var ct := Encrypt(aes, iv, file);
    HeaderExactly(header);
    if HeaderOf(header) == NoRange {
      AnswersWhole(HeaderOf(header), ct, head, res);
    }
    forall a, b | Asks(header, a, b)
      ensures var (first, last) := Bounds(a, b, |file|);
              if first <= last
              then last < |file| && res == Response(206, last - first + 1, if head then [] else ct[first..last + 1])
              else res.status == 416 && res.body == []
    {
      AnswersPart(a, b, ct, head, res);
    }
  }

  method ServeParsed(file: seq<Byte>, aes: BlockCipher, iv: Counter, h: RangeHeader, head: bool)
    returns (res: Response)
    ensures Answers(h, Encrypt(aes, iv, file), head, res)
  {
    var size := |file|;
    ghost var ct := Encrypt(aes, iv, file);
    var range := ParseSingleRange(h, size);
    ParseExact(h, size);
    if range.Unsatisfiable? {
      WantedIsSpan(h, ct, 0, 0);
      return Response(416, 0, []);
    }
    var start := if range.Part? then range.start else 0;
    var end := if range.Part? then range.end else Max(0, size - 1);
    var length := if size == 0 then 0 else end - start + 1;
    WantedIsSpan(h, ct, start, start + length);
    var status := if range.Part? then 206 else 200;
    if head || length == 0 {
      return Response(status, length, []);
    }
    var stream := EncryptedRange(file, aes, iv, start, end);
    res := Response(status, length, Flatten(stream));
  }
}
