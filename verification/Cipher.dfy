/** The seekable cipher helpers of src/server/cipher.ts. */
module Cipher {
  import opened Bytes
  import opened Ctr

  /**
   * Node's cipher object for aes-256-ctr: each update XORs its input with the
   * keystream at the current position, and the 128-bit counter runs on.
   */
  class CtrStream {
    const aes: BlockCipher
    const iv: Counter
    var pos: nat

    constructor (aes: BlockCipher, iv: Counter)
      ensures this.aes == aes && this.iv == iv && pos == 0
    {
      this.aes, this.iv, this.pos := aes, iv, 0;
    }

    method Update(chunk: seq<Byte>) returns (out: seq<Byte>)
      modifies this
      ensures out == Crypt(aes, iv, chunk, old(pos))
      ensures pos == old(pos) + |chunk|
    {
      out := Crypt(aes, iv, chunk, pos);
      pos := pos + |chunk|;
    }
  }

  method CtrCounter(iv: Counter, blockIndex: nat) returns (c: array<Octet>)
    ensures fresh(c) && c[..] == CounterAt(iv, blockIndex)
  {
    c := new Octet[BLOCK_LEN](i requires 0 <= i < BLOCK_LEN => iv[i]);
    assert c[..] == iv;
    var carry: nat := blockIndex;
    var i: int := BLOCK_LEN - 1;
    CarryStart(iv, blockIndex);
    while i >= 0 && carry > 0
      invariant -1 <= i < BLOCK_LEN
      invariant CarryInv(iv, blockIndex, c[..], i, carry)
    {
      ghost var before := c[..];
      ghost var carried := carry;
      var sum := c[i] + carry % 256;
      c[i] := sum % 256;
      carry := carry / 256 + (if sum > 255 then 1 else 0);
      CarryStep(iv, blockIndex, before, i, carried, c[..], carry);
      i := i - 1;
    }
    CarryDone(iv, blockIndex, c[..], i, carry);
  }

  method CtrCipherAt(aes: BlockCipher, iv: Counter, blockIndex: nat) returns (s: CtrStream)
    ensures fresh(s) && s.aes == aes && s.iv == CounterAt(iv, blockIndex) && s.pos == 0
  {
    var counter := CtrCounter(iv, blockIndex);
    s := new CtrStream(aes, counter[..]);
  }

  method EncryptRange(plain: seq<Byte>, aes: BlockCipher, iv: Counter, absOffset: nat) returns (r: seq<Byte>)
    ensures r == Crypt(aes, iv, plain, absOffset)
  {
    var blockIndex := absOffset / BLOCK_LEN;
    var intra := absOffset % BLOCK_LEN;
    var cipher := CtrCipherAt(aes, iv, blockIndex);
    if intra > 0 {
      var _ := cipher.Update(Zeros(intra));
    }
    r := cipher.Update(plain);
    CryptSeek(aes, iv, blockIndex, plain, intra);
  }

  /** A slice encrypted on its own is the slice of the whole-file encryption. */
  lemma EncryptRangeIsSlice(aes: BlockCipher, iv: Counter, file: seq<Byte>, lo: nat, hi: nat)
    requires lo <= hi <= |file|
    ensures Crypt(aes, iv, file[lo..hi], lo) == Encrypt(aes, iv, file)[lo..hi]
  {
    CryptSlice(aes, iv, file, 0, lo, hi);
  }

  /** The stream filter that swallows a prefix. */
  class DropBytes {
    var left: nat

    constructor (n: nat)
      ensures left == n
    {
      left := n;
    }

    method Transform(chunk: seq<Byte>) returns (out: seq<Byte>)
      modifies this
      ensures out == Dropped(old(left), chunk)
      ensures left == Left(old(left), chunk)
    {
      out := chunk;
      if left > 0 {
        var drop := Min(left, |chunk|);
        left := left - drop;
        out := chunk[drop..];
      }
    }
  }

  function Dropped(n: nat, chunk: seq<Byte>): seq<Byte> {
    chunk[Min(n, |chunk|)..]
  }

  function Left(n: nat, chunk: seq<Byte>): nat {
    n - Min(n, |chunk|)
  }

  /** What is left to drop after a stream of chunks. */
  function LeftAfter(n: nat, chunks: seq<seq<Byte>>): nat {
    if chunks == [] then n else Left(LeftAfter(n, chunks[..|chunks| - 1]), chunks[|chunks| - 1])
  }

  /** What the filter passes on for a stream of chunks. */
  function Passed(n: nat, chunks: seq<seq<Byte>>): seq<Byte> {
    if chunks == [] then []
    else Passed(n, chunks[..|chunks| - 1])
         + Dropped(LeftAfter(n, chunks[..|chunks| - 1]), chunks[|chunks| - 1])
  }

  lemma DroppedConcat(n: nat, a: seq<Byte>, b: seq<Byte>)
    ensures Dropped(n, a) + Dropped(Left(n, a), b) == Dropped(n, a + b)
    ensures Left(Left(n, a), b) == Left(n, a + b)
  {}

  /** Exactly the first `n` bytes go missing, however the stream is cut. */
  lemma {:induction false} DropBytesExact(n: nat, chunks: seq<seq<Byte>>)
    ensures Passed(n, chunks) == Dropped(n, Flatten(chunks))
    ensures LeftAfter(n, chunks) == Left(n, Flatten(chunks))
  {
    if chunks != [] {
      DropBytesExact(n, chunks[..|chunks| - 1]);
      DroppedConcat(n, Flatten(chunks[..|chunks| - 1]), chunks[|chunks| - 1]);
    }
  }
}
