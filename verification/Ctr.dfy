/**
 * Counter mode as section 6.5 and Appendix B.1 of NIST SP 800-38A define it,
 * written once for a whole file. Every fast form in the other modules is
 * proved equal to `Crypt`.
 *
 * AES under the key of a file is an arbitrary function from counter blocks to
 * keystream blocks; nothing below depends on what it computes.
 */
module Ctr {
  import opened Bytes

  const BLOCK_LEN: nat := 16

  type Counter = c: seq<Octet> | |c| == BLOCK_LEN witness seq(BLOCK_LEN, _ => 0)

  type Block = b: seq<Byte> | |b| == BLOCK_LEN witness seq(BLOCK_LEN, _ => 0)

  type BlockCipher = Counter -> Block

  /** The counter block `j` increments past `iv`, over all 128 bits. */
  function CounterAt(iv: Counter, j: nat): Counter {
    Digits(Value(iv) + j, BLOCK_LEN)
  }

  function KeyByte(aes: BlockCipher, iv: Counter, p: nat): Byte {
    aes(CounterAt(iv, p / BLOCK_LEN))[p % BLOCK_LEN]
  }

  /** The reference cipher: `data` lying at byte offset `off` of the file. */
  function Crypt(aes: BlockCipher, iv: Counter, data: seq<Byte>, off: nat): (r: seq<Byte>)
    ensures |r| == |data|
  {
    seq(|data|, i requires 0 <= i < |data| => data[i] ^ KeyByte(aes, iv, off + i))
  }

  /** Encrypting a whole file. */
  function Encrypt(aes: BlockCipher, iv: Counter, file: seq<Byte>): (r: seq<Byte>)
    ensures |r| == |file|
  {
    Crypt(aes, iv, file, 0)
  }

  function Zeros(n: nat): (z: seq<Byte>)
    ensures |z| == n
  {
    seq(n, _ => 0)
  }

  lemma CryptInvolution(aes: BlockCipher, iv: Counter, data: seq<Byte>, off: nat)
    ensures Crypt(aes, iv, Crypt(aes, iv, data, off), off) == data
  {
    var c := Crypt(aes, iv, data, off);
    forall i | 0 <= i < |data|
      ensures Crypt(aes, iv, c, off)[i] == data[i]
    {
      XorTwice(data[i], KeyByte(aes, iv, off + i));
    }
  }

  lemma XorTwice(a: Byte, k: Byte)
    ensures (a ^ k) ^ k == a
  {}

  lemma CryptConcat(aes: BlockCipher, iv: Counter, a: seq<Byte>, b: seq<Byte>, off: nat)
    ensures Crypt(aes, iv, a + b, off) == Crypt(aes, iv, a, off) + Crypt(aes, iv, b, off + |a|)
  {
    var l, r := Crypt(aes, iv, a + b, off), Crypt(aes, iv, a, off) + Crypt(aes, iv, b, off + |a|);
    forall i | 0 <= i < |l|
      ensures l[i] == r[i]
    {
      if i >= |a| {
        assert off + i == off + |a| + (i - |a|);
      }
    }
  }

  lemma CryptSlice(aes: BlockCipher, iv: Counter, data: seq<Byte>, off: nat, lo: nat, hi: nat)
    requires lo <= hi <= |data|
    ensures Crypt(aes, iv, data, off)[lo..hi] == Crypt(aes, iv, data[lo..hi], off + lo)
  {
    var l, r := Crypt(aes, iv, data, off)[lo..hi], Crypt(aes, iv, data[lo..hi], off + lo);
    forall i | 0 <= i < |l|
      ensures l[i] == r[i]
    {
      assert off + (lo + i) == off + lo + i;
    }
  }

  /** Counter additions compose: seeking twice is seeking once. */
  lemma CounterCompose(iv: Counter, a: nat, b: nat)
    ensures CounterAt(CounterAt(iv, a), b) == CounterAt(iv, a + b)
  {
    DigitsCompose(Value(iv) + a, b, BLOCK_LEN);
  }

  /** A cipher started at block `b` yields the keystream of the file from byte 16*b on. */
  lemma CryptSeek(aes: BlockCipher, iv: Counter, b: nat, data: seq<Byte>, p: nat)
    ensures Crypt(aes, CounterAt(iv, b), data, p) == Crypt(aes, iv, data, BLOCK_LEN * b + p)
  {
    var l, r := Crypt(aes, CounterAt(iv, b), data, p), Crypt(aes, iv, data, BLOCK_LEN * b + p);
    forall i | 0 <= i < |data|
      ensures l[i] == r[i]
    {
      CounterCompose(iv, b, (p + i) / BLOCK_LEN);
      var x, y := p + i, BLOCK_LEN * b + p + i;
      assert y / BLOCK_LEN == b + x / BLOCK_LEN && y % BLOCK_LEN == x % BLOCK_LEN;
      assert KeyByte(aes, CounterAt(iv, b), x) == KeyByte(aes, iv, y);
    }
  }

  /** Where a carry loop stands once the bytes past `i` are done. */
  ghost predicate CarryInv(iv: Counter, n: nat, c: seq<Octet>, i: int, carry: nat) {
    |c| == BLOCK_LEN && -1 <= i < BLOCK_LEN
    && Value(c) + carry * Pow256(BLOCK_LEN - 1 - i) == Value(iv) + n
  }

  lemma CarryStart(iv: Counter, n: nat)
    ensures CarryInv(iv, n, iv, BLOCK_LEN - 1, n)
  {
    assert Pow256(0) == 1;
  }

  lemma CarryStep(iv: Counter, n: nat, c: seq<Octet>, i: nat, carry: nat, c': seq<Octet>, carry': nat)
    requires CarryInv(iv, n, c, i, carry)
    requires |c'| == |c| && c' == c[i := c'[i]]
    requires c[i] + carry == 256 * carry' + c'[i]
    ensures CarryInv(iv, n, c', i - 1, carry')
  {
    ValueUpdate(c, i, c'[i]);
    var p := Pow256(BLOCK_LEN - 1 - i);
    assert Pow256(BLOCK_LEN - i) == 256 * p;
    Distribute(c[i], carry, carry', c'[i], p);
  }

  lemma Distribute(was: int, carry: int, carry': int, v: int, p: int)
    requires was + carry == 256 * carry' + v
    ensures carry * p == (v - was) * p + carry' * (256 * p)
  {
    assert carry == (v - was) + carry' * 256;
    assert carry' * (256 * p) == (carry' * 256) * p;
    assert ((v - was) + carry' * 256) * p == (v - was) * p + (carry' * 256) * p;
  }

  /** A finished carry loop has added modulo 2^128. */
  lemma CarryDone(iv: Counter, n: nat, c: seq<Octet>, i: int, carry: nat)
    requires CarryInv(iv, n, c, i, carry)
    requires i == -1 || carry == 0
    ensures c == CounterAt(iv, n)
  {
    CarriedOut(Value(iv) + n, c, BLOCK_LEN - 1 - i, carry);
  }

  lemma CarriedOut(v: nat, c: seq<Octet>, k: nat, carry: nat)
    requires v == Value(c) + carry * Pow256(k) && (carry == 0 || k == |c|)
    ensures c == Digits(v, |c|)
  {
    if k == |c| {
      DigitsOfSum(c, carry);
    } else {
      assert carry * Pow256(k) == 0 * Pow256(k);
      DigitsOfValue(c);
    }
  }

  /** The bytes left when what carries out of them is dropped. */
  lemma DigitsOfSum(c: seq<Octet>, carry: nat)
    ensures Digits(Value(c) + carry * Pow256(|c|), |c|) == c
  {
    DigitsOfValue(c);
    DigitsPeriodic(Value(c), carry, |c|);
  }
}
