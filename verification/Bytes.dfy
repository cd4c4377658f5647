/** Byte sequences, concatenation of chunk lists, and base-256 numbers. */
module Bytes {

  /** A data byte. Data is only ever XORed, so a bit-vector is the right type. */
  type Byte = bv8

  /** A byte of a counter block. The code does arithmetic on these. */
  type Octet = n: int | 0 <= n < 256

  datatype Option<+T> = None | Some(value: T)

  datatype Result<+T, +E> = Ok(value: T) | Err(error: E)

  function Min(a: int, b: int): int {
    if a < b then a else b
  }

  function Max(a: int, b: int): int {
    if a < b then b else a
  }

  function CeilDiv(a: nat, b: nat): nat
    requires b > 0
  {
    (a + b - 1) / b
  }

  /** The numbers from..upTo-1. */
  function Range(from: nat, upTo: nat): (r: set<nat>)
    ensures forall i :: i in r <==> from <= i < upTo
    decreases upTo
  {
    if from < upTo then Range(from, upTo - 1) + {upTo - 1} else {}
  }

  /** The chunks of a stream, joined in order. */
  function Flatten<T>(chunks: seq<seq<T>>): seq<T> {
    if chunks == [] then [] else Flatten(chunks[..|chunks| - 1]) + chunks[|chunks| - 1]
  }

  lemma FlattenAppend<T>(chunks: seq<seq<T>>, last: seq<T>)
    ensures Flatten(chunks + [last]) == Flatten(chunks) + last
  {
    assert (chunks + [last])[..|chunks|] == chunks;
  }

  lemma {:induction false} FlattenConcat<T>(a: seq<seq<T>>, b: seq<seq<T>>)
    ensures Flatten(a + b) == Flatten(a) + Flatten(b)
    decreases |b|
  {
    if b == [] {
      assert a + b == a;
    } else {
      var init, last := b[..|b| - 1], b[|b| - 1];
      assert a + b == (a + init) + [last];
      FlattenAppend(a + init, last);
      FlattenConcat(a, init);
    }
  }

  /** Cutting chunks short shortens the stream, unless none is cut. */
  lemma {:induction false} FlattenPrefixes<T(!new)>(ps: seq<seq<T>>, qs: seq<seq<T>>)
    requires |ps| == |qs| && forall i :: 0 <= i < |ps| ==> ps[i] <= qs[i]
    ensures |Flatten(ps)| <= |Flatten(qs)|
    ensures |Flatten(ps)| == |Flatten(qs)| <==> ps == qs
  {
    if ps != [] {
      var n := |ps| - 1;
      FlattenPrefixes(ps[..n], qs[..n]);
      assert |ps[n]| <= |qs[n]| && (|ps[n]| == |qs[n]| ==> ps[n] == qs[n]);
      assert ps == ps[..n] + [ps[n]] && qs == qs[..n] + [qs[n]];
      assert ps == qs <==> ps[..n] == qs[..n] && ps[n] == qs[n];
    }
  }

  function Pow256(n: nat): (p: nat)
    ensures p > 0
  {
    if n == 0 then 1 else 256 * Pow256(n - 1)
  }

  /** The big-endian number a byte string spells. */
  function Value(s: seq<Octet>): nat {
    if s == [] then 0 else 256 * Value(s[..|s| - 1]) + s[|s| - 1]
  }

  /** The low `n` base-256 digits of `v`, most significant first. */
  function Digits(v: nat, n: nat): (s: seq<Octet>)
    ensures |s| == n
  {
    if n == 0 then [] else Digits(v / 256, n - 1) + [v % 256]
  }

  lemma {:induction false} ValueBound(s: seq<Octet>)
    ensures Value(s) < Pow256(|s|)
  {
    if s != [] {
      ValueBound(s[..|s| - 1]);
    }
  }

  lemma {:induction false} DigitsOfValue(s: seq<Octet>)
    ensures Digits(Value(s), |s|) == s
  {
    if s != [] {
      DigitsOfValue(s[..|s| - 1]);
      assert Value(s) / 256 == Value(s[..|s| - 1]);
    }
  }

  lemma {:induction false} ValueOfDigits(v: nat, n: nat)
    ensures Value(Digits(v, n)) == v % Pow256(n)
  {
    if n > 0 {
      ValueOfDigits(v / 256, n - 1);
      var d := Digits(v, n);
      assert d[..n - 1] == Digits(v / 256, n - 1);
      ModStep(v, Pow256(n - 1));
    }
  }

  lemma ModStep(v: nat, p: nat)
    requires p > 0
    ensures 256 * ((v / 256) % p) + v % 256 == v % (256 * p)
  {
    var q, r := (v / 256) / p, (v / 256) % p;
    assert v / 256 == q * p + r;
    assert v == 256 * (q * p + r) + v % 256;
    var m := 256 * r + v % 256;
    assert r <= p - 1;
    assert 0 <= m < 256 * p;
    assert v == q * (256 * p) + m;
    DivModUnique(v, 256 * p, q, m);
  }

  lemma DivModUnique(v: int, d: int, q: int, r: int)
    requires d > 0 && 0 <= r < d && v == q * d + r
    ensures v / d == q && v % d == r
  {
    var q', r' := v / d, v % d;
    assert v == q' * d + r';
    var x := q - q';
    assert x * d == q * d - q' * d;
    SmallMultiple(x, d);
  }

  lemma DivMod(v: nat, d: nat) returns (q: nat, r: nat)
    requires d > 0
    ensures q == v / d && r == v % d && v == r + q * d && r < d
  {
    q, r := v / d, v % d;
  }

  lemma DivMonotone(a: nat, b: nat, d: nat)
    requires d > 0 && a <= b
    ensures a / d <= b / d
  {
    var q, r := DivMod(a, d);
    var q', r' := DivMod(b, d);
    assert (q' + 1) * d == q' * d + d;
    if q > q' {
      MulMonotone(q' + 1, q, d);
    }
  }

  lemma DivNext(p: nat, d: nat)
    requires d > 0
    ensures (p + d) / d == p / d + 1
  {
    var q, r := DivMod(p, d);
    assert p + d == (q + 1) * d + r;
    DivModUnique(p + d, d, q + 1, r);
  }

  lemma SmallMultiple(x: int, d: int)
    requires d > 0 && -d < x * d < d
    ensures x == 0
  {
    if x >= 1 {
      MulMonotone(1, x, d);
    } else if x <= -1 {
      MulMonotone(x, -1, d);
    }
  }

  lemma MulMonotone(x: int, y: int, d: int)
    requires x <= y && d >= 0
    ensures x * d <= y * d
  {
    assert y * d - x * d == (y - x) * d;
  }

  /** Digits drops multiples of 256^n: it is reduction modulo 256^n. */
  lemma {:induction false} DigitsPeriodic(v: nat, k: nat, n: nat)
    ensures Digits(v + k * Pow256(n), n) == Digits(v, n)
    decreases n
  {
    if n > 0 {
      var p := Pow256(n - 1);
      var w := v + k * Pow256(n);
      assert w == v + 256 * (k * p);
      assert w / 256 == v / 256 + k * p && w % 256 == v % 256;
      DigitsPeriodic(v / 256, k, n - 1);
    }
  }

  /** Reducing before a further addition changes nothing. */
  lemma DigitsCompose(v: nat, b: nat, n: nat)
    ensures Digits(Value(Digits(v, n)) + b, n) == Digits(v + b, n)
  {
    ValueOfDigits(v, n);
    var q, r := DivMod(v, Pow256(n));
    DigitsPeriodic(r + b, q, n);
  }

  /** Digits of a number with high part `q` and low part `r`. */
  lemma {:induction false} DigitsSplit(q: nat, r: nat, m: nat, n: nat)
    requires r < Pow256(n)
    ensures q * Pow256(n) >= 0
    ensures Digits(q * Pow256(n) + r, m + n) == Digits(q, m) + Digits(r, n)
    decreases n
  {
    if n > 0 {
      var p := Pow256(n - 1);
      var high := q * p;
      Times256(q, p);
      DigitsSplit(q, r / 256, m, n - 1);
      assert (256 * high + r) / 256 == high + r / 256 && (256 * high + r) % 256 == r % 256;
      var a, b := Digits(q, m), Digits(r / 256, n - 1);
      assert a + (b + [r % 256]) == (a + b) + [r % 256];
    }
  }

  lemma Times256(a: int, p: int)
    ensures 256 * (a * p) == a * (256 * p)
  {}

  lemma {:induction false} ValueConcat(a: seq<Octet>, b: seq<Octet>)
    ensures Value(a + b) == Value(a) * Pow256(|b|) + Value(b)
    decreases |b|
  {
    if b == [] {
      assert a + b == a;
    } else {
      var init, last := b[..|b| - 1], b[|b| - 1];
      assert (a + b)[..|a + b| - 1] == a + init;
      ValueConcat(a, init);
      Times256(Value(a), Pow256(|init|));
    }
  }

  /** Changing one digit changes the number by the difference at that place. */
  lemma {:induction false} ValueUpdate(s: seq<Octet>, i: nat, v: Octet)
    requires i < |s|
    ensures Value(s[i := v]) == Value(s) + (v - s[i]) * Pow256(|s| - 1 - i)
    decreases |s|
  {
    var t := s[i := v];
    if i < |s| - 1 {
      assert t[..|s| - 1] == s[..|s| - 1][i := v];
      ValueUpdate(s[..|s| - 1], i, v);
      var p := Pow256(|s| - 2 - i);
      assert 256 * ((v - s[i]) * p) == (v - s[i]) * (256 * p);
    } else {
      assert t[..|s| - 1] == s[..|s| - 1];
    }
  }
}
