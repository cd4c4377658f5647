/**
 * The stateless transfer tokens of src/server/auth.ts: an expiry and a keyed
 * hash of what the token is for. The hash is any function without collisions.
 */
module TransferTokens {
  import opened Bytes
  import opened Decimals

  /** HMAC-SHA-256 under the server's secret, in base64url. */
  type Signer = string -> string

  ghost predicate CollisionFree(sign: Signer) {
    forall a, b :: sign(a) == sign(b) ==> a == b
  }

  function Payload(scope: string, exp: string): string {
    scope + ":" + exp
  }

  function RawScope(mount: nat, relPath: string): string {
    "raw:" + Decimal(mount) + ":" + relPath
  }

  function TrackerScope(infoHash: string): string {
    "tracker:" + infoHash
  }

  function Mint(sign: Signer, scope: string, ttlMs: nat, now: nat): string {
    Decimal(now + ttlMs) + "." + sign(Payload(scope, Decimal(now + ttlMs)))
  }

  function IndexOfDot(s: string): Option<nat> {
    if s == "" then None
    else if s[0] == '.' then Some(0)
    else
      match IndexOfDot(s[1..])
      case None => None
      case Some(i) => Some(i + 1)
  }

  lemma {:induction false} DotAfter(a: string, b: string)
    requires '.' !in a
    ensures IndexOfDot(a + "." + b) == Some(|a|)
  {
    if a != "" {
      assert (a + "." + b)[1..] == a[1..] + "." + b;
      DotAfter(a[1..], b);
    }
  }

  /** Whole numbers up to here are exact in the language's arithmetic. */
  const MAX_SAFE: nat := 0x20_0000_0000_0000

  /**
   * The language's numbers: `parse` reads a string as a finite number, or not
   * at all; `show` prints one. What it prints reads back as the same number
   * and holds no colon, and exact whole numbers are plain decimals.
   */
  datatype Numbers = Numbers(parse: string -> Option<real>, show: real -> string) {
    ghost predicate Valid() {
      && (forall s :: parse(s).Some? ==> parse(show(parse(s).value)) == parse(s) && ':' !in show(parse(s).value))
      && (forall n: nat :: n <= MAX_SAFE ==> parse(Decimal(n)) == Some(n as real) && show(n as real) == Decimal(n))
    }
  }

  predicate Verify(sign: Signer, num: Numbers, scope: string, token: string, now: nat) {
    match IndexOfDot(token)
    case None => false
    case Some(dot) =>
      dot <= |token|
      && (match num.parse(token[..dot])
          case None => false
          case Some(exp) =>
            exp >= now as real && dot < |token| && token[dot + 1..] == sign(Payload(scope, num.show(exp))))
  }

  /** A token works for what it was minted for, up to its expiry and no longer. */
  lemma MintedVerifies(sign: Signer, num: Numbers, scope: string, ttlMs: nat, minted: nat, now: nat)
    requires num.Valid() && minted + ttlMs <= MAX_SAFE
    ensures Verify(sign, num, scope, Mint(sign, scope, ttlMs, minted), now) <==> now <= minted + ttlMs
  {
    var exp := Decimal(minted + ttlMs);
    var sig := sign(Payload(scope, exp));
    DecimalReads(minted + ttlMs);
    DotAfter(exp, sig);
    var token := exp + "." + sig;
    assert token[..|exp|] == exp && token[|exp| + 1..] == sig;
  }

  /** What follows the last colon. */
  function PastColon(s: string): string {
    if s == "" || s[|s| - 1] == ':' then "" else PastColon(s[..|s| - 1]) + [s[|s| - 1]]
  }

  lemma {:induction false} PastColonExact(a: string, d: string)
    requires ':' !in d
    ensures PastColon(a + ":" + d) == d
    decreases |d|
  {
    if d != "" {
      assert (a + ":" + d)[..|a + ":" + d| - 1] == a + ":" + d[..|d| - 1];
      PastColonExact(a, d[..|d| - 1]);
    } else {
      assert a + ":" + d == a + ":";
    }
  }

  lemma PayloadInjective(scope: string, exp: string, scope': string, exp': string)
    requires Payload(scope, exp) == Payload(scope', exp') && ':' !in exp && ':' !in exp'
    ensures scope == scope' && exp == exp'
  {
    PastColonExact(scope, exp);
    PastColonExact(scope', exp');
    assert Payload(scope, exp)[..|scope|] == scope;
    assert Payload(scope', exp')[..|scope'|] == scope';
  }

  /** What precedes the first colon. */
  function BeforeColon(s: string): string {
    if s == "" || s[0] == ':' then "" else [s[0]] + BeforeColon(s[1..])
  }

  lemma {:induction false} BeforeColonExact(c: string, x: string)
    requires ':' !in c
    ensures BeforeColon(c + ":" + x) == c
  {
    if c != "" {
      assert (c + ":" + x)[1..] == c[1..] + ":" + x;
      BeforeColonExact(c[1..], x);
    }
  }

  lemma RawScopeParts(mount: nat, relPath: string)
    ensures var past := RawScope(mount, relPath)[4..];
            BeforeColon(past) == Decimal(mount) && past[|Decimal(mount)|..] == ":" + relPath
  {
    DecimalReads(mount);
    ColonParts(Decimal(mount), relPath);
  }

  lemma ColonParts(c: string, x: string)
    requires ':' !in c
    ensures var past := ("raw:" + c + ":" + x)[4..];
            BeforeColon(past) == c && past[|c|..] == ":" + x
  {
    assert ("raw:" + c + ":" + x)[4..] == c + ":" + x;
    BeforeColonExact(c, x);
    assert (c + ":" + x)[|c|..] == ":" + x;
  }

  lemma RawScopeInjective(mount: nat, relPath: string, mount': nat, relPath': string)
    requires RawScope(mount, relPath) == RawScope(mount', relPath')
    ensures mount == mount' && relPath == relPath'
  {
    RawScopeParts(mount, relPath);
    RawScopeParts(mount', relPath');
    DecimalReads(mount);
    DecimalReads(mount');
    assert (":" + relPath)[1..] == relPath && (":" + relPath')[1..] == relPath';
  }

  lemma SignedScope(sign: Signer, num: Numbers, scope: string, exp: nat, scope': string, token: string, now: nat)
    requires CollisionFree(sign) && num.Valid() && exp <= MAX_SAFE
    requires IndexOfDot(token).Some? && IndexOfDot(token).value < |token|
    requires token[IndexOfDot(token).value + 1..] == sign(Payload(scope, Decimal(exp)))
    requires Verify(sign, num, scope', token, now)
    ensures scope' == scope && num.parse(token[..IndexOfDot(token).value]) == Some(exp as real) && now <= exp
  {
    var s := token[..IndexOfDot(token).value];
    var exp' := num.show(num.parse(s).value);
    DecimalReads(exp);
    assert sign(Payload(scope, Decimal(exp))) == sign(Payload(scope', exp'));
    PayloadInjective(scope, Decimal(exp), scope', exp');
    assert num.parse(exp') == num.parse(s);
  }

  /**
   * A token is bound: whatever its expiry part was changed to, one that
   * carries the signature of a raw-file token verifies only for that mount,
   * that path and that expiry, and never as a tracker token.
   */
  lemma RawTokenBound(sign: Signer, num: Numbers, mount: nat, relPath: string, exp: nat,
                      token: string, now: nat, scope': string)
    requires CollisionFree(sign) && num.Valid() && exp <= MAX_SAFE
    requires IndexOfDot(token).Some? && IndexOfDot(token).value < |token|
    requires token[IndexOfDot(token).value + 1..] == sign(Payload(RawScope(mount, relPath), Decimal(exp)))
    requires Verify(sign, num, scope', token, now)
    ensures forall infoHash :: scope' != TrackerScope(infoHash)
    ensures forall mount', relPath' :: scope' == RawScope(mount', relPath') ==> mount' == mount && relPath' == relPath
    ensures num.parse(token[..IndexOfDot(token).value]) == Some(exp as real) && now <= exp
  {
    SignedScope(sign, num, RawScope(mount, relPath), exp, scope', token, now);
    forall infoHash
      ensures scope' != TrackerScope(infoHash)
    {
      ScopesApart(mount, relPath, infoHash);
    }
    forall mount', relPath' | scope' == RawScope(mount', relPath')
      ensures mount' == mount && relPath' == relPath
    {
      RawScopeInjective(mount, relPath, mount', relPath');
    }
  }

  lemma ScopesApart(mount: nat, relPath: string, infoHash: string)
    ensures RawScope(mount, relPath) != TrackerScope(infoHash)
  {
    assert RawScope(mount, relPath)[0] == 'r' && TrackerScope(infoHash)[0] == 't';
  }
}
