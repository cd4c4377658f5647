/** A single-range HTTP `Range` header, `parseSingleRange` of src/server/app.ts. */
module RangeHeaders {
  import opened Bytes
  import opened Decimals

  // --- from the header to its two numbers ----------------------------------------

  /** What JavaScript's `trim` removes: white space and line terminators. */
  predicate IsSpace(c: char) {
    '\t' <= c <= '\r' || c == ' ' || c == '\U{A0}' || c == '\U{1680}' || '\U{2000}' <= c <= '\U{200A}'
    || c == '\U{2028}' || c == '\U{2029}' || c == '\U{202F}' || c == '\U{205F}' || c == '\U{3000}' || c == '\U{FEFF}'
  }

  predicate AllSpace(s: string) {
    forall c :: c in s ==> IsSpace(c)
  }

  function TrimStart(s: string): string {
    if s != "" && IsSpace(s[0]) then TrimStart(s[1..]) else s
  }

  function TrimEnd(s: string): string {
    if s != "" && IsSpace(s[|s| - 1]) then TrimEnd(s[..|s| - 1]) else s
  }

  function Trim(s: string): string {
    TrimEnd(TrimStart(s))
  }

  lemma {:induction false} TrimStartOf(l: string, s: string)
    requires AllSpace(l) && (s == "" || !IsSpace(s[0]))
    ensures TrimStart(l + s) == s
  {
    if l == "" {
      assert l + s == s;
    } else {
      assert (l + s)[1..] == l[1..] + s;
      TrimStartOf(l[1..], s);
    }
  }

  lemma {:induction false} TrimEndOf(s: string, r: string)
    requires AllSpace(r) && (s == "" || !IsSpace(s[|s| - 1]))
    ensures TrimEnd(s + r) == s
    decreases |r|
  {
    if r == "" {
      assert s + r == s;
    } else {
      assert (s + r)[..|s + r| - 1] == s + r[..|r| - 1];
      TrimEndOf(s, r[..|r| - 1]);
    }
  }

  /** Trimming takes off exactly the space around a text. */
  lemma TrimOf(l: string, s: string, r: string)
    requires AllSpace(l) && AllSpace(r)
    requires s != "" && !IsSpace(s[0]) && !IsSpace(s[|s| - 1])
    ensures Trim(l + s + r) == s
  {
    assert l + s + r == l + (s + r);
    TrimStartOf(l, s + r);
    TrimEndOf(s, r);
  }

  /** How many digits a text starts with. */
  function DigitRun(s: string): (n: nat)
    ensures n <= |s| && AllDigits(s[..n])
    ensures n < |s| ==> !IsDigit(s[n])
  {
    if s != "" && IsDigit(s[0]) then
      var n := 1 + DigitRun(s[1..]);
      assert s[..n] == [s[0]] + s[1..][..n - 1];
      n
    else 0
  }

  const PREFIX := "bytes="

  /** The pattern `^bytes=(\d*)-(\d*)$` and its two groups. */
  function Match(s: string): Option<(string, string)> {
    if !(PREFIX <= s) then None
    else
      var rest := s[|PREFIX|..];
      var n := DigitRun(rest);
      if n < |rest| && rest[n] == '-' && AllDigits(rest[n + 1..]) then Some((rest[..n], rest[n + 1..])) else None
  }

  /** The pattern matches exactly these texts, and the groups are the two digit runs. */
  lemma MatchExactly(s: string, a: string, b: string)
    ensures Match(s) == Some((a, b)) <==> AllDigits(a) && AllDigits(b) && s == PREFIX + a + "-" + b
  {
    if AllDigits(a) && AllDigits(b) && s == PREFIX + a + "-" + b {
      var rest := s[|PREFIX|..];
      assert rest == a + "-" + b;
      assert rest[|a|] == '-' && rest[..|a|] == a && rest[|a| + 1..] == b;
      RunEndsAtDash(rest, |a|);
    }
    if Match(s).Some? {
      MatchSpells(s);
    }
  }

  lemma MatchSpells(s: string)
    requires Match(s).Some?
    ensures var (a, b) := Match(s).value; AllDigits(a) && AllDigits(b) && s == PREFIX + a + "-" + b
  {
    var rest := s[|PREFIX|..];
    var n := DigitRun(rest);
    assert s == PREFIX + rest;
    assert rest == rest[..n] + "-" + rest[n + 1..];
  }

  lemma RunEndsAtDash(rest: string, n: nat)
    requires n < |rest| && rest[n] == '-' && AllDigits(rest[..n])
    ensures DigitRun(rest) == n
  {
    var m := DigitRun(rest);
    forall k | 0 <= k < n
      ensures IsDigit(rest[k])
    {
      assert rest[..n][k] == rest[k];
    }
    forall k | 0 <= k < m
      ensures IsDigit(rest[k])
    {
      assert rest[..m][k] == rest[k];
    }
  }

  /** What a header asks for: an absent, empty or unmatched one, and `bytes=-`, ask for no range. */
  datatype RangeHeader = NoRange | Spec(first: Option<nat>, last: Option<nat>)

  function Group(digits: string): Option<nat> {
    if digits == "" then None else Some(NumberOf(digits))
  }

  function HeaderOf(header: Option<string>): RangeHeader {
    if header.None? || header.value == "" then NoRange
    else
      match Match(Trim(header.value))
      case None => NoRange
      case Some((a, b)) => if a == "" && b == "" then NoRange else Spec(Group(a), Group(b))
  }

  lemma {:induction false} TrimSpace(s: string)
    requires AllSpace(s)
    ensures Trim(s) == ""
  {
    assert s + "" == s;
    TrimStartOf(s, "");
  }

  /** The header asks for a range with these digit runs, at least one of them not empty. */
  predicate Asks(header: Option<string>, a: string, b: string) {
    && header.Some? && Trim(header.value) == PREFIX + a + "-" + b
    && AllDigits(a) && AllDigits(b) && (a != "" || b != "")
  }

  /** A header is read as what it asks for, and as no range if it asks for none. */
  lemma HeaderExactly(header: Option<string>)
    ensures forall a, b :: Asks(header, a, b) ==> HeaderOf(header) == Spec(Group(a), Group(b))
    ensures (forall a, b :: !Asks(header, a, b)) ==> HeaderOf(header) == NoRange
  {
    if header.Some? {
      var s := Trim(header.value);
      forall a, b
        ensures Match(s) == Some((a, b)) <==> AllDigits(a) && AllDigits(b) && s == PREFIX + a + "-" + b
      {
        MatchExactly(s, a, b);
      }
      if Match(s).Some? {
        var (a, b) := Match(s).value;
        assert Asks(header, a, b) <==> a != "" || b != "";
      }
      if header.value == "" {
        TrimSpace("");
      }
    }
  }

  /** First and last byte of an asked range in a file of `size` bytes; there are none if the first is past the last. */
  function Bounds(a: string, b: string, size: nat): (nat, int) {
    if a == "" then (Max(0, size - NumberOf(b)), size - 1)
    else (NumberOf(a), if b == "" then size - 1 else Min(NumberOf(b), size - 1))
  }

  /** A printed range, with space around it or not, asks for just the numbers printed. */
  lemma HeaderReads(l: string, first: Option<nat>, last: Option<nat>, r: string)
    requires AllSpace(l) && AllSpace(r) && (first.Some? || last.Some?)
    ensures var a := if first.Some? then Decimal(first.value) else "";
            var b := if last.Some? then Decimal(last.value) else "";
            HeaderOf(Some(l + (PREFIX + a + "-" + b) + r)) == Spec(first, last)
  {
    var a := if first.Some? then Decimal(first.value) else "";
    var b := if last.Some? then Decimal(last.value) else "";
    if first.Some? {
      DecimalReads(first.value);
    }
    if last.Some? {
      DecimalReads(last.value);
    }
    var s := PREFIX + a + "-" + b;
    assert s[0] == 'b';
    assert s[|s| - 1] == (if b == "" then '-' else b[|b| - 1]);
    TrimOf(l, s, r);
    MatchExactly(s, a, b);
  }

  // --- from the two numbers to the bytes -----------------------------------------

  datatype ParsedRange = Whole | Unsatisfiable | Part(start: nat, end: int)

  function ParseSingleRange(h: RangeHeader, size: nat): ParsedRange {
    match h
    case NoRange => Whole
    case Spec(None, None) => Whole
    case Spec(None, Some(suffix)) =>
      if suffix == 0 then Unsatisfiable else Checked(Max(0, size - suffix), size - 1, size)
    case Spec(Some(first), last) =>
      Checked(first, if last.None? then size - 1 else Min(last.value, size - 1), size)
  }

  function Checked(start: nat, end: int, size: nat): ParsedRange {
    if start > end || start >= size then Unsatisfiable else Part(start, end)
  }

  /** Whether a request asks for byte `p` of a file of `size` bytes. */
  predicate Wanted(h: RangeHeader, size: nat, p: nat) {
    p < size
    && match h
       case NoRange => true
       case Spec(None, None) => true
       case Spec(None, Some(suffix)) => p >= size - suffix
       case Spec(Some(first), None) => p >= first
       case Spec(Some(first), Some(last)) => first <= p <= last
  }

  /** A parsed part is exactly the wanted bytes; it is refused exactly when there are none. */
  lemma ParseExact(h: RangeHeader, size: nat)
    ensures var r := ParseSingleRange(h, size);
            && (r.Part? ==> r.start <= r.end < size
                            && forall p: nat :: Wanted(h, size, p) <==> r.start <= p <= r.end)
            && (r.Unsatisfiable? <==> !r.Whole? && forall p: nat :: !Wanted(h, size, p))
            && (r.Whole? ==> forall p: nat :: Wanted(h, size, p) <==> p < size)
  {
    var r := ParseSingleRange(h, size);
    if r.Part? {
      assert Wanted(h, size, r.start);
    }
  }
}
