/** The integer logic of the two Go HTTP benchmarks, http_benchmark/http_benchmark.go
    and http_benchmark.go: the validation of a response in doRequest, the unit chosen
    by formatBytes, the -header flag list and its K=V parsing, and the
    minimum/average/maximum closures over the successful requests. Go strings are
    modelled as sequences of runes; Go's int and time.Duration are 64-bit, which is
    stated where it matters (the range of Atoi, the bound on the unit index). */
module HttpBench {
  import opened Common

  const MaxInt: int := 0x7FFF_FFFF_FFFF_FFFF
  const MinInt: int := -0x8000_0000_0000_0000

  predicate InInt64(x: int) {
    MinInt <= x <= MaxInt
  }

  // ---------------------------------------------------------------- strconv

  /** strconv.Itoa: the decimal text, with a leading minus sign for a negative value. */
  function Itoa(n: int): (r: seq<char>)
    ensures 1 <= |r|
  {
    if n < 0 then ['-'] + Decimal(-n) else Decimal(n)
  }

  predicate AllDigits(s: seq<char>) {
    forall i :: 0 <= i < |s| ==> IsDigit(s[i])
  }

  /** strconv.Atoi: an optional sign followed by at least one ASCII digit, whose value
      must fit in a 64-bit int; anything else is an error (None). */
  function Atoi(s: seq<char>): (r: Option<int>)
    ensures r.Some? ==> InInt64(r.value)
    ensures r.Some? ==> 1 <= |s| && (AllDigits(s) || ((s[0] == '-' || s[0] == '+') && AllDigits(s[1..])))
  {
    var signed := |s| > 0 && (s[0] == '-' || s[0] == '+');
    var digits := if signed then s[1..] else s;
    if |digits| == 0 || !AllDigits(digits) then None
    else
      var v := if signed && s[0] == '-' then 0 - DigitsValue(digits) as int else DigitsValue(digits) as int;
      if InInt64(v) then Some(v) else None
  }

  /** Atoi reads back what Itoa writes, for every 64-bit int. */
  lemma AtoiItoa(n: int)
    requires InInt64(n)
    ensures Atoi(Itoa(n)) == Some(n)
  {
    var d := if n < 0 then Decimal(-n) else Decimal(n);
    DecimalValue(if n < 0 then -n else n);
    if n < 0 {
      assert Itoa(n)[1..] == d;
    } else {
      assert IsDigit(d[0]);
    }
  }

  /** A sign alone, or a sign followed by a non-digit, is not a number. */
  lemma AtoiRejectsSignAlone(sign: char, rest: seq<char>)
    requires sign == '-' || sign == '+'
    requires rest == [] || !IsDigit(rest[0])
    ensures Atoi([sign] + rest) == None
  {
    assert ([sign] + rest)[1..] == rest;
  }

  // ---------------------------------------------------------------- doRequest

  const StatusOK := 200
  const ContentLengthKey := "Content-Length"
  const WrongContentLength := "Wrong Content-Length header"

  /** The response fields doRequest looks at: the status code and the header map, in
      which a missing key and an empty list both mean that the header is absent. */
  datatype Response = Response(status: int, header: map<seq<char>, seq<seq<char>>>)

  /** The checks at the end of doRequest: the content length and no error, or -1 and
      the error's text. */
  function CheckResponse(resp: Response): (r: (int, Option<seq<char>>))
    ensures r.1.Some? ==> r.0 == -1
    ensures r.1.None? ==> r.0 > 0 && InInt64(r.0)
    ensures resp.status != StatusOK ==> r.1 == Some(Itoa(resp.status))
    ensures resp.status == StatusOK && r.1.Some? ==> r.1 == Some(WrongContentLength)
    ensures r.1.None? <==> resp.status == StatusOK && ContentLengthValue(resp.header).Some?
    ensures r.1.None? ==> r.0 == ContentLengthValue(resp.header).value
  {
    if resp.status != StatusOK then (-1, Some(Itoa(resp.status)))
    else if ContentLengthKey !in resp.header || |resp.header[ContentLengthKey]| == 0 then (-1, Some(WrongContentLength))
    else
      var n := Atoi(resp.header[ContentLengthKey][0]);
      if n.None? || n.value <= 0 then (-1, Some(WrongContentLength))
      else (n.value, None)
  }

  /** The positive number the first Content-Length value gives, if any. */
  function ContentLengthValue(header: map<seq<char>, seq<seq<char>>>): Option<int>
  {
    if ContentLengthKey in header && |header[ContentLengthKey]| > 0
       && Atoi(header[ContentLengthKey][0]).Some? && Atoi(header[ContentLengthKey][0]).value > 0
    then Atoi(header[ContentLengthKey][0])
    else None
  }

  /** The error of a failed status carries the status code: its text reads back as it. */
  lemma StatusRecoverable(resp: Response)
    requires resp.status != StatusOK && InInt64(resp.status)
    ensures Atoi(CheckResponse(resp).1.value) == Some(resp.status)
  {
    AtoiItoa(resp.status);
  }

  /** A 200 response whose Content-Length is the text of a positive n gives n, whatever
      else the header holds. */
  lemma LengthRoundTrip(header: map<seq<char>, seq<seq<char>>>, n: int, more: seq<seq<char>>)
    requires 0 < n <= MaxInt
    ensures CheckResponse(Response(StatusOK, header[ContentLengthKey := [Itoa(n)] + more])) == (n, None)
  {
    AtoiItoa(n);
    var h := header[ContentLengthKey := [Itoa(n)] + more];
    assert h[ContentLengthKey][0] == Itoa(n);
  }

  /** A length that is zero or negative is refused as a wrong header. */
  lemma NonPositiveRefused(header: map<seq<char>, seq<seq<char>>>, n: int)
    requires MinInt <= n <= 0
    ensures CheckResponse(Response(StatusOK, header[ContentLengthKey := [Itoa(n)]])) == (-1, Some(WrongContentLength))
  {
    AtoiItoa(n);
    var h := header[ContentLengthKey := [Itoa(n)]];
    assert h[ContentLengthKey][0] == Itoa(n);
  }

  // ---------------------------------------------------------------- formatBytes

  const Unit := 1024
  const Units := "KMGTPE"

  function Pow(b: nat, e: nat): nat
  {
    if e == 0 then 1 else b * Pow(b, e - 1)
  }

  /** What formatBytes prints: "%d B" of the count, or "%.1f %cB" of bytes / div with
      the unit letter (the float rendering itself is not modelled). */
  datatype Size = Plain(text: seq<char>) | Scaled(bytes: int, div: int, unit: char)

  /** formatBytes: below 1024 the count in bytes; otherwise the loop divides by 1024
      while the quotient is still 1024 or more, so that 1 <= bytes / div < 1024, and
      the letter is the exponent's. For a 64-bit int the exponent is at most 5, so the
      index into "KMGTPE" is in range and div never overflows. */
  method FormatBytes(bytes: int) returns (r: Size)
    requires InInt64(bytes)
    ensures bytes < Unit ==> r == Plain(Itoa(bytes) + " B")
    ensures bytes >= Unit ==> r.Scaled? && r.bytes == bytes && r.div <= bytes < Unit * r.div
    ensures bytes >= Unit ==> exists e :: 0 <= e < |Units| && r.div == Pow(Unit, e + 1) && r.unit == Units[e]
  {
    if bytes < Unit {
      return Plain(Itoa(bytes) + " B");
    }
    var div, exp := Unit, 0;
    var n := bytes / Unit;
    while n >= Unit
      invariant div == Pow(Unit, exp + 1) && div <= bytes
      invariant div * n <= bytes < div * (n + 1)
      decreases n
    {
      ScaleStep(bytes, div, n);
      div := div * Unit;
      exp := exp + 1;
      n := n / Unit;
    }
    ExponentBound(exp);
    r := Scaled(bytes, div, Units[exp]);
    assert bytes < div * Unit by {
      MulMonotone(div, n + 1, Unit);
    }
  }

  /** One pass of formatBytes's loop: with n = bytes / div at least 1024, div * 1024
      still fits under bytes and n / 1024 is bytes / (div * 1024). */
  lemma ScaleStep(bytes: int, div: nat, n: int)
    requires div > 0 && n >= Unit && div * n <= bytes < div * (n + 1)
    ensures div * Unit <= bytes
    ensures (div * Unit) * (n / Unit) <= bytes < (div * Unit) * (n / Unit + 1)
  {
    var q := n / Unit;
    assert Unit * q <= n < Unit * (q + 1);
    MulMonotone(div, Unit, n);
    MulMonotone(div, Unit * q, n);
    MulMonotone(div, n + 1, Unit * (q + 1));
    assert div * (Unit * q) == (div * Unit) * q;
    assert div * (Unit * (q + 1)) == (div * Unit) * (q + 1);
  }

  lemma MulMonotone(d: nat, x: int, y: int)
    requires x <= y
    ensures d * x <= d * y
  {
    assert d * y - d * x == d * (y - x);
  }

  /** 1024^(e+1) fits in a 64-bit int only up to e = 5. */
  lemma ExponentBound(e: nat)
    requires Pow(Unit, e + 1) <= MaxInt
    ensures e < |Units|
  {
    if e >= 6 {
      PowMonotone(7, e + 1);
      SeventhPower();
    }
  }

  lemma SeventhPower()
    ensures Pow(Unit, 7) == 0x40_0000_0000_0000_0000
  {
    assert Pow(Unit, 1) == Unit;
    assert Pow(Unit, 2) == Unit * Pow(Unit, 1);
    assert Pow(Unit, 3) == Unit * Pow(Unit, 2);
    assert Pow(Unit, 4) == Unit * Pow(Unit, 3);
    assert Pow(Unit, 5) == Unit * Pow(Unit, 4);
    assert Pow(Unit, 6) == Unit * Pow(Unit, 5);
  }

  lemma {:induction false} PowMonotone(e1: nat, e2: nat)
    requires e1 <= e2
    ensures Pow(Unit, e1) <= Pow(Unit, e2)
    decreases e2
  {
    if e1 < e2 {
      PowMonotone(e1, e2 - 1);
      assert Pow(Unit, e2) == Unit * Pow(Unit, e2 - 1);
    }
  }

  /** The unit is determined by bytes: two exponents e with 1024^(e+1) <= bytes <
      1024^(e+2) are equal. */
  lemma UnitUnique(bytes: int, e1: nat, e2: nat)
    requires Pow(Unit, e1 + 1) <= bytes < Pow(Unit, e1 + 2)
    requires Pow(Unit, e2 + 1) <= bytes < Pow(Unit, e2 + 2)
    ensures e1 == e2
  {
    if e1 < e2 {
      PowMonotone(e1 + 2, e2 + 1);
    } else if e2 < e1 {
      PowMonotone(e2 + 2, e1 + 1);
    }
  }

  // ---------------------------------------------------------------- -header flags

  /** headerFlagList: the flag.Value that collects every -header argument. */
  class HeaderFlagList {
    var values: seq<seq<char>>

    constructor ()
      ensures values == []
    {
      values := [];
    }

    /** Set: the value is appended after the earlier ones; there is never an error. */
    method Set(value: seq<char>) returns (err: Option<seq<char>>)
      modifies this
      ensures values == old(values) + [value] && err == None
    {
      values := values + [value];
      err := None;
    }
  }

  /** unicode.IsSpace, which strings.TrimSpace trims. */
  predicate IsSpace(c: char) {
    || c == '\t' || c == '\n' || c == '\U{0B}' || c == '\U{0C}' || c == '\r' || c == ' '
    || c == '\U{85}' || c == '\U{A0}' || c == '\U{1680}' || ('\U{2000}' <= c <= '\U{200A}')
    || c == '\U{2028}' || c == '\U{2029}' || c == '\U{202F}' || c == '\U{205F}' || c == '\U{3000}'
  }

  /** The leading white space removed: exactly the longest prefix of spaces. */
  function TrimLeft(s: seq<char>): (r: seq<char>)
    ensures |r| <= |s| && r == s[|s| - |r|..]
    ensures AllSpaces(s[..|s| - |r|])
    ensures r == [] || !IsSpace(r[0])
  {
    if |s| > 0 && IsSpace(s[0]) then TrimLeft(s[1..]) else s
  }

  /** The trailing white space removed: exactly the longest suffix of spaces. */
  function TrimRight(s: seq<char>): (r: seq<char>)
    ensures |r| <= |s| && r == s[..|r|]
    ensures forall i :: |r| <= i < |s| ==> IsSpace(s[i])
    ensures r == [] || !IsSpace(r[|r| - 1])
  {
    if |s| > 0 && IsSpace(s[|s| - 1]) then TrimRight(s[..|s| - 1]) else s
  }

  /** strings.TrimSpace: no longer than s, and neither end left on a space. */
  function TrimSpace(s: seq<char>): (r: seq<char>)
    ensures |r| <= |s| && Trimmed(r)
  {
    var l := TrimLeft(s);
    var r := TrimRight(l);
    assert r != [] ==> r[0] == l[0];
    r
  }

  predicate AllSpaces(s: seq<char>) {
    forall i :: 0 <= i < |s| ==> IsSpace(s[i])
  }

  predicate Trimmed(s: seq<char>) {
    s == [] || (!IsSpace(s[0]) && !IsSpace(s[|s| - 1]))
  }

  /** TrimSpace only cuts characters away: what was not in s is not in the result. */
  lemma TrimSpaceAddsNothing(s: seq<char>, c: char)
    requires c !in s
    ensures c !in TrimSpace(s)
  {
  }

  /** Text already without space at either end is left as it is. */
  lemma TrimmedFixed(s: seq<char>)
    requires Trimmed(s)
    ensures TrimSpace(s) == s
  {
  }

  /** Spaces around a trimmed text are all removed. */
  lemma TrimPadded(pre: seq<char>, s: seq<char>, post: seq<char>)
    requires Trimmed(s) && s != []
    requires AllSpaces(pre) && AllSpaces(post)
    ensures TrimSpace(pre + s + post) == s
  {
    TrimLeftOfPadded(pre, s, post);
    TrimRightPadded(s, post);
  }

  lemma TrimLeftOfPadded(pre: seq<char>, s: seq<char>, post: seq<char>)
    requires s != [] && !IsSpace(s[0])
    requires AllSpaces(pre)
    ensures TrimLeft(pre + s + post) == s + post
  {
    var t := s + post;
    assert t[0] == s[0];
    TrimLeftPadded(pre, t);
    assert pre + s + post == pre + t;
  }

  lemma {:induction false} TrimLeftPadded(pre: seq<char>, t: seq<char>)
    requires t != [] && !IsSpace(t[0])
    requires AllSpaces(pre)
    ensures TrimLeft(pre + t) == t
    decreases |pre|
  {
    if pre != [] {
      assert (pre + t)[1..] == pre[1..] + t;
      TrimLeftPadded(pre[1..], t);
    }
  }

  lemma {:induction false} TrimRightPadded(t: seq<char>, post: seq<char>)
    requires t != [] && !IsSpace(t[|t| - 1])
    requires AllSpaces(post)
    ensures TrimRight(t + post) == t
    decreases |post|
  {
    if post != [] {
      var p := post[..|post| - 1];
      assert (t + post)[..|t + post| - 1] == t + p;
      TrimRightPadded(t, p);
    }
  }

  /** A parsed -header value. */
  datatype Header = Header(key: seq<char>, value: seq<char>)

  const InvalidHeader := "Invalid header format. Use K=V"

  /** One -header value: split on "=", exactly two parts, both non-empty once trimmed.
      An accepted header has a non-empty key and value, neither holding "=" nor
      starting or ending with a space. */
  function ParseHeaderFlag(h: seq<char>): (r: Option<Header>)
    ensures r.Some? ==> r.value.key != [] && r.value.value != []
    ensures r.Some? ==> '=' !in r.value.key && '=' !in r.value.value
    ensures r.Some? ==> Trimmed(r.value.key) && Trimmed(r.value.value)
  {
    var parts := Split(h, '=');
    if |parts| != 2 then None
    else
      var key := TrimSpace(parts[0]);
      var value := TrimSpace(parts[1]);
      if key == [] || value == [] then None else Some(Header(key, value))
  }

  /** A header written as K=V, with spaces around either side, reads back as K and V. */
  lemma HeaderFlagRoundTrip(pre: seq<char>, hd: Header, mid1: seq<char>, mid2: seq<char>, post: seq<char>)
    requires hd.key != [] && hd.value != [] && Trimmed(hd.key) && Trimmed(hd.value)
    requires '=' !in hd.key && '=' !in hd.value
    requires AllSpaces(pre)
    requires AllSpaces(mid1)
    requires AllSpaces(mid2)
    requires AllSpaces(post)
    ensures ParseHeaderFlag(pre + hd.key + mid1 + ['='] + mid2 + hd.value + post) == Some(hd)
  {
    var k, v := pre + hd.key + mid1, mid2 + hd.value + post;
    SpacesHaveNoEquals(pre);
    SpacesHaveNoEquals(mid1);
    SpacesHaveNoEquals(mid2);
    SpacesHaveNoEquals(post);
    TrimPadded(pre, hd.key, mid1);
    TrimPadded(mid2, hd.value, post);
    Regroup(pre + hd.key, mid1, ['='], mid2, hd.value, post);
    SplitPair(k, v, hd);
  }

  /** One "=" between two texts without one: the two trimmed texts are the header. */
  lemma SplitPair(k: seq<char>, v: seq<char>, hd: Header)
    requires '=' !in k && '=' !in v
    requires TrimSpace(k) == hd.key != [] && TrimSpace(v) == hd.value != []
    ensures ParseHeaderFlag(k + ['='] + v) == Some(hd)
  {
    SplitAfterPiece(k, '=', v);
    SplitWithoutSeparator(v, '=');
    var parts := Split(k + ['='] + v, '=');
    assert parts == [k, v];
  }

  lemma SpacesHaveNoEquals(s: seq<char>)
    requires AllSpaces(s)
    ensures '=' !in s
  {
  }

  /** A value with a second "=" is refused, whatever its parts. */
  lemma SecondEqualsRefused(a: seq<char>, b: seq<char>, c: seq<char>)
    requires '=' !in a && '=' !in b
    ensures ParseHeaderFlag(a + ['='] + b + ['='] + c) == None
  {
    SplitAfterPiece(a, '=', b + ['='] + c);
    SplitAfterPiece(b, '=', c);
    assert a + ['='] + b + ['='] + c == a + ['='] + (b + ['='] + c);
  }

  /** A value without "=" is refused. */
  lemma NoEqualsRefused(h: seq<char>)
    requires '=' !in h
    ensures ParseHeaderFlag(h) == None
  {
    SplitWithoutSeparator(h, '=');
  }

  /** The header loop of main: every -header value in order; the first malformed one
      stops the program with the usage message. */
  method ParseHeaders(flags: seq<seq<char>>) returns (r: Result<seq<Header>, seq<char>>)
    ensures r.Ok? <==> forall i :: 0 <= i < |flags| ==> ParseHeaderFlag(flags[i]).Some?
    ensures r.Ok? ==> |r.value| == |flags| && forall i :: 0 <= i < |flags| ==> ParseHeaderFlag(flags[i]) == Some(r.value[i])
    ensures r.Err? ==> r.error == InvalidHeader
  {
    var headers: seq<Header> := [];
    for i := 0 to |flags|
      invariant |headers| == i
      invariant forall j :: 0 <= j < i ==> ParseHeaderFlag(flags[j]) == Some(headers[j])
    {
      var header := ParseHeaderFlag(flags[i]);
      if header.None? {
        return Err(InvalidHeader);
      }
      HeadersStep(flags, headers, i, header.value);
      headers := headers + [header.value];
    }
    return Ok(headers);
  }

  /** One more header read keeps the earlier ones. */
  lemma HeadersStep(flags: seq<seq<char>>, headers: seq<Header>, i: nat, h: Header)
    requires i < |flags| && |headers| == i && ParseHeaderFlag(flags[i]) == Some(h)
    requires forall j :: 0 <= j < i ==> ParseHeaderFlag(flags[j]) == Some(headers[j])
    ensures forall j :: 0 <= j < i + 1 ==> ParseHeaderFlag(flags[j]) == Some((headers + [h])[j])
  {
  }

  // ---------------------------------------------------------------- statistics

  /** The running total of the loop over the successes (request times or content
      lengths). */
  function Sum(values: seq<int>): int
  {
    if values == [] then 0 else Sum(values[..|values| - 1]) + values[|values| - 1]
  }

  /** Go's integer division, which truncates toward zero: the quotient times d is
      within d of a, on a's side of zero. */
  function GoDiv(a: int, d: int): (q: int)
    requires d > 0
    ensures a >= 0 ==> 0 <= d * q <= a < d * q + d
    ensures a < 0 ==> d * q - d < a <= d * q <= 0
  {
    if a >= 0 then
      DivBracket(a, d);
      a / d
    else
      DivBracket(-a, d);
      var p := (-a) / d;
      assert d * -p == -(d * p);
      -p
  }

  /** Dafny's division on a natural number: the quotient times d is within d below it. */
  lemma DivBracket(n: nat, d: int)
    requires d > 0
    ensures 0 <= d * (n / d) <= n < d * (n / d) + d
  {
    assert n == d * (n / d) + n % d;
    MulMonotone(d, 0, n / d);
  }

  /** The total loop. */
  method Total(values: seq<int>) returns (total: int)
    ensures total == Sum(values)
  {
    total := 0;
    for i := 0 to |values|
      invariant total == Sum(values[..i])
    {
      assert values[..i + 1][..i] == values[..i];
      total := total + values[i];
    }
    assert values[..|values|] == values;
  }

  /** The average closure: 0 without successes, else the total divided by their count,
      truncated toward zero. */
  function Average(total: int, count: nat): (avg: int)
    ensures count == 0 ==> avg == 0
    ensures count > 0 && total >= 0 ==> 0 <= count * avg <= total < count * avg + count
    ensures count > 0 && total < 0 ==> count * avg - count < total <= count * avg <= 0
  {
    if count == 0 then 0 else GoDiv(total, count)
  }

  /** The minimum closure: 0 without successes; otherwise the loop from MaxInt64 down
      keeps the smallest value, which is one of the values. */
  method Minimum(values: seq<int>) returns (m: int)
    requires forall i :: 0 <= i < |values| ==> InInt64(values[i])
    ensures values == [] ==> m == 0
    ensures values != [] ==> m in values && forall i :: 0 <= i < |values| ==> m <= values[i]
  {
    if |values| == 0 {
      return 0;
    }
    m := MaxInt;
    for i := 0 to |values|
      invariant forall j :: 0 <= j < i ==> m <= values[j]
      invariant m == MaxInt || m in values
    {
      if values[i] < m {
        m := values[i];
      }
    }
    assert m <= values[0] <= MaxInt;
  }

  /** The maximum closure: 0 without successes; otherwise the loop from 0 up keeps the
      largest value, or 0 when every value is negative. */
  method Maximum(values: seq<int>) returns (m: int)
    ensures m >= 0 && forall i :: 0 <= i < |values| ==> values[i] <= m
    ensures m == 0 || m in values
    ensures values != [] && values[0] >= 0 ==> m in values
  {
    if |values| == 0 {
      return 0;
    }
    m := 0;
    for i := 0 to |values|
      invariant m >= 0 && forall j :: 0 <= j < i ==> values[j] <= m
      invariant m == 0 || m in values
      invariant i > 0 && values[0] >= 0 ==> m in values
    {
      if values[i] > m {
        m := values[i];
      }
    }
  }

  /** The three closures together: all 0 without successes, and otherwise the
      minimum, the average and the maximum in that order. */
  method Statistics(values: seq<int>) returns (avg: int, min: int, max: int)
    requires forall i :: 0 <= i < |values| ==> InInt64(values[i])
    ensures values == [] ==> avg == 0 && min == 0 && max == 0
    ensures avg == Average(Sum(values), |values|)
    ensures max >= 0 && (max == 0 || max in values)
    ensures values != [] ==> min <= avg <= max
    ensures values != [] ==> min in values && forall i :: 0 <= i < |values| ==> min <= values[i] <= max
  {
    var total := Total(values);
    avg := Average(total, |values|);
    min := Minimum(values);
    max := Maximum(values);
    if values != [] {
      AverageBetween(values, min, max);
    }
  }

  /** The average of values between lo and hi is between them too, with Go's
      truncating division. */
  lemma AverageBetween(values: seq<int>, lo: int, hi: int)
    requires values != [] && forall i :: 0 <= i < |values| ==> lo <= values[i] <= hi
    ensures lo <= Average(Sum(values), |values|) <= hi
  {
    SumBetween(values, lo, hi);
    DivBetween(Sum(values), |values|, lo, hi);
  }

  lemma {:induction false} SumBetween(values: seq<int>, lo: int, hi: int)
    requires forall i :: 0 <= i < |values| ==> lo <= values[i] <= hi
    ensures |values| * lo <= Sum(values) <= |values| * hi
    decreases |values|
  {
    if values != [] {
      var init := values[..|values| - 1];
      SumBetween(init, lo, hi);
      assert |values| * lo == |init| * lo + lo;
      assert |values| * hi == |init| * hi + hi;
    }
  }

  lemma DivBetween(a: int, d: int, lo: int, hi: int)
    requires d > 0 && d * lo <= a <= d * hi
    ensures lo <= GoDiv(a, d) <= hi
  {
    var q := GoDiv(a, d);
    if a >= 0 {
      assert d * q <= a < d * (q + 1) == d * q + d;
      MulCancel(d, lo, q);
      MulCancel(d, q, hi);
    } else {
      var p := (-a) / d;
      assert d * p <= -a < d * (p + 1);
      assert d * (q - 1) < a <= d * q by {
        assert d * q == -(d * p) && d * (q - 1) == -(d * (p + 1));
      }
      assert d * (q - 1) == d * q - d;
      MulCancel(d, lo, q);
      MulCancel(d, q, hi);
    }
  }

  /** Multiplying by a positive number keeps the order both ways. */
  lemma MulCancel(d: int, x: int, y: int)
    requires d > 0 && d * x < d * y + d
    ensures x <= y
  {
    if x > y {
      assert d * (y + 1) == d * y + d;
      MulMonotone(d, y + 1, x);
    }
  }
}
