/** The temporary file name an inbound snapshot is written to,
    `txhashset-<seconds>-<nonce>.zip`, and its parser. The round trip shows
    that two transfers get the same name only when they start in the same
    second with the same random nonce. */
module TmpName {
  import opened P2pTypes

  const PREFIX: string := "txhashset-"
  const SUFFIX: string := ".zip"

  /** Exclusive upper bound of the random nonce (`gen_range(0, 1_000_000)`). */
  const NONCE_BOUND: nat := 1_000_000

  type Nonce = n: nat | n < NONCE_BOUND

  predicate IsDigit(c: char)
  {
    '0' <= c <= '9'
  }

  function DigitChar(d: nat): (c: char)
    requires d < 10
    ensures IsDigit(c)
  {
    ['0', '1', '2', '3', '4', '5', '6', '7', '8', '9'][d]
  }

  function DigitValue(c: char): (d: nat)
    requires IsDigit(c)
    ensures d < 10
  {
    (c as int - '0' as int) as nat
  }

  /** Decimal rendering of a natural number, without leading zeros. */
  function Decimal(n: nat): (s: string)
    ensures |s| > 0
    ensures forall i :: 0 <= i < |s| ==> IsDigit(s[i])
  {
    if n < 10 then [DigitChar(n)] else Decimal(n / 10) + [DigitChar(n % 10)]
  }

  /** Decimal rendering of a signed number, as `{}` formats an `i64`. */
  function Signed(x: int): (s: string)
    ensures |s| > 0
  {
    if x < 0 then "-" + Decimal(-x) else Decimal(x)
  }

  /** `format!("txhashset-{}-{}.zip", seconds, nonce)`. */
  function FileName(seconds: int, nonce: nat): string
  {
    PREFIX + Signed(seconds) + "-" + Decimal(nonce) + SUFFIX
  }

  /** The value of a string of decimal digits. */
  function DigitsValue(s: string): nat
    requires forall i :: 0 <= i < |s| ==> IsDigit(s[i])
  {
    if |s| == 0 then 0 else DigitsValue(s[..|s| - 1]) * 10 + DigitValue(s[|s| - 1])
  }

  function ParseDecimal(s: string): (r: Option<nat>)
    ensures r.Some? ==> |s| > 0
  {
    if |s| > 0 && forall i :: 0 <= i < |s| ==> IsDigit(s[i]) then Some(DigitsValue(s)) else Nothing
  }

  function ParseSigned(s: string): Option<int>
  {
    if |s| > 0 && s[0] == '-' then
      match ParseDecimal(s[1..])
      case Some(n) => Some(-(n as int))
      case Nothing => Nothing
    else
      match ParseDecimal(s)
      case Some(n) => Some(n)
      case Nothing => Nothing
  }

  /** Position of the last `-` in `s`, or `|s|` when there is none. */
  function LastDash(s: string): (k: nat)
    ensures k <= |s|
    ensures k < |s| ==> s[k] == '-' && forall j :: k < j < |s| ==> s[j] != '-'
    ensures k == |s| ==> forall j :: 0 <= j < |s| ==> s[j] != '-'
  {
    if |s| == 0 then 0
    else if s[|s| - 1] == '-' then |s| - 1
    else
      var k := LastDash(s[..|s| - 1]);
      if k == |s| - 1 then |s| else k
  }

  /** Recovers `(seconds, nonce)` from a temporary file name. */
  function ParseFileName(s: string): Option<(int, nat)>
  {
    if |s| < |PREFIX| + |SUFFIX| || s[..|PREFIX|] != PREFIX || s[|s| - |SUFFIX|..] != SUFFIX then Nothing
    else
      var middle := s[|PREFIX|..|s| - |SUFFIX|];
      var k := LastDash(middle);
      if k == |middle| then Nothing
      else
        match (ParseSigned(middle[..k]), ParseDecimal(middle[k + 1..]))
        case (Some(seconds), Some(nonce)) => Some((seconds, nonce))
        case _ => Nothing
  }

  lemma {:induction false} DecimalRoundTrip(n: nat)
    ensures DigitsValue(Decimal(n)) == n
  {
    if n >= 10 {
      var s := Decimal(n);
      assert s[..|s| - 1] == Decimal(n / 10);
      DecimalRoundTrip(n / 10);
    }
  }

  /** A string of digits parses to its value. */
  lemma ParseDigits(s: string)
    requires |s| > 0 && forall i :: 0 <= i < |s| ==> IsDigit(s[i])
    ensures ParseDecimal(s) == Some(DigitsValue(s))
  {
  }

  lemma SignedRoundTrip(x: int)
    ensures ParseSigned(Signed(x)) == Some(x)
  {
    if x < 0 {
      var d := Decimal(-x);
      assert Signed(x) == "-" + d;
      assert ("-" + d)[1..] == d;
      ParseDigits(d);
      DecimalRoundTrip(-x);
    } else {
      var d := Decimal(x);
      assert IsDigit(d[0]);
      ParseDigits(d);
      DecimalRoundTrip(x);
    }
  }

  lemma Frame(p: string, m: string, q: string)
    ensures var s := p + m + q;
      && s[..|p|] == p
      && s[|s| - |q|..] == q
      && s[|p|..|s| - |q|] == m
  {
    var s := p + m + q;
    assert s[..|p|] == p;
    assert s[|s| - |q|..] == q;
    assert s[|p|..|s| - |q|] == m;
  }

  lemma LastDashAt(s: string, k: nat)
    requires k < |s| && s[k] == '-'
    requires forall j :: k < j < |s| ==> s[j] != '-'
    ensures LastDash(s) == k
  {
  }

  lemma LastDashSplit(a: string, b: string)
    requires forall j :: 0 <= j < |b| ==> b[j] != '-'
    ensures LastDash(a + "-" + b) == |a|
  {
    var s := a + "-" + b;
    assert |s| == |a| + 1 + |b|;
    assert s[|a|] == '-';
    assert s[|a| + 1..] == b;
    forall j | |a| < j < |s|
      ensures s[j] != '-'
    {
      assert s[j] == b[j - |a| - 1];
    }
    LastDashAt(s, |a|);
  }

  /** Parsing a generated name gives back the instant's seconds and the nonce. */
  lemma FileNameRoundTrip(seconds: int, nonce: nat)
    ensures ParseFileName(FileName(seconds, nonce)) == Some((seconds, nonce))
  {
    var a := Signed(seconds);
    var b := Decimal(nonce);
    var middle := a + "-" + b;
    var s := FileName(seconds, nonce);
    assert s == PREFIX + middle + SUFFIX;
    Frame(PREFIX, middle, SUFFIX);
    LastDashSplit(a, b);
    assert middle[..|a|] == a;
    assert middle[|a| + 1..] == b;
    SignedRoundTrip(seconds);
    DecimalRoundTrip(nonce);
  }

  /** Distinct (second, nonce) pairs never produce the same file name. */
  lemma FileNameInjective(s1: int, n1: nat, s2: int, n2: nat)
    ensures FileName(s1, n1) == FileName(s2, n2) <==> s1 == s2 && n1 == n2
  {
    FileNameRoundTrip(s1, n1);
    FileNameRoundTrip(s2, n2);
  }
}
