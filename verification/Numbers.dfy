/** Decimal numbers in text. */
module Numbers {
  import opened Text

  /** printf %zd. */
  function Decimal(n: nat): (r: string)
    ensures |r| > 0 && forall c | c in r :: IsDigit(c)
  {
    if n < 10 then [('0' as int + n) as char] else Decimal(n / 10) + [('0' as int + n % 10) as char]
  }

  /** The value of a run of decimal digits. */
  function Value(s: string): nat
    requires forall c | c in s :: IsDigit(c)
  {
    if s == "" then 0
    else
      assert IsDigit(s[|s| - 1]);
      10 * Value(s[..|s| - 1]) + (s[|s| - 1] as int - '0' as int)
  }

  lemma {:induction false} ValueOfDecimal(n: nat)
    ensures Value(Decimal(n)) == n
  {
    if n >= 10 {
      ValueOfDecimal(n / 10);
      var d := [('0' as int + n % 10) as char];
      assert (Decimal(n / 10) + d)[..|Decimal(n / 10)|] == Decimal(n / 10);
    }
  }

  /** The end of the run of digits at `i`. */
  function SkipDigits(s: string, i: nat): (r: nat)
    requires i <= |s|
    ensures i <= r <= |s| && forall c | c in s[i..r] :: IsDigit(c)
    decreases |s| - i
  {
    if i < |s| && IsDigit(s[i]) then
      var r := SkipDigits(s, i + 1);
      assert s[i..r] == [s[i]] + s[i + 1..r];
      r
    else i
  }

  lemma {:induction false} SkipsAllDigits(d: string, tail: string, i: nat)
    requires i <= |d| && (forall c | c in d :: IsDigit(c)) && tail != "" && !IsDigit(tail[0])
    ensures SkipDigits(d + tail, i) == |d|
    decreases |d| - i
  {
    if i < |d| {
      assert (d + tail)[i] == d[i] && d[i] in d;
      SkipsAllDigits(d, tail, i + 1);
    } else {
      assert (d + tail)[i] == tail[0];
    }
  }
}
