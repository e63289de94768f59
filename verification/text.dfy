/** String helpers shared by the matchers and the problem renderers. */
module Text {

  /** The only Content-Type value the association documents may be served with. */
  const ApplicationJson: string := "application/json"

  /** `HeaderValue::to_str` succeeds only on visible ASCII and tab; a header value is
      a byte string, held one `char` per byte. */
  predicate IsVisibleAscii(v: string)
  {
    forall k :: 0 <= k < |v| ==> v[k] == '\t' || (' ' <= v[k] <= '~')
  }

  /** `s.starts_with(prefix)` */
  predicate StartsWith(s: string, prefix: string)
  {
    |prefix| <= |s| && s[..|prefix|] == prefix
  }

  /** `t` occurs somewhere inside `s` */
  ghost predicate Contains(s: string, t: string)
  {
    exists i :: OccursAt(s, t, i)
  }

  predicate OccursAt(s: string, t: string, i: int)
  {
    0 <= i <= |s| - |t| && s[i..i + |t|] == t
  }

  /** A string whose first character never occurs in `s` is not contained in `s`. */
  lemma NotContainedWithoutFirstChar(s: string, t: string)
    requires |t| > 0 && t[0] !in s
    ensures !Contains(s, t)
  {
  }

  lemma ContainsPart(s: string, a: string, t: string, b: string)
    requires s == a + t + b
    ensures Contains(s, t)
  {
    assert OccursAt(s, t, |a|);
  }

  predicate IsDigit(c: char)
  {
    '0' <= c <= '9'
  }

  function DigitChar(d: nat): (c: char)
    requires d < 10
    ensures IsDigit(c)
  {
    ['0', '1', '2', '3', '4', '5', '6', '7', '8', '9'][d]
  }

  function DigitValue(c: char): (d: nat)
    requires IsDigit(c)
  {
    (c as int) - ('0' as int)
  }

  /** Rust's `Display` for an unsigned integer: the decimal digits, no sign, no leading zero. */
  function Decimal(n: nat): (r: string)
    ensures |r| > 0 && forall k :: 0 <= k < |r| ==> IsDigit(r[k])
    ensures |r| > 1 ==> r[0] != '0'
    decreases n
  {
    if n < 10 then [DigitChar(n)] else Decimal(n / 10) + [DigitChar(n % 10)]
  }

  /** Reads back a string of decimal digits. */
  function DecimalValue(s: string): nat
    requires forall k :: 0 <= k < |s| ==> IsDigit(s[k])
    decreases |s|
  {
    if |s| == 0 then 0 else DecimalValue(s[..|s| - 1]) * 10 + DigitValue(s[|s| - 1])
  }

  /** The decimal rendering is faithful: reading it back yields the number. */
  lemma {:induction false} DecimalRoundTrip(n: nat)
    ensures DecimalValue(Decimal(n)) == n
    decreases n
  {
    var r := Decimal(n);
    if n < 10 {
      assert r[..|r| - 1] == [];
    } else {
      DecimalRoundTrip(n / 10);
      assert r[..|r| - 1] == Decimal(n / 10);
    }
  }
}
