/** String building used by the readiness messages: `", ".join(...)` and
    decimal rendering of a count, with the facts that make them readable back. */
module Text {

  /** `sep.join(xs)`. */
  function Join(xs: seq<string>, sep: string): string
  {
    if |xs| == 0 then ""
    else if |xs| == 1 then xs[0]
    else xs[0] + sep + Join(xs[1..], sep)
  }

  /** `w` occurs as a contiguous piece of `s` (Python's `w in s`). */
  predicate IsInfix(w: string, s: string) {
    exists k :: 0 <= k <= |s| - |w| && w <= s[k..]
  }

  /** Every joined item can be found in the joined string. */
  lemma {:induction false} JoinContainsEach(xs: seq<string>, sep: string, i: nat)
    requires i < |xs|
    ensures IsInfix(xs[i], Join(xs, sep))
  {
    var s := Join(xs, sep);
    if i == 0 {
      assert xs[0] <= s[0..];
    } else {
      JoinContainsEach(xs[1..], sep, i - 1);
      var rest := Join(xs[1..], sep);
      var k' :| 0 <= k' <= |rest| - |xs[1..][i - 1]| && xs[1..][i - 1] <= rest[k'..];
      var k := |xs[0]| + |sep| + k';
      assert s == xs[0] + sep + rest;
      assert s[k..] == rest[k'..];
      assert xs[i] <= s[k..];
    }
  }

  /** Text found in a suffix is found in the whole string. */
  lemma InfixOfSuffix(w: string, pre: string, s: string)
    requires IsInfix(w, s)
    ensures IsInfix(w, pre + s)
  {
    var k :| 0 <= k <= |s| - |w| && w <= s[k..];
    assert (pre + s)[|pre| + k..] == s[k..];
  }

  function DigitChar(d: nat): (c: char)
    requires d < 10
    ensures '0' <= c <= '9'
    ensures (c as int) - ('0' as int) == d
  {
    (('0' as int) + d) as char
  }

  predicate IsDigits(s: string) {
    forall i :: 0 <= i < |s| ==> '0' <= s[i] <= '9'
  }

  /** Decimal rendering of a natural number, as Python's `f"{n}"`. */
  function NatToString(n: nat): (r: string)
    ensures |r| >= 1 && IsDigits(r)
    ensures n > 0 ==> r[0] != '0'
    decreases n
  {
    if n < 10 then [DigitChar(n)] else NatToString(n / 10) + [DigitChar(n % 10)]
  }

  /** Reads a string of decimal digits back as a number. */
  function ParseDigits(s: string): nat
    requires IsDigits(s)
  {
    if |s| == 0 then 0
    else ParseDigits(s[..|s| - 1]) * 10 + ((s[|s| - 1] as int) - ('0' as int))
  }

  /** The rendering is faithful: reading it back gives the number. */
  lemma {:induction false} ParseNatToString(n: nat)
    ensures ParseDigits(NatToString(n)) == n
    decreases n
  {
    var r := NatToString(n);
    if n >= 10 {
      ParseNatToString(n / 10);
      assert r[..|r| - 1] == NatToString(n / 10);
    }
  }
}
