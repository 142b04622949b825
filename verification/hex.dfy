/** Hexadecimal digit strings: Python's `int(s, 16)` on a string of hex digits
    and the `"%06X"` format that writes a value back as upper-case hex.
 */
module Hex {

  /** An ASCII hex digit, in either case. */
  predicate IsHexDigit(c: char) {
    ('0' <= c <= '9') || ('a' <= c <= 'f') || ('A' <= c <= 'F')
  }

  /** A hex digit as `%X` writes it. */
  predicate IsUpperHexDigit(c: char) {
    ('0' <= c <= '9') || ('A' <= c <= 'F')
  }

  predicate AllHex(s: string) {
    forall i :: 0 <= i < |s| ==> IsHexDigit(s[i])
  }

  predicate AllUpperHex(s: string) {
    forall i :: 0 <= i < |s| ==> IsUpperHexDigit(s[i])
  }

  function DigitValue(c: char): (v: nat)
    requires IsHexDigit(c)
    ensures v < 16
  {
    if '0' <= c <= '9' then c as int - '0' as int
    else if 'a' <= c <= 'f' then c as int - 'a' as int + 10
    else c as int - 'A' as int + 10
  }

  /** The digit `%X` prints for a value below sixteen. */
  function UpperDigit(v: nat): (c: char)
    requires v < 16
    ensures IsUpperHexDigit(c) && DigitValue(c) == v
  {
    if v < 10 then ('0' as int + v) as char else ('A' as int + v - 10) as char
  }

  /** Upper-case form of a hex digit; the value is unchanged. */
  function ToUpper(c: char): (u: char)
    requires IsHexDigit(c)
    ensures IsUpperHexDigit(u) && DigitValue(u) == DigitValue(c)
    ensures IsUpperHexDigit(c) ==> u == c
  {
    if 'a' <= c <= 'f' then (c as int - 32) as char else c
  }

  function UpperAll(s: string): (u: string)
    requires AllHex(s)
    ensures |u| == |s| && AllUpperHex(u)
    ensures forall i :: 0 <= i < |s| ==> u[i] == ToUpper(s[i])
  {
    seq(|s|, i requires 0 <= i < |s| => ToUpper(s[i]))
  }

  function Pow16(k: nat): (p: nat)
    ensures p >= 1
  {
    if k == 0 then 1 else 16 * Pow16(k - 1)
  }

  /** `int(s, 16)` for a string made only of hex digits (big-endian). */
  function Value(s: string): nat
    requires AllHex(s)
  {
    if |s| == 0 then 0 else Value(s[..|s| - 1]) * 16 + DigitValue(s[|s| - 1])
  }

  /** The shortest upper-case hex spelling of n: what `%X` prints. */
  function Digits(n: nat): (s: string)
    ensures 1 <= |s| && AllUpperHex(s) && AllHex(s)
    ensures Value(s) == n
    ensures |s| > 1 ==> s[0] != '0'
    decreases n
  {
    if n < 16 then [UpperDigit(n)]
    else
      var s := Digits(n / 16) + [UpperDigit(n % 16)];
      assert s[..|s| - 1] == Digits(n / 16);
      s
  }

  function Zeros(k: nat): (z: string)
    ensures |z| == k && AllUpperHex(z) && AllHex(z)
    ensures forall i :: 0 <= i < k ==> z[i] == '0'
  {
    seq(k, _ => '0')
  }

  /** `"%06X" % n`: upper-case hex, left-padded with zeros to at least six digits. */
  function Format06X(n: nat): (s: string)
    ensures |s| >= 6 && AllUpperHex(s) && AllHex(s)
    ensures Value(s) == n
    ensures n < 0x100_0000 ==> |s| == 6
    ensures |s| > 6 ==> s[0] != '0'
  {
    var d := Digits(n);
    SixDigitsSuffice(n);
    if |d| >= 6 then d
    else
      ZerosDoNotCount(6 - |d|, d);
      Zeros(6 - |d|) + d
  }

  // ---------------------------------------------------------------- lemmas

  /** Leading zeros do not change the value of a hex string. */
  lemma {:induction false} ZerosDoNotCount(k: nat, s: string)
    requires AllHex(s)
    ensures AllHex(Zeros(k) + s) && Value(Zeros(k) + s) == Value(s)
    decreases |s|
  {
    var t := Zeros(k) + s;
    assert AllHex(t) by {
      forall i | 0 <= i < |t| ensures IsHexDigit(t[i]) {
        if i < k { assert t[i] == '0'; } else { assert t[i] == s[i - k]; }
      }
    }
    if |s| == 0 {
      assert t == Zeros(k);
      ZerosAreZero(k);
    } else {
      var s' := s[..|s| - 1];
      assert t[..|t| - 1] == Zeros(k) + s';
      ZerosDoNotCount(k, s');
    }
  }

  lemma {:induction false} ZerosAreZero(k: nat)
    ensures Value(Zeros(k)) == 0
  {
    if k > 0 {
      assert Zeros(k)[..k - 1] == Zeros(k - 1);
      ZerosAreZero(k - 1);
    }
  }

  /** A string of k hex digits denotes a value below 16^k. */
  lemma {:induction false} ValueBound(s: string)
    requires AllHex(s)
    ensures Value(s) < Pow16(|s|)
  {
    if |s| > 0 {
      ValueBound(s[..|s| - 1]);
    }
  }

  /** The unpadded spelling needs no more digits than the value's range allows. */
  lemma {:induction false} DigitsLength(n: nat, k: nat)
    requires 1 <= k && n < Pow16(k)
    ensures |Digits(n)| <= k
    decreases n
  {
    if n >= 16 {
      assert k >= 2;
      DigitsLength(n / 16, k - 1);
    }
  }

  lemma SixDigitsSuffice(n: nat)
    ensures n < 0x100_0000 ==> |Digits(n)| <= 6
  {
    if n < 0x100_0000 {
      assert Pow16(6) == 0x100_0000;
      DigitsLength(n, 6);
    }
  }

  /** Upper-casing a hex string keeps its value. */
  lemma {:induction false} UpperKeepsValue(s: string)
    requires AllHex(s)
    ensures Value(UpperAll(s)) == Value(s)
  {
    if |s| > 0 {
      var s' := s[..|s| - 1];
      assert UpperAll(s)[..|s| - 1] == UpperAll(s');
      UpperKeepsValue(s');
    }
  }

  /** Two upper-case hex strings of the same length and value are the same string. */
  lemma {:induction false} UpperHexInjective(s: string, t: string)
    requires AllUpperHex(s) && AllUpperHex(t) && AllHex(s) && AllHex(t)
    requires |s| == |t| && Value(s) == Value(t)
    ensures s == t
  {
    if |s| > 0 {
      var n := |s| - 1;
      var a, b := s[n], t[n];
      LastDigit(Value(s[..n]), DigitValue(a));
      LastDigit(Value(t[..n]), DigitValue(b));
      UpperDigitInjective(a, b);
      UpperHexInjective(s[..n], t[..n]);
      assert s == s[..n] + [a] && t == t[..n] + [b];
    }
  }

  /** The last digit and the rest of a value are recovered by `% 16` and `/ 16`. */
  lemma LastDigit(q: nat, d: nat)
    requires d < 16
    ensures (q * 16 + d) % 16 == d && (q * 16 + d) / 16 == q
  {
  }

  lemma UpperDigitInjective(a: char, b: char)
    requires IsUpperHexDigit(a) && IsUpperHexDigit(b) && DigitValue(a) == DigitValue(b)
    ensures a == b
  {
  }

  /** Formatting a parsed six-digit string with `%06X` gives back the digits, upper-cased. */
  lemma SixDigitRoundTrip(s: string)
    requires |s| == 6 && AllHex(s)
    ensures Format06X(Value(s)) == UpperAll(s)
  {
    ValueBound(s);
    assert Pow16(6) == 0x100_0000;
    UpperKeepsValue(s);
    UpperHexInjective(Format06X(Value(s)), UpperAll(s));
  }

  /** Value of two digits: high digit times sixteen plus low digit. */
  lemma TwoDigits(s: string)
    requires |s| == 2 && AllHex(s)
    ensures Value(s) == DigitValue(s[0]) * 16 + DigitValue(s[1])
  {
    OneDigit(s[..1]);
    assert Value(s) == Value(s[..1]) * 16 + DigitValue(s[1]);
  }

  lemma OneDigit(s: string)
    requires |s| == 1 && AllHex(s)
    ensures Value(s) == DigitValue(s[0])
  {
    assert s[..0] == [];
    assert Value(s) == Value(s[..0]) * 16 + DigitValue(s[0]);
  }

  /** The value of a concatenation: the left part shifted by the right part's length. */
  lemma {:induction false} ValueConcat(a: string, b: string)
    requires AllHex(a) && AllHex(b)
    ensures AllHex(a + b) && Value(a + b) == Value(a) * Pow16(|b|) + Value(b)
    decreases |b|
  {
    var w := a + b;
    HexConcat(a, b);
    if |b| == 0 {
      assert w == a;
    } else {
      var b' := b[..|b| - 1];
      var d := DigitValue(b[|b| - 1]);
      assert w[..|w| - 1] == a + b';
      ValueConcat(a, b');
      assert Value(w) == Value(a + b') * 16 + d;
      Shift(Value(a), Pow16(|b'|), Value(b'), d);
    }
  }

  lemma HexConcat(a: string, b: string)
    requires AllHex(a) && AllHex(b)
    ensures AllHex(a + b)
  {
    var w := a + b;
    forall i | 0 <= i < |w| ensures IsHexDigit(w[i]) {
      if i < |a| { assert w[i] == a[i]; } else { assert w[i] == b[i - |a|]; }
    }
  }

  /** One more digit shifts the left part by one more place. */
  lemma Shift(x: nat, p: nat, y: nat, d: nat)
    ensures (x * p + y) * 16 + d == x * (16 * p) + (y * 16 + d)
  {
  }

  /** Value of six digits in terms of its three bytes, most significant first. */
  lemma SixDigitBytes(s: string)
    requires |s| == 6 && AllHex(s)
    ensures Value(s) == Value(s[..2]) * 65536 + Value(s[2..4]) * 256 + Value(s[4..])
    ensures Value(s[..2]) < 256 && Value(s[2..4]) < 256 && Value(s[4..]) < 256
  {
    var hi, mid, lo := s[..2], s[2..4], s[4..];
    assert Pow16(2) == 256;
    ValueBound(hi);
    ValueBound(mid);
    ValueBound(lo);
    ValueConcat(hi, mid);
    ValueConcat(hi + mid, lo);
    assert s == hi + mid + lo;
  }
}
