/** The JavaScript string built-ins the timing code relies on, for the
    values it applies them to: `Number.prototype.toString()` on integers,
    `String.prototype.padStart(2, '0')`, the regular-expression classes
    `\d` and `\s`, and `String.prototype.trim()`. A string is a sequence of
    characters; the decimal reading `DigitsValue` is the partner of
    `NatToDigits` and is what the round-trip lemmas are stated with. */
module JsString {

  /** The regular-expression class `\d`: ASCII digits only. */
  predicate IsDigit(c: char) {
    '0' <= c <= '9'
  }

  predicate AllDigits(s: string) {
    forall i :: 0 <= i < |s| ==> IsDigit(s[i])
  }

  /** The regular-expression class `\s`, which is also the set of
      characters `trim()` removes: the ECMAScript WhiteSpace and
      LineTerminator code points (tab, line feed, vertical tab, form feed,
      carriage return, space, no-break space, ogham space mark, the
      en quad to hair space block, line and paragraph separators, narrow
      no-break space, medium mathematical space, ideographic space and the
      byte order mark). */
  predicate IsSpace(c: char) {
    var k := c as int;
    || 0x09 <= k <= 0x0D
    || k == 0x20
    || k == 0xA0
    || k == 0x1680
    || 0x2000 <= k <= 0x200A
    || k == 0x2028
    || k == 0x2029
    || k == 0x202F
    || k == 0x205F
    || k == 0x3000
    || k == 0xFEFF
  }

  function DigitChar(d: int): (c: char)
    requires 0 <= d < 10
    ensures IsDigit(c)
  {
    ('0' as int + d) as char
  }

  function DigitVal(c: char): (d: int)
    requires IsDigit(c)
    ensures 0 <= d < 10
  {
    c as int - '0' as int
  }

  /** The decimal number a string of digits denotes, read left to right,
      leading zeros allowed. */
  function DigitsValue(s: string): (v: nat)
    requires AllDigits(s)
  {
    if s == [] then 0 else DigitsValue(s[..|s| - 1]) * 10 + DigitVal(s[|s| - 1])
  }

  /** `n.toString()` for a non-negative integer: its shortest decimal
      representation. One digit exactly below ten, at most two below one
      hundred. */
  function NatToDigits(n: nat): (s: string)
    ensures |s| >= 1 && AllDigits(s)
    ensures (|s| == 1) == (n < 10)
    ensures (|s| <= 2) == (n < 100)
    ensures DigitsValue(s) == n
    ensures |s| == 1 || s[0] != '0'
  {
    if n < 10 then [DigitChar(n)]
    else
      var prefix := NatToDigits(n / 10);
      var s := prefix + [DigitChar(n % 10)];
      assert s[..|s| - 1] == prefix;
      assert s[0] == prefix[0];
      s
  }

  /** `n.toString()` for any integer: a minus sign before the digits of a
      negative number. */
  function IntToString(n: int): (s: string)
    ensures n >= 0 ==> s == NatToDigits(n)
    ensures n < 0 ==> s == "-" + NatToDigits(-n)
  {
    if n < 0 then "-" + NatToDigits(-n) else NatToDigits(n)
  }

  function Zeros(k: nat): (z: string)
    ensures |z| == k
    ensures forall i :: 0 <= i < k ==> z[i] == '0'
  {
    seq(k, _ => '0')
  }

  /** `s.padStart(2, '0')`: zeros in front up to length two; a longer
      string is left as it is. */
  function PadStart2(s: string): (p: string)
    ensures |p| == if |s| >= 2 then |s| else 2
    ensures p[|p| - |s|..] == s
    ensures forall i :: 0 <= i < |p| - |s| ==> p[i] == '0'
  {
    if |s| >= 2 then s else Zeros(2 - |s|) + s
  }

  /** Zeros in front of a digit string change neither its digit-ness nor
      its value. */
  lemma {:induction false} LeadingZeros(k: nat, s: string)
    requires AllDigits(s)
    ensures AllDigits(Zeros(k) + s)
    ensures DigitsValue(Zeros(k) + s) == DigitsValue(s)
    decreases |s|, k
  {
    var zs := Zeros(k) + s;
    if s == [] {
      if k > 0 {
        assert zs[..|zs| - 1] == Zeros(k - 1);
        LeadingZeros(k - 1, s);
        assert Zeros(k - 1) + s == Zeros(k - 1);
      }
    } else {
      var init := s[..|s| - 1];
      assert zs[..|zs| - 1] == Zeros(k) + init;
      assert zs[|zs| - 1] == s[|s| - 1];
      LeadingZeros(k, init);
    }
  }

  /** A numeric field as both formatters render it:
      `n.toString().padStart(2, '0')`. */
  function Field2(n: int): string {
    PadStart2(IntToString(n))
  }

  /** A non-negative field renders as at least two digits denoting the
      number, and exactly two below one hundred. */
  lemma Field2Reads(n: nat)
    ensures AllDigits(Field2(n))
    ensures DigitsValue(Field2(n)) == n
    ensures |Field2(n)| >= 2
    ensures (|Field2(n)| == 2) == (n < 100)
  {
    var d := NatToDigits(n);
    if |d| < 2 {
      LeadingZeros(2 - |d|, d);
    }
  }

  /** The length of the leading run of `\s` characters. */
  function LeadingSpaces(s: string): (k: nat)
    ensures k <= |s|
    ensures forall i :: 0 <= i < k ==> IsSpace(s[i])
    ensures k == |s| || !IsSpace(s[k])
  {
    if s != [] && IsSpace(s[0]) then 1 + LeadingSpaces(s[1..]) else 0
  }

  /** The length of the trailing run of `\s` characters. */
  function TrailingSpaces(s: string): (k: nat)
    ensures k <= |s|
    ensures forall i :: |s| - k <= i < |s| ==> IsSpace(s[i])
    ensures k == |s| || !IsSpace(s[|s| - k - 1])
  {
    if s != [] && IsSpace(s[|s| - 1]) then 1 + TrailingSpaces(s[..|s| - 1]) else 0
  }

  /** `s.trim()`: the slice of `s` between its leading and trailing runs
      of `\s` characters, so every character outside the slice is `\s`
      and the slice neither starts nor ends with one. */
  function Trim(s: string): (r: string)
    ensures LeadingSpaces(s) + |r| <= |s|
    ensures r == s[LeadingSpaces(s)..LeadingSpaces(s) + |r|]
    ensures forall i :: LeadingSpaces(s) + |r| <= i < |s| ==> IsSpace(s[i])
    ensures r == [] || (!IsSpace(r[0]) && !IsSpace(r[|r| - 1]))
  {
    var t := s[LeadingSpaces(s)..];
    t[..|t| - TrailingSpaces(t)]
  }

  /** Trimming leaves nothing exactly when every character is `\s`. */
  lemma TrimEmpty(s: string)
    ensures Trim(s) == [] <==> forall i :: 0 <= i < |s| ==> IsSpace(s[i])
  {
  }
}
