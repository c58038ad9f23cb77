/**
 * Number.parseInt(s, 10) as boardStateForNode uses it to read the SZ
 * property (app.js:473-477): leading white space, one optional sign, the
 * longest run of decimal digits.
 */
module ParseInt {
  import opened Wrappers
  import opened Sgf
  import opened PuzzleIndex

  /** The length of the run of decimal digits that starts s. */
  function DigitsEnd(s: string): (n: nat)
    ensures n <= |s|
    ensures forall k :: 0 <= k < n ==> IsDigit(s[k])
    ensures n < |s| ==> !IsDigit(s[n])
  {
    if s != [] && IsDigit(s[0]) then 1 + DigitsEnd(s[1..]) else 0
  }

  /** The number a run of decimal digits denotes. */
  function DigitsValue(ds: string): nat
    requires forall k :: 0 <= k < |ds| ==> IsDigit(ds[k])
  {
    if ds == [] then 0
    else 10 * DigitsValue(ds[..|ds| - 1]) + DigitValue(ds[|ds| - 1])
  }

  /**
   * Number.parseInt with radix 10: leading white space is skipped, one sign
   * is read, and the longest run of digits after it gives the value; with no
   * digit the result is NaN, here None.
   */
  function ParseIntPrefix(s: string): (r: Option<int>)
    ensures r.None? <==> DigitsEnd(Unsigned(s[WsEnd(s, 0)..])) == 0
  {
    SignedValue(s[WsEnd(s, 0)..])
  }

  /** parseInt of a text that does not start with white space. */
  function SignedValue(t: string): (r: Option<int>)
    ensures r.None? <==> DigitsEnd(Unsigned(t)) == 0
  {
    var u := Unsigned(t);
    var n := DigitsEnd(u);
    if n == 0 then None
    else
      var v: int := DigitsValue(u[..n]);
      if t[0] == '-' then Some(-v) else Some(v)
  }

  /** 2^53: every integer up to this size is exactly a double. */
  const ExactLimit: int := 0x20_0000_0000_0000

  /**
   * 2^1024 - 2^970, the least digit value that Number.parseInt turns into
   * Infinity: IEEE 754 binary64 rounding to nearest carries every value from
   * halfway between the largest finite double, (2 - 2^-52) * 2^1023, and
   * 2^1024 upward to Infinity.
   */
  const InfinityFrom: int :=
    0xffff_ffff_ffff_fc00_0000_0000_0000_0000_0000_0000_0000_0000_0000_0000_0000_0000_0000_0000_0000_0000_0000_0000_0000_0000_0000_0000_0000_0000_0000_0000_0000_0000_0000_0000_0000_0000_0000_0000_0000_0000_0000_0000_0000_0000_0000_0000_0000_0000_0000_0000_0000_0000_0000_0000_0000_0000_0000_0000_0000_0000_0000_0000_0000_0000

  /** The values whose parseInt result is a finite number. */
  predicate Finite(v: int) {
    -InfinityFrom < v < InfinityFrom
  }

  /** The text after one leading sign character, if there is one. */
  function Unsigned(t: string): (u: string)
    ensures |u| <= |t|
  {
    if t != [] && (t[0] == '-' || t[0] == '+') then t[1..] else t
  }

  lemma {:induction false} DecimalValue(n: nat)
    ensures DigitsValue(DecimalString(n)) == n
    decreases n
  {
    if n >= 10 {
      DecimalValue(n / 10);
      var s := DecimalString(n);
      assert s[..|s| - 1] == DecimalString(n / 10);
    }
  }

  lemma {:induction false} DigitsEndOfDigits(ds: string, rest: string)
    requires forall k :: 0 <= k < |ds| ==> IsDigit(ds[k])
    requires rest == [] || !IsDigit(rest[0])
    ensures DigitsEnd(ds + rest) == |ds|
  {
    if ds != [] {
      assert (ds + rest)[1..] == ds[1..] + rest;
      DigitsEndOfDigits(ds[1..], rest);
    }
  }

  /** A run of digits the scan stops after is made of digits. */
  lemma RunIsDigits(u: string, d: string)
    requires DigitsEnd(u) == |d| && u[..|d|] == d
    ensures forall k :: 0 <= k < |d| ==> IsDigit(d[k])
  {
    forall k | 0 <= k < |d|
      ensures IsDigit(d[k])
    {
      assert d[k] == u[k];
    }
  }

  /** Without leading white space, parseInt reads the text as it is. */
  lemma NoLeadingSpace(s: string)
    requires WsEnd(s, 0) == 0
    ensures ParseIntPrefix(s) == SignedValue(s)
  {
    assert s[WsEnd(s, 0)..] == s;
  }

  /** parseInt of a text that, after an optional sign, starts with the run of digits d. */
  lemma SignedDigits(t: string, d: string)
    requires t != [] && d != [] && DigitsEnd(Unsigned(t)) == |d| && Unsigned(t)[..|d|] == d
    ensures forall k :: 0 <= k < |d| ==> IsDigit(d[k])
    ensures SignedValue(t) == Some(if t[0] == '-' then -(DigitsValue(d) as int) else DigitsValue(d))
  {
    RunIsDigits(Unsigned(t), d);
  }

  /** A run of digits followed by a non-digit is read whole. */
  lemma DigitsRun(u: string, d: string, rest: string)
    requires forall k :: 0 <= k < |d| ==> IsDigit(d[k])
    requires rest == [] || !IsDigit(rest[0])
    requires u == d + rest
    ensures DigitsEnd(u) == |d| && u[..|d|] == d
  {
    DigitsEndOfDigits(d, rest);
  }

  /** A sign, or nothing, before a run that starts with a digit: no white space to skip, one sign to drop. */
  lemma SignedSpelling(sign: string, d: string, rest: string)
    requires sign == "" || sign == "-" || sign == "+"
    requires d != [] && IsDigit(d[0])
    ensures sign + d + rest != []
    ensures Unsigned(sign + d + rest) == d + rest
    ensures (sign + d + rest)[0] == '-' <==> sign == "-"
    ensures WsEnd(sign + d + rest, 0) == 0
  {
    var s := sign + d + rest;
    if sign == "" {
      assert s == d + rest;
    } else {
      assert s[1..] == d + rest;
    }
  }

  /** parseInt of the decimal spelling of n, after an optional sign and before a non-digit. */
  lemma ParseDecimal(sign: string, n: nat, rest: string)
    requires sign == "" || sign == "-" || sign == "+"
    requires rest == [] || !IsDigit(rest[0])
    ensures ParseIntPrefix(sign + DecimalString(n) + rest) == Some(if sign == "-" then -(n as int) else n)
  {
    var d := DecimalString(n);
    var s := sign + d + rest;
    DecimalValue(n);
    SignedSpelling(sign, d, rest);
    DigitsRun(d + rest, d, rest);
    NoLeadingSpace(s);
    SignedDigits(s, d);
  }

  /**
   * parseInt reads back the decimal spelling of a number, whatever follows
   * it that is not a digit, and whether it is written with a sign.
   */
  lemma ParseIntRoundTrip(n: nat, rest: string)
    requires rest == [] || !IsDigit(rest[0])
    ensures ParseIntPrefix(DecimalString(n) + rest) == Some(n)
    ensures ParseIntPrefix("-" + DecimalString(n) + rest) == Some(-(n as int))
    ensures ParseIntPrefix("+" + DecimalString(n) + rest) == Some(n)
  {
    ParseDecimal("", n, rest);
    assert "" + DecimalString(n) + rest == DecimalString(n) + rest;
    ParseDecimal("-", n, rest);
    ParseDecimal("+", n, rest);
  }
}
