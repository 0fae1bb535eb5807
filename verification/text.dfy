/** Character-level helpers the firmware leans on: the byte-to-character copy of
    an inbound payload, Arduino `String::trim`, and decimal formatting of an
    `int` (`String(a)` and `%d`) together with a parser that inverts it. */
module Text {

  /** One octet of an inbound MQTT payload. */
  newtype byte = x: int | 0 <= x < 256

  datatype Option<+T> = None | Some(value: T)

  // ---------------------------------------------------------------------------
  // Payload bytes to text

  /** `(char)b`: the character whose code is the byte's value. */
  function ByteChar(b: byte): (c: char)
    ensures c as int == b as int
  {
    (b as int) as char
  }

  /** Reference reading of a payload as text, one character per byte. */
  function PayloadText(p: seq<byte>): seq<char>
  {
    seq(|p|, i requires 0 <= i < |p| => ByteChar(p[i]))
  }

  /** A string whose characters all fit in a byte. */
  predicate IsNarrow(s: string)
  {
    forall i :: 0 <= i < |s| ==> s[i] as int < 256
  }

  /** The payload bytes a publisher sends for the text `s`. */
  function NarrowBytes(s: string): (p: seq<byte>)
    requires IsNarrow(s)
    ensures |p| == |s|
  {
    seq(|s|, i requires 0 <= i < |s| => s[i] as int as byte)
  }

  /** Reading back the bytes of a narrow string gives that string. */
  lemma PayloadTextOfNarrowBytes(s: string)
    requires IsNarrow(s)
    ensures PayloadText(NarrowBytes(s)) == s
  {
  }

  /** The copy loop of the callback: `msg += (char)payload[i]` for each byte. */
  method CopyPayload(payload: seq<byte>) returns (msg: string)
    ensures |msg| == |payload|
    ensures forall k :: 0 <= k < |payload| ==> msg[k] as int == payload[k] as int
    ensures msg == PayloadText(payload)
  {
    msg := "";
    var i := 0;
    while i < |payload|
      invariant 0 <= i <= |payload|
      invariant |msg| == i
      invariant forall k :: 0 <= k < i ==> msg[k] == ByteChar(payload[k])
    {
      msg := msg + [ByteChar(payload[i])];
      i := i + 1;
    }
  }

  // ---------------------------------------------------------------------------
  // Trimming

  /** C `isspace` in the "C" locale: space, tab, line feed, vertical tab,
      form feed and carriage return. */
  const Spaces: set<char> := {' ', '\t', '\n', '\U{000B}', '\U{000C}', '\r'}

  predicate IsSpace(c: char)
  {
    c in Spaces
  }

  predicate AllSpace(s: string)
  {
    forall i :: 0 <= i < |s| ==> IsSpace(s[i])
  }

  /** Neither end of `s` is white space. */
  predicate NoEdgeSpace(s: string)
  {
    s == [] || (!IsSpace(s[0]) && !IsSpace(s[|s| - 1]))
  }

  /** Number of white-space characters at the front of `s`: where the
      forward scan of `String::trim` stops. */
  function LeadingSpaces(s: string): (n: nat)
    ensures n <= |s|
    ensures forall k :: 0 <= k < n ==> IsSpace(s[k])
    ensures n < |s| ==> !IsSpace(s[n])
  {
    if |s| > 0 && IsSpace(s[0]) then 1 + LeadingSpaces(s[1..]) else 0
  }

  /** Where the backward scan of `String::trim` stops: it walks down from
      `hi` over white space but never below `lo`. */
  function TrailingEnd(s: string, lo: nat, hi: nat): (n: nat)
    requires lo <= hi <= |s|
    ensures lo <= n <= hi
    ensures forall k :: n <= k < hi ==> IsSpace(s[k])
    ensures n > lo ==> !IsSpace(s[n - 1])
    decreases hi
  {
    if hi > lo && IsSpace(s[hi - 1]) then TrailingEnd(s, lo, hi - 1) else hi
  }

  /** Arduino `String::trim`: white space removed from both ends. */
  function Trim(s: string): (r: string)
    ensures NoEdgeSpace(r)
    ensures r == [] <==> AllSpace(s)
    ensures var i := LeadingSpaces(s);
      i + |r| <= |s| && r == s[i..i + |r|] && AllSpace(s[..i]) && AllSpace(s[i + |r|..])
  {
    var i := LeadingSpaces(s);
    var j := TrailingEnd(s, i, |s|);
    assert AllSpace(s[..i]);
    assert AllSpace(s[j..]);
    s[i..j]
  }

  /** Trimming white space, then `r`, then white space gives `r` back whenever
      `r` has no white space at its ends: the characterisation of `Trim`. */
  lemma TrimPadded(a: string, r: string, b: string)
    requires AllSpace(a) && AllSpace(b)
    requires NoEdgeSpace(r)
    ensures Trim(a + r + b) == r
  {
    var s := a + r + b;
    if r == [] {
      forall k | 0 <= k < |s|
        ensures IsSpace(s[k])
      {
        if k < |a| { assert s[k] == a[k]; } else { assert s[k] == b[k - |a|]; }
      }
    } else {
      var i := LeadingSpaces(s);
      assert s[|a|] == r[0];
      assert i == |a|;
      var j := TrailingEnd(s, i, |s|);
      assert s[|a| + |r| - 1] == r[|r| - 1];
      assert j == |a| + |r|;
      assert s[i..j] == r;
    }
  }

  /** Trimming twice is trimming once. */
  lemma TrimIdempotent(s: string)
    ensures Trim(Trim(s)) == Trim(s)
  {
  }

  // ---------------------------------------------------------------------------
  // Decimal formatting

  predicate IsDigit(c: char)
  {
    '0' <= c <= '9'
  }

  predicate AllDigits(s: string)
  {
    forall i :: 0 <= i < |s| ==> IsDigit(s[i])
  }

  function DigitValue(c: char): (d: nat)
    requires IsDigit(c)
    ensures d < 10
  {
    c as int - '0' as int
  }

  function DigitChar(d: nat): (c: char)
    requires d < 10
    ensures IsDigit(c) && DigitValue(c) == d
  {
    ('0' as int + d) as char
  }

  /** A digit string in canonical form: non-empty, no leading zero unless it
      is the single digit zero. */
  predicate IsCanonical(s: string)
  {
    |s| >= 1 && AllDigits(s) && (s[0] == '0' ==> |s| == 1)
  }

  /** Decimal digits of a natural number, most significant first. */
  function NatToDecimal(n: nat): (s: string)
    ensures IsCanonical(s)
    ensures s[0] == '0' <==> n == 0
    decreases n
  {
    if n < 10 then [DigitChar(n)] else NatToDecimal(n / 10) + [DigitChar(n % 10)]
  }

  /** `String(n)` / `printf("%d", n)`: a minus sign for negatives, then digits. */
  function IntToDecimal(n: int): (s: string)
    ensures |s| >= 1
    ensures s[0] == '-' <==> n < 0
    ensures n >= 0 ==> IsCanonical(s)
  {
    if n < 0 then "-" + NatToDecimal(-n) else NatToDecimal(n)
  }

  /** The value of a digit string read in base ten. */
  function DigitsValue(s: string): nat
    requires AllDigits(s)
  {
    if s == [] then 0 else 10 * DigitsValue(s[..|s| - 1]) + DigitValue(s[|s| - 1])
  }

  /** Reads back what `IntToDecimal` writes; anything else is `None`. */
  function ParseInt(s: string): Option<int>
  {
    if |s| >= 2 && s[0] == '-' && IsCanonical(s[1..]) && s[1] != '0' then
      var v: int := DigitsValue(s[1..]); Some(-v)
    else if IsCanonical(s) then
      Some(DigitsValue(s))
    else
      None
  }

  lemma {:induction false} NatToDecimalRoundTrip(n: nat)
    ensures DigitsValue(NatToDecimal(n)) == n
    decreases n
  {
    var s := NatToDecimal(n);
    if n >= 10 {
      NatToDecimalRoundTrip(n / 10);
      assert s[..|s| - 1] == NatToDecimal(n / 10);
    }
  }

  lemma {:induction false} LeadingDigitPositive(s: string)
    requires IsCanonical(s) && s[0] != '0'
    ensures DigitsValue(s) >= 1
    decreases |s|
  {
    if |s| > 1 {
      LeadingDigitPositive(s[..|s| - 1]);
    }
  }

  /** Every canonical digit string is what `NatToDecimal` writes for its value. */
  lemma {:induction false} CanonicalIsNatToDecimal(s: string)
    requires IsCanonical(s)
    ensures NatToDecimal(DigitsValue(s)) == s
    decreases |s|
  {
    if |s| > 1 {
      var p := s[..|s| - 1];
      var d := DigitValue(s[|s| - 1]);
      LeadingDigitPositive(p);
      CanonicalIsNatToDecimal(p);
      var v := DigitsValue(s);
      assert v == 10 * DigitsValue(p) + d;
      assert v / 10 == DigitsValue(p) && v % 10 == d;
      assert DigitChar(d) == s[|s| - 1];
      assert s == p + [s[|s| - 1]];
    }
  }

  /** Formatting then parsing gives the number back. */
  lemma IntToDecimalRoundTrip(n: int)
    ensures ParseInt(IntToDecimal(n)) == Some(n)
  {
    if n < 0 {
      var t := NatToDecimal(-n);
      assert IntToDecimal(n)[1..] == t;
      NatToDecimalRoundTrip(-n);
    } else {
      NatToDecimalRoundTrip(n);
    }
  }

  /** Whatever `ParseInt` accepts is exactly the formatting of its result. */
  lemma ParseIntIsCanonical(s: string, n: int)
    requires ParseInt(s) == Some(n)
    ensures IntToDecimal(n) == s
  {
    if |s| >= 2 && s[0] == '-' && IsCanonical(s[1..]) && s[1] != '0' {
      LeadingDigitPositive(s[1..]);
      CanonicalIsNatToDecimal(s[1..]);
      assert s == "-" + s[1..];
    } else {
      CanonicalIsNatToDecimal(s);
    }
  }

  function Pow10(k: nat): (p: nat)
    ensures p >= 1
  {
    if k == 0 then 1 else 10 * Pow10(k - 1)
  }

  /** A number below 10^k takes at most k digits. */
  lemma {:induction false} NatToDecimalLength(n: nat, k: nat)
    requires 1 <= k && n < Pow10(k)
    ensures |NatToDecimal(n)| <= k
    decreases k
  {
    if n >= 10 {
      NatToDecimalLength(n / 10, k - 1);
    }
  }
}
