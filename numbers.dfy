/**
  Machine integers and their decimal text: the 32-bit wrap-around of C#
  unchecked int arithmetic, BitConverter.ToUInt32, ToString() and
  ToString("D<n>"), and int.TryParse with NumberStyles.Integer.
 */
module Numbers {
  import opened Wrappers

  const Int32Min: int := -0x8000_0000
  const Int32Max: int := 0x7FFF_FFFF

  predicate IsInt32(x: int) {
    Int32Min <= x <= Int32Max
  }

  /** The value C# "unchecked" int arithmetic yields for the exact result x. */
  function Wrap32(x: int): (r: int)
    ensures IsInt32(r)
    ensures (r - x) % 0x1_0000_0000 == 0
    ensures IsInt32(x) ==> r == x
  {
    (x + 0x8000_0000) % 0x1_0000_0000 - 0x8000_0000
  }

  type byte = bv8

  /** BitConverter.ToUInt32 on a little-endian machine: four bytes, least significant first. */
  function UInt32LE(b0: byte, b1: byte, b2: byte, b3: byte): (u: nat)
    ensures u < 0x1_0000_0000
  {
    b0 as nat + 0x100 * b1 as nat + 0x1_0000 * b2 as nat + 0x100_0000 * b3 as nat
  }

  function Pow10(k: nat): (p: nat)
    ensures p >= 1
  {
    if k == 0 then 1 else 10 * Pow10(k - 1)
  }

  predicate IsDigit(c: char) {
    '0' <= c <= '9'
  }

  predicate AllDigits(s: string) {
    forall i :: 0 <= i < |s| ==> IsDigit(s[i])
  }

  function DigitChar(d: nat): (c: char)
    requires d < 10
    ensures IsDigit(c) && c as int - '0' as int == d
  {
    ('0' as int + d) as char
  }

  /** The number a string of decimal digits denotes (most significant digit first). */
  function DigitsValue(s: string): nat
    requires AllDigits(s)
    decreases |s|
  {
    if s == [] then 0 else DigitsValue(s[..|s| - 1]) * 10 + (s[|s| - 1] as int - '0' as int)
  }

  /** n.ToString() for n >= 0: the shortest decimal representation. */
  function Digits(n: nat): (r: string)
    ensures |r| >= 1 && AllDigits(r)
    decreases n
  {
    if n < 10 then [DigitChar(n)] else Digits(n / 10) + [DigitChar(n % 10)]
  }

  lemma {:induction false} DigitsValueOfDigits(n: nat)
    ensures DigitsValue(Digits(n)) == n
    decreases n
  {
    if n >= 10 {
      DigitsValueOfDigits(n / 10);
      var s := Digits(n / 10) + [DigitChar(n % 10)];
      assert s[..|s| - 1] == Digits(n / 10);
    }
  }

  lemma {:induction false} DigitsLength(n: nat, k: nat)
    requires 1 <= k && n < Pow10(k)
    ensures |Digits(n)| <= k
    decreases k
  {
    if n >= 10 {
      assert Pow10(k) == 10 * Pow10(k - 1);
      assert n / 10 < Pow10(k - 1);
      DigitsLength(n / 10, k - 1);
    }
  }

  function Zeros(k: nat): (r: string)
    ensures |r| == k && AllDigits(r)
  {
    if k == 0 then [] else ['0'] + Zeros(k - 1)
  }

  /** ToString("D<width>"): at least width digits, padded on the left with zeros. */
  function FormatD(n: nat, width: nat): (r: string)
    ensures AllDigits(r)
  {
    var d := Digits(n);
    if |d| >= width then d else Zeros(width - |d|) + d
  }

  lemma {:induction false} LeadingZeroValue(s: string)
    requires AllDigits(s)
    ensures AllDigits(['0'] + s) && DigitsValue(['0'] + s) == DigitsValue(s)
    decreases |s|
  {
    var t := ['0'] + s;
    if s != [] {
      assert t[..|t| - 1] == ['0'] + s[..|s| - 1];
      LeadingZeroValue(s[..|s| - 1]);
    }
  }

  lemma {:induction false} LeadingZerosValue(k: nat, s: string)
    requires AllDigits(s)
    ensures AllDigits(Zeros(k) + s) && DigitsValue(Zeros(k) + s) == DigitsValue(s)
    decreases k
  {
    if k > 0 {
      var x := Zeros(k - 1) + s;
      LeadingZerosValue(k - 1, s);
      assert Zeros(k) == ['0'] + Zeros(k - 1);
      assert Zeros(k) + s == ['0'] + x;
      LeadingZeroValue(x);
    } else {
      assert Zeros(k) + s == s;
    }
  }

  /** A number below 10^width prints, in "D<width>" format, as exactly width digits denoting it. */
  lemma FormatDExact(n: nat, width: nat)
    requires 1 <= width && n < Pow10(width)
    ensures |FormatD(n, width)| == width
    ensures DigitsValue(FormatD(n, width)) == n
  {
    DigitsLength(n, width);
    DigitsValueOfDigits(n);
    var d := Digits(n);
    if |d| < width {
      LeadingZerosValue(width - |d|, d);
    }
  }

  /** Int32.ToString() with the invariant culture. */
  function IntToString(n: int): (r: string)
    ensures |r| >= 1
  {
    if n < 0 then "-" + Digits(-n) else Digits(n)
  }

  /** The white space NumberStyles.AllowLeadingWhite and AllowTrailingWhite skip: U+0009..U+000D and U+0020. */
  predicate IsNumberWhite(c: char) {
    c == ' ' || '\t' <= c <= '\r'
  }

  function TrimStartWhite(s: string): (r: string)
    ensures |r| <= |s|
    ensures r != [] ==> !IsNumberWhite(r[0])
    ensures s != [] && !IsNumberWhite(s[0]) ==> r == s
  {
    if s != [] && IsNumberWhite(s[0]) then TrimStartWhite(s[1..]) else s
  }

  function TrimEndWhite(s: string): (r: string)
    ensures |r| <= |s|
    ensures s != [] && !IsNumberWhite(s[|s| - 1]) ==> r == s
  {
    if s != [] && IsNumberWhite(s[|s| - 1]) then TrimEndWhite(s[..|s| - 1]) else s
  }

  /**
    int.TryParse(s, out v): optional surrounding white space, an optional
    leading '+' or '-', then one or more decimal digits whose value fits in
    32 bits. None stands for TryParse returning false.
   */
  function ParseInt32(s: string): (r: Option<int>)
    ensures r.Some? ==> IsInt32(r.value)
  {
    var t := TrimEndWhite(TrimStartWhite(s));
    if t == [] then None
    else
      var body := if t[0] == '-' || t[0] == '+' then t[1..] else t;
      if body == [] || !AllDigits(body) then None
      else
        var magnitude: int := DigitsValue(body);
        var v := if t[0] == '-' then -magnitude else magnitude;
        if IsInt32(v) then Some(v) else None
  }

  /** Parsing what Int32.ToString() printed gives the number back. */
  lemma ParsePrinted(n: int)
    requires IsInt32(n)
    ensures ParseInt32(IntToString(n)) == Some(n)
  {
    var s := IntToString(n);
    var m: nat := if n < 0 then -n else n;
    var d := Digits(m);
    DigitsValueOfDigits(m);
    assert s[|s| - 1] == d[|d| - 1];
    assert !IsNumberWhite(s[0]);
    assert TrimStartWhite(s) == s;
    assert TrimEndWhite(s) == s;
    if n < 0 {
      assert s[1..] == d;
    }
  }
}
