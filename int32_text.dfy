/** Decimal text to 32-bit integer, as .NET's `int.Parse` / `int.TryParse`
    read it with the default integer style: optional white space around an
    optional sign and one or more ASCII digits, and a value that fits in
    Int32. A null string never parses. */
module Int32Text {
  import opened Events

  const MinInt32: int := -0x8000_0000
  const MaxInt32: int := 0x7FFF_FFFF

  /** The white space the integer style allows around the number. */
  predicate IsWhite(c: char) {
    c == ' ' || ('\t' <= c <= '\r')
  }

  predicate IsDigit(c: char) {
    '0' <= c <= '9'
  }

  predicate AllDigits(d: string) {
    forall i | 0 <= i < |d| :: IsDigit(d[i])
  }

  function TrimStart(s: string): (r: string)
    ensures |r| <= |s| && r == s[|s| - |r|..]
    ensures r == [] || !IsWhite(r[0])
    ensures forall i | 0 <= i < |s| - |r| :: IsWhite(s[i])
  {
    if s != [] && IsWhite(s[0]) then TrimStart(s[1..]) else s
  }

  function TrimEnd(s: string): (r: string)
    ensures |r| <= |s| && r == s[..|r|]
    ensures r == [] || !IsWhite(r[|r| - 1])
    ensures forall i | |r| <= i < |s| :: IsWhite(s[i])
  {
    if s != [] && IsWhite(s[|s| - 1]) then TrimEnd(s[..|s| - 1]) else s
  }

  /** The number a string of decimal digits denotes. */
  function DigitsValue(d: string): nat
    requires AllDigits(d)
  {
    if d == [] then 0 else DigitsValue(d[..|d| - 1]) * 10 + (d[|d| - 1] - '0') as int
  }

  /** The integer a message denotes, or None where `int.Parse` throws and `int.TryParse` fails. */
  function ParseInt32(s: Option<string>): (r: Option<int>)
    ensures r.Some? ==> MinInt32 <= r.value <= MaxInt32
  {
    if s.None? then None else ParseTrimmed(TrimEnd(TrimStart(s.value)))
  }

  /** An optional sign and one or more digits, within range. */
  function ParseTrimmed(t: string): (r: Option<int>)
    ensures r.Some? ==> MinInt32 <= r.value <= MaxInt32
  {
    var signed := |t| > 0 && (t[0] == '-' || t[0] == '+');
    var body := if signed then t[1..] else t;
    if body == [] || !AllDigits(body) then None
    else
      var v: int := if signed && t[0] == '-' then -(DigitsValue(body) as int) else DigitsValue(body);
      if MinInt32 <= v <= MaxInt32 then Some(v) else None
  }

  /** The digits of a natural number, most significant first, without leading zeros. */
  function NatText(m: nat): (d: string)
    ensures |d| > 0 && AllDigits(d)
    decreases m
  {
    var c := ('0' as int + m % 10) as char;
    if m < 10 then [c] else NatText(m / 10) + [c]
  }

  /** `n.ToString()` for an Int32: a minus sign for negative numbers, then the digits. */
  function DecimalText(n: int): string {
    if n < 0 then ['-'] + NatText(-n) else NatText(n)
  }

  lemma {:induction false} NatTextValue(m: nat)
    ensures DigitsValue(NatText(m)) == m
    decreases m
  {
    var c := ('0' as int + m % 10) as char;
    if m >= 10 {
      NatTextValue(m / 10);
      var d := NatText(m / 10) + [c];
      assert d[..|d| - 1] == NatText(m / 10);
    }
  }

  /** Parsing what `ToString` prints gives back the number: the native side's
      decimal codes are read back exactly. */
  lemma {:induction false} ParseDecimalText(n: int)
    requires MinInt32 <= n <= MaxInt32
    ensures ParseInt32(Some(DecimalText(n))) == Some(n)
  {
    var m: nat := if n < 0 then -n else n;
    var d := NatText(m);
    NatTextValue(m);
    assert IsDigit(d[0]) && IsDigit(d[|d| - 1]);
    if n < 0 {
      var s := ['-'] + d;
      assert s == DecimalText(n);
      TrimUntouched(s);
      assert s[1..] == d;
      ParseSigned(s, d);
    } else {
      assert d == DecimalText(n);
      TrimUntouched(d);
      assert d[0] != '-' && d[0] != '+';
    }
  }

  lemma ParseSigned(s: string, d: string)
    requires |s| > 0 && s[0] == '-' && s[1..] == d && d != [] && AllDigits(d)
    requires DigitsValue(d) <= -MinInt32
    ensures ParseTrimmed(s) == Some(-(DigitsValue(d) as int))
  {
  }

  lemma TrimUntouched(s: string)
    requires s != [] && !IsWhite(s[0]) && !IsWhite(s[|s| - 1])
    ensures TrimEnd(TrimStart(s)) == s
  {
  }

  /** A message with no digit at all (a null or empty string among them) never parses. */
  lemma NoDigitsNoNumber(s: Option<string>)
    requires s.None? || forall k | 0 <= k < |s.value| :: !IsDigit(s.value[k])
    ensures ParseInt32(s).None?
  {
    if s.Some? {
      var a := TrimStart(s.value);
      var t := TrimEnd(a);
      assert forall i | 0 <= i < |a| :: a[i] == s.value[|s.value| - |a| + i];
      assert forall i | 0 <= i < |t| :: t[i] == a[i];
      if |t| > 1 {
        assert !IsDigit(t[0]) && !IsDigit(t[1]);
      } else if |t| == 1 {
        assert !IsDigit(t[0]);
      }
    }
  }
}
