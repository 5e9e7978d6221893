/** The parts of Go's strconv package the connector relies on: decimal
    formatting (`Itoa`, `%d`) and parsing (`Atoi`, `ParseInt`, `ParseUint`,
    `ParseBool`), base 10 only, for the bit sizes bind.go uses. */
module Strconv {
  import opened GoTypes

  predicate IsDigit(c: char) { '0' <= c <= '9' }

  predicate AllDigits(s: GoString) { forall i | 0 <= i < |s| :: IsDigit(s[i]) }

  function DigitChar(d: nat): (c: Byte)
    requires d < 10
    ensures IsDigit(c) && c as int - '0' as int == d
  {
    (d + '0' as int) as char
  }

  /** The number a run of decimal digits denotes. */
  function DigitsValue(s: GoString): nat
    requires AllDigits(s)
    decreases |s|
  {
    if s == [] then 0 else DigitsValue(s[..|s| - 1]) * 10 + (s[|s| - 1] as int - '0' as int)
  }

  /** The shortest decimal spelling of `n` (no leading zeros). */
  function NatToDigits(n: nat): (s: GoString)
    ensures AllDigits(s) && |s| > 0
  {
    if n < 10 then [DigitChar(n)] else NatToDigits(n / 10) + [DigitChar(n % 10)]
  }

  lemma {:induction false} DigitsValueOfNatToDigits(n: nat)
    ensures DigitsValue(NatToDigits(n)) == n
  {
    if n >= 10 {
      var s := NatToDigits(n);
      assert s[..|s| - 1] == NatToDigits(n / 10);
      DigitsValueOfNatToDigits(n / 10);
    }
  }

  /** `strconv.Itoa` and the `%d` verb of fmt. */
  function Itoa(n: int): (s: GoString)
    ensures |s| > 0
  {
    if n < 0 then "-" + NatToDigits(-n) else NatToDigits(n)
  }

  lemma ItoaShape(n: int)
    ensures n >= 0 ==> AllDigits(Itoa(n))
    ensures n < 0 ==> Itoa(n)[0] == '-' && AllDigits(Itoa(n)[1..])
  {
    if n < 0 { assert Itoa(n)[1..] == NatToDigits(-n); }
  }

  /** `%d` writes digits and at most a minus sign. */
  lemma ItoaChars(n: int)
    ensures forall k | 0 <= k < |Itoa(n)| :: IsDigit(Itoa(n)[k]) || Itoa(n)[k] == '-'
  {
    ItoaShape(n);
    if n < 0 {
      forall k | 1 <= k < |Itoa(n)| ensures IsDigit(Itoa(n)[k]) {
        assert Itoa(n)[k] == Itoa(n)[1..][k - 1];
      }
    }
  }

  /** Distinct numbers have distinct spellings. */
  lemma ItoaInjective(a: int, b: int)
    requires Itoa(a) == Itoa(b)
    ensures a == b
  {
    ItoaShape(a);
    ItoaShape(b);
    var da: nat := if a < 0 then -a else a;
    var db: nat := if b < 0 then -b else b;
    assert IsDigit(Itoa(a)[0]) == (a >= 0) && IsDigit(Itoa(b)[0]) == (b >= 0);
    if a < 0 { assert NatToDigits(da) == Itoa(a)[1..] == Itoa(b)[1..] == NatToDigits(db); }
    DigitsValueOfNatToDigits(da);
    DigitsValueOfNatToDigits(db);
  }

  /** 2^bits for the bit sizes the connector passes to strconv; 0 stands
      for the platform's 64-bit int. */
  function Limit(bits: nat): (p: nat)
    requires bits in {0, 8, 16, 32, 64}
    ensures p >= 256
  {
    if bits == 8 then 0x100
    else if bits == 16 then 0x1_0000
    else if bits == 32 then 0x1_0000_0000
    else 0x1_0000_0000_0000_0000
  }

  /** `strconv.ParseInt(s, 10, bits)`: an optional sign and at least one
      digit; out-of-range values come back clamped with ErrRange, syntax
      errors with 0. */
  function ParseInt(s: GoString, bits: nat): (r: Returned<int>)
    requires bits in {0, 8, 16, 32, 64}
    ensures r.err == None ==> -(Limit(bits) as int) / 2 <= r.value < Limit(bits) / 2
    ensures r.err == Some(ErrSyntax) ==> r.value == 0
  {
    var neg := |s| > 0 && s[0] == '-';
    var body := if |s| > 0 && (s[0] == '-' || s[0] == '+') then s[1..] else s;
    var half: int := Limit(bits) / 2;
    if body == [] || !AllDigits(body) then Returned(0, Some(ErrSyntax))
    else
      var v: int := DigitsValue(body);
      if !neg && v >= half then Returned(half - 1, Some(ErrRange))
      else if neg && v > half then Returned(-half, Some(ErrRange))
      else Returned(if neg then -v else v, None)
  }

  /** `strconv.ParseUint(s, 10, bits)`: digits only, no sign. */
  function ParseUint(s: GoString, bits: nat): (r: Returned<nat>)
    requires bits in {0, 8, 16, 32, 64}
    ensures r.err == None ==> r.value < Limit(bits)
    ensures r.err == Some(ErrSyntax) ==> r.value == 0
  {
    if s == [] || !AllDigits(s) then Returned(0, Some(ErrSyntax))
    else if DigitsValue(s) >= Limit(bits) then Returned(Limit(bits) - 1, Some(ErrRange))
    else Returned(DigitsValue(s), None)
  }

  /** `strconv.Atoi`, for a 64-bit int. */
  function Atoi(s: GoString): Returned<int> { ParseInt(s, 0) }

  /** `strconv.ParseBool`: the twelve spellings Go accepts. */
  function ParseBool(s: GoString): (r: Returned<bool>)
    ensures r.err == None ==> r.value == (s in {"1", "t", "T", "TRUE", "true", "True"})
    ensures r.err != None ==> !r.value
  {
    if s in {"1", "t", "T", "TRUE", "true", "True"} then Returned(true, None)
    else if s in {"0", "f", "F", "FALSE", "false", "False"} then Returned(false, None)
    else Returned(false, Some(ErrSyntax))
  }

  const MinInt64: int := -0x8000_0000_0000_0000
  const MaxInt64: int := 0x7FFF_FFFF_FFFF_FFFF

  /** Formatting a 64-bit int with `%d` and parsing it back with Atoi is
      the identity. */
  lemma AtoiItoa(n: int)
    requires MinInt64 <= n <= MaxInt64
    ensures Atoi(Itoa(n)) == Returned(n, None)
  {
    var s := Itoa(n);
    var m: nat := if n < 0 then -n else n;
    var body := if n < 0 then s[1..] else s;
    assert body == NatToDigits(m);
    assert s[0] == '-' <==> n < 0;
    assert s[0] != '+';
    DigitsValueOfNatToDigits(m);
    assert Limit(0) / 2 == MaxInt64 + 1;
  }

  /** Atoi on a run of digits yields its decimal value when it fits. */
  lemma AtoiDigits(s: GoString)
    requires s != [] && AllDigits(s) && DigitsValue(s) <= MaxInt64
    ensures Atoi(s) == Returned(DigitsValue(s), None)
  {
  }
}
