/** Numbers of JSON: json_lex_number, from the text of a literal to a 64-bit integer or the
    decision that it is a real. */
module JsonNumber {
  import opened Bytes

  const ULLONG_SPAN: nat := 0x1_0000_0000_0000_0000
  const LIMIT: nat := 1844674407370955161           // (ULLONG_SPAN - 1) / 10
  const LLONG_MAX: nat := 0x7fff_ffff_ffff_ffff
  const INT_MAX: int := 0x7fff_ffff
  const INT_MIN: int := -0x8000_0000

  newtype uint64 = x: int | 0 <= x <= 0xffff_ffff_ffff_ffff
  newtype int32 = x: int | -0x8000_0000 <= x <= 0x7fff_ffff

  datatype NumberError =
    | LeadingZeros
    | MinusNeedsDigit
    | PointNeedsDigit
    | ExponentNeedsDigit
    | BadExponent
    | NumberSyntax

  /** What json_lex_number makes of its buffer.  The value of a real is left to strtod. */
  datatype Number = NumBad(error: NumberError) | NumInteger(n: int) | NumReal

  predicate IsDigit(c: Byte) { '0' <= c <= '9' }

  function DigitOf(c: Byte): (d: nat)
    requires IsDigit(c)
    ensures d < 10
  {
    c as int - '0' as int
  }

  ghost predicate AllDigits(s: Bytes) {
    forall i :: 0 <= i < |s| ==> IsDigit(s[i])
  }

  /** The length of the run of digits that `s` starts with. */
  function Run(s: Bytes): (k: nat)
    ensures k <= |s| && AllDigits(s[..k])
    ensures k < |s| ==> !IsDigit(s[k])
  {
    if s == [] || !IsDigit(s[0]) then 0 else 1 + Run(s[1..])
  }

  /** The number that a run of digits spells. */
  ghost function Digits(s: Bytes): nat
    requires AllDigits(s)
  {
    if s == [] then 0 else 10 * Digits(s[..|s| - 1]) + DigitOf(s[|s| - 1])
  }

  // ----- the accumulator

  /** significand, pow10 and imprecise. */
  datatype Acc = Acc(sig: nat, pow10: int, imprecise: bool)

  /** One digit before the decimal point; the product wraps at 2^64. */
  function WholeDigit(a: Acc, d: nat): Acc {
    if a.sig <= LIMIT then Acc((a.sig * 10 + d) % ULLONG_SPAN, a.pow10, a.imprecise)
    else Acc(a.sig, a.pow10 + 1, a.imprecise || d != 0)
  }

  /** One digit behind it. */
  function FractionDigit(a: Acc, d: nat): Acc {
    if a.sig <= LIMIT then Acc((a.sig * 10 + d) % ULLONG_SPAN, a.pow10 - 1, a.imprecise)
    else Acc(a.sig, a.pow10, a.imprecise || d != 0)
  }

  function WholeDigits(s: Bytes): Acc
    requires AllDigits(s)
  {
    if s == [] then Acc(0, 0, false)
    else WholeDigit(WholeDigits(s[..|s| - 1]), DigitOf(s[|s| - 1]))
  }

  function FractionDigits(a: Acc, s: Bytes): Acc
    requires AllDigits(s)
  {
    if s == [] then a
    else FractionDigit(FractionDigits(a, s[..|s| - 1]), DigitOf(s[|s| - 1]))
  }

  // ----- the exponent

  /** The loop over the exponent's digits; None is the jump to bad_exponent. */
  function ExponentDigits(s: Bytes): Option<nat>
    requires AllDigits(s)
  {
    if s == [] then Some(0)
    else
      var e := ExponentDigits(s[..|s| - 1]);
      if e.None? || e.value >= INT_MAX / 10 then None
      else Some(e.value * 10 + DigitOf(s[|s| - 1]))
  }

  /** Adding the exponent to pow10, with the two guards. */
  function AddExponent(a: Acc, negative: bool, exponent: nat): Option<Acc> {
    if negative then
      if a.pow10 < INT_MIN + exponent then None else Some(a.(pow10 := a.pow10 - exponent))
    else
      if a.pow10 > INT_MAX - exponent then None else Some(a.(pow10 := a.pow10 + exponent))
  }

  // ----- the verdict

  function ScaleUp(a: Acc): Acc
    decreases a.pow10
  {
    if a.pow10 > 0 && a.sig < LIMIT then ScaleUp(a.(sig := a.sig * 10, pow10 := a.pow10 - 1)) else a
  }

  function ScaleDown(a: Acc): Acc
    decreases -a.pow10
  {
    if a.pow10 < 0 && a.sig % 10 == 0 then ScaleDown(a.(sig := a.sig / 10, pow10 := a.pow10 + 1)) else a
  }

  function Largest(negative: bool): nat { if negative then LLONG_MAX + 1 else LLONG_MAX }

  /** From the accumulator to the token. */
  function Classify(negative: bool, a: Acc): Number {
    if a.sig == 0 then NumInteger(0)
    else if a.imprecise then NumReal
    else
      var b := ScaleDown(ScaleUp(a));
      if b.pow10 == 0 && b.sig <= Largest(negative) then NumInteger(if negative then -(b.sig as int) else b.sig as int)
      else NumReal
  }

  // ----- the scanner

  function ScanNumber(s: Bytes): Number {
    if s != [] && s[0] == '-' then ScanWhole(true, s[1..]) else ScanWhole(false, s)
  }

  function ScanWhole(negative: bool, s: Bytes): Number {
    var k := Run(s);
    if k == 0 then NumBad(MinusNeedsDigit)
    else if s[0] == '0' && k > 1 then NumBad(LeadingZeros)
    else ScanFraction(negative, WholeDigits(s[..k]), s[k..])
  }

  function ScanFraction(negative: bool, a: Acc, s: Bytes): Number {
    if s != [] && s[0] == '.' then
      var k := Run(s[1..]);
      if k == 0 then NumBad(PointNeedsDigit)
      else ScanExponent(negative, FractionDigits(a, s[1..][..k]), s[1..][k..])
    else ScanExponent(negative, a, s)
  }

  function ScanExponent(negative: bool, a: Acc, s: Bytes): Number {
    if s != [] && (s[0] == 'e' || s[0] == 'E') then
      if |s| > 1 && s[1] == '+' then ScanExponentDigits(negative, a, false, s[2..])
      else if |s| > 1 && s[1] == '-' then ScanExponentDigits(negative, a, true, s[2..])
      else ScanExponentDigits(negative, a, false, s[1..])
    else ScanEnd(negative, a, s)
  }

  function ScanExponentDigits(negative: bool, a: Acc, negativeExponent: bool, s: Bytes): Number {
    var k := Run(s);
    if k == 0 then NumBad(ExponentNeedsDigit)
    else
      var e := ExponentDigits(s[..k]);
      if e.None? then NumBad(BadExponent)
      else
        var b := AddExponent(a, negativeExponent, e.value);
        if b.None? then NumBad(BadExponent) else ScanEnd(negative, b.value, s[k..])
  }

  function ScanEnd(negative: bool, a: Acc, s: Bytes): Number {
    if s != [] then NumBad(NumberSyntax) else Classify(negative, a)
  }

  /** json_lex_number, the loop over the digits before the point.  The machine types here and
      below show that no step on the significand or the exponent overflows, apart from the
      wrapping product, which is written out. */
  method LexWhole(buffer: Bytes, start: nat) returns (cp: nat, significand: uint64, pow10: int, imprecise: bool)
    requires start < |buffer| && IsDigit(buffer[start])
    ensures cp == start + Run(buffer[start..])
    ensures Acc(significand as nat, pow10, imprecise) == WholeDigits(buffer[start..][..cp - start])
    ensures 0 <= pow10 <= cp - start
  {
    ghost var s := buffer[start..];
    cp, significand, pow10, imprecise := start, 0, 0, false;
    var more := true;
    while more
      invariant start <= cp <= |buffer|
      invariant more ==> cp < |buffer| && IsDigit(buffer[cp])
      invariant !more ==> cp < |buffer| ==> !IsDigit(buffer[cp])
      invariant AllDigits(s[..cp - start])
      invariant Acc(significand as nat, pow10, imprecise) == WholeDigits(s[..cp - start])
      invariant 0 <= pow10 <= cp - start
      decreases |buffer| - cp, more
    {
      var d := DigitOf(buffer[cp]);
      assert s[..cp + 1 - start][..cp - start] == s[..cp - start];
      if significand <= 0xffff_ffff_ffff_ffff / 10 {
        significand := ((significand as int * 10 + d) % ULLONG_SPAN) as uint64;
      } else {
        pow10 := pow10 + 1;
        if d != 0 {
          imprecise := true;
        }
      }
      cp := cp + 1;
      more := cp < |buffer| && IsDigit(buffer[cp]);
    }
    RunIs(s, cp - start);
  }

  /** json_lex_number, the loop over the digits behind the point. */
  method LexFraction(buffer: Bytes, start: nat, ghost a: Acc, significand0: uint64, pow0: int, imprecise0: bool)
    returns (cp: nat, significand: uint64, pow10: int, imprecise: bool)
    requires start < |buffer| && IsDigit(buffer[start])
    requires a == Acc(significand0 as nat, pow0, imprecise0)
    ensures cp == start + Run(buffer[start..])
    ensures Acc(significand as nat, pow10, imprecise) == FractionDigits(a, buffer[start..][..cp - start])
    ensures pow0 - (cp - start) <= pow10 <= pow0
  {
    ghost var s := buffer[start..];
    cp, significand, pow10, imprecise := start, significand0, pow0, imprecise0;
    var more := true;
    while more
      invariant start <= cp <= |buffer|
      invariant more ==> cp < |buffer| && IsDigit(buffer[cp])
      invariant !more ==> cp < |buffer| ==> !IsDigit(buffer[cp])
      invariant AllDigits(s[..cp - start])
      invariant Acc(significand as nat, pow10, imprecise) == FractionDigits(a, s[..cp - start])
      invariant pow0 - (cp - start) <= pow10 <= pow0
      decreases |buffer| - cp, more
    {
      var d := DigitOf(buffer[cp]);
      assert s[..cp + 1 - start][..cp - start] == s[..cp - start];
      if significand <= 0xffff_ffff_ffff_ffff / 10 {
        significand := ((significand as int * 10 + d) % ULLONG_SPAN) as uint64;
        pow10 := pow10 - 1;
      } else if d != 0 {
        imprecise := true;
      }
      cp := cp + 1;
      more := cp < |buffer| && IsDigit(buffer[cp]);
    }
    RunIs(s, cp - start);
  }

  /** json_lex_number, the loop over the digits of the exponent; `!ok` is bad_exponent. */
  method LexExponent(buffer: Bytes, start: nat) returns (cp: nat, exponent: int32, ok: bool)
    requires start < |buffer| && IsDigit(buffer[start])
    ensures ok ==> cp == start + Run(buffer[start..]) && exponent >= 0
    ensures ExponentDigits(buffer[start..][..Run(buffer[start..])])
         == if ok && exponent >= 0 then Some(exponent as nat) else None
  {
    ghost var s := buffer[start..];
    cp, exponent, ok := start, 0, true;
    var more := true;
    while more
      invariant start <= cp <= |buffer|
      invariant more ==> cp < |buffer| && IsDigit(buffer[cp])
      invariant !more ==> cp < |buffer| ==> !IsDigit(buffer[cp])
      invariant AllDigits(s[..cp - start])
      invariant exponent >= 0 && ExponentDigits(s[..cp - start]) == Some(exponent as nat)
      decreases |buffer| - cp, more
    {
      ghost var t := s[..cp + 1 - start];
      assert t[..|t| - 1] == s[..cp - start] && t[|t| - 1] == buffer[cp];
      assert AllDigits(t);
      if exponent >= 0x7fff_ffff / 10 {
        ExponentStaysBad(s, cp + 1 - start);
        ok := false;
        return;
      }
      exponent := exponent * 10 + DigitOf(buffer[cp]) as int32;
      cp := cp + 1;
      more := cp < |buffer| && IsDigit(buffer[cp]);
    }
    RunIs(s, cp - start);
  }

  /** json_lex_number, from the accumulator to the token. */
  method Figure(negative: bool, significand0: uint64, pow0: int, imprecise: bool) returns (r: Number)
    ensures r == Classify(negative, Acc(significand0 as nat, pow0, imprecise))
  {
    var significand, pow10 := significand0, pow0;
    if significand == 0 {
      return NumInteger(0);
    }
    if !imprecise {
      ghost var a := Acc(significand as nat, pow10, false);
      while pow10 > 0 && significand < 0xffff_ffff_ffff_ffff / 10
        invariant ScaleUp(Acc(significand as nat, pow10, false)) == ScaleUp(a)
      {
        significand := significand * 10;
        pow10 := pow10 - 1;
      }
      while pow10 < 0 && significand % 10 == 0
        invariant ScaleDown(Acc(significand as nat, pow10, false)) == ScaleDown(ScaleUp(a))
      {
        significand := significand / 10;
        pow10 := pow10 + 1;
      }
      if pow10 == 0 && significand as int <= (if negative then LLONG_MAX + 1 else LLONG_MAX) {
        return NumInteger(if negative then -(significand as int) else significand as int);
      }
    }
    return NumReal;
  }

  /** json_lex_number, the digits before the point; `error` is None if there is no error. */
  method LexInteger(buffer: Bytes, start: nat, ghost negative: bool)
    returns (cp: nat, significand: uint64, pow10: int, imprecise: bool, error: Option<NumberError>)
    requires start <= |buffer|
    ensures start <= cp <= |buffer| && 0 <= pow10 <= cp
    ensures error.Some? ==> ScanWhole(negative, buffer[start..]) == NumBad(error.value)
    ensures error.None? ==>
              ScanWhole(negative, buffer[start..])
              == ScanFraction(negative, Acc(significand as nat, pow10, imprecise), buffer[cp..])
  {
    hide ScanFraction;
    ghost var s := buffer[start..];
    cp, significand, pow10, imprecise, error := start, 0, 0, false, None;
    if cp < |buffer| && buffer[cp] == '0' {
      cp := cp + 1;
      if cp < |buffer| && IsDigit(buffer[cp]) {
        assert s[..2] == [s[0], s[1]];
        RunAtLeast(s, 2);
        return cp, 0, 0, false, Some(LeadingZeros);
      }
      RunIs(s, 1);
      assert s[..1] == ['0'] && ['0'][..0] == [];
      assert s[1..] == buffer[cp..];
    } else if cp < |buffer| && IsDigit(buffer[cp]) {
      cp, significand, pow10, imprecise := LexWhole(buffer, start);
      RunAtLeast(s, 1);
      assert s[cp - start..] == buffer[cp..];
    } else {
      RunIs(s, 0);
      error := Some(MinusNeedsDigit);
    }
  }

  /** json_lex_number.  pow10 stays an int for every buffer of at most INT_MAX bytes. */
  method LexNumber(buffer: Bytes) returns (r: Number)
    ensures r == ScanNumber(buffer)
  {
    var cp, negative := 0, false;
    if cp < |buffer| && buffer[cp] == '-' {
      negative := true;
      cp := cp + 1;
    }
    assert buffer[0..] == buffer;
    assert ScanNumber(buffer) == ScanWhole(negative, buffer[cp..]);
    var significand, pow10, imprecise, error;
    cp, significand, pow10, imprecise, error := LexInteger(buffer, cp, negative);
    if error.Some? {
      return NumBad(error.value);
    }
    assert |buffer| <= INT_MAX ==> INT_MIN <= pow10 <= INT_MAX;
    r := LexAfterWhole(buffer, cp, negative, significand, pow10, imprecise);
  }

  /** json_lex_number, from the decimal point on. */
  method LexAfterWhole(buffer: Bytes, start: nat, negative: bool, significand0: uint64, pow0: int, imprecise0: bool)
    returns (r: Number)
    requires start <= |buffer| && 0 <= pow0 <= start
    ensures r == ScanFraction(negative, Acc(significand0 as nat, pow0, imprecise0), buffer[start..])
  {
    var n := |buffer|;
    var cp, significand, pow10, imprecise := start, significand0, pow0, imprecise0;
    ghost var a := Acc(significand as nat, pow10, imprecise);
    ghost var rest := buffer[start..];
    if cp < n && buffer[cp] == '.' {
      cp := cp + 1;
      assert rest[1..] == buffer[cp..];
      if cp >= n || !IsDigit(buffer[cp]) {
        return NumBad(PointNeedsDigit);
      }
      var first := cp;
      cp, significand, pow10, imprecise := LexFraction(buffer, first, a, significand, pow10, imprecise);
      assert buffer[first..][cp - first..] == buffer[cp..];
    }
    assert n <= INT_MAX ==> INT_MIN <= pow10 <= INT_MAX;
    r := LexAfterFraction(buffer, cp, negative, significand, pow10, imprecise);
  }

  /** json_lex_number, from the exponent on. */
  method LexAfterFraction(buffer: Bytes, start: nat, negative: bool, significand: uint64, pow0: int, imprecise: bool)
    returns (r: Number)
    requires start <= |buffer| && -|buffer| <= pow0 <= |buffer|
    ensures r == ScanExponent(negative, Acc(significand as nat, pow0, imprecise), buffer[start..])
  {
    var n := |buffer|;
    var cp := start;
    ghost var e := buffer[cp..];
    if cp < n && (buffer[cp] == 'e' || buffer[cp] == 'E') {
      var negativeExponent := false;
      cp := cp + 1;
      assert e[1..] == buffer[cp..] && (|e| > 1 ==> e[2..] == buffer[cp + 1..]);
      if cp < n && buffer[cp] == '+' {
        cp := cp + 1;
      } else if cp < n && buffer[cp] == '-' {
        negativeExponent := true;
        cp := cp + 1;
      }
      r := LexSignedExponent(buffer, cp, negative, significand, pow0, imprecise, negativeExponent);
      return;
    }
    if cp < n {
      return NumBad(NumberSyntax);
    }
    r := Figure(negative, significand, pow0, imprecise);
  }

  /** json_lex_number, from the first digit of the exponent on. */
  method LexSignedExponent(buffer: Bytes, start: nat, negative: bool, significand: uint64, pow0: int, imprecise: bool,
                           negativeExponent: bool)
    returns (r: Number)
    requires start <= |buffer| && -|buffer| <= pow0 <= |buffer|
    ensures r == ScanExponentDigits(negative, Acc(significand as nat, pow0, imprecise), negativeExponent, buffer[start..])
  {
    ghost var s := buffer[start..];
    if start >= |buffer| || !IsDigit(buffer[start]) {
      RunIs(s, 0);
      return NumBad(ExponentNeedsDigit);
    }
    RunAtLeast(s, 1);
    var pow10 := pow0;
    var cp, exponent, ok := LexExponent(buffer, start);
    if !ok {
      return NumBad(BadExponent);
    }
    assert s[cp - start..] == buffer[cp..];
    if negativeExponent {
      if pow10 < (-0x8000_0000 + exponent) as int {
        return NumBad(BadExponent);
      }
      pow10 := pow10 - exponent as int;
    } else {
      if pow10 > (0x7fff_ffff - exponent) as int {
        return NumBad(BadExponent);
      }
      pow10 := pow10 + exponent as int;
    }
    assert |buffer| <= INT_MAX ==> INT_MIN <= pow10 <= INT_MAX;
    if cp < |buffer| {
      return NumBad(NumberSyntax);
    }
    r := Figure(negative, significand, pow10, imprecise);
  }

  lemma {:induction false} RunIs(s: Bytes, k: nat)
    requires k <= |s| && AllDigits(s[..k]) && (k < |s| ==> !IsDigit(s[k]))
    ensures Run(s) == k
  {
    if k > 0 {
      assert s[..k][0] == s[0];
      assert s[1..][..k - 1] == s[..k][1..];
      RunIs(s[1..], k - 1);
    }
  }

  lemma {:induction false} RunAtLeast(s: Bytes, k: nat)
    requires k <= |s| && AllDigits(s[..k])
    ensures k <= Run(s)
  {
    if k > 0 {
      assert s[..k][0] == s[0];
      assert s[1..][..k - 1] == s[..k][1..];
      RunAtLeast(s[1..], k - 1);
    }
  }

  lemma ExponentStaysBad(s: Bytes, k: nat)
    requires k <= |s| && AllDigits(s[..k]) && ExponentDigits(s[..k]).None?
    ensures ExponentDigits(s[..Run(s)]).None?
  {
    RunAtLeast(s, k);
    assert s[..Run(s)][..k] == s[..k];
    StaysBad(s[..Run(s)], k);
  }

  lemma {:induction false} StaysBad(t: Bytes, k: nat)
    requires k <= |t| && AllDigits(t) && ExponentDigits(t[..k]).None?
    ensures ExponentDigits(t).None?
    decreases |t|
  {
    if k < |t| {
      var u := t[..|t| - 1];
      assert u[..k] == t[..k];
      StaysBad(u, k);
    } else {
      assert t[..k] == t;
    }
  }
}
