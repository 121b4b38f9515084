/** json_lex_number against the decimal arithmetic that section 2.4 of RFC 4627 describes: which
    texts are literals, which integer a literal denotes, and exactly when the 64-bit
    accumulator loses the value. */
module JsonNumberExact {
  import opened Bytes
  import opened JsonNumber
  import opened Bits

  // ----- literals

  datatype Exponent = Exponent(letter: Byte, sign: Option<Byte>, digits: Bytes)

  /** The parts of a number of section 2.4 of RFC 4627. */
  datatype Literal = Literal(minus: bool, whole: Bytes, fraction: Option<Bytes>, exponent: Option<Exponent>)

  ghost predicate WellFormed(l: Literal) {
    && l.whole != [] && AllDigits(l.whole) && (l.whole[0] == '0' ==> |l.whole| == 1)
    && (l.fraction.Some? ==> l.fraction.value != [] && AllDigits(l.fraction.value))
    && (l.exponent.Some? ==>
          && l.exponent.value.letter in {'e', 'E'}
          && (l.exponent.value.sign.Some? ==> l.exponent.value.sign.value in {'+', '-'})
          && l.exponent.value.digits != [] && AllDigits(l.exponent.value.digits))
  }

  function RenderExponent(e: Option<Exponent>): Bytes {
    if e.None? then []
    else [e.value.letter] + (if e.value.sign.Some? then [e.value.sign.value] else []) + e.value.digits
  }

  function RenderFraction(f: Option<Bytes>): Bytes {
    if f.None? then [] else ['.'] + f.value
  }

  function Render(l: Literal): Bytes {
    (if l.minus then ['-'] else []) + (l.whole + (RenderFraction(l.fraction) + RenderExponent(l.exponent)))
  }

  /** The accumulator after the digits, and the exponent's effect on it. */
  ghost function Accumulated(l: Literal): Acc
    requires WellFormed(l)
  {
    var a := WholeDigits(l.whole);
    if l.fraction.None? then a else FractionDigits(a, l.fraction.value)
  }

  ghost function Adjusted(l: Literal): Option<Acc>
    requires WellFormed(l)
  {
    if l.exponent.None? then Some(Accumulated(l))
    else
      var e := ExponentDigits(l.exponent.value.digits);
      if e.None? then None else AddExponent(Accumulated(l), l.exponent.value.sign == Some('-'), e.value)
  }

  lemma RunOf(d: Bytes, t: Bytes)
    requires AllDigits(d) && (t != [] ==> !IsDigit(t[0]))
    ensures Run(d + t) == |d| && (d + t)[..|d|] == d && (d + t)[|d|..] == t
  {
    assert (d + t)[..|d|] == d;
    RunIs(d + t, |d|);
  }

  lemma ScanExponentOf(minus: bool, a: Acc, e: Option<Exponent>)
    requires e.Some? ==> e.value.letter in {'e', 'E'} && e.value.digits != [] && AllDigits(e.value.digits)
    requires e.Some? && e.value.sign.Some? ==> e.value.sign.value in {'+', '-'}
    ensures ScanExponent(minus, a, RenderExponent(e)) ==
            if e.None? then Classify(minus, a)
            else
              var x := ExponentDigits(e.value.digits);
              if x.None? then NumBad(BadExponent)
              else
                var b := AddExponent(a, e.value.sign == Some('-'), x.value);
                if b.None? then NumBad(BadExponent) else Classify(minus, b.value)
  {
    if e.Some? {
      var s, d := RenderExponent(e), e.value.digits;
      RunOf(d, []);
      assert d + [] == d;
      if e.value.sign.Some? {
        assert s[2..] == d;
      } else {
        assert s[1..] == d && s[1] == d[0];
      }
    }
  }

  lemma ScanPoint(minus: bool, a: Acc, d: Bytes, t: Bytes)
    requires d != [] && AllDigits(d) && (t != [] ==> !IsDigit(t[0]))
    ensures ScanFraction(minus, a, ['.'] + d + t) == ScanExponent(minus, FractionDigits(a, d), t)
  {
    RunOf(d, t);
    assert (['.'] + d + t)[1..] == d + t;
  }

  lemma ScanFractionOf(minus: bool, a: Acc, f: Option<Bytes>, e: Option<Exponent>)
    requires f.Some? ==> f.value != [] && AllDigits(f.value)
    requires e.Some? ==> e.value.letter in {'e', 'E'}
    ensures f.None? ==> ScanFraction(minus, a, RenderFraction(f) + RenderExponent(e)) == ScanExponent(minus, a, RenderExponent(e))
    ensures f.Some? ==>
              ScanFraction(minus, a, RenderFraction(f) + RenderExponent(e))
              == ScanExponent(minus, FractionDigits(a, f.value), RenderExponent(e))
  {
    var t := RenderExponent(e);
    if f.Some? {
      ScanPoint(minus, a, f.value, t);
    } else {
      assert [] + t == t;
    }
  }

  lemma ScanWholeOf(minus: bool, w: Bytes, tail: Bytes)
    requires w != [] && AllDigits(w) && (w[0] == '0' ==> |w| == 1) && (tail != [] ==> !IsDigit(tail[0]))
    ensures ScanWhole(minus, w + tail) == ScanFraction(minus, WholeDigits(w), tail)
  {
    RunOf(w, tail);
    assert (w + tail)[0] == w[0];
  }

  /** On a literal the scanner finds its parts: the only errors left are the exponent guards. */
  lemma ScanRender(l: Literal)
    requires WellFormed(l)
    ensures ScanNumber(Render(l)) ==
            if Adjusted(l).None? then NumBad(BadExponent) else Classify(l.minus, Adjusted(l).value)
  {
    var tail := RenderFraction(l.fraction) + RenderExponent(l.exponent);
    assert tail != [] ==> tail[0] in {'.', 'e', 'E'};
    ScanSign(l.minus, l.whole, tail);
    ScanWholeOf(l.minus, l.whole, tail);
    ScanFractionOf(l.minus, WholeDigits(l.whole), l.fraction, l.exponent);
    ScanExponentOf(l.minus, Accumulated(l), l.exponent);
  }

  lemma ScanSign(minus: bool, w: Bytes, tail: Bytes)
    requires w != [] && AllDigits(w)
    ensures ScanNumber((if minus then ['-'] else []) + (w + tail)) == ScanWhole(minus, w + tail)
  {
    var s := (if minus then ['-'] else []) + (w + tail);
    if minus {
      assert s[1..] == w + tail;
    } else {
      assert s == w + tail && s[0] == w[0];
    }
  }

  ghost predicate WellFormedExponent(e: Option<Exponent>) {
    e.Some? ==>
      && e.value.letter in {'e', 'E'} && e.value.digits != [] && AllDigits(e.value.digits)
      && (e.value.sign.Some? ==> e.value.sign.value in {'+', '-'})
  }

  lemma WholeRun(s: Bytes, negative: bool, a: Acc, x: bool)
    requires !ScanExponentDigits(negative, a, x, s).NumBad?
    ensures AllDigits(s) && s != []
  {
    assert s[..Run(s)] == s;
  }

  lemma ExponentText(s: Bytes, minus: bool, a: Acc) returns (e: Option<Exponent>)
    requires !ScanExponent(minus, a, s).NumBad?
    ensures RenderExponent(e) == s && WellFormedExponent(e)
  {
    if s == [] {
      e := None;
    } else if |s| > 1 && s[1] in {'+', '-'} {
      WholeRun(s[2..], minus, a, s[1] == '-');
      e := Some(Exponent(s[0], Some(s[1]), s[2..]));
      assert s == [s[0]] + [s[1]] + s[2..];
    } else {
      WholeRun(s[1..], minus, a, false);
      e := Some(Exponent(s[0], None, s[1..]));
      assert s == [s[0]] + [] + s[1..];
    }
  }

  lemma FractionText(s: Bytes, minus: bool, a: Acc) returns (f: Option<Bytes>, e: Option<Exponent>)
    requires !ScanFraction(minus, a, s).NumBad?
    ensures RenderFraction(f) + RenderExponent(e) == s && WellFormedExponent(e)
    ensures f.Some? ==> f.value != [] && AllDigits(f.value)
  {
    hide ScanExponent;
    if s != [] && s[0] == '.' {
      var t := s[1..];
      var k := Run(t);
      f := Some(t[..k]);
      e := ExponentText(t[k..], minus, FractionDigits(a, t[..k]));
      assert s == ['.'] + t && t == t[..k] + t[k..];
    } else {
      f := None;
      e := ExponentText(s, minus, a);
      assert s == [] + s;
    }
  }

  /** And a text that it scans is a literal. */
  lemma WholeText(s: Bytes, minus: bool) returns (w: Bytes, f: Option<Bytes>, e: Option<Exponent>)
    requires !ScanWhole(minus, s).NumBad?
    ensures s == w + (RenderFraction(f) + RenderExponent(e)) && WellFormedExponent(e)
    ensures f.Some? ==> f.value != [] && AllDigits(f.value)
    ensures w != [] && AllDigits(w) && (w[0] == '0' ==> |w| == 1)
  {
    hide ScanFraction;
    hide WholeDigits;
    hide RenderFraction;
    hide RenderExponent;
    hide WellFormedExponent;
    var k := Run(s);
    w := s[..k];
    assert s == w + s[k..];
    f, e := FractionText(s[k..], minus, WholeDigits(w));
  }

  lemma LiteralOf(s: Bytes) returns (l: Literal)
    requires !ScanNumber(s).NumBad?
    ensures WellFormed(l) && Render(l) == s
  {
    if s != [] && s[0] == '-' {
      var w, f, e := WholeText(s[1..], true);
      l := Literal(true, w, f, e);
      assert s == ['-'] + s[1..];
    } else {
      var w, f, e := WholeText(s, false);
      l := Literal(false, w, f, e);
      assert s == [] + s;
    }
  }

  /** `s` is the literal `l`, whose exponent stays inside the guards. */
  ghost predicate IsLiteral(l: Literal, s: Bytes) {
    WellFormed(l) && Render(l) == s && InsideGuards(l)
  }

  /** json_lex_number accepts exactly the literals whose exponent stays inside its guards. */
  lemma AcceptsLiterals(s: Bytes)
    ensures !ScanNumber(s).NumBad? <==> exists l :: IsLiteral(l, s)
  {
    if !ScanNumber(s).NumBad? {
      var l := LiteralOf(s);
      ScanRender(l);
      GuardsAre(l);
      assert IsLiteral(l, s);
    }
    forall l | IsLiteral(l, s)
      ensures !ScanNumber(s).NumBad?
    {
      ScanRender(l);
      GuardsAre(l);
    }
  }

  // ----- values

  function P10(n: nat): (p: nat)
    ensures p > 0
  {
    if n == 0 then 1 else 10 * P10(n - 1)
  }

  /** m * 10^q is the natural number v. */
  ghost predicate IsValue(m: nat, q: int, v: nat) {
    if q >= 0 then v == m * P10(q) else v * P10(-q) == m
  }

  lemma Shift(m: nat, q: int, v: nat)
    ensures IsValue(10 * m, q, v) <==> IsValue(m, q + 1, v)
  {
    if q >= 0 {
      assert m * P10(q + 1) == m * (10 * P10(q)) == 10 * m * P10(q);
    } else if q == -1 {
      assert P10(1) == 10 * P10(0);
    } else {
      var p := P10(-q - 1);
      assert P10(-q) == 10 * p;
      assert v * (10 * p) == 10 * (v * p);
    }
  }

  lemma {:induction false} ShiftMany(m: nat, r: nat, q: int, v: nat)
    ensures IsValue(m * P10(r), q, v) <==> IsValue(m, q + r, v)
    decreases r
  {
    if r > 0 {
      assert m * P10(r) == 10 * (m * P10(r - 1));
      Shift(m * P10(r - 1), q, v);
      ShiftMany(m, r - 1, q + 1, v);
    }
  }

  /** What the accumulator says about the mantissa `m`: `r` digits were dropped. */
  ghost predicate Denotes(m: nat, sig: nat, r: nat, imprecise: bool) {
    && (r > 0 ==> sig > LIMIT)
    && if imprecise then r > 0 && sig * P10(r) < m < (sig + 1) * P10(r) else m == sig * P10(r)
  }

  /** The accumulator went round: it is too small for the mantissa. */
  ghost predicate Lost(m: nat, sig: nat, r: nat) {
    (sig + 1) * P10(r) <= m
  }

  lemma DigitKeeps(m: nat, a: Acc, r: nat, d: nat)
    requires d < 10 && a.sig < ULLONG_SPAN && Denotes(m, a.sig, r, a.imprecise)
    ensures a.sig > LIMIT ==> Denotes(10 * m + d, a.sig, r + 1, a.imprecise || d != 0)
    ensures a.sig < LIMIT || (a.sig == LIMIT && d <= 5) ==> Denotes(10 * m + d, a.sig * 10 + d, 0, false)
    ensures a.sig == LIMIT && d > 5 ==> Lost(10 * m + d, (a.sig * 10 + d) % ULLONG_SPAN, 0)
  {
    var p := P10(r);
    assert P10(r + 1) == 10 * p;
    assert a.sig * (10 * p) == 10 * (a.sig * p);
    assert (a.sig + 1) * (10 * p) == 10 * ((a.sig + 1) * p);
    assert (a.sig + 1) * p == a.sig * p + p;
    if a.sig <= LIMIT {
      assert r == 0 && p == 1 && !a.imprecise;
    }
  }

  lemma DigitLoses(m: nat, sig: nat, r: nat, d: nat)
    requires d < 10 && Lost(m, sig, r)
    ensures Lost(10 * m + d, sig, r + 1)
    ensures r == 0 ==> Lost(10 * m + d, (sig * 10 + d) % ULLONG_SPAN, 0)
  {
    var p := P10(r);
    assert (sig + 1) * (10 * p) == 10 * ((sig + 1) * p);
    if r == 0 {
      assert sig * 10 + d < 10 * m + d;
      ModAtMost(sig * 10 + d);
    }
  }

  lemma ModAtMost(x: nat)
    ensures x % ULLONG_SPAN <= x
  {
  }

  /** The digits never make the accumulator go round: no prefix is LIMIT with a digit
      above 5 behind it. */
  ghost predicate NoWrap(s: Bytes)
    requires AllDigits(s)
  {
    forall k :: 0 <= k < |s| ==> !WrapsAt(s, k)
  }

  ghost predicate WrapsAt(s: Bytes, k: nat)
    requires AllDigits(s) && k < |s|
  {
    Digits(s[..k]) == LIMIT && DigitOf(s[k]) > 5
  }

  /** The whole and the fraction digits run through one accumulator; pow10 counts the dropped
      digits less the fraction digits. */
  ghost function Mantissa(l: Literal): Bytes
    requires WellFormed(l)
    ensures AllDigits(Mantissa(l))
  {
    l.whole + (if l.fraction.Some? then l.fraction.value else [])
  }

  ghost function FractionLength(l: Literal): nat {
    if l.fraction.Some? then |l.fraction.value| else 0
  }

  /** What is known about the accumulator after the digits `s`. */
  ghost predicate Tracks(s: Bytes, a: Acc, r: nat)
    requires AllDigits(s)
  {
    && a.sig < ULLONG_SPAN
    && (r > 0 ==> a.sig > LIMIT)
    && (if NoWrap(s) then Denotes(Digits(s), a.sig, r, a.imprecise) else Lost(Digits(s), a.sig, r))
  }

  lemma AppendDigit(s: Bytes, c: Byte)
    requires AllDigits(s) && IsDigit(c)
    ensures AllDigits(s + [c]) && Digits(s + [c]) == 10 * Digits(s) + DigitOf(c)
    ensures NoWrap(s + [c]) <==> NoWrap(s) && !(Digits(s) == LIMIT && DigitOf(c) > 5)
  {
    var t := s + [c];
    assert t[..|t| - 1] == s;
    forall k | 0 <= k < |s|
      ensures AllDigits(t) && (WrapsAt(t, k) <==> WrapsAt(s, k))
    {
      assert t[..k] == s[..k];
    }
    assert WrapsAt(t, |s|) <==> Digits(s) == LIMIT && DigitOf(c) > 5;
  }

  lemma TrackDigit(s: Bytes, a: Acc, r: nat, c: Byte)
    requires AllDigits(s) && IsDigit(c) && Tracks(s, a, r)
    ensures AllDigits(s + [c])
    ensures a.sig <= LIMIT ==> r == 0 && Tracks(s + [c], WholeDigit(a, DigitOf(c)), 0)
    ensures a.sig > LIMIT ==> Tracks(s + [c], WholeDigit(a, DigitOf(c)), r + 1)
  {
    var d := DigitOf(c);
    AppendDigit(s, c);
    if NoWrap(s) {
      DigitKeeps(Digits(s), a, r, d);
      SigAtMost(Digits(s), a.sig, r, a.imprecise);
    } else {
      DigitLoses(Digits(s), a.sig, r, d);
    }
  }

  lemma SigAtMost(m: nat, sig: nat, r: nat, imprecise: bool)
    requires Denotes(m, sig, r, imprecise)
    ensures sig <= m
    ensures sig <= LIMIT ==> sig == m && !imprecise
  {
    MulMonotone(1, P10(r), sig);
    assert P10(0) == 1;
  }

  lemma {:induction false} TrackWhole(s: Bytes) returns (r: nat)
    requires AllDigits(s)
    ensures Tracks(s, WholeDigits(s), r) && WholeDigits(s).pow10 == r
  {
    if s == [] {
      r := 0;
      assert P10(0) == 1;
    } else {
      var t := s[..|s| - 1];
      r := TrackWhole(t);
      TrackDigit(t, WholeDigits(t), r, s[|s| - 1]);
      assert s == t + [s[|s| - 1]];
      if WholeDigits(t).sig > LIMIT { r := r + 1; }
    }
  }

  lemma {:induction false} TrackFraction(s: Bytes, a: Acc, r0: nat, f: Bytes) returns (r: nat)
    requires AllDigits(s) && AllDigits(f) && Tracks(s, a, r0)
    ensures AllDigits(s + f) && Tracks(s + f, FractionDigits(a, f), r)
    ensures FractionDigits(a, f).pow10 == a.pow10 + (r - r0) - |f|
  {
    if f == [] {
      r := r0;
      assert s + f == s;
    } else {
      var g := f[..|f| - 1];
      r := TrackFraction(s, a, r0, g);
      var b := FractionDigits(a, g);
      TrackDigit(s + g, b, r, f[|f| - 1]);
      assert s + f == (s + g) + [f[|f| - 1]];
      if b.sig > LIMIT { r := r + 1; }
    }
  }

  /** The accumulator holds the mantissa if and only if it did not go round on the way. */
  lemma AccumulatorExact(l: Literal) returns (r: nat)
    requires WellFormed(l)
    ensures r == Accumulated(l).pow10 + FractionLength(l)
    ensures Denotes(Digits(Mantissa(l)), Accumulated(l).sig, r, Accumulated(l).imprecise) <==> NoWrap(Mantissa(l))
    ensures Accumulated(l).sig < ULLONG_SPAN
  {
    r := TrackWhole(l.whole);
    if l.fraction.Some? {
      r := TrackFraction(l.whole, WholeDigits(l.whole), r, l.fraction.value);
    } else {
      assert l.whole + [] == l.whole;
    }
    NotBoth(Digits(Mantissa(l)), Accumulated(l).sig, r, Accumulated(l).imprecise);
  }

  lemma NotBoth(m: nat, sig: nat, r: nat, imprecise: bool)
    ensures !(Denotes(m, sig, r, imprecise) && Lost(m, sig, r))
  {
    assert (sig + 1) * P10(r) == sig * P10(r) + P10(r);
  }

  // ----- the verdict

  lemma {:induction false} ScaleUpExact(a: Acc, v: nat)
    requires a.sig < ULLONG_SPAN
    ensures var b := ScaleUp(a);
            && (IsValue(a.sig, a.pow10, v) <==> IsValue(b.sig, b.pow10, v))
            && b.sig < ULLONG_SPAN && (b.pow10 > 0 ==> b.sig >= LIMIT) && (a.sig > 0 ==> b.sig > 0)
    decreases a.pow10
  {
    if a.pow10 > 0 && a.sig < LIMIT {
      Shift(a.sig, a.pow10 - 1, v);
      ScaleUpExact(a.(sig := a.sig * 10, pow10 := a.pow10 - 1), v);
    }
  }

  lemma {:induction false} ScaleDownExact(a: Acc, v: nat)
    ensures var b := ScaleDown(a);
            && (IsValue(a.sig, a.pow10, v) <==> IsValue(b.sig, b.pow10, v))
            && (b.pow10 < 0 ==> b.sig % 10 != 0) && (b.pow10 > 0 ==> b == a) && (a.sig > 0 ==> b.sig > 0)
    decreases -a.pow10
  {
    if a.pow10 < 0 && a.sig % 10 == 0 {
      Shift(a.sig / 10, a.pow10, v);
      ScaleDownExact(a.(sig := a.sig / 10, pow10 := a.pow10 + 1), v);
    }
  }

  /** Where the scaling ends, an integer of 64 bits is left exactly when the power is gone. */
  lemma ScaledVerdict(sig: nat, p: int, v: nat)
    requires sig > 0 && (p > 0 ==> sig >= LIMIT) && (p < 0 ==> sig % 10 != 0)
    ensures p == 0 ==> (IsValue(sig, p, v) <==> v == sig)
    ensures p != 0 && IsValue(sig, p, v) ==> v > LLONG_MAX + 1
  {
    if p == 0 {
      assert P10(0) == 1;
    } else if p > 0 {
      MulMonotone(10, P10(p), sig);
    } else {
      TenDivides(v, -p);
    }
  }

  lemma TenDivides(v: nat, k: nat)
    requires k > 0
    ensures (v * P10(k)) % 10 == 0
  {
    var c := P10(k - 1);
    assert v * (10 * c) == 10 * (v * c);
    TimesTen(v * c);
  }

  lemma TimesTen(x: nat)
    ensures (10 * x) % 10 == 0
  {
  }

  /** Dropping a digit other than zero can only happen to what is no 64-bit integer. */
  lemma ImpreciseVerdict(m: nat, sig: nat, r: nat, q: int, v: nat)
    requires Denotes(m, sig, r, true) && IsValue(m, q, v)
    ensures v > LLONG_MAX + 1
  {
    var p := P10(r);
    assert p == 10 * P10(r - 1);
    if q >= 0 {
      MulMonotone(1, P10(q), m);
      MulMonotone(10, p, sig);
    } else if -q >= r {
      // m would be a multiple of 10^r, strictly between two neighbouring ones
      P10Add(-q - r, r);
      Associate(v, P10(-q - r), p);
      Between(sig, v * P10(-q - r), p);
    } else {
      P10Add(r + q, -q);
      var c, k := P10(r + q), P10(-q);
      assert c == 10 * P10(r + q - 1);
      Associate(sig, c, k);
      if v <= sig * c {
        MulMonotone(v, sig * c, k);
      }
      MulMonotone(10, c, sig);
    }
  }

  lemma Associate(x: nat, y: nat, z: nat)
    ensures x * (y * z) == (x * y) * z
  {
  }

  lemma {:induction false} P10Add(a: nat, b: nat)
    ensures P10(a + b) == P10(a) * P10(b)
  {
    if a > 0 {
      P10Add(a - 1, b);
      assert 10 * (P10(a - 1) * P10(b)) == (10 * P10(a - 1)) * P10(b);
    }
  }

  lemma {:induction false} MulMonotone(x: nat, y: nat, k: nat)
    requires x <= y
    ensures x * k <= y * k && k * x <= k * y
    decreases y
  {
    if x < y {
      MulMonotone(x, y - 1, k);
      assert y * k == (y - 1) * k + k;
    }
  }

  lemma Between(s: nat, w: nat, p: nat)
    ensures !(s * p < w * p < (s + 1) * p)
  {
    if w <= s { MulMonotone(w, s, p); } else { MulMonotone(s + 1, w, p); }
  }

  /** The integer a token carries: `v` with the sign, in 64 bits. */
  ghost predicate Carries(minus: bool, n: int, v: nat) {
    n == (if minus then -(v as int) else v) && v <= Largest(minus)
  }

  /** The token is what the value mantissa * 10^q, with its sign, asks for: an integer token
      exactly if that is an integer of 64 bits, and then that integer; a real otherwise. */
  ghost predicate IsExact(minus: bool, m: nat, q: int, token: Number) {
    && (forall n :: token == NumInteger(n) <==> exists v: nat :: IsValue(m, q, v) && Carries(minus, n, v))
    && (token.NumReal? <==> !exists v: nat :: IsValue(m, q, v) && v <= Largest(minus))
  }

  /** From an accumulator that denotes the mantissa, the verdict is exact. */
  lemma VerdictExact(m: nat, minus: bool, a: Acc, r: nat, q: int)
    requires a.sig < ULLONG_SPAN && Denotes(m, a.sig, r, a.imprecise) && a.pow10 == q + r
    ensures IsExact(minus, m, q, Classify(minus, a))
  {
    if a.sig == 0 {
      assert m == 0;
      ZeroValue(q);
      assert IsValue(0, q, 0);
      assert Carries(minus, 0, 0);
    } else if a.imprecise {
      forall v: nat | IsValue(m, q, v) ensures v > Largest(minus) {
        ImpreciseVerdict(m, a.sig, r, q, v);
      }
    } else {
      var b := ScaleDown(ScaleUp(a));
      forall v: nat
        ensures IsValue(m, q, v) <==> IsValue(b.sig, b.pow10, v)
        ensures b.pow10 == 0 ==> (IsValue(m, q, v) <==> v == b.sig)
        ensures b.pow10 != 0 && IsValue(m, q, v) ==> v > Largest(minus)
      {
        ShiftMany(a.sig, r, q, v);
        ScaleUpExact(a, v);
        ScaleDownExact(ScaleUp(a), v);
        ScaledVerdict(b.sig, b.pow10, v);
      }
      if b.pow10 == 0 && b.sig <= Largest(minus) {
        assert IsValue(m, q, b.sig) && Carries(minus, if minus then -(b.sig as int) else b.sig, b.sig);
      }
    }
  }

  lemma ZeroValue(q: int)
    ensures forall v: nat :: IsValue(0, q, v) <==> v == 0
  {
    forall v: nat
      ensures IsValue(0, q, v) <==> v == 0
    {
      if q >= 0 {
        assert 0 * P10(q) == 0;
      } else if v > 0 {
        MulMonotone(1, v, P10(-q));
      } else {
        assert 0 * P10(-q) == 0;
      }
    }
  }

  /** The exponent of a literal, as a number. */
  ghost function Power(l: Literal): int
    requires WellFormed(l)
  {
    if l.exponent.None? then 0
    else if l.exponent.value.sign == Some('-') then -(Digits(l.exponent.value.digits) as int)
    else Digits(l.exponent.value.digits)
  }

  lemma {:induction false} ExponentValue(s: Bytes)
    requires AllDigits(s)
    ensures ExponentDigits(s).Some? ==> ExponentDigits(s).value == Digits(s)
    ensures s != [] ==> (ExponentDigits(s).Some? <==> Digits(s[..|s| - 1]) < INT_MAX / 10)
  {
    if s != [] {
      ExponentValue(s[..|s| - 1]);
      if |s| > 1 {
        var t := s[..|s| - 1];
        assert Digits(t) == 10 * Digits(t[..|t| - 1]) + DigitOf(t[|t| - 1]);
      }
    }
  }

  /** The exponent guards, in terms of the literal: all but the last digit of the exponent below
      INT_MAX / 10, and the sum with pow10 an int. */
  ghost predicate InsideGuards(l: Literal)
    requires WellFormed(l)
  {
    l.exponent.Some? ==>
      var d := l.exponent.value.digits;
      && Digits(d[..|d| - 1]) < INT_MAX / 10
      && (if l.exponent.value.sign == Some('-') then Accumulated(l).pow10 - Digits(d) >= INT_MIN
          else Accumulated(l).pow10 + Digits(d) <= INT_MAX)
  }

  lemma GuardsAre(l: Literal)
    requires WellFormed(l)
    ensures Adjusted(l).Some? <==> InsideGuards(l)
    ensures Adjusted(l).Some? ==> Adjusted(l).value == Accumulated(l).(pow10 := Accumulated(l).pow10 + Power(l))
  {
    if l.exponent.Some? { ExponentValue(l.exponent.value.digits); }
  }

  /** Exact integers.  A literal of any length that stays inside the exponent guards and does not
      make the accumulator go round becomes the token that its value asks for. */
  lemma ExactIntegers(l: Literal)
    requires WellFormed(l) && InsideGuards(l) && NoWrap(Mantissa(l))
    ensures IsExact(l.minus, Digits(Mantissa(l)), Power(l) - FractionLength(l), ScanNumber(Render(l)))
  {
    hide ScanNumber;
    hide Classify;
    hide IsExact;
    hide Denotes;
    hide NoWrap;
    hide Accumulated;
    hide Adjusted;
    hide Mantissa;
    hide WellFormed;
    hide InsideGuards;
    hide Render;
    ScanRender(l);
    GuardsAre(l);
    var r := AccumulatorExact(l);
    VerdictExact(Digits(Mantissa(l)), l.minus, Adjusted(l).value, r, Power(l) - FractionLength(l));
  }

  // ----- literals that make the accumulator go round

  /** The number that the accumulator stands for after the digits `s`: where it goes round,
      everything up to there is forgotten but the surplus of the digit. */
  ghost function Held(s: Bytes): nat
    requires AllDigits(s)
  {
    if s == [] then 0
    else
      var h, d := Held(s[..|s| - 1]), DigitOf(s[|s| - 1]);
      if h == LIMIT && d > 5 then d - 6 else 10 * h + d
  }

  /** The value of a literal: what the accumulator stands for, times its power of ten. */
  ghost predicate HasValue(l: Literal, v: nat)
    requires WellFormed(l)
  {
    IsValue(Held(Mantissa(l)), Power(l) - FractionLength(l), v)
  }

  /** The accumulator stands for the mantissa itself if and only if it did not go round; otherwise
      for less. */
  lemma {:induction false} HeldUnlessWrap(s: Bytes)
    requires AllDigits(s)
    ensures Held(s) <= Digits(s)
    ensures Held(s) == Digits(s) <==> NoWrap(s)
  {
    if s != [] {
      var t := s[..|s| - 1];
      HeldUnlessWrap(t);
      assert forall k :: 0 <= k < |t| ==> s[..k] == t[..k];
      assert forall k :: 0 <= k < |t| ==> (WrapsAt(s, k) <==> WrapsAt(t, k));
      assert NoWrap(s) <==> NoWrap(t) && !WrapsAt(s, |t|) by {
        forall k | 0 <= k < |s| && NoWrap(t) && !WrapsAt(s, |t|)
          ensures !WrapsAt(s, k)
        {
          if k < |t| { assert !WrapsAt(t, k); }
        }
        forall k | 0 <= k < |t| && NoWrap(s)
          ensures !WrapsAt(t, k)
        {
          assert !WrapsAt(s, k);
        }
      }
    }
  }

  lemma HeldDigit(s: Bytes, a: Acc, r: nat, c: Byte)
    requires AllDigits(s) && IsDigit(c) && a.sig < ULLONG_SPAN && Denotes(Held(s), a.sig, r, a.imprecise)
    ensures AllDigits(s + [c])
    ensures var b := WholeDigit(a, DigitOf(c));
            b.sig < ULLONG_SPAN && Denotes(Held(s + [c]), b.sig, if a.sig <= LIMIT then 0 else r + 1, b.imprecise)
    ensures a.sig <= LIMIT ==> r == 0
  {
    assert (s + [c])[..|s|] == s;
    assert AllDigits(s + [c]);
    DigitKeeps(Held(s), a, r, DigitOf(c));
    SigAtMost(Held(s), a.sig, r, a.imprecise);
    assert P10(0) == 1;
  }

  lemma {:induction false} HeldWhole(s: Bytes) returns (r: nat)
    requires AllDigits(s)
    ensures var a := WholeDigits(s);
            a.sig < ULLONG_SPAN && Denotes(Held(s), a.sig, r, a.imprecise) && a.pow10 == r
  {
    if s == [] {
      r := 0;
      assert P10(0) == 1;
    } else {
      var t := s[..|s| - 1];
      r := HeldWhole(t);
      HeldDigit(t, WholeDigits(t), r, s[|s| - 1]);
      assert s == t + [s[|s| - 1]];
      if WholeDigits(t).sig > LIMIT { r := r + 1; }
    }
  }

  lemma {:induction false} HeldFraction(s: Bytes, a: Acc, r0: nat, f: Bytes) returns (r: nat)
    requires AllDigits(s) && AllDigits(f) && a.sig < ULLONG_SPAN && Denotes(Held(s), a.sig, r0, a.imprecise)
    ensures AllDigits(s + f)
    ensures var b := FractionDigits(a, f);
            b.sig < ULLONG_SPAN && Denotes(Held(s + f), b.sig, r, b.imprecise) && b.pow10 == a.pow10 + (r - r0) - |f|
  {
    if f == [] {
      r := r0;
      assert s + f == s;
    } else {
      var g := f[..|f| - 1];
      r := HeldFraction(s, a, r0, g);
      var b := FractionDigits(a, g);
      HeldDigit(s + g, b, r, f[|f| - 1]);
      assert s + f == (s + g) + [f[|f| - 1]];
      if b.sig > LIMIT { r := r + 1; }
    }
  }

  /** The accumulator stands for the held number, always. */
  lemma HeldLiteral(l: Literal) returns (r: nat)
    requires WellFormed(l)
    ensures r == Accumulated(l).pow10 + FractionLength(l) && Accumulated(l).sig < ULLONG_SPAN
    ensures Denotes(Held(Mantissa(l)), Accumulated(l).sig, r, Accumulated(l).imprecise)
  {
    hide Denotes;
    hide Held;
    r := HeldWhole(l.whole);
    if l.fraction.Some? {
      r := HeldFraction(l.whole, WholeDigits(l.whole), r, l.fraction.value);
    } else {
      assert l.whole + [] == l.whole;
    }
  }

  /** Every literal inside the exponent guards becomes the token that the held number asks for. */
  lemma TokenOfHeld(l: Literal)
    requires WellFormed(l) && InsideGuards(l)
    ensures IsExact(l.minus, Held(Mantissa(l)), Power(l) - FractionLength(l), ScanNumber(Render(l)))
  {
    hide ScanNumber;
    hide Classify;
    hide IsExact;
    hide Denotes;
    hide Held;
    hide Accumulated;
    hide Adjusted;
    hide Mantissa;
    hide WellFormed;
    hide InsideGuards;
    hide Render;
    ScanRender(l);
    GuardsAre(l);
    var r := HeldLiteral(l);
    VerdictExact(Held(Mantissa(l)), l.minus, Adjusted(l).value, r, Power(l) - FractionLength(l));
  }

  /** The integer of 64 bits that a literal stands for.  (`Held` is its mantissa, unless that goes
      round: HeldUnlessWrap.) */
  ghost predicate IsInteger(l: Literal, n: int)
    requires WellFormed(l)
  {
    exists v: nat :: HasValue(l, v) && Carries(l.minus, n, v)
  }

  /** What the scanner makes of a literal: that integer, or a real if there is none. */
  lemma TokenOfLiteral(l: Literal, s: Bytes)
    requires IsLiteral(l, s)
    ensures !ScanNumber(s).NumBad?
    ensures forall n :: ScanNumber(s) == NumInteger(n) <==> IsInteger(l, n)
    ensures ScanNumber(s).NumReal? <==> forall n :: !IsInteger(l, n)
  {
    hide ScanNumber;
    hide Held;
    hide Mantissa;
    hide WellFormed;
    hide InsideGuards;
    hide Render;
    hide IsValue;
    AcceptsLiterals(s);
    TokenOfHeld(l);
    if ScanNumber(s).NumInteger? { assert IsInteger(l, ScanNumber(s).n); }
  }

  lemma {:induction false} DigitsSplit(s: Bytes, k: nat)
    requires AllDigits(s) && k <= |s|
    ensures AllDigits(s[..k]) && AllDigits(s[k..])
    ensures Digits(s) == Digits(s[..k]) * P10(|s| - k) + Digits(s[k..]) && Digits(s[k..]) < P10(|s| - k)
    decreases |s| - k
  {
    if k == |s| {
      assert s[..k] == s && s[k..] == [] && P10(0) == 1;
    } else {
      var t := s[..|s| - 1];
      DigitsSplit(t, k);
      assert t[..k] == s[..k];
      assert s[k..][..|s| - k - 1] == t[k..] && s[k..][|s| - k - 1] == s[|s| - 1];
      TenTimes(Digits(t), Digits(s[..k]), P10(|t| - k), Digits(t[k..]), DigitOf(s[|s| - 1]));
    }
  }

  lemma TenTimes(m: nat, a: nat, p: nat, b: nat, d: nat)
    requires m == a * p + b && b < p && d < 10
    ensures 10 * m + d == a * (10 * p) + (10 * b + d) && 10 * b + d < 10 * p
  {
  }

  /** A mantissa that makes the accumulator go round does not make an integer of 64 bits with any
      power of ten: its twentieth digit is not 0. */
  lemma WrappedIsNoInteger(s: Bytes, k: nat, q: int, v: nat)
    requires AllDigits(s) && k < |s| && WrapsAt(s, k) && IsValue(Digits(s), q, v)
    ensures v >= ULLONG_SPAN
  {
    hide Digits;
    hide P10;
    var t, d := |s| - k - 1, DigitOf(s[k]);
    var p := P10(t);
    DigitsSplit(s, k + 1);
    DigitsSplit(s, k);
    assert s[..k + 1] == s[..k] + [s[k]];
    AppendDigit(s[..k], s[k]);
    var x := Digits(s[k + 1..]);
    assert Digits(s) == (10 * LIMIT + d) * p + x && x < p;
    MulMonotone(ULLONG_SPAN, 10 * LIMIT + d, p);
    if q >= 0 {
      WrappedUp(s, q, v, p);
    } else if -q <= t {
      WrappedDown(Digits(s), t, -q, v);
    } else {
      MultipleEnds(10 * LIMIT + d, t, x, -q, v);
    }
  }

  lemma WrappedUp(s: Bytes, q: int, v: nat, p: nat)
    requires AllDigits(s) && p > 0 && q >= 0 && v == Digits(s) * P10(q) && Digits(s) >= ULLONG_SPAN * p
    ensures v >= ULLONG_SPAN
  {
    MulMonotone(1, p, ULLONG_SPAN);
    MulMonotone(1, P10(q), Digits(s));
  }

  lemma WrappedDown(m: nat, t: nat, e: nat, v: nat)
    requires e <= t && v * P10(e) == m && m >= ULLONG_SPAN * P10(t)
    ensures v >= ULLONG_SPAN
  {
    P10Add(t - e, e);
    Associate(ULLONG_SPAN, P10(t - e), P10(e));
    MulMonotone(1, P10(t - e), ULLONG_SPAN);
    LessMul(v, ULLONG_SPAN * P10(t - e), P10(e));
  }

  lemma SameMultiple(w: nat, n: nat, p: nat, x: nat)
    requires w * p == n * p + x && x < p
    ensures w == n
  {
    LessMul(w, n, p);
    LessMul(n, w, p);
  }

  /** A multiple of 10^(t + 1), written with its last `t` digits apart, has a 0 in front of them. */
  lemma MultipleEnds(n: nat, t: nat, x: nat, e: nat, v: nat)
    requires x < P10(t) && e > t && v * P10(e) == n * P10(t) + x
    ensures n % 10 == 0
  {
    hide P10;
    var p := P10(e - t - 1);
    P10Add(e - t, t);
    P10Add(1, e - t - 1);
    P10Ten();
    Associate(v, P10(e - t), P10(t));
    SameMultiple(v * P10(e - t), n, P10(t), x);
    TenMore(v, p);
    TimesTen(v * p);
  }

  lemma P10Ten()
    ensures P10(1) == 10
  {
    assert P10(0) == 1;
  }

  lemma TenMore(v: nat, p: nat)
    ensures v * (10 * p) == 10 * (v * p)
  {
  }

  /** Exact integers, completely.  A literal inside the exponent guards becomes the token that its
      value asks for if and only if the accumulator does not go round, or what it then holds makes
      no integer of 64 bits with the power of ten (so that the literal goes to strtod after all). */
  lemma ExactIff(l: Literal)
    requires WellFormed(l) && InsideGuards(l)
    ensures var q := Power(l) - FractionLength(l);
            IsExact(l.minus, Digits(Mantissa(l)), q, ScanNumber(Render(l)))
            <==> NoWrap(Mantissa(l)) || !exists v: nat :: IsValue(Held(Mantissa(l)), q, v) && v <= Largest(l.minus)
  {
    hide ScanNumber;
    hide Held;
    var s, q := Mantissa(l), Power(l) - FractionLength(l);
    if NoWrap(s) {
      ExactIntegers(l);
    } else {
      TokenOfHeld(l);
      var k :| 0 <= k < |s| && WrapsAt(s, k);
      forall v: nat | IsValue(Digits(s), q, v)
        ensures v > Largest(l.minus)
      {
        WrappedIsNoInteger(s, k, q, v);
      }
      if v: nat :| IsValue(Held(s), q, v) && v <= Largest(l.minus) {
        assert Carries(l.minus, if l.minus then -(v as int) else v, v);
      }
    }
  }

  /** Nineteen digits after the leading zeros are always few enough. */
  lemma FewDigits(s: Bytes)
    requires AllDigits(s) && Digits(s) < P10(19)
    ensures NoWrap(s)
  {
    P10Add(5, 5);
    P10Add(10, 9);
    P10Add(5, 4);
    assert P10(4) == 10000 && P10(5) == 100000;
    NoWrapBelow(s);
  }

  lemma {:induction false} PrefixAtMost(s: Bytes, k: nat)
    requires AllDigits(s) && k <= |s|
    ensures Digits(s[..k]) <= Digits(s)
  {
    if k < |s| {
      PrefixAtMost(s[..|s| - 1], k);
      assert s[..|s| - 1][..k] == s[..k];
    } else {
      assert s[..k] == s;
    }
  }

  // ----- printing with %lld

  function Decimal(n: nat): Bytes {
    if n < 10 then [DigitChar(n)] else Decimal(n / 10) + [DigitChar(n % 10)]
  }

  function DigitChar(d: nat): (c: Byte)
    requires d < 10
    ensures IsDigit(c) && DigitOf(c) == d
  {
    ('0' as int + d) as char
  }

  /** ds_put_format(ds, "%lld", n). */
  function SignedDecimal(n: int): Bytes {
    if n < 0 then ['-'] + Decimal(-n) else Decimal(n)
  }

  lemma {:induction false} DecimalDigits(n: nat)
    ensures Decimal(n) != [] && AllDigits(Decimal(n)) && Digits(Decimal(n)) == n
    ensures Decimal(n)[0] == '0' ==> n == 0
    ensures n < 10 ==> |Decimal(n)| == 1
  {
    if n < 10 {
      assert Digits([]) == 0;
      assert Decimal(n)[..0] == [];
    } else {
      DecimalDigits(n / 10);
      assert Decimal(n)[..|Decimal(n)| - 1] == Decimal(n / 10);
    }
  }

  lemma DecimalLiteral(n: nat, minus: bool)
    ensures var l := Literal(minus, Decimal(n), None, None);
            && WellFormed(l) && InsideGuards(l) && Render(l) == (if minus then ['-'] else []) + Decimal(n)
            && AllDigits(Decimal(n)) && Mantissa(l) == Decimal(n) && Power(l) == 0 && FractionLength(l) == 0
  {
    DecimalDigits(n);
    assert Decimal(n) + ([] + []) == Decimal(n);
  }

  lemma NoWrapBelow(s: Bytes)
    requires AllDigits(s) && Digits(s) < ULLONG_SPAN
    ensures NoWrap(s)
  {
    forall k | 0 <= k < |s|
      ensures !WrapsAt(s, k)
    {
      PrefixAtMost(s, k + 1);
      assert s[..k + 1][..k] == s[..k];
    }
  }

  /** Every 64-bit integer is read back from its decimal form. */
  lemma ScanDecimal(n: int)
    requires -0x8000_0000_0000_0000 <= n <= LLONG_MAX
    ensures ScanNumber(SignedDecimal(n)) == NumInteger(n)
  {
    if n < 0 {
      ScanDecimalMagnitude(-n, true);
    } else {
      ScanDecimalMagnitude(n, false);
      assert [] + Decimal(n) == Decimal(n);
    }
  }

  lemma ScanDecimalMagnitude(v: nat, minus: bool)
    requires v <= Largest(minus)
    ensures ScanNumber((if minus then ['-'] else []) + Decimal(v)) == NumInteger(if minus then -(v as int) else v)
  {
    DecimalLiteral(v, minus);
    DecimalDigits(v);
    NoWrapBelow(Decimal(v));
    ExactIntegers(Literal(minus, Decimal(v), None, None));
    assert P10(0) == 1;
    assert IsValue(v, 0, v);
    assert Carries(minus, if minus then -(v as int) else v, v);
  }

  /** The smallest literals that make the accumulator go round are read as other integers:
      2^64 becomes 0, and so on up to the last digit. */
  lemma WrapExample(n: nat)
    requires ULLONG_SPAN <= n < ULLONG_SPAN + 4
    ensures ScanNumber(Decimal(n)) == NumInteger(n - ULLONG_SPAN)
    ensures AllDigits(Decimal(n)) && Digits(Decimal(n)) == n && !NoWrap(Decimal(n))
  {
    hide ScanWhole;
    hide ScanNumber;
    hide NoWrap;
    hide Classify;
    var p := Decimal(LIMIT);
    var s := Decimal(n);
    var d := n - 10 * LIMIT;
    assert n / 10 == LIMIT && n % 10 == d && s == p + [DigitChar(d)];
    DecimalDigits(LIMIT);
    DecimalDigits(n);
    AppendDigit(p, DigitChar(d));
    LimitAccumulated();
    assert s[..|s| - 1] == p;
    assert WholeDigits(s) == Acc(n - ULLONG_SPAN, 0, false);
    DecimalLiteral(n, false);
    ScanRender(Literal(false, s, None, None));
    ClassifySmall(n - ULLONG_SPAN);
    assert [] + s == s;
  }

  lemma ClassifySmall(v: nat)
    requires v <= LLONG_MAX
    ensures Classify(false, Acc(v, 0, false)) == NumInteger(v)
  {
  }

  lemma LimitAccumulated()
    ensures AllDigits(Decimal(LIMIT)) && WholeDigits(Decimal(LIMIT)) == Acc(LIMIT, 0, false)
  {
    var p := Decimal(LIMIT);
    DecimalDigits(LIMIT);
    NoWrapBelow(p);
    var r := TrackWhole(p);
    var a := WholeDigits(p);
    SigAtMost(LIMIT, a.sig, r, a.imprecise);
  }
}
