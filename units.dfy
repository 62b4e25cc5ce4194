/** Unit conversion: parse_measurement, which matches a number and a unit
    suffix with the SCANF_MEASUREMENT regular expression, the `conversion`
    table from unit suffixes to nanometres with its squared entries, and
    the parse-and-convert steps of convert_to_iu and gui.get_value_float.

    The number is kept as the groups the regular expression matches; its
    value is the exact decimal it denotes (float() rounds it to binary;
    that rounding is not modelled). pcbnew.IU_PER_MM and
    pcbnew.IU_PER_MILS are the constants 1000000 and 25400. */
module Units {

  import opened Wrappers

  // ------------------------------------------------------------------
  // Characters
  // ------------------------------------------------------------------

  /** `\d` on a byte string. */
  predicate IsDigit(c: char) {
    '0' <= c <= '9'
  }

  /** `\s` on a byte string: space, tab, newline, carriage return,
      vertical tab and form feed. */
  predicate IsSpace(c: char) {
    c == ' ' || c == '\t' || c == '\n' || c == '\r' || c == '\U{000B}' || c == '\U{000C}'
  }

  /** `[-+]` */
  predicate IsSign(c: char) {
    c == '+' || c == '-'
  }

  /** The character classes the pattern repeats: `\d`, `\s` and `\S`. */
  datatype CharClass = Digits | Blanks | NonBlanks

  predicate InClass(c: CharClass, ch: char) {
    match c
    case Digits => IsDigit(ch)
    case Blanks => IsSpace(ch)
    case NonBlanks => !IsSpace(ch)
  }

  /** The length of the longest run of characters of class c that starts
      at position i: what a greedy `\d*`, `\s*` or `\S*` matches there. */
  function Run(c: CharClass, s: string, i: nat): (n: nat)
    requires i <= |s|
    ensures i + n <= |s|
    ensures forall k :: i <= k < i + n ==> InClass(c, s[k])
    ensures i + n == |s| || !InClass(c, s[i + n])
    decreases |s| - i
  {
    if i < |s| && InClass(c, s[i]) then 1 + Run(c, s, i + 1) else 0
  }

  /** A run is determined by where it stops. */
  lemma {:induction false} RunStops(c: CharClass, s: string, i: nat, j: nat)
    requires i <= j <= |s|
    requires forall k :: i <= k < j ==> InClass(c, s[k])
    requires j == |s| || !InClass(c, s[j])
    ensures Run(c, s, i) == j - i
    decreases j - i
  {
    if i < j {
      RunStops(c, s, i + 1, j);
    }
  }

  predicate AllDigits(s: string) {
    forall k :: 0 <= k < |s| ==> IsDigit(s[k])
  }

  predicate NoSpace(s: string) {
    forall k :: 0 <= k < |s| ==> !IsSpace(s[k])
  }

  // ------------------------------------------------------------------
  // The number token
  // ------------------------------------------------------------------

  /** `[eE][-+]?\d+` */
  datatype Exponent = Exponent(marker: char, sign: string, digits: string)

  /** `[-+]?(\d+(\.\d*)?|\.\d+)([eE][-+]?\d+)?`: the sign, the whole
      digits, whether there is a decimal point, the fraction digits and
      the exponent. */
  datatype Number = Number(sign: string, whole: string, dot: bool, fraction: string, exponent: Option<Exponent>)

  /** `[-+]?` */
  predicate IsSignText(s: string) {
    |s| == 0 || (|s| == 1 && IsSign(s[0]))
  }

  /** The sign text is "-". */
  predicate Negative(s: string) {
    |s| == 1 && s[0] == '-'
  }

  /** A Number the pattern can match: at least one digit before or after
      the point, and an exponent with at least one digit. */
  predicate WellFormed(n: Number) {
    IsSignText(n.sign) && AllDigits(n.whole) && AllDigits(n.fraction) &&
    (n.dot || |n.fraction| == 0) &&
    (|n.whole| > 0 || (n.dot && |n.fraction| > 0)) &&
    (n.exponent.Some? ==>
       (n.exponent.value.marker == 'e' || n.exponent.value.marker == 'E') &&
       IsSignText(n.exponent.value.sign) && |n.exponent.value.digits| > 0 && AllDigits(n.exponent.value.digits))
  }

  function ExponentText(e: Option<Exponent>): string {
    match e
    case None => ""
    case Some(x) => [x.marker] + (x.sign + x.digits)
  }

  /** `(\.\d*)?`: the point and the digits after it. */
  function FractionText(dot: bool, fraction: string): string {
    (if dot then "." else "") + fraction
  }

  /** `\d+(\.\d*)?|\.\d+`: the digits around the decimal point. */
  function MantissaText(n: Number): string {
    n.whole + FractionText(n.dot, n.fraction)
  }

  /** The characters of a number token. */
  function Text(n: Number): string {
    n.sign + MantissaText(n) + ExponentText(n.exponent)
  }

  /** The value of a string of decimal digits. */
  function DecimalValue(s: string): nat
    requires AllDigits(s)
  {
    if s == [] then 0
    else
      assert IsDigit(s[|s| - 1]);
      10 * DecimalValue(s[..|s| - 1]) + (s[|s| - 1] as int - '0' as int)
  }

  function Pow10(n: nat): (p: nat)
    ensures p >= 1
  {
    if n == 0 then 1 else 10 * Pow10(n - 1)
  }

  /** x * y, the product of a value and a factor. */
  function Times(x: real, y: real): real {
    x * y
  }

  /** x / d */
  function Over(x: real, d: real): real
    requires d != 0.0
  {
    x / d
  }

  /** x times ten to the power e. */
  function Scale10(x: real, e: int): real {
    if e >= 0 then Times(x, Pow10(e) as real) else Over(x, Pow10(-e) as real)
  }

  function ExponentValue(e: Option<Exponent>): int
    requires e.Some? ==> AllDigits(e.value.digits)
  {
    match e
    case None => 0
    case Some(x) => if Negative(x.sign) then -(DecimalValue(x.digits) as int) else DecimalValue(x.digits)
  }

  /** The exact value a number token denotes. */
  function Value(n: Number): real
    requires WellFormed(n)
  {
    var magnitude := DecimalValue(n.whole) as real + Over(DecimalValue(n.fraction) as real, Pow10(|n.fraction|) as real);
    var v := Scale10(magnitude, ExponentValue(n.exponent));
    if Negative(n.sign) then -v else v
  }

  // ------------------------------------------------------------------
  // Positions in a string
  // ------------------------------------------------------------------

  /** t occurs in s at position i. */
  predicate SpellsAt(s: string, i: nat, t: string) {
    i + |t| <= |s| && forall k {:trigger t[k]} :: 0 <= k < |t| ==> s[i + k] == t[k]
  }

  lemma SpellsSplit(s: string, i: nat, x: string, y: string)
    requires SpellsAt(s, i, x + y)
    ensures SpellsAt(s, i, x) && SpellsAt(s, i + |x|, y)
  {
    forall k | 0 <= k < |x|
      ensures s[i + k] == x[k]
    {
      assert (x + y)[k] == x[k];
    }
    forall k | 0 <= k < |y|
      ensures s[i + |x| + k] == y[k]
    {
      assert s[i + (|x| + k)] == (x + y)[|x| + k];
    }
  }

  lemma SpellsJoin(s: string, i: nat, x: string, y: string)
    requires SpellsAt(s, i, x) && SpellsAt(s, i + |x|, y)
    ensures SpellsAt(s, i, x + y)
  {
    forall k | 0 <= k < |x + y|
      ensures s[i + k] == (x + y)[k]
    {
      if k >= |x| {
        assert s[i + |x| + (k - |x|)] == y[k - |x|];
      }
    }
  }

  lemma SpellsSlice(s: string, i: nat, j: nat)
    requires i <= j <= |s|
    ensures SpellsAt(s, i, s[i..j])
  {
  }

  lemma SliceSpelled(s: string, i: nat, t: string)
    requires SpellsAt(s, i, t)
    ensures s[i..i + |t|] == t
  {
  }

  lemma SpellsConcat(x: string, y: string)
    ensures SpellsAt(x + y, 0, x) && SpellsAt(x + y, |x|, y)
  {
    assert forall k :: 0 <= k < |y| ==> (x + y)[|x| + k] == y[k];
  }

  // ------------------------------------------------------------------
  // Matching: re.match(SCANF_MEASUREMENT, s)
  // ------------------------------------------------------------------

  /** `[-+]?` at the start. */
  function SignLength(s: string): (n: nat)
    ensures n <= 1 && n <= |s|
    ensures n == 1 <==> 0 < |s| && IsSign(s[0])
  {
    if 0 < |s| && IsSign(s[0]) then 1 else 0
  }

  /** `(\.\d*)?` at position q: whether there is a point, the digits
      after it, and where the part ends. */
  function ScanFraction(s: string, q: nat): (r: (bool, string, nat))
    requires q <= |s|
    ensures r.2 <= |s| && AllDigits(r.1)
    ensures r.0 ==> r.2 == q + 1 + |r.1|
    ensures !r.0 ==> r.2 == q && |r.1| == 0
  {
    if q < |s| && s[q] == '.' then
      var f := Run(Digits, s, q + 1);
      (true, s[q + 1..q + 1 + f], q + 1 + f)
    else (false, "", q)
  }

  /** The part ScanFraction reads is spelled where it reads it. */
  lemma FractionSpells(s: string, q: nat)
    requires q <= |s|
    ensures SpellsAt(s, q, FractionText(ScanFraction(s, q).0, ScanFraction(s, q).1))
  {
    if q < |s| && s[q] == '.' {
      var f := Run(Digits, s, q + 1);
      SpellsSlice(s, q + 1, q + 1 + f);
      assert SpellsAt(s, q, ".");
      SpellsJoin(s, q, ".", s[q + 1..q + 1 + f]);
    }
  }

  /** The mantissa group at position p, `\d+(\.\d*)?|\.\d+` matched
      greedily: the whole digits, whether there is a point, the fraction
      digits, and where the mantissa ends. */
  function ScanMantissa(s: string, p: nat): (r: Option<(string, bool, string, nat)>)
    requires p <= |s|
    ensures r.Some? ==>
              r.value.3 <= |s| &&
              (r.value.1 ==> r.value.3 == p + |r.value.0| + 1 + |r.value.2|) &&
              (!r.value.1 ==> r.value.3 == p + |r.value.0|) &&
              AllDigits(r.value.0) && AllDigits(r.value.2) && (r.value.1 || |r.value.2| == 0) &&
              (|r.value.0| > 0 || (r.value.1 && |r.value.2| > 0))
  {
    var q := p + Run(Digits, s, p);
    var fr := ScanFraction(s, q);
    if q == p && !(fr.0 && |fr.1| > 0) then None
    else Some((s[p..q], fr.0, fr.1, fr.2))
  }

  /** The mantissa ScanMantissa reads is spelled where it reads it. */
  lemma MantissaSpells(s: string, p: nat)
    requires p <= |s| && ScanMantissa(s, p).Some?
    ensures var m := ScanMantissa(s, p).value; SpellsAt(s, p, m.0 + FractionText(m.1, m.2))
  {
    var q := p + Run(Digits, s, p);
    var fr := ScanFraction(s, q);
    FractionSpells(s, q);
    SpellsSlice(s, p, q);
    SpellsJoin(s, p, s[p..q], FractionText(fr.0, fr.1));
  }

  /** The optional exponent group at position i, `[eE][-+]?\d+` or
      nothing, and where the match goes on. */
  function ScanExponent(s: string, i: nat): (r: (Option<Exponent>, nat))
    requires i <= |s|
    ensures r.1 <= |s|
    ensures r.0.None? ==> r.1 == i
    ensures r.0.Some? ==> r.1 == i + 1 + |r.0.value.sign| + |r.0.value.digits|
    ensures r.0.Some? ==>
              (r.0.value.marker == 'e' || r.0.value.marker == 'E') &&
              IsSignText(r.0.value.sign) && |r.0.value.digits| > 0 && AllDigits(r.0.value.digits)
  {
    if i < |s| && (s[i] == 'e' || s[i] == 'E') then
      var sp := if i + 1 < |s| && IsSign(s[i + 1]) then 1 else 0;
      var g := i + 1 + sp;
      var d := Run(Digits, s, g);
      if d > 0 then
        assert sp == 1 ==> s[i + 1..g] == [s[i + 1]];
        (Some(Exponent(s[i], s[i + 1..g], s[g..g + d])), g + d)
      else (None, i)
    else (None, i)
  }

  /** The exponent ScanExponent reads is spelled where it reads it. */
  lemma ExponentSpells(s: string, i: nat)
    requires i <= |s|
    ensures SpellsAt(s, i, ExponentText(ScanExponent(s, i).0))
  {
    var r := ScanExponent(s, i);
    if r.0.Some? {
      var e := r.0.value;
      var g := i + 1 + |e.sign|;
      SpellsSlice(s, i + 1, g);
      SpellsSlice(s, g, g + |e.digits|);
      SpellsJoin(s, i + 1, e.sign, e.digits);
      assert SpellsAt(s, i, [s[i]]);
      SpellsJoin(s, i, [s[i]], e.sign + e.digits);
    }
  }

  /** The number group at the start of s, matched greedily as the regular
      expression engine does, and where it ends; None when s does not
      start with a number. */
  function ScanNumber(s: string): (r: Option<(Number, nat)>)
    ensures r.Some? ==> WellFormed(r.value.0) && r.value.1 <= |s|
  {
    var p := SignLength(s);
    var m := ScanMantissa(s, p);
    if m.None? then None
    else
      var ex := ScanExponent(s, m.value.3);
      Some((Number(s[..p], m.value.0, m.value.1, m.value.2, ex.0), ex.1))
  }

  /** What the scan finds is the prefix of s it reads. */
  lemma ScanReadsPrefix(s: string)
    requires ScanNumber(s).Some?
    ensures s[..ScanNumber(s).value.1] == Text(ScanNumber(s).value.0)
  {
    var p := SignLength(s);
    var m := ScanMantissa(s, p).value;
    var ex := ScanExponent(s, m.3);
    var n := Number(s[..p], m.0, m.1, m.2, ex.0);
    assert n == ScanNumber(s).value.0;
    MantissaSpells(s, p);
    ExponentSpells(s, m.3);
    assert MantissaText(n) == m.0 + FractionText(m.1, m.2);
    assert |s[..p] + MantissaText(n)| == m.3;
    SpellsSlice(s, 0, p);
    SpellsJoin(s, 0, s[..p], MantissaText(n));
    SpellsJoin(s, 0, s[..p] + MantissaText(n), ExponentText(ex.0));
    SliceSpelled(s, 0, Text(n));
  }

  /** The two results of parse_measurement: the value and the units. */
  datatype Measurement = Measurement(value: Option<real>, units: Option<string>)

  /** parse_measurement: the value of the leading number and the run of
      non-blank characters after the blanks that follow it; (None, None)
      when s does not start with a number. */
  function ParseMeasurement(s: string): (m: Measurement)
    ensures m.value.Some? <==> m.units.Some?
    ensures m.units.Some? ==> NoSpace(m.units.value)
  {
    match ScanNumber(s)
    case None => Measurement(None, None)
    case Some((n, e)) => Measurement(Some(Value(n)), Some(UnitsAfter(s, e)))
  }

  /** The units group `\s*(\S*)`: the run of non-blank characters after
      the blanks that follow position e. */
  function UnitsAfter(s: string, e: nat): (u: string)
    requires e <= |s|
    ensures NoSpace(u)
  {
    var sp := Run(Blanks, s, e);
    var n := Run(NonBlanks, s, e + sp);
    s[e + sp..e + sp + n]
  }

  /** s starts with what the number pattern can match: an optional sign,
      then a digit, or a point followed by a digit. */
  predicate StartsNumber(s: string) {
    var p := if 0 < |s| && IsSign(s[0]) then 1 else 0;
    (p < |s| && IsDigit(s[p])) || (p + 1 < |s| && s[p] == '.' && IsDigit(s[p + 1]))
  }

  /** parse_measurement finds a value exactly when s starts with a
      number. */
  lemma ParseFindsNumber(s: string)
    ensures ParseMeasurement(s).value.Some? <==> StartsNumber(s)
  {
    var p := SignLength(s);
    var w := Run(Digits, s, p);
    if p < |s| && s[p] == '.' && w == 0 {
      var f := Run(Digits, s, p + 1);
      assert f > 0 <==> p + 1 < |s| && IsDigit(s[p + 1]);
    }
  }

  /** The scan reads a well-formed number token back when a blank or the
      end of the string follows it. */
  lemma ScanText(n: Number, rest: string)
    requires WellFormed(n)
    requires rest == [] || IsSpace(rest[0])
    ensures ScanNumber(Text(n) + rest) == Some((n, |Text(n)|))
  {
    SpellsConcat(Text(n), rest);
    if rest != [] {
      assert (Text(n) + rest)[|Text(n)|] == rest[0];
    }
    NumberScan(n, Text(n) + rest);
  }

  /** ScanText for any string that spells the token at its start. */
  lemma NumberScan(n: Number, s: string)
    requires WellFormed(n) && SpellsAt(s, 0, Text(n))
    requires |Text(n)| == |s| || IsSpace(s[|Text(n)|])
    ensures ScanNumber(s) == Some((n, |Text(n)|))
  {
    var m := MantissaText(n);
    var xs := ExponentText(n.exponent);
    SpellsSplit(s, 0, n.sign + m, xs);
    SpellsSplit(s, 0, n.sign, m);
    PartsScan(n, s);
  }

  /** NumberScan with the sign, the mantissa and the exponent spelled one
      after the other. */
  lemma PartsScan(n: Number, s: string)
    requires WellFormed(n)
    requires SpellsAt(s, 0, n.sign) && SpellsAt(s, |n.sign|, MantissaText(n))
    requires SpellsAt(s, |n.sign| + |MantissaText(n)|, ExponentText(n.exponent))
    requires |Text(n)| == |s| || IsSpace(s[|Text(n)|])
    ensures ScanNumber(s) == Some((n, |Text(n)|))
  {
    var a := |n.sign|;
    var xs := ExponentText(n.exponent);
    var e := a + |MantissaText(n)|;
    assert |Text(n)| == e + |xs|;
    SignScan(n, s);
    assert e == |s| || (!IsDigit(s[e]) && s[e] != '.') by {
      if xs != [] {
        assert s[e + 0] == xs[0];
      }
    }
    MantissaScan(n, s, a);
    ExponentScan(n, s, e);
    AssembleScan(s, n, a, e, |Text(n)|);
  }

  /** ScanNumber puts together what its three steps read. */
  lemma AssembleScan(s: string, n: Number, a: nat, e: nat, end: nat)
    requires a <= e <= |s| && SignLength(s) == a && s[..a] == n.sign
    requires ScanMantissa(s, a) == Some((n.whole, n.dot, n.fraction, e))
    requires ScanExponent(s, e) == (n.exponent, end)
    ensures ScanNumber(s) == Some((n, end))
  {
  }

  /** The optional sign is read as the token's sign. */
  lemma SignScan(n: Number, s: string)
    requires WellFormed(n)
    requires SpellsAt(s, 0, n.sign) && SpellsAt(s, |n.sign|, MantissaText(n))
    ensures SignLength(s) == |n.sign| && s[..|n.sign|] == n.sign
  {
    var m := MantissaText(n);
    if |n.sign| == 0 {
      assert s[0 + 0] == m[0];
      assert m[0] == '.' || IsDigit(m[0]);
    } else {
      assert s[0 + 0] == n.sign[0];
    }
    SliceSpelled(s, 0, n.sign);
  }

  /** The mantissa part of ScanText. */
  lemma MantissaScan(n: Number, s: string, a: nat)
    requires WellFormed(n)
    requires SpellsAt(s, a, MantissaText(n))
    requires a + |MantissaText(n)| == |s| || (!IsDigit(s[a + |MantissaText(n)|]) && s[a + |MantissaText(n)|] != '.')
    ensures ScanMantissa(s, a) == Some((n.whole, n.dot, n.fraction, a + |MantissaText(n)|))
  {
    var b := a + |n.whole|;
    var t := FractionText(n.dot, n.fraction);
    SpellsSplit(s, a, n.whole, t);
    assert b == |s| || !IsDigit(s[b]) by {
      if t != [] {
        assert s[b + 0] == t[0] == '.';
      }
    }
    WholeScan(n.whole, s, a);
    FractionScan(n.dot, n.fraction, s, b);
    SliceSpelled(s, a, n.whole);
    var q := a + Run(Digits, s, a);
    var fr := ScanFraction(s, q);
    assert q == b && fr == (n.dot, n.fraction, b + |t|);
    assert !(q == a && !(fr.0 && |fr.1| > 0));
    assert b + |t| == a + |MantissaText(n)|;
  }

  /** The whole digits are read up to the point or the end of the
      mantissa. */
  lemma WholeScan(whole: string, s: string, a: nat)
    requires AllDigits(whole) && SpellsAt(s, a, whole)
    requires a + |whole| == |s| || !IsDigit(s[a + |whole|])
    ensures Run(Digits, s, a) == |whole|
  {
    forall k | a <= k < a + |whole|
      ensures InClass(Digits, s[k])
    {
      assert s[a + (k - a)] == whole[k - a];
    }
    RunStops(Digits, s, a, a + |whole|);
  }

  /** The point and the fraction digits are read up to the end of the
      mantissa. */
  lemma FractionScan(dot: bool, fraction: string, s: string, b: nat)
    requires AllDigits(fraction) && (dot || |fraction| == 0)
    requires SpellsAt(s, b, FractionText(dot, fraction))
    requires b + |FractionText(dot, fraction)| == |s| ||
             (!IsDigit(s[b + |FractionText(dot, fraction)|]) && s[b + |FractionText(dot, fraction)|] != '.')
    ensures ScanFraction(s, b) == (dot, fraction, b + |FractionText(dot, fraction)|)
  {
    if dot {
      SpellsSplit(s, b, ".", fraction);
      assert s[b + 0] == "."[0];
      WholeScan(fraction, s, b + 1);
      SliceSpelled(s, b + 1, fraction);
    }
  }

  /** ScanExponent puts together the marker, the sign and the digits it
      reads. */
  lemma ExponentOfParts(s: string, i: nat, marker: char, sign: string, digits: string, end: nat)
    requires i < |s| && s[i] == marker && (marker == 'e' || marker == 'E')
    requires end == i + 1 + |sign| + |digits|
    requires IsSignText(sign) && |digits| > 0
    requires i + 1 + |sign| + |digits| <= |s|
    requires s[i + 1..i + 1 + |sign|] == sign
    requires s[i + 1 + |sign|..i + 1 + |sign| + |digits|] == digits
    requires Run(Digits, s, i + 1 + |sign|) == |digits|
    requires |sign| == 0 ==> IsDigit(s[i + 1])
    ensures ScanExponent(s, i) == (Some(Exponent(marker, sign, digits)), end)
  {
    if |sign| != 0 {
      assert s[i + 1] == sign[0];
    }
  }

  /** The exponent part of ScanText. */
  lemma ExponentScan(n: Number, s: string, d: nat)
    requires WellFormed(n)
    requires SpellsAt(s, d, ExponentText(n.exponent))
    requires d + |ExponentText(n.exponent)| == |s| || IsSpace(s[d + |ExponentText(n.exponent)|])
    ensures ScanExponent(s, d) == (n.exponent, d + |ExponentText(n.exponent)|)
  {
    if n.exponent.Some? {
      ExponentSplit(n.exponent.value, s, d);
      ExponentScanSome(n.exponent.value, s, d);
    } else {
      assert !(d < |s| && (s[d] == 'e' || s[d] == 'E'));
      NoExponent(s, d);
    }
  }

  /** The exponent case of ExponentScan: a marker, a sign and digits
      spelled at d and followed by the end or a blank are read back as
      they are. */
  lemma ExponentScanSome(x: Exponent, s: string, d: nat)
    requires (x.marker == 'e' || x.marker == 'E') && IsSignText(x.sign)
    requires |x.digits| > 0 && AllDigits(x.digits)
    requires d < |s| && s[d] == x.marker
    requires SpellsAt(s, d + 1, x.sign) && SpellsAt(s, d + 1 + |x.sign|, x.digits)
    requires d + 1 + |x.sign| + |x.digits| == |s| || IsSpace(s[d + 1 + |x.sign| + |x.digits|])
    ensures ScanExponent(s, d) == (Some(x), d + 1 + |x.sign| + |x.digits|)
  {
    ExponentPartsRead(x, s, d);
    ExponentOfParts(s, d, x.marker, x.sign, x.digits, d + 1 + |x.sign| + |x.digits|);
  }

  /** The sign and the digits spelled after the marker are the slices and
      the digit run that ScanExponent reads. */
  lemma ExponentPartsRead(x: Exponent, s: string, d: nat)
    requires IsSignText(x.sign) && |x.digits| > 0 && AllDigits(x.digits)
    requires d < |s|
    requires SpellsAt(s, d + 1, x.sign) && SpellsAt(s, d + 1 + |x.sign|, x.digits)
    requires d + 1 + |x.sign| + |x.digits| == |s| || IsSpace(s[d + 1 + |x.sign| + |x.digits|])
    ensures |x.sign| == 0 ==> IsDigit(s[d + 1])
    ensures Run(Digits, s, d + 1 + |x.sign|) == |x.digits|
    ensures s[d + 1 + |x.sign|..d + 1 + |x.sign| + |x.digits|] == x.digits
    ensures s[d + 1..d + 1 + |x.sign|] == x.sign
  {
    var g := d + 1 + |x.sign|;
    if |x.sign| == 0 {
      assert s[g + 0] == x.digits[0];
    }
    WholeScan(x.digits, s, g);
    SliceSpelled(s, g, x.digits);
    SliceSpelled(s, d + 1, x.sign);
  }

  /** The spelling of an exponent splits into its marker, sign and digits. */
  lemma ExponentSplit(x: Exponent, s: string, d: nat)
    requires SpellsAt(s, d, ExponentText(Some(x)))
    ensures d < |s| && s[d] == x.marker
    ensures SpellsAt(s, d + 1, x.sign) && SpellsAt(s, d + 1 + |x.sign|, x.digits)
    ensures |ExponentText(Some(x))| == 1 + |x.sign| + |x.digits|
  {
    SpellsSplit(s, d, [x.marker], x.sign + x.digits);
    SpellsSplit(s, d + 1, x.sign, x.digits);
    assert s[d + 0] == [x.marker][0];
  }

  lemma NoExponent(s: string, i: nat)
    requires i <= |s| && !(i < |s| && (s[i] == 'e' || s[i] == 'E'))
    ensures ScanExponent(s, i) == (None, i)
  {
  }

  /** Printing a number, a blank and a unit suffix and parsing it back
      gives the number's value and the suffix. */
  lemma ParseRoundTrip(n: Number, units: string)
    requires WellFormed(n) && NoSpace(units)
    ensures ParseMeasurement(Text(n) + " " + units) == Measurement(Some(Value(n)), Some(units))
  {
    var t := Text(n);
    var s := t + " " + units;
    SpellsConcat(t + " ", units);
    SpellsConcat(t, " ");
    SpellsSplit(s, 0, t, " ");
    MeasurementScan(n, units, s);
  }

  /** ParseRoundTrip for any string that spells the number, a blank and
      the suffix. */
  lemma MeasurementScan(n: Number, units: string, s: string)
    requires WellFormed(n) && NoSpace(units)
    requires SpellsAt(s, 0, Text(n)) && SpellsAt(s, |Text(n)|, " ") && SpellsAt(s, |Text(n)| + 1, units)
    requires |s| == |Text(n)| + 1 + |units|
    ensures ParseMeasurement(s) == Measurement(Some(Value(n)), Some(units))
  {
    var e := |Text(n)|;
    assert s[e + 0] == " "[0];
    NumberScan(n, s);
    SuffixRuns(s, e, units);
  }

  /** After the number, one blank and then the suffix up to the end. */
  lemma SuffixRuns(s: string, e: nat, units: string)
    requires NoSpace(units) && e < |s| && s[e] == ' '
    requires SpellsAt(s, e + 1, units) && |s| == e + 1 + |units|
    ensures Run(Blanks, s, e) == 1 && Run(NonBlanks, s, e + 1) == |units|
    ensures UnitsAfter(s, e) == units
  {
    forall k | e + 1 <= k < |s|
      ensures InClass(NonBlanks, s[k])
    {
      assert s[e + 1 + (k - e - 1)] == units[k - e - 1];
    }
    if units != [] {
      assert s[e + 1 + 0] == units[0];
    }
    RunStops(Blanks, s, e, e + 1);
    RunStops(NonBlanks, s, e + 1, |s|);
    SliceSpelled(s, e + 1, units);
  }

  // ------------------------------------------------------------------
  // str.strip()
  // ------------------------------------------------------------------

  function StripLeft(s: string): (r: string)
    ensures |r| <= |s| && r == s[|s| - |r|..]
    ensures r == [] || !IsSpace(r[0])
  {
    if |s| > 0 && IsSpace(s[0]) then StripLeft(s[1..]) else s
  }

  function StripRight(s: string): (r: string)
    ensures |r| <= |s| && r == s[..|r|]
    ensures r == [] || !IsSpace(r[|r| - 1])
  {
    if |s| > 0 && IsSpace(s[|s| - 1]) then StripRight(s[..|s| - 1]) else s
  }

  /** str.strip(): blanks removed from both ends. */
  function Strip(s: string): string {
    StripRight(StripLeft(s))
  }

  /** A suffix without blanks, such as the one parse_measurement returns,
      is its own strip. */
  lemma StripNoSpace(s: string)
    requires NoSpace(s)
    ensures Strip(s) == s
  {
    if |s| > 0 {
      assert !IsSpace(s[0]) && !IsSpace(s[|s| - 1]);
    }
    assert StripLeft(s) == s;
    assert StripRight(s) == s;
  }

  // ------------------------------------------------------------------
  // Converting
  // ------------------------------------------------------------------

  /** `conversion.get(units, default)` */
  function Lookup(conv: map<string, real>, units: string, default: real): real {
    if units in conv then conv[units] else default
  }

  /** The parse-and-convert part of gui.get_value_float, given the entered
      text and the label of the field's units control: an empty entry is
      0; blank or missing units take the label's units; an entry that
      does not start with a number is 0; otherwise the value times the
      factor of its units, 1 when the table has none. */
  function FieldValue(conv: map<string, real>, input: string, unitsLabel: string): (r: real)
    ensures input == "" || ParseMeasurement(input).value.None? ==> r == 0.0
    ensures input != "" && ParseMeasurement(input).value.Some? ==>
              exists f :: (f == 1.0 || f in conv.Values) && r == Times(ParseMeasurement(input).value.value, f)
  {
    var m := if input == "" then Measurement(Some(0.0), Some("")) else ParseMeasurement(input);
    if m.value.None? then 0.0 else Times(m.value.value, FieldFactor(conv, m.units, unitsLabel))
  }

  /** The factor get_value_float multiplies by: that of the stripped units
      found, or of the label's units when none were found, and 1 when the
      units are not in the table. */
  function FieldFactor(conv: map<string, real>, found: Option<string>, unitsLabel: string): (f: real)
    ensures f == 1.0 || f in conv.Values
  {
    var units := if found.None? || Strip(found.value) == "" then unitsLabel else Strip(found.value);
    Lookup(conv, units, 1.0)
  }

  /** A number followed by a blank and a suffix reads as its value times
      the suffix's factor; with no suffix the label's units apply. */
  lemma FieldValueOfNumber(conv: map<string, real>, n: Number, units: string, unitsLabel: string)
    requires WellFormed(n) && NoSpace(units)
    ensures FieldValue(conv, Text(n) + " " + units, unitsLabel) ==
            Times(Value(n), Lookup(conv, if units == "" then unitsLabel else units, 1.0))
  {
    var s := Text(n) + " " + units;
    ParseRoundTrip(n, units);
    assert s[|s| - |units| - 1] == ' ';
    FieldValueOfMeasurement(conv, s, Value(n), units, unitsLabel);
  }

  /** An entry that parses to a value and a suffix without blanks reads as
      the value times the factor of the suffix, or of the label's units
      when the suffix is empty. */
  lemma FieldValueOfMeasurement(conv: map<string, real>, input: string, v: real, units: string, unitsLabel: string)
    requires input != "" && ParseMeasurement(input) == Measurement(Some(v), Some(units)) && NoSpace(units)
    ensures FieldValue(conv, input, unitsLabel) == Times(v, Lookup(conv, if units == "" then unitsLabel else units, 1.0))
  {
    StripNoSpace(units);
    var m := if input == "" then Measurement(Some(0.0), Some("")) else ParseMeasurement(input);
    assert m == Measurement(Some(v), Some(units));
    var u := if m.units.None? || Strip(m.units.value) == "" then unitsLabel else Strip(m.units.value);
    assert u == if units == "" then unitsLabel else units;
    assert FieldValue(conv, input, unitsLabel) == Times(v, Lookup(conv, u, 1.0));
  }

  /** An empty entry, or one that does not start with a number, reads as
      0. */
  lemma FieldValueWithoutNumber(conv: map<string, real>, input: string, unitsLabel: string)
    requires input == "" || !StartsNumber(input)
    ensures FieldValue(conv, input, unitsLabel) == 0.0
  {
    if input != "" {
      ParseFindsNumber(input);
    }
  }

  /** The result of convert_to_iu: None when there is no number, the
      converted value, or the TypeError `1/default_units` raises when
      neither the units nor the default units are in the table. */
  datatype Conversion = NoValue | Converted(iu: real) | TypeError

  /** convert_to_iu with default_units given as a suffix: a missing or
      zero factor falls through to `1/default_units`. */
  function ConvertToIu(conv: map<string, real>, s: string, defaultUnits: string): (r: Conversion)
    ensures r == NoValue <==> ParseMeasurement(s).value.None?
    ensures r == TypeError <==>
              ParseMeasurement(s).value.Some? &&
              Lookup(conv, ParseMeasurement(s).units.value, Lookup(conv, defaultUnits, 0.0)) == 0.0
    ensures r.Converted? ==>
              r.iu == Times(ParseMeasurement(s).value.value,
                            Lookup(conv, ParseMeasurement(s).units.value, Lookup(conv, defaultUnits, 0.0)))
  {
    var m := ParseMeasurement(s);
    if m.value.None? then NoValue
    else
      var units := m.units.value;
      var mult := if units in conv then Some(conv[units]) else if defaultUnits in conv then Some(conv[defaultUnits]) else None;
      if mult.None? || mult.value == 0.0 then
        // `1/default_units` on a string
        TypeError
      else Converted(Times(m.value.value, mult.value))
  }

  /** With a table whose factors are all non-zero, convert_to_iu fails
      with a TypeError exactly when neither the units found nor the
      default units are in it. */
  lemma ConvertFailsOnUnknownUnits(conv: map<string, real>, s: string, defaultUnits: string)
    requires forall k :: k in conv ==> conv[k] != 0.0
    ensures ConvertToIu(conv, s, defaultUnits) == TypeError <==>
              ParseMeasurement(s).value.Some? && ParseMeasurement(s).units.value !in conv && defaultUnits !in conv
  {
  }

  /** A number written with a blank and a known suffix converts to its
      value times that suffix's factor, whatever the default units. */
  lemma ConvertRoundTrip(conv: map<string, real>, n: Number, units: string, defaultUnits: string)
    requires WellFormed(n) && NoSpace(units) && units in conv && conv[units] != 0.0
    ensures ConvertToIu(conv, Text(n) + " " + units, defaultUnits) == Converted(Times(Value(n), conv[units]))
  {
    ParseRoundTrip(n, units);
  }
}
