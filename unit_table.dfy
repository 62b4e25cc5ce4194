/** The `conversion` literal of kipadcheck.py: the factor from each unit
    suffix to nanometres (pcbnew's internal unit), one map per family of
    spellings, and the table with its squared suffixes built from it. */
module UnitTable {

  import opened Conversion
  import Units

  const IuPerMm: real := 1000000.0
  const IuPerMils: real := 25400.0

  const Nanometres: map<string, real> := map["" := 1.0, "nm" := 1.0, "nanometer" := 1.0, "nanometers" := 1.0]
  const Micrometres: map<string, real> := map[
    "um" := IuPerMm / 1000.0, "micron" := IuPerMm / 1000.0, "microns" := IuPerMm / 1000.0,
    "micrometer" := IuPerMm / 1000.0, "micrometers" := IuPerMm / 1000.0]
  const Decimicrons: map<string, real> := map[
    "decimicron" := IuPerMm / 10000.0, "decimicrons" := IuPerMm / 10000.0,
    "du" := IuPerMm / 10000.0, "dus" := IuPerMm / 10000.0, "dum" := IuPerMm / 10000.0, "dums" := IuPerMm / 10000.0]
  const Millimetres: map<string, real> := map["mm" := IuPerMm, "millimeter" := IuPerMm, "millimeters" := IuPerMm]
  const Metres: map<string, real> := map["m" := IuPerMm * 1000.0, "meter" := IuPerMm * 1000.0, "meters" := IuPerMm * 1000.0]
  const Kilometres: map<string, real> := map[
    "km" := IuPerMm * 1000000.0, "kilometer" := IuPerMm * 1000000.0, "kilometers" := IuPerMm * 1000000.0]
  const Mils: map<string, real> := map["thou" := IuPerMils, "mil" := IuPerMils, "mils" := IuPerMils]
  const Decimils: map<string, real> := map[
    "dmil" := IuPerMils / 10.0, "dmils" := IuPerMils / 10.0, "decimil" := IuPerMils / 10.0, "decimils" := IuPerMils / 10.0]
  const Centimils: map<string, real> := map[
    "cmil" := IuPerMils / 100.0, "cmils" := IuPerMils / 100.0,
    "centimil" := IuPerMils / 100.0, "centimils" := IuPerMils / 100.0]
  const Centimetres: map<string, real> := map[
    "cm" := IuPerMm * 10.0, "centimeter" := IuPerMm * 10.0, "centimeters" := IuPerMm * 10.0]
  const Inches: map<string, real> := map[
    "in" := IuPerMils * 1000.0, "inch" := IuPerMils * 1000.0, "inches" := IuPerMils * 1000.0, "\"" := IuPerMils * 1000.0]
  const Feet: map<string, real> := map[
    "'" := IuPerMils * 1000.0 * 12.0, "feet" := IuPerMils * 1000.0 * 12.0, "foot" := IuPerMils * 1000.0 * 12.0]

  /** The literal as written, before the squared suffixes are added. */
  const BaseConversion: map<string, real> :=
    Nanometres + Micrometres + Decimicrons + Millimetres + Metres + Kilometres +
    Mils + Decimils + Centimils + Centimetres + Inches + Feet

  /** Every suffix is plain and every factor positive. */
  ghost predicate PlainPositive(m: map<string, real>) {
    forall k :: k in m ==> PlainUnit(k) && m[k] > 0.0
  }

  lemma UnionPlainPositive(a: map<string, real>, b: map<string, real>)
    requires PlainPositive(a) && PlainPositive(b)
    ensures PlainPositive(a + b)
  {
  }

  lemma NanometresPlain() ensures PlainPositive(Nanometres) {}
  lemma MicrometresPlain() ensures PlainPositive(Micrometres) {}
  lemma DecimicronsPlain() ensures PlainPositive(Decimicrons) {}
  lemma MillimetresPlain() ensures PlainPositive(Millimetres) {}
  lemma MetresPlain() ensures PlainPositive(Metres) {}
  lemma KilometresPlain() ensures PlainPositive(Kilometres) {}
  lemma MilsPlain() ensures PlainPositive(Mils) {}
  lemma DecimilsPlain() ensures PlainPositive(Decimils) {}
  lemma CentimilsPlain() ensures PlainPositive(Centimils) {}
  lemma CentimetresPlain() ensures PlainPositive(Centimetres) {}
  lemma InchesPlain() ensures PlainPositive(Inches) {}
  lemma FeetPlain() ensures PlainPositive(Feet) {}

  /** No suffix of the literal ends in '2', '^' or '*', so the squared
      suffixes never overwrite an entry, and every factor is positive. */
  lemma BaseConversionPlain()
    ensures forall k :: k in BaseConversion ==> PlainUnit(k) && BaseConversion[k] > 0.0
  {
    NanometresPlain();
    MicrometresPlain();
    DecimicronsPlain();
    MillimetresPlain();
    MetresPlain();
    KilometresPlain();
    MilsPlain();
    DecimilsPlain();
    CentimilsPlain();
    CentimetresPlain();
    InchesPlain();
    FeetPlain();
    var m := Nanometres;
    UnionPlainPositive(m, Micrometres);
    m := m + Micrometres;
    UnionPlainPositive(m, Decimicrons);
    m := m + Decimicrons;
    UnionPlainPositive(m, Millimetres);
    m := m + Millimetres;
    UnionPlainPositive(m, Metres);
    m := m + Metres;
    UnionPlainPositive(m, Kilometres);
    m := m + Kilometres;
    UnionPlainPositive(m, Mils);
    m := m + Mils;
    UnionPlainPositive(m, Decimils);
    m := m + Decimils;
    UnionPlainPositive(m, Centimils);
    m := m + Centimils;
    UnionPlainPositive(m, Centimetres);
    m := m + Centimetres;
    UnionPlainPositive(m, Inches);
    m := m + Inches;
    UnionPlainPositive(m, Feet);
    m := m + Feet;
    assert m == BaseConversion;
  }

  /** The module-level construction of `conversion`: the literal, then the
      loop over its keys that adds the squared suffixes. */
  method BuildConversion() returns (conv: map<string, real>)
    ensures ConversionOf(BaseConversion, conv)
    ensures forall k :: k in conv ==> conv[k] > 0.0
  {
    BaseConversionPlain();
    var keys := Keys(BaseConversion);
    conv := AddSquares(BaseConversion, keys);
    SquaresPositive(BaseConversion, conv);
  }

  /** With the built table, convert_to_iu fails with a TypeError exactly
      when neither the units found nor the default units are in it. */
  lemma TableConvertFailsOnUnknownUnits(conv: map<string, real>, s: string, defaultUnits: string)
    requires ConversionOf(BaseConversion, conv)
    ensures Units.ConvertToIu(conv, s, defaultUnits) == Units.TypeError <==>
              Units.ParseMeasurement(s).value.Some? && Units.ParseMeasurement(s).units.value !in conv &&
              defaultUnits !in conv
  {
    BaseConversionPlain();
    SquaresPositive(BaseConversion, conv);
    Units.ConvertFailsOnUnknownUnits(conv, s, defaultUnits);
  }
}
