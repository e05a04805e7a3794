/**
  The decoding steps the parsers share: a numeric field is taken only when
  its scratch text is non-empty and the converted value passes a range check;
  otherwise the record keeps its sentinel and the has_* flag stays 0.
 */
module FieldDecode {
  import opened NumberText
  import opened Records

  /** The range checks found in the parsers. */
  datatype Bounds =
    | Closed(lo: real, hi: real)      // lo <= x && x <= hi
    | HalfOpen(lo: real, hi: real)    // lo <= x && x < hi
    | AtLeast(lo: real)               // lo <= x
    | Unbounded                       // no check

  predicate Within(x: real, b: Bounds) {
    match b
    case Closed(lo, hi) => lo <= x <= hi
    case HalfOpen(lo, hi) => lo <= x < hi
    case AtLeast(lo) => lo <= x
    case Unbounded => true
  }

  /** `if (strlen(t) > 0) { x = atof(t); if (in range) { field = x; has = 1; } }` */
  function RangedReal(text: string, b: Bounds, sentinel: real): Reading<real> {
    if |text| > 0 && Within(Atof(text), b) then Reading(Atof(text), true) else Reading(sentinel, false)
  }

  /** The same for a field whose sentinel is NaN. */
  function RangedDouble(text: string, b: Bounds): Reading<Double> {
    if |text| > 0 && Within(Atof(text), b) then Reading(Num(Atof(text)), true) else Reading(NaN, false)
  }

  /** `if (strlen(t) > 0) { n = atoi(t); if (lo <= n && n <= hi) { field = n; has = 1; } }` */
  function RangedInt(text: string, lo: int, hi: int, sentinel: int): Reading<int> {
    if |text| > 0 && lo <= Atoi(text) <= hi then Reading(Atoi(text), true) else Reading(sentinel, false)
  }

  /** A ranged integer is present exactly when its text is non-empty and in range; it then holds atoi of the text. */
  lemma RangedIntReading(text: string, lo: int, hi: int, sentinel: int)
    ensures var r := RangedInt(text, lo, hi, sentinel);
      (r.present <==> |text| > 0 && lo <= Atoi(text) <= hi) &&
      (r.present ==> r.value == Atoi(text)) && (!r.present ==> r.value == sentinel)
  {
  }

  /** A ranged real is present exactly when its text is non-empty and in range; it then holds atof of the text. */
  lemma RangedRealReading(text: string, b: Bounds, sentinel: real)
    ensures var r := RangedReal(text, b, sentinel);
      (r.present <==> |text| > 0 && Within(Atof(text), b)) &&
      (r.present ==> r.value == Atof(text)) && (!r.present ==> r.value == sentinel)
  {
  }

  /** The same for a value whose sentinel is NaN. */
  lemma RangedDoubleReading(text: string, b: Bounds)
    ensures var r := RangedDouble(text, b);
      (r.present <==> |text| > 0 && Within(Atof(text), b)) &&
      (r.present ==> r.value == Num(Atof(text))) && (!r.present ==> r.value == NaN)
  {
  }

  /** The first character of a scratch buffer; NUL when it is empty. */
  function Lead(text: string): char {
    if |text| > 0 then text[0] else '\0'
  }
}
