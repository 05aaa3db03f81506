/** The 16-bit encoding of forecast fields and its inverse
    (src/EWMRS/rap/uint16_pipeline.py, scripts/plot_rap_uint16_fields.py), over reals. */
module Quantiser {
  import opened Numbers
  import opened RealArithmetic
  import opened Wrappers

  /** The scale of a layer and the two catalogue constants. */
  datatype Scale = Scale(min: real, max: real, validMax: nat, nodata: nat)

  datatype Error = EmptyRange | SizeMismatch

  /** What the catalogue promises of its constants: the reserved code lies above the valid ones, inside 16 bits. */
  predicate Sound(s: Scale) {
    s.min < s.max && 0 < s.validMax < s.nodata < 0x10000
  }

  // ---------- rounding ----------

  /** Round half to even. */
  function Rint(r: real): int {
    var f := r.Floor;
    var d := r - f as real;
    if d < 0.5 || (d == 0.5 && f % 2 == 0) then f else f + 1
  }

  lemma RintNear(r: real)
    ensures r - 0.5 <= Rint(r) as real <= r + 0.5
  {
  }

  lemma RintMonotone(a: real, b: real)
    requires a <= b
    ensures Rint(a) <= Rint(b)
  {
    assert a.Floor <= b.Floor;
    assert a.Floor == b.Floor || a.Floor + 1 <= b.Floor;
  }

  /** A value half way between two integers goes to the even one. */
  lemma RoundsHalfToEven(n: int)
    ensures Rint(n as real + 0.5) == if n % 2 == 0 then n else n + 1
  {
  }

  lemma RintExact(n: int)
    ensures Rint(n as real) == n
  {
  }

  // ---------- one element ----------

  function Clip(s: Scale, v: real): real {
    if v < s.min then s.min else if v > s.max then s.max else v
  }

  function Width(s: Scale): real {
    s.max - s.min
  }

  function Steps(s: Scale): real {
    s.validMax as real
  }

  /** The position of a value in its range, from 0 to 1. */
  function Position(s: Scale, v: real): real
    requires s.min < s.max
  {
    Over(Clip(s, v) - s.min, Width(s))
  }

  /** The value at a position of the range. */
  function Interpolate(s: Scale, p: real): real {
    s.min + Times(p, Width(s))
  }

  /** The nearest of `m` equal steps to a position. */
  function NearestStep(p: real, m: real): int {
    Rint(Times(p, m))
  }

  /** The stored code; the cast to 16 bits wraps. */
  function Code(s: Scale, v: real): nat
    requires s.min < s.max
  {
    NearestStep(Position(s, v), Steps(s)) % 0x10000
  }

  predicate IsValid(v: Number, missing: Option<Number>) {
    v.Finite? && !(missing.Some? && missing.value.Finite? && v == missing.value)
  }

  function Encode(s: Scale, missing: Option<Number>, v: Number): nat
    requires s.min < s.max
  {
    if IsValid(v, missing) then Code(s, v.v) else s.nodata
  }

  /** The decoder divides by its own constant. */
  const UINT16_VALID_MAX := 65534.0

  function Value(s: Scale, divisor: real, code: nat): real
    requires divisor > 0.0
  {
    Interpolate(s, Over(code as real, divisor))
  }

  function Decode(s: Scale, divisor: real, code: nat): Number
    requires divisor > 0.0
  {
    if code == s.nodata then NotANumber else Finite(Value(s, divisor, code))
  }

  /** The largest loss: half a step. */
  function HalfStep(s: Scale): real
    requires s.validMax > 0
  {
    Over(Width(s), Times(2.0, Steps(s)))
  }

  // ---------- arithmetic ----------

  lemma PositionBounds(s: Scale, v: real)
    requires s.min < s.max
    ensures 0.0 <= Position(s, v) <= 1.0
    ensures Interpolate(s, Position(s, v)) == Clip(s, v)
  {
    var w := Width(s);
    var d := Clip(s, v) - s.min;
    OverMonotone(0.0, d, w);
    OverMonotone(d, w, w);
    OverUnit(w);
    OverTimes(d, w);
  }

  lemma StepsInRange(p: real, n: nat)
    requires 0.0 <= p <= 1.0
    ensures 0 <= NearestStep(p, n as real) <= n
  {
    var m := n as real;
    TimesMonotone(0.0, p, m);
    TimesMonotone(p, 1.0, m);
    TimesLaws(m, m, m);
    RintMonotone(0.0, Times(p, m));
    RintMonotone(Times(p, m), m);
    RintExact(0);
    RintExact(n);
  }

  lemma NearestStepMonotone(p: real, q: real, m: real)
    requires p <= q && m >= 0.0
    ensures NearestStep(p, m) <= NearestStep(q, m)
  {
    TimesMonotone(p, q, m);
    RintMonotone(Times(p, m), Times(q, m));
  }

  /** The nearest step lies between 0 and the valid maximum, so that the cast to 16 bits loses nothing. */
  lemma CodeInRange(s: Scale, v: real)
    requires Sound(s)
    ensures Code(s, v) == NearestStep(Position(s, v), Steps(s)) <= s.validMax
  {
    PositionBounds(s, v);
    StepsInRange(Position(s, v), s.validMax);
  }

  // ---------- the theorems ----------

  /** Valid data never take the reserved code. */
  lemma NodataIsReserved(s: Scale, missing: Option<Number>, v: Number)
    requires Sound(s)
    ensures Encode(s, missing, v) == s.nodata <==> !v.Finite? || missing == Some(v)
    ensures Encode(s, missing, v) < 0x10000
    ensures v.Finite? && missing != Some(v) ==> Encode(s, missing, v) <= s.validMax
  {
    if IsValid(v, missing) {
      CodeInRange(s, v.v);
    }
  }

  lemma CodeMonotone(s: Scale, v: real, w: real)
    requires Sound(s) && v <= w
    ensures Code(s, v) <= Code(s, w)
  {
    CodeInRange(s, v);
    CodeInRange(s, w);
    OverMonotone(Clip(s, v) - s.min, Clip(s, w) - s.min, Width(s));
    NearestStepMonotone(Position(s, v), Position(s, w), Steps(s));
  }

  /** Decoding an encoded value gives it back to within half a step if it lies in the range of the layer, and the
      nearer end of the range exactly if it does not. */
  lemma DecodeEncode(s: Scale, v: real)
    requires Sound(s)
    ensures -HalfStep(s) <= Value(s, Steps(s), Code(s, v)) - Clip(s, v) <= HalfStep(s)
    ensures s.min <= v <= s.max ==> -HalfStep(s) <= Value(s, Steps(s), Code(s, v)) - v <= HalfStep(s)
    ensures v <= s.min ==> Code(s, v) == 0 && Value(s, Steps(s), Code(s, v)) == s.min
    ensures v >= s.max ==> Code(s, v) == s.validMax && Value(s, Steps(s), Code(s, v)) == s.max
  {
    CodeInRange(s, v);
    PositionBounds(s, v);
    NearestStepLoss(Position(s, v), Steps(s), Width(s));
    if v <= s.min {
      LowerEnd(s, v);
    } else if v >= s.max {
      UpperEnd(s, v);
    }
  }

  lemma LowerEnd(s: Scale, v: real)
    requires Sound(s) && v <= s.min
    ensures Code(s, v) == 0 && Value(s, Steps(s), 0) == s.min
  {
    OverUnit(Width(s));
    OverUnit(Steps(s));
    TimesLaws(Width(s), Steps(s), 1.0);
    TimesLaws(Steps(s), Steps(s), 1.0);
    assert Position(s, v) == 0.0;
    RintExact(0);
  }

  lemma UpperEnd(s: Scale, v: real)
    requires Sound(s) && v >= s.max
    ensures Code(s, v) == s.validMax && Value(s, Steps(s), s.validMax) == s.max
  {
    OverUnit(Width(s));
    OverUnit(Steps(s));
    TimesLaws(Width(s), Steps(s), 1.0);
    TimesLaws(Steps(s), Steps(s), 1.0);
    assert Position(s, v) == 1.0;
    RintExact(s.validMax);
    CodeInRange(s, v);
  }

  lemma NearestStepLoss(p: real, m: real, w: real)
    requires m > 0.0 && w > 0.0
    ensures var q := Over(NearestStep(p, m) as real, m);
            var half := Over(w, Times(2.0, m));
            -half <= Times(q, w) - Times(p, w) <= half
  {
    var q := Over(NearestStep(p, m) as real, m);
    RintNear(Times(p, m));
    OverTimes(NearestStep(p, m) as real, m);
    HalfStepBound(q, p, m, w);
  }

  lemma HalfStepBound(q: real, p: real, m: real, w: real)
    requires m > 0.0 && w > 0.0
    requires Times(p, m) - 0.5 <= Times(q, m) <= Times(p, m) + 0.5
    ensures -Over(w, Times(2.0, m)) <= Times(q, w) - Times(p, w) <= Over(w, Times(2.0, m))
  {
    var h := Over(0.5, m);
    OverTimes(0.5, m);
    TimesLaws(p, h, m);
    TimesLaws(q, h, m);
    CancelTimes(p, q + h, m);
    CancelTimes(q, p + h, m);
    TimesMonotone(p, q + h, w);
    TimesMonotone(q, p + h, w);
    TimesLaws(p, h, w);
    TimesLaws(q, h, w);
    HalfOf(w, m);
  }

  lemma HalfOf(w: real, m: real)
    requires m > 0.0
    ensures Times(2.0, m) != 0.0
    ensures Over(w, Times(2.0, m)) == Times(Over(0.5, m), w)
  {
    var h := Over(0.5, m);
    OverTimes(0.5, m);
    assert (h * w) * (2.0 * m) == (h * m) * 2.0 * w;
    OverTimes(Times(h, w), Times(2.0, m));
  }

  /** Half a step is really lost: the value half a step above the minimum rounds to code 0. */
  lemma BoundIsTight(s: Scale)
    requires Sound(s)
    ensures var v := s.min + HalfStep(s);
            Clip(s, v) == v && Code(s, v) == 0 && Clip(s, v) - Value(s, Steps(s), Code(s, v)) == HalfStep(s)
  {
    var w, m := Width(s), Steps(s);
    var h := Over(0.5, m);
    HalfOf(w, m);
    OverTimes(0.5, m);
    OverTimes(h, w);
    OverMonotone(0.0, 0.5, m);
    OverMonotone(0.5, m, m);
    OverUnit(m);
    TimesLaws(w, w, w);
    TimesMonotone(0.0, h, w);
    TimesMonotone(h, 1.0, w);
    var v := s.min + HalfStep(s);
    assert Position(s, v) == h;
    assert NearestStep(h, m) == Rint(0.5) == 0;
  }

  /** Every valid code survives decoding and encoding. */
  lemma EncodeDecode(s: Scale, code: nat)
    requires Sound(s) && code <= s.validMax
    ensures s.min <= Value(s, Steps(s), code) <= s.max
    ensures Code(s, Value(s, Steps(s), code)) == code
    ensures Encode(s, None, Decode(s, Steps(s), code)) == code
  {
    var w, m := Width(s), Steps(s);
    var p := Over(code as real, m);
    OverMonotone(0.0, code as real, m);
    OverMonotone(code as real, m, m);
    OverUnit(m);
    TimesLaws(w, w, w);
    TimesMonotone(0.0, p, w);
    TimesMonotone(p, 1.0, w);
    OverTimes(p, w);
    OverTimes(code as real, m);
    assert Position(s, Value(s, m, code)) == p;
    RintExact(code);
  }

  /** The decoder's own constant gives the top of the range back exactly when it is the encoder's valid maximum. */
  lemma ConstantsMustAgree(s: Scale)
    requires Sound(s)
    ensures Value(s, UINT16_VALID_MAX, Code(s, s.max)) == s.max <==> Steps(s) == UINT16_VALID_MAX
  {
    var w, m, d := Width(s), Steps(s), UINT16_VALID_MAX;
    OverUnit(w);
    assert Position(s, s.max) == 1.0;
    TimesLaws(m, m, m);
    RintExact(s.validMax);
    CodeInRange(s, s.max);
    assert Code(s, s.max) == s.validMax;
    var q := Over(m, d);
    OverTimes(m, d);
    OverUnit(d);
    TimesLaws(w, w, w);
    TimesLaws(d, d, d);
    if Times(q, w) == w {
      CancelTimes(q, 1.0, w);
      CancelTimes(1.0, q, w);
    }
  }

  // ---------- arrays ----------

  /** `scale_to_uint16` on a flattened array: fill with the reserved code, then assign under the mask. */
  method ScaleToUint16(values: array<Number>, s: Scale, missing: Option<Number>) returns (r: Result<array<nat>, Error>)
    ensures r.Failure? <==> s.max <= s.min
    ensures r.Success? ==>
              && r.value.Length == values.Length
              && forall i :: 0 <= i < values.Length ==> r.value[i] == Encode(s, missing, values[i])
  {
    if s.max <= s.min {
      return Failure(EmptyRange);
    }
    var encoded := new nat[values.Length](_ => s.nodata);
    forall i | 0 <= i < values.Length && IsValid(values[i], missing) {
      encoded[i] := Code(s, values[i].v);
    }
    return Success(encoded);
  }

  /** `decode_uint16_field`: fill with not-a-number, then assign under the mask. */
  method DecodeUint16Field(raw: array<nat>, size: nat, s: Scale) returns (r: Result<array<Number>, Error>)
    ensures r.Failure? <==> raw.Length != size
    ensures r.Success? ==>
              && r.value.Length == size
              && forall i :: 0 <= i < size ==> r.value[i] == Decode(s, UINT16_VALID_MAX, raw[i])
  {
    if raw.Length != size {
      return Failure(SizeMismatch);
    }
    var values := new Number[size](_ => NotANumber);
    forall i | 0 <= i < size && raw[i] != s.nodata {
      values[i] := Finite(Value(s, UINT16_VALID_MAX, raw[i]));
    }
    return Success(values);
  }

  /** A stored field read back: not-a-number exactly where the input was not valid, elsewhere the clipped value to
      within half a step. */
  lemma FieldRoundTrip(s: Scale, missing: Option<Number>, v: Number)
    requires Sound(s) && Steps(s) == UINT16_VALID_MAX
    ensures var d := Decode(s, UINT16_VALID_MAX, Encode(s, missing, v));
            && (d.NotANumber? <==> !v.Finite? || missing == Some(v))
            && (v.Finite? && missing != Some(v) ==>
                  d.Finite? && -HalfStep(s) <= d.v - Clip(s, v.v) <= HalfStep(s))
  {
    NodataIsReserved(s, missing, v);
    if IsValid(v, missing) {
      DecodeEncode(s, v.v);
    }
  }
}
