/** Element types, scan types and the comparator chosen for them. */
module Comparator {
  import opened Wrappers
  import opened Bytes

  datatype ElementType = U8 | U16 | U32 | U64 | Float | Double

  datatype ScanType =
    | UnknownValue
    | IncreasedValue
    | DecreasedValue
    | ExactValue
    | IncreasedBy
    | DecreasedBy
    | SmallerThan
    | BiggerThan
    | Changed
    | Unchanged
    | ValueBetween

  function ElementSize(t: ElementType): ElemSize {
    match t
    case U8 => 1
    case U16 => 2
    case U32 => 4
    case U64 => 8
    case Float => 4
    case Double => 8
  }

  const WORD_MODULUS: nat := 0x1_0000_0000_0000_0000

  /** uint64_t subtraction. */
  function WrappingSub(a: nat, b: nat): int {
    if a >= b then a - b else a - b + WORD_MODULUS
  }

  /** The verdict of the two floating-point branches, kept abstract. */
  type FloatComparator = (ScanType, ElementType, nat, nat, Option<nat>) -> bool

  /** What one scan asks for: the arguments of first_scan and next_scan other than the range. */
  datatype Query = Query(kind: ScanType, elem: ElementType, raw1: nat, raw2: Option<nat>, floats: FloatComparator)

  predicate IsInteger(t: ElementType) {
    t != Float && t != Double
  }

  predicate CompareIntegers(kind: ScanType, a: nat, b: nat, c: Option<nat>) {
    match kind
    case ExactValue => a == b
    case IncreasedValue => a > b
    case DecreasedValue => a < b
    case BiggerThan => a > b
    case SmallerThan => a < b
    case Changed => a != b
    case Unchanged => a == b
    case IncreasedBy => c.Some? && WrappingSub(a, b) == c.value
    case DecreasedBy => c.Some? && WrappingSub(b, a) == c.value
    case ValueBetween => c.Some? && a > b && a < c.value
    case UnknownValue => false
  }

  /** The closure make_comparator returns; it rejects everything for unknown_value. */
  predicate Accepts(q: Query, value: nat, reference: nat) {
    if IsInteger(q.elem) then
      CompareIntegers(q.kind, value, reference, q.raw2)
    else
      q.kind != UnknownValue && q.floats(q.kind, q.elem, value, reference, q.raw2)
  }

  /** The four scan types that are judged against the previous snapshot. */
  predicate ComparesWithSnapshot(kind: ScanType) {
    kind == Unchanged || kind == Changed || kind == DecreasedValue || kind == IncreasedValue
  }

  /**
   * increased_by and decreased_by: one value is the other plus the second value, or would be if the sum did not
   * wrap around at 2^64, whatever the element width; without a second value neither accepts anything.
   */
  lemma {:induction false} DifferenceMeans(a: nat, b: nat, c: Option<nat>)
    requires c.Some? ==> c.value < 0x1_0000_0000_0000_0000
    ensures CompareIntegers(IncreasedBy, a, b, c)
            <==> c.Some? && (a == b + c.value || a + 0x1_0000_0000_0000_0000 == b + c.value)
    ensures CompareIntegers(DecreasedBy, a, b, c)
            <==> c.Some? && (b == a + c.value || b + 0x1_0000_0000_0000_0000 == a + c.value)
  {
  }

  /** Of two 64-bit values, that is addition modulo 2^64, and each type is the mirror image of the other. */
  lemma {:induction false} DifferenceIsModular(a: nat, b: nat, d: nat)
    requires a < 0x1_0000_0000_0000_0000 && b < 0x1_0000_0000_0000_0000 && d < 0x1_0000_0000_0000_0000
    ensures CompareIntegers(IncreasedBy, a, b, Some(d)) <==> a == (b + d) % 0x1_0000_0000_0000_0000
    ensures CompareIntegers(DecreasedBy, a, b, Some(d)) <==> b == (a + d) % 0x1_0000_0000_0000_0000
    ensures CompareIntegers(DecreasedBy, b, a, Some(d)) <==> CompareIntegers(IncreasedBy, a, b, Some(d))
  {
    assert (b + d) % 0x1_0000_0000_0000_0000
      == if b + d < 0x1_0000_0000_0000_0000 then b + d else b + d - 0x1_0000_0000_0000_0000;
    assert (a + d) % 0x1_0000_0000_0000_0000
      == if a + d < 0x1_0000_0000_0000_0000 then a + d else a + d - 0x1_0000_0000_0000_0000;
  }

  // ---------- the floating-point branches over exact reals ----------

  function Gap(a: real, b: real): real {
    if a >= b then a - b else b - a
  }

  const FLOAT_EPS: real := 0.01
  const DOUBLE_EPS: real := 0.0000001

  /** Float: every comparison has a tolerance. */
  predicate CompareFloats(kind: ScanType, a: real, b: real, c: Option<real>) {
    match kind
    case ExactValue => Gap(a, b) <= FLOAT_EPS
    case IncreasedValue => a > b + FLOAT_EPS
    case DecreasedValue => a < b - FLOAT_EPS
    case BiggerThan => a > b + FLOAT_EPS
    case SmallerThan => a < b - FLOAT_EPS
    case Changed => Gap(a, b) > FLOAT_EPS
    case Unchanged => Gap(a, b) <= FLOAT_EPS
    case IncreasedBy => c.Some? && Gap(a - b, c.value) <= FLOAT_EPS
    case DecreasedBy => c.Some? && Gap(b - a, c.value) <= FLOAT_EPS
    case ValueBetween => c.Some? && a > b + FLOAT_EPS && a < c.value - FLOAT_EPS
    case UnknownValue => false
  }

  /** Double: only bigger_than and smaller_than have one. */
  predicate CompareDoubles(kind: ScanType, a: real, b: real, c: Option<real>) {
    match kind
    case ExactValue => a == b
    case IncreasedValue => a > b
    case DecreasedValue => a < b
    case BiggerThan => a > b + DOUBLE_EPS
    case SmallerThan => a < b - DOUBLE_EPS
    case Changed => a != b
    case Unchanged => a == b
    case IncreasedBy => c.Some? && a - b == c.value
    case DecreasedBy => c.Some? && b - a == c.value
    case ValueBetween => c.Some? && a > b && a < c.value
    case UnknownValue => false
  }

  /** What read_fp makes of the bits, as a real number; NaN and infinities have none. */
  type Decoder = (ElementType, nat) -> real

  function DecodeOption(decode: Decoder, t: ElementType, c: Option<nat>): Option<real> {
    if c.Some? then Some(decode(t, c.value)) else None
  }

  /** The floating-point verdicts are those of exact arithmetic on the numbers that the bits stand for. */
  ghost predicate OverReals(floats: FloatComparator, decode: Decoder) {
    forall kind: ScanType, a: nat, b: nat, c: Option<nat> ::
      && (floats(kind, Float, a, b, c)
          <==> CompareFloats(kind, decode(Float, a), decode(Float, b), DecodeOption(decode, Float, c)))
      && (floats(kind, Double, a, b, c)
          <==> CompareDoubles(kind, decode(Double, a), decode(Double, b), DecodeOption(decode, Double, c)))
  }

  /** The predicate the two branches compute, over exact reals. */
  function RealFloats(decode: Decoder): FloatComparator {
    (kind: ScanType, t: ElementType, a: nat, b: nat, c: Option<nat>) =>
      if t == Float then
        CompareFloats(kind, decode(t, a), decode(t, b), DecodeOption(decode, t, c))
      else
        CompareDoubles(kind, decode(t, a), decode(t, b), DecodeOption(decode, t, c))
  }

  lemma {:induction false} RealFloatsAreReal(decode: Decoder)
    ensures OverReals(RealFloats(decode), decode)
  {
  }

  /** Integers, or floating-point numbers compared exactly. */
  ghost predicate Exact(q: Query, decode: Decoder) {
    q.elem == U8 || q.elem == U16 || q.elem == U32 || q.elem == U64 || OverReals(q.floats, decode)
  }

  /**
   * Against the old value a new one has increased, decreased or stayed, exactly one of the three, and
   * changed means increased or decreased; for Float within the tolerance.
   */
  lemma {:induction false} Trichotomy(q: Query, decode: Decoder, v: nat, old_v: nat)
    requires Exact(q, decode)
    ensures var up := Accepts(q.(kind := IncreasedValue), v, old_v);
            var down := Accepts(q.(kind := DecreasedValue), v, old_v);
            var same := Accepts(q.(kind := Unchanged), v, old_v);
            var other := Accepts(q.(kind := Changed), v, old_v);
            && (up || down || same) && !(up && down) && !(up && same) && !(down && same)
            && (other <==> up || down)
  {
  }

  /** The new value comes first: a float has increased when it exceeds the reference by more than 0.01. */
  lemma {:induction false} FloatVerdicts(q: Query, decode: Decoder, v: nat, ref: nat)
    requires q.elem == Float && OverReals(q.floats, decode)
    ensures var a, b := decode(Float, v), decode(Float, ref);
            && (Accepts(q.(kind := IncreasedValue), v, ref) <==> a > b + 0.01)
            && (Accepts(q.(kind := DecreasedValue), v, ref) <==> a < b - 0.01)
            && (Accepts(q.(kind := BiggerThan), v, ref) <==> a > b + 0.01)
            && (Accepts(q.(kind := SmallerThan), v, ref) <==> a < b - 0.01)
            && (Accepts(q.(kind := ExactValue), v, ref) <==> b - 0.01 <= a <= b + 0.01)
            && (Accepts(q.(kind := Unchanged), v, ref) <==> b - 0.01 <= a <= b + 0.01)
            && (Accepts(q.(kind := Changed), v, ref) <==> !(b - 0.01 <= a <= b + 0.01))
            && !Accepts(q.(kind := UnknownValue), v, ref)
    ensures q.raw2.Some? ==>
              var a, b, c := decode(Float, v), decode(Float, ref), decode(Float, q.raw2.value);
              && (Accepts(q.(kind := IncreasedBy), v, ref) <==> b + c - 0.01 <= a <= b + c + 0.01)
              && (Accepts(q.(kind := DecreasedBy), v, ref) <==> b - c - 0.01 <= a <= b - c + 0.01)
              && (Accepts(q.(kind := ValueBetween), v, ref) <==> b + 0.01 < a < c - 0.01)
  {
  }

  /** For a double only bigger_than and smaller_than have a tolerance, of 0.0000001. */
  lemma {:induction false} DoubleVerdicts(q: Query, decode: Decoder, v: nat, ref: nat)
    requires q.elem == Double && OverReals(q.floats, decode)
    ensures var a, b := decode(Double, v), decode(Double, ref);
            && (Accepts(q.(kind := IncreasedValue), v, ref) <==> a > b)
            && (Accepts(q.(kind := DecreasedValue), v, ref) <==> a < b)
            && (Accepts(q.(kind := BiggerThan), v, ref) <==> a > b + 0.0000001)
            && (Accepts(q.(kind := SmallerThan), v, ref) <==> a < b - 0.0000001)
            && (Accepts(q.(kind := ExactValue), v, ref) <==> a == b)
            && (Accepts(q.(kind := Unchanged), v, ref) <==> a == b)
            && (Accepts(q.(kind := Changed), v, ref) <==> a != b)
            && !Accepts(q.(kind := UnknownValue), v, ref)
    ensures q.raw2.Some? ==>
              var a, b, c := decode(Double, v), decode(Double, ref), decode(Double, q.raw2.value);
              && (Accepts(q.(kind := IncreasedBy), v, ref) <==> a == b + c)
              && (Accepts(q.(kind := DecreasedBy), v, ref) <==> a == b - c)
              && (Accepts(q.(kind := ValueBetween), v, ref) <==> b < a < c)
  {
  }

  /** Without a second value the three types that need one accept nothing, whatever the element type. */
  lemma {:induction false} NoSecondValue(q: Query, decode: Decoder, v: nat, ref: nat)
    requires Exact(q, decode) && q.raw2.None? && (q.kind.IncreasedBy? || q.kind.DecreasedBy? || q.kind.ValueBetween?)
    ensures !Accepts(q, v, ref)
  {
  }
}
