/**
 * Sorted-set scores as 64-bit IEEE 754 patterns, with the two orders the
 * sorted set mixes: the total order of the index (`-0.0` before `+0.0`) and
 * numeric comparison (the zeros equal, NaN unordered).
 */
module Score {
  import opened Base

  const SIGN: int := 0x8000_0000_0000_0000
  const INFINITY: int := 0x7FF0_0000_0000_0000
  const NEG_INFINITY: int := SIGN + INFINITY
  const POS_ZERO: int := 0
  const NEG_ZERO: int := SIGN

  type Bits = b: int | 0 <= b < 0x1_0000_0000_0000_0000

  /** Rank in the total order of section 5.10 of IEEE 754-2008. */
  function Key(b: Bits): int {
    if b < SIGN then b else SIGN - b - 1
  }

  function Magnitude(b: Bits): int {
    if b < SIGN then b else b - SIGN
  }

  predicate IsNan(b: Bits) {
    Magnitude(b) > INFINITY
  }

  /** Rank among numbers; both zeros share rank 0. */
  function Num(b: Bits): int {
    if b < SIGN then b else SIGN - b
  }

  predicate Le(a: Bits, b: Bits) {
    !IsNan(a) && !IsNan(b) && Num(a) <= Num(b)
  }

  predicate Lt(a: Bits, b: Bits) {
    !IsNan(a) && !IsNan(b) && Num(a) < Num(b)
  }

  predicate IsZero(b: Bits) {
    b == POS_ZERO || b == NEG_ZERO
  }

  function NextUp(b: Bits): Bits {
    if IsNan(b) || b == INFINITY then b
    else if IsZero(b) then 1
    else if b < SIGN then b + 1
    else b - 1
  }

  /** `NextUp` is the next number: nothing lies strictly between, as section 5.3.1 of IEEE 754-2008 asks. */
  lemma NextUpIsNext(b: Bits)
    requires !IsNan(b) && b != INFINITY
    ensures Lt(b, NextUp(b))
    ensures forall x: Bits :: Lt(b, x) ==> Le(NextUp(b), x)
  {
  }

  /** Numeric order and total order agree except on the two zeros. */
  lemma OrdersAgree(a: Bits, b: Bits)
    requires !IsNan(a) && !IsNan(b)
    ensures Lt(a, b) ==> Key(a) < Key(b)
    ensures Key(a) < Key(b) ==> Le(a, b)
    ensures Num(a) == Num(b) && a != b ==> IsZero(a) && IsZero(b)
    ensures Key(a) == Key(b) ==> a == b
  {
  }

  // ---- range bounds ---------------------------------------------------------

  datatype ScoreBound = Inclusive(value: Bits) | Exclusive(value: Bits)

  predicate AdmitsAbove(min: ScoreBound, score: Bits) {
    if min.Inclusive? then Le(min.value, score) else Lt(min.value, score)
  }

  predicate AdmitsBelow(max: ScoreBound, score: Bits) {
    if max.Inclusive? then Le(score, max.value) else Lt(score, max.value)
  }

  predicate InRange(score: Bits, min: ScoreBound, max: ScoreBound) {
    AdmitsAbove(min, score) && AdmitsBelow(max, score)
  }

  // ---- byte-string order ----------------------------------------------------

  predicate BytesLess(a: Bytes, b: Bytes) {
    b != [] && (a == [] || a[0] < b[0] || (a[0] == b[0] && BytesLess(a[1..], b[1..])))
  }

  lemma {:induction false} BytesLessTransitive(a: Bytes, b: Bytes, c: Bytes)
    requires BytesLess(a, b) && BytesLess(b, c)
    ensures BytesLess(a, c)
  {
    if a != [] && a[0] == b[0] && b[0] == c[0] {
      BytesLessTransitive(a[1..], b[1..], c[1..]);
    }
  }

  lemma {:induction false} BytesLessTotal(a: Bytes, b: Bytes)
    ensures a == b || BytesLess(a, b) || BytesLess(b, a)
    ensures !(BytesLess(a, b) && BytesLess(b, a))
    ensures !BytesLess(a, a)
  {
    if a != [] && b != [] && a[0] == b[0] {
      BytesLessTotal(a[1..], b[1..]);
      assert a == [a[0]] + a[1..] && b == [b[0]] + b[1..];
    }
    if a != [] { BytesLessTotal(a[1..], a[1..]); }
  }

  // ---- index entries --------------------------------------------------------

  datatype Entry = Entry(score: Bits, member: Bytes)

  predicate Less(a: Entry, b: Entry) {
    Key(a.score) < Key(b.score) || (Key(a.score) == Key(b.score) && BytesLess(a.member, b.member))
  }

  lemma LessTransitive(a: Entry, b: Entry, c: Entry)
    requires Less(a, b) && Less(b, c)
    ensures Less(a, c)
  {
    if Key(a.score) == Key(b.score) == Key(c.score) { BytesLessTransitive(a.member, b.member, c.member); }
  }

  lemma LessTotal(a: Entry, b: Entry)
    ensures a == b || Less(a, b) || Less(b, a)
    ensures !(Less(a, b) && Less(b, a)) && !Less(a, a)
  {
    BytesLessTotal(a.member, b.member);
    BytesLessTotal(a.member, a.member);
  }
}
