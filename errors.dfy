/**
 * The library's error values and the text they display as.
 */
module Errors {
  import opened Common

  /** Returned when a rate limiter is too small to let a single cell through. */
  datatype InconsistentCapacity = InconsistentCapacity(capacity: NonZeroU32, cellWeight: NonZeroU32)

  function NewInconsistentCapacity(capacity: NonZeroU32, cellWeight: NonZeroU32): (e: InconsistentCapacity)
    ensures e.capacity == capacity && e.cellWeight == cellWeight
  {
    InconsistentCapacity(capacity, cellWeight)
  }

  /**
   * The two negative outcomes of a batch decision: the batch does not fit
   * now (with the algorithm's own non-conformance), or it can never fit.
   */
  datatype NegativeMultiDecision<+E> =
    | BatchNonConforming(n: U32, nonConformance: E)
    | InsufficientCapacity(n: U32)

  // ---------------------------------------------------------------------
  // Decimal rendering of integers, as `{}` formats a `u32`
  // ---------------------------------------------------------------------

  predicate IsDigit(c: char) { '0' <= c <= '9' }

  predicate AllDigits(s: string) { forall i :: 0 <= i < |s| ==> IsDigit(s[i]) }

  function DigitChar(d: nat): (c: char)
    requires d < 10
    ensures IsDigit(c) && c as int - '0' as int == d
  {
    ('0' as int + d) as char
  }

  function DigitValue(c: char): nat
    requires IsDigit(c)
  {
    c as int - '0' as int
  }

  /** The shortest decimal numeral of `n`. */
  function NatToString(n: nat): (s: string)
    ensures |s| >= 1 && AllDigits(s)
    ensures |s| > 1 ==> s[0] != '0'
  {
    if n < 10 then [DigitChar(n)] else NatToString(n / 10) + [DigitChar(n % 10)]
  }

  /** Reads a numeral back; the reference that `NatToString` is checked against. */
  function ParseDecimal(s: string): nat
    requires AllDigits(s)
  {
    if s == [] then 0 else ParseDecimal(s[..|s| - 1]) * 10 + DigitValue(s[|s| - 1])
  }

  lemma {:induction false} ParseDecimalOfNatToString(n: nat)
    ensures ParseDecimal(NatToString(n)) == n
  {
    var s := NatToString(n);
    if n < 10 {
      assert s[..|s| - 1] == [];
    } else {
      assert s[..|s| - 1] == NatToString(n / 10);
      ParseDecimalOfNatToString(n / 10);
    }
  }

  lemma NatToStringInjective(a: nat, b: nat)
    requires NatToString(a) == NatToString(b)
    ensures a == b
  {
    ParseDecimalOfNatToString(a);
    ParseDecimalOfNatToString(b);
  }

  /** The position of the first character that is not a digit. */
  function DigitRunLength(s: string): (k: nat)
    ensures k <= |s|
  {
    if s == [] || !IsDigit(s[0]) then 0 else 1 + DigitRunLength(s[1..])
  }

  lemma {:induction false} DigitRunOfNumeral(a: string, r: string)
    requires AllDigits(a) && |r| > 0 && !IsDigit(r[0])
    ensures DigitRunLength(a + r) == |a|
  {
    if a != [] {
      assert (a + r)[0] == a[0];
      assert (a + r)[1..] == a[1..] + r;
      DigitRunOfNumeral(a[1..], r);
    } else {
      assert a + r == r;
    }
  }

  /** A run of digits followed by a non-digit can be split in one way only. */
  lemma DigitsEndAtSeparator(a1: string, r1: string, a2: string, r2: string)
    requires AllDigits(a1) && AllDigits(a2)
    requires |r1| > 0 && !IsDigit(r1[0]) && |r2| > 0 && !IsDigit(r2[0])
    requires a1 + r1 == a2 + r2
    ensures a1 == a2 && r1 == r2
  {
    var s := a1 + r1;
    DigitRunOfNumeral(a1, r1);
    DigitRunOfNumeral(a2, r2);
    assert a1 == s[..|a1|] && a2 == s[..|a2|];
    assert r1 == s[|a1|..] && r2 == s[|a2|..];
  }

  lemma StripPrefix(p: string, x1: string, x2: string)
    requires p + x1 == p + x2
    ensures x1 == x2
  {
    assert x1 == (p + x1)[|p|..];
    assert x2 == (p + x2)[|p|..];
  }

  // ---------------------------------------------------------------------
  // Display texts
  // ---------------------------------------------------------------------

  const CAPACITY_PREFIX: string := "bucket capacity "
  const CAPACITY_MIDDLE: string := " too small for a single cell with weight "
  const BATCH_MIDDLE: string := " cells: "
  // Written in two pieces: the verifier sees the characters of a short
  // literal, and the first one tells this text from a batch's.
  const INSUFFICIENT_PREFIX: string := "bucket " + "does not have enough capacity to accomodate "
  const INSUFFICIENT_SUFFIX: string := " cells"

  /**
   * The capacity error's text: it opens with "bucket capacity " and closes
   * with the weight, which reads back from its final digits.
   */
  function DisplayInconsistentCapacity(e: InconsistentCapacity): (s: string)
    ensures |s| > |CAPACITY_PREFIX| && s[..|CAPACITY_PREFIX|] == CAPACITY_PREFIX
    ensures var w := |NatToString(e.cellWeight)|;
      w <= |s| && AllDigits(s[|s| - w..]) && ParseDecimal(s[|s| - w..]) == e.cellWeight
  {
    var w := NatToString(e.cellWeight);
    var s := CAPACITY_PREFIX + (NatToString(e.capacity) + (CAPACITY_MIDDLE + w));
    assert s[|s| - |w|..] == w;
    ParseDecimalOfNatToString(e.cellWeight);
    s
  }

  /** The capacity error text names both numbers unambiguously: equal texts mean equal errors. */
  lemma DisplayInconsistentCapacityInjective(e1: InconsistentCapacity, e2: InconsistentCapacity)
    requires DisplayInconsistentCapacity(e1) == DisplayInconsistentCapacity(e2)
    ensures e1 == e2
  {
    var a1, b1 := NatToString(e1.capacity), NatToString(e1.cellWeight);
    var a2, b2 := NatToString(e2.capacity), NatToString(e2.cellWeight);
    StripPrefix(CAPACITY_PREFIX, a1 + (CAPACITY_MIDDLE + b1), a2 + (CAPACITY_MIDDLE + b2));
    DigitsEndAtSeparator(a1, CAPACITY_MIDDLE + b1, a2, CAPACITY_MIDDLE + b2);
    StripPrefix(CAPACITY_MIDDLE, b1, b2);
    NatToStringInjective(e1.capacity, e2.capacity);
    NatToStringInjective(e1.cellWeight, e2.cellWeight);
  }

  /**
   * A batch outcome's text; `showNc` renders the algorithm's own
   * non-conformance value. Only a non-conforming batch's text opens with a
   * digit (its cell count).
   */
  function DisplayNegativeMultiDecision<E>(d: NegativeMultiDecision<E>, showNc: E -> string): (s: string)
    ensures |s| > 0
    ensures IsDigit(s[0]) <==> d.BatchNonConforming?
  {
    match d
    case BatchNonConforming(n, nc) =>
      var a := NatToString(n);
      var s := a + (BATCH_MIDDLE + showNc(nc));
      assert s[0] == a[0];
      s
    case InsufficientCapacity(n) =>
      var s := INSUFFICIENT_PREFIX + (NatToString(n) + INSUFFICIENT_SUFFIX);
      assert INSUFFICIENT_PREFIX[0] == 'b';
      assert s[0] == INSUFFICIENT_PREFIX[0];
      s
  }

  /** The text tells the two outcomes apart and names the cell count. */
  lemma DisplayNegativeMultiDecisionDistinguishes<E>(d1: NegativeMultiDecision<E>, d2: NegativeMultiDecision<E>, showNc: E -> string)
    requires DisplayNegativeMultiDecision(d1, showNc) == DisplayNegativeMultiDecision(d2, showNc)
    ensures d1.BatchNonConforming? == d2.BatchNonConforming?
    ensures d1.n == d2.n
  {
    var s := DisplayNegativeMultiDecision(d1, showNc);
    var a1, a2 := NatToString(d1.n), NatToString(d2.n);
    if d1.BatchNonConforming? {
      DigitsEndAtSeparator(a1, BATCH_MIDDLE + showNc(d1.nonConformance), a2, BATCH_MIDDLE + showNc(d2.nonConformance));
    } else {
      StripPrefix(INSUFFICIENT_PREFIX, a1 + INSUFFICIENT_SUFFIX, a2 + INSUFFICIENT_SUFFIX);
      DigitsEndAtSeparator(a1, INSUFFICIENT_SUFFIX, a2, INSUFFICIENT_SUFFIX);
    }
    NatToStringInjective(d1.n, d2.n);
  }
}
