/**
  The unit choice of the traffic chart's y-axis tick labels.

  A tick value is shown in megabytes above one million, in kilobytes above
  one thousand, and in bytes otherwise; both boundaries are strict. Tick
  values are reals; the decimal formatting of the scaled value is not
  modelled.
 */
module AxisUnits {

  /** The unit a tick label is written in. */
  datatype Unit = Bytes | Kilobytes | Megabytes

  /** The text appended to the scaled value. */
  function Suffix(u: Unit): (sfx: string)
    ensures |sfx| >= 2 && sfx[0] == ' ' && sfx[|sfx| - 1] == 'B'
    ensures sfx[..|sfx| - 1] == if u == Megabytes then " M" else if u == Kilobytes then " k" else " "
  {
    match u
    case Bytes => " B"
    case Kilobytes => " kB"
    case Megabytes => " MB"
  }

  /** The number of bytes one unit stands for. */
  function Divisor(u: Unit): nat
  {
    match u
    case Bytes => 1
    case Kilobytes => 1000
    case Megabytes => 1000000
  }

  /** The unit the tick formatter picks for a value. */
  function UnitFor(val: real): (u: Unit)
    ensures u == Megabytes <==> val > 1000000.0
    ensures u == Kilobytes <==> 1000.0 < val <= 1000000.0
    ensures u == Bytes <==> val <= 1000.0
  {
    if val > 1000000.0 then Megabytes
    else if val > 1000.0 then Kilobytes
    else Bytes
  }

  /**
    The number written before the suffix: the value divided by its unit.
    Scaling it back by the unit gives the value again; outside plain bytes it
    is above 1, and in kilobytes it is at most 1000.
   */
  function Mantissa(val: real): (m: real)
    ensures m * (Divisor(UnitFor(val)) as real) == val
    ensures UnitFor(val) != Bytes ==> 1.0 < m
    ensures UnitFor(val) == Kilobytes ==> m <= 1000.0
  {
    val / (Divisor(UnitFor(val)) as real)
  }

  /** The label's suffix names the unit the value falls in, and the three suffixes differ. */
  lemma SuffixNamesUnit(val: real)
    ensures Suffix(UnitFor(val)) == " MB" <==> val > 1000000.0
    ensures Suffix(UnitFor(val)) == " kB" <==> 1000.0 < val <= 1000000.0
    ensures Suffix(UnitFor(val)) == " B" <==> val <= 1000.0
  {
  }

  /** A larger value never gets a smaller unit. */
  lemma UnitForMonotone(a: real, b: real)
    requires a <= b
    ensures Divisor(UnitFor(a)) <= Divisor(UnitFor(b))
  {
  }

  /** Both boundaries are strict: exactly one million is kilobytes, exactly one thousand is bytes. */
  lemma UnitBoundaries()
    ensures UnitFor(1000000.0) == Kilobytes && UnitFor(1000000.5) == Megabytes
    ensures UnitFor(1000.0) == Bytes && UnitFor(1000.5) == Kilobytes
  {
  }
}
