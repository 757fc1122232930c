/**
 * Conversion of a fixed-point number to an integer, with one half rounded to the even
 * neighbour: roundTiesToEven of IEEE 754-2019, section 4.3.1.
 */
module FixedPoint {
  import opened Bytes

  /** The value of one unit: a one shifted left by the number of fractional bits. */
  function Unit(fracBits: nat): (unit: nat)
    ensures unit > 0
  {
    if fracBits == 0 then 1 else 2 * Unit(fracBits - 1)
  }

  lemma DivisionSplits(value: nat, unit: nat)
    requires unit > 0
    ensures value / unit >= 0 && value == value / unit * unit + value % unit
  {
  }

  /** The mask keeps the remainder, the shift the quotient, of the division by one unit. */
  function ConvertFixedPointToInteger(fracBits: nat, value: uint32): nat
    requires 1 <= fracBits <= 30
  {
    DivisionSplits(value, Unit(fracBits));
    var halfFrac := Unit(fracBits - 1);
    var fracPart := value % Unit(fracBits);
    var floor := value / Unit(fracBits);
    if fracPart == halfFrac then
      if floor % 2 == 0 then floor else floor + 1
    else if fracPart > halfFrac then floor + 1
    else floor
  }

  // ---- What rounding means ----

  function Distance(value: nat, unit: nat, m: int): nat
  {
    if value >= m * unit then value - m * unit else m * unit - value
  }

  /** No integer is nearer than r, and if another is as near, then r is the even one. */
  ghost predicate NearestTiesToEven(distance: int -> nat, r: int)
  {
    forall m: int ::
      && distance(r) <= distance(m)
      && (distance(r) == distance(m) && m != r ==> r % 2 == 0)
  }

  ghost predicate IsRoundTiesToEven(value: nat, unit: nat, r: int)
  {
    NearestTiesToEven(m => Distance(value, unit, m), r)
  }

  lemma MultiplesGrow(m: int, n: int, unit: nat)
    requires m <= n
    ensures m * unit <= n * unit
  {
    assert (n - m) * unit >= 0;
  }

  /** Of a value between two multiples, everything but these two is more than one unit away. */
  lemma TwoCandidates(floor: nat, part: nat, unit: nat, m: int)
    requires part < unit
    ensures var value := floor * unit + part;
            && Distance(value, unit, floor) == part && Distance(value, unit, floor + 1) == unit - part
            && (m < floor ==> Distance(value, unit, m) >= unit + part)
            && (m > floor + 1 ==> Distance(value, unit, m) >= unit + (unit - part))
  {
    assert (floor + 1) * unit == floor * unit + unit;
    assert (floor - 1) * unit == floor * unit - unit;
    assert (floor + 2) * unit == floor * unit + 2 * unit;
    if m < floor {
      MultiplesGrow(m, floor - 1, unit);
    } else if m > floor + 1 {
      MultiplesGrow(floor + 2, m, unit);
    }
  }

  lemma NearestIsUnique(distance: int -> nat, floor: nat, part: nat, half: nat, rounded: nat, r: int)
    requires part < 2 * half && distance(floor) == part && distance(floor + 1) == 2 * half - part
    requires forall m :: m < floor || m > floor + 1 ==> distance(m) >= 2 * half
    requires rounded == if part < half || (part == half && floor % 2 == 0) then floor else floor + 1
    ensures r == rounded <==> NearestTiesToEven(distance, r)
  {
    assert NearestTiesToEven(distance, rounded);
    if r != rounded && NearestTiesToEven(distance, r) {
      assert false;
    }
  }

  lemma DistancesAround(value: nat, unit: nat, floor: nat, part: nat)
    requires part < unit && value == floor * unit + part
    ensures Distance(value, unit, floor) == part && Distance(value, unit, floor + 1) == unit - part
    ensures forall m :: m < floor || m > floor + 1 ==> Distance(value, unit, m) >= unit
  {
    forall m: int
      ensures Distance(value, unit, floor) == part && Distance(value, unit, floor + 1) == unit - part
      ensures m < floor || m > floor + 1 ==> Distance(value, unit, m) >= unit
    {
      TwoCandidates(floor, part, unit, m);
    }
  }

  lemma RoundingOfParts(value: nat, unit: nat, half: nat, floor: nat, part: nat, rounded: nat, r: int)
    requires unit == 2 * half && part < unit && value == floor * unit + part
    requires rounded == if part < half || (part == half && floor % 2 == 0) then floor else floor + 1
    ensures r == rounded <==> IsRoundTiesToEven(value, unit, r)
  {
    DistancesAround(value, unit, floor, part);
    NearestIsUnique(m => Distance(value, unit, m), floor, part, half, rounded, r);
  }

  /** The conversion is round half to even: for every value and every width it yields the one integer that
      the rule allows. */
  lemma ConversionRoundsTiesToEven(fracBits: nat, value: uint32, r: int)
    requires 1 <= fracBits <= 30
    ensures r == ConvertFixedPointToInteger(fracBits, value) <==> IsRoundTiesToEven(value, Unit(fracBits), r)
  {
    var unit, half := Unit(fracBits), Unit(fracBits - 1);
    DivisionSplits(value, unit);
    var floor, part := value / unit, value % unit;
    RoundingOfParts(value, unit, half, floor, part, ConvertFixedPointToInteger(fracBits, value), r);
  }

  lemma RoundedPart(floor: nat, part: nat, unit: nat, half: nat, r: nat)
    requires part < unit == 2 * half
    requires r == if part < half || (part == half && floor % 2 == 0) then floor else floor + 1
    ensures floor * unit + part - r * unit == if r == floor then part else part - unit
    ensures r == floor ==> 2 * part <= unit && (2 * part == unit ==> r % 2 == 0)
    ensures r != floor ==> r == floor + 1 && 2 * part >= unit && (2 * part == unit ==> r % 2 == 0)
  {
    assert (floor + 1) * unit == floor * unit + unit;
  }

  /** In numbers: the result is at most half a unit away, and even if it is exactly half a unit away. */
  lemma ConversionIsWithinHalfAUnit(fracBits: nat, value: uint32)
    requires 1 <= fracBits <= 30
    ensures var r, unit := ConvertFixedPointToInteger(fracBits, value), Unit(fracBits);
            && 2 * (value as int - r * unit) <= unit && 2 * (r * unit - value as int) <= unit
            && (2 * (value as int - r * unit) == unit || 2 * (r * unit - value as int) == unit ==> r % 2 == 0)
  {
    var unit := Unit(fracBits);
    DivisionSplits(value, unit);
    var floor, part := value / unit, value % unit;
    RoundedPart(floor, part, unit, Unit(fracBits - 1), ConvertFixedPointToInteger(fracBits, value));
  }

  /** With two fractional bits: 2.5 becomes 2, 2.75 becomes 3, 3.5 becomes 4. */
  lemma HalvesAndQuarters()
    ensures Unit(2) == 4 && Unit(8) == 256
    ensures ConvertFixedPointToInteger(2, 10) == 2 && ConvertFixedPointToInteger(2, 11) == 3 && ConvertFixedPointToInteger(2, 14) == 4
  {
    assert Unit(1) == 2 && Unit(2) == 4;
    assert Unit(4) == 4 * Unit(2) && Unit(6) == 4 * Unit(4) && Unit(8) == 4 * Unit(6);
  }

  lemma QuotientsGrow(unit: nat, a: nat, b: nat)
    requires unit > 0 && a <= b
    ensures a / unit < b / unit || (a / unit == b / unit && a % unit <= b % unit)
  {
    var p, q := a / unit, b / unit;
    assert a == p * unit + a % unit && b == q * unit + b % unit;
    assert (q + 1) * unit == q * unit + unit;
    if q < p {
      MultiplesGrow(q + 1, p, unit);
      assert false;
    }
  }

  /** A larger value never converts to a smaller integer, and exact values are kept. */
  lemma ConversionIsMonotone(fracBits: nat, a: uint32, b: uint32)
    requires 1 <= fracBits <= 30
    ensures a <= b ==> ConvertFixedPointToInteger(fracBits, a) <= ConvertFixedPointToInteger(fracBits, b)
    ensures a % Unit(fracBits) == 0 ==> ConvertFixedPointToInteger(fracBits, a) == a / Unit(fracBits)
  {
    if a <= b {
      QuotientsGrow(Unit(fracBits), a, b);
    }
  }

  lemma UnitGrows(fracBits: nat)
    requires fracBits >= 2
    ensures Unit(fracBits) >= 4
  {
    if fracBits > 2 {
      UnitGrows(fracBits - 1);
    }
  }

  lemma QuotientIsSmall(floor: nat, unit: nat, part: nat)
    requires unit >= 4 && floor * unit + part < 0x1_0000_0000
    ensures floor < 0x4000_0000
  {
    MultiplesGrow(4, unit, floor);
    assert floor * unit == unit * floor;
  }

  /** The C code holds the result in a signed 32-bit int: it fits for every input but the all-ones value with
      a single fractional bit. */
  lemma ResultFitsIff(fracBits: nat, value: uint32)
    requires 1 <= fracBits <= 30
    ensures ConvertFixedPointToInteger(fracBits, value) < 0x8000_0000 <==> !(fracBits == 1 && value == 0xFFFF_FFFF)
  {
    if fracBits == 1 {
      assert Unit(1) == 2 && Unit(0) == 1;
    } else {
      UnitGrows(fracBits);
      DivisionSplits(value, Unit(fracBits));
      QuotientIsSmall(value / Unit(fracBits), Unit(fracBits), value % Unit(fracBits));
    }
  }
}
