/** The battery gauge's voltage-to-charge rule: a straight line between an empty cell at
    3.0 V and a full one at 4.2 V, clamped outside. Voltages are exact reals here. */
module Battery {
  const Empty: real := 3.0
  const Full: real := 4.2

  /** `_voltage_to_soc`. */
  function StateOfCharge(v: real): (soc: real)
    ensures 0.0 <= soc <= 1.0
    ensures v >= Full ==> soc == 1.0
    ensures v <= Empty ==> soc == 0.0
    ensures Empty < v < Full ==> soc * (Full - Empty) == v - Empty && 0.0 < soc < 1.0
  {
    if v >= Full then 1.0
    else if v <= Empty then 0.0
    else (v - Empty) / (Full - Empty)
  }

  /** A higher voltage never reads as less charge. */
  lemma StateOfChargeMonotone(a: real, b: real)
    requires a <= b
    ensures StateOfCharge(a) <= StateOfCharge(b)
  {
    if Empty < a < Full && Empty < b < Full {
      assert StateOfCharge(b) - StateOfCharge(a) == (b - a) / (Full - Empty);
    }
  }

  /** Within the linear range, distinct voltages read as distinct charges, so the reading
      determines the voltage. */
  lemma StateOfChargeInvertible(a: real, b: real)
    requires Empty < a < Full && Empty < b < Full
    requires StateOfCharge(a) == StateOfCharge(b)
    ensures a == b
  {
  }
}
