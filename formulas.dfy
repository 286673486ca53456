/** The two domain formulas: energy in scope of a fuel quantity and the
    Compliance Balance of an achieved intensity against a target. */
module Formulas {

  /** Target GHG intensity for 2025, gCO2e/MJ. */
  const TargetIntensity2025: real := 89.3368

  /** MJ of energy per tonne of fuel. */
  const EnergyConversionFactor: real := 41000.0

  /** Energy in scope (MJ) of `fuelTonnes` tonnes of fuel: the tonnage
      scaled by the conversion factor, so it is additive and zero only for
      no fuel. */
  function EnergyInScope(fuelTonnes: real): (mj: real)
    ensures fuelTonnes > 0.0 ==> mj > fuelTonnes
    ensures fuelTonnes == 0.0 <==> mj == 0.0
    ensures mj / EnergyConversionFactor == fuelTonnes
  {
    fuelTonnes * EnergyConversionFactor
  }

  /** Compliance Balance: positive means surplus, negative deficit. With
      energy in scope, the sign is decided by the intensities alone. */
  function ComplianceBalance(target: real, actual: real, energy: real): (cb: real)
    ensures energy > 0.0 ==> (cb > 0.0 <==> actual < target)
    ensures energy > 0.0 ==> (cb < 0.0 <==> actual > target)
    ensures actual == target ==> cb == 0.0
    ensures energy == 0.0 ==> cb == 0.0
  {
    var gap := target - actual;
    ProductSign(gap, energy);
    gap * energy
  }

  /** Sign of a product with a positive factor. */
  lemma {:induction false} ProductSign(d: real, e: real)
    ensures e > 0.0 ==> (d * e > 0.0 <==> d > 0.0) && (d * e < 0.0 <==> d < 0.0)
  {
    if e > 0.0 {
      if d > 0.0 {
        assert d * e > 0.0;
      } else if d < 0.0 {
        assert (-d) * e > 0.0;
      } else {
        assert d * e == 0.0;
      }
    }
  }

  /** The balance is linear in the energy: two route groups at the same
      intensity add their balances. */
  lemma {:induction false} BalanceAdditiveInEnergy(target: real, actual: real, e1: real, e2: real)
    ensures ComplianceBalance(target, actual, e1 + e2)
         == ComplianceBalance(target, actual, e1) + ComplianceBalance(target, actual, e2)
  {
  }

  /** Energy in scope is additive in the fuel burnt. */
  lemma {:induction false} EnergyAdditive(f1: real, f2: real)
    ensures EnergyInScope(f1 + f2) == EnergyInScope(f1) + EnergyInScope(f2)
  {
  }

  /** A larger energy makes a surplus larger and a deficit deeper. */
  lemma {:induction false} BalanceScalesWithEnergy(target: real, actual: real, e1: real, e2: real)
    requires 0.0 <= e1 <= e2
    ensures actual < target ==> ComplianceBalance(target, actual, e1) <= ComplianceBalance(target, actual, e2)
    ensures actual > target ==> ComplianceBalance(target, actual, e1) >= ComplianceBalance(target, actual, e2)
  {
    var d := target - actual;
    assert ComplianceBalance(target, actual, e2) - ComplianceBalance(target, actual, e1) == d * (e2 - e1);
  }
}
