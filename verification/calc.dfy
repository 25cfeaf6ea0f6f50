/**
 * The front end's position-size calculator: input validation, the FX and gold unit values,
 * lot rounding and `computePositionSize`.
 *
 * Numbers are exact reals, not IEEE doubles. A thrown `Error` is a `Failure` carrying its
 * message, and `Math.round(x)` is `floor(x + 1/2)`.
 */
module Calc {
  import opened Common
  import Text

  /** One guard of an ordered chain: whether it holds, and the message thrown when it does not. */
  datatype Guard = Guard(holds: bool, message: string)

  /** Guard `i` is the first that fails, and `message` is its message. */
  ghost predicate IsFirstFailure(guards: seq<Guard>, message: string) {
    exists i :: 0 <= i < |guards| && !guards[i].holds && message == guards[i].message
                && forall j :: 0 <= j < i ==> guards[j].holds
  }

  /** The message of the first guard that fails, if any: what a chain of `if (!ok) throw` statements throws. */
  function FirstFailing(guards: seq<Guard>): (r: Option<string>)
    ensures r.None? <==> forall i :: 0 <= i < |guards| ==> guards[i].holds
    ensures r.Some? ==> IsFirstFailure(guards, r.value)
  {
    if |guards| == 0 then None
    else if !guards[0].holds then Some(guards[0].message)
    else
      var rest := FirstFailing(guards[1..]);
      assert rest.Some? ==> IsFirstFailure(guards, rest.value) by {
        if rest.Some? {
          var i :| 0 <= i < |guards[1..]| && !guards[1..][i].holds && rest.value == guards[1..][i].message
                   && forall j :: 0 <= j < i ==> guards[1..][j].holds;
          assert forall j :: 0 <= j < i + 1 ==> guards[j].holds by {
            forall j | 0 <= j < i + 1 ensures guards[j].holds {
              if j > 0 { assert guards[j] == guards[1..][j - 1]; }
            }
          }
        }
      }
      rest
  }

  /** The calculator form's inputs (`CalcInputs`). */
  datatype CalcInputs = CalcInputs(
    accountCcy: string, balance: real, riskPct: real, symbol: string,
    stopDistance: real, usdchfRate: real, lotStep: real,
    goldContractSize: real, goldTickSize: real)

  const OnlyChfMessage: string := "MVP: only CHF accounts supported."
  const BalanceMessage: string := "Balance must be > 0."
  const RiskPctMessage: string := "Risk % must be between 0 and 5."
  const StopDistanceMessage: string := "Stop distance must be > 0."
  const LotStepMessage: string := "Lot step must be > 0."
  const UsdChfRateMessage: string := "USD\U{2192}CHF rate must be > 0."

  /** The guards of `validateInputs`, in the order they run. */
  function InputGuards(input: CalcInputs): (g: seq<Guard>)
    ensures |g| == 6
  {
    [Guard(input.accountCcy == "CHF", OnlyChfMessage),
     Guard(input.balance > 0.0, BalanceMessage),
     Guard(0.0 < input.riskPct <= 5.0, RiskPctMessage),
     Guard(input.stopDistance > 0.0, StopDistanceMessage),
     Guard(input.lotStep > 0.0, LotStepMessage),
     Guard(input.usdchfRate > 0.0, UsdChfRateMessage)]
  }

  /** The inputs `validateInputs` lets through. */
  predicate ValidInputs(input: CalcInputs) {
    && input.accountCcy == "CHF" && input.balance > 0.0 && 0.0 < input.riskPct <= 5.0
    && input.stopDistance > 0.0 && input.lotStep > 0.0 && input.usdchfRate > 0.0
  }

  /** `validateInputs`: None when it returns, otherwise the message it throws. */
  function ValidateInputs(input: CalcInputs): (r: Option<string>)
    ensures r.None? <==> ValidInputs(input)
    ensures input.accountCcy != "CHF" ==> r == Some(OnlyChfMessage)
    ensures r.Some? ==> r.value in {OnlyChfMessage, BalanceMessage, RiskPctMessage,
                                    StopDistanceMessage, LotStepMessage, UsdChfRateMessage}
  {
    if input.accountCcy != "CHF" then Some(OnlyChfMessage)
    else if !(input.balance > 0.0) then Some(BalanceMessage)
    else if !(0.0 < input.riskPct <= 5.0) then Some(RiskPctMessage)
    else if !(input.stopDistance > 0.0) then Some(StopDistanceMessage)
    else if !(input.lotStep > 0.0) then Some(LotStepMessage)
    else if !(input.usdchfRate > 0.0) then Some(UsdChfRateMessage)
    else None
  }

  /** The chain throws the message of the first failing guard, in the order written. */
  lemma ValidateIsFirstFailingGuard(input: CalcInputs)
    ensures ValidateInputs(input) == FirstFailing(InputGuards(input))
  {
    var g := InputGuards(input);
    assert g[0..] == g && g[6..] == [];
    FirstFailingStep(g, 0);
    FirstFailingStep(g, 1);
    FirstFailingStep(g, 2);
    FirstFailingStep(g, 3);
    FirstFailingStep(g, 4);
    FirstFailingStep(g, 5);
  }

  /** One step of the chain: the first guard from position `i` on either fails or passes the question on. */
  lemma FirstFailingStep(guards: seq<Guard>, i: nat)
    requires i < |guards|
    ensures FirstFailing(guards[i..]) ==
      if !guards[i].holds then Some(guards[i].message) else FirstFailing(guards[i + 1..])
  {
    assert guards[i..][1..] == guards[i + 1..];
  }

  /** The risk bound is half-open: exactly 5 % passes, 0 % is refused with the risk message. */
  lemma RiskPctBoundary(input: CalcInputs)
    requires input.accountCcy == "CHF" && input.balance > 0.0
    ensures input.riskPct == 0.0 ==> ValidateInputs(input) == Some(RiskPctMessage)
    ensures input.riskPct == 5.0 && input.stopDistance > 0.0 && input.lotStep > 0.0 && input.usdchfRate > 0.0 ==>
      ValidateInputs(input).None?
  {
  }

  /** A value `step` divides a whole number of times. */
  predicate IsMultipleOf(x: real, step: real)
    requires step > 0.0
  {
    (x / step).Floor as real == x / step
  }

  /** `roundDownToStep`: `floor(value * (1/step)) / (1/step)`, the largest multiple of `step` not above `value`. */
  function RoundDownToStep(value: real, step: real): (r: real)
    requires step > 0.0
    ensures r <= value && value - r < step
    ensures IsMultipleOf(r, step)
  {
    var inv := 1.0 / step;
    var n := (value * inv).Floor;
    FloorStepBounds(value, step, inv, n);
    n as real / inv
  }

  /** The multiple `n * step` picked by flooring `value / step` brackets `value` within one step. */
  lemma FloorStepBounds(value: real, step: real, inv: real, n: int)
    requires step > 0.0 && inv == 1.0 / step && n == (value * inv).Floor
    ensures n as real / inv == n as real * step
    ensures n as real * step <= value && value < n as real * step + step
    ensures IsMultipleOf(n as real * step, step)
  {
    var q := value / step;
    assert value * inv == q;
    assert n as real <= q < n as real + 1.0;
    assert q * step == value;
    MultiplyPreservesOrder(n as real, q, step);
    MultiplyPreservesStrictOrder(q, n as real + 1.0, step);
    assert (n as real + 1.0) * step == n as real * step + step;
    assert (n as real * step) / step == n as real;
  }

  lemma MultiplyPreservesOrder(a: real, b: real, c: real)
    requires a <= b && c > 0.0
    ensures a * c <= b * c
  {
  }

  lemma MultiplyPreservesStrictOrder(a: real, b: real, c: real)
    requires a < b && c > 0.0
    ensures a * c < b * c
  {
  }

  lemma MultiplyReflectsStrictOrder(a: real, b: real, c: real)
    requires a * c < b * c && c > 0.0
    ensures a < b
  {
    if b <= a {
      MultiplyPreservesOrder(b, a, c);
    }
  }

  lemma DividePreservesOrder(a: real, b: real, c: real)
    requires a <= b && c > 0.0
    ensures a / c <= b / c
  {
    MultiplyPreservesOrder(a, b, 1.0 / c);
  }

  /** The multiple of `step` a rounded value is. */
  lemma MultipleCount(x: real, step: real)
    requires step > 0.0 && IsMultipleOf(x, step)
    ensures x == (x / step).Floor as real * step
  {
  }

  /** No larger multiple of `step` fits under `value`. */
  lemma RoundDownIsLargest(value: real, step: real, k: int)
    requires step > 0.0
    requires k as real * step <= value
    ensures k as real * step <= RoundDownToStep(value, step)
  {
    var r := RoundDownToStep(value, step);
    var n := (r / step).Floor;
    MultipleCount(r, step);
    assert r == n as real * step;
    assert k as real * step < (n as real + 1.0) * step by {
      assert value < r + step;
      assert (n as real + 1.0) * step == n as real * step + step;
    }
    MultiplyReflectsStrictOrder(k as real, n as real + 1.0, step);
    assert k <= n;
    MultiplyPreservesOrder(k as real, n as real, step);
  }

  /** Rounding down is monotone: a larger value never gives a smaller result. */
  lemma RoundDownMonotone(v1: real, v2: real, step: real)
    requires step > 0.0 && v1 <= v2
    ensures RoundDownToStep(v1, step) <= RoundDownToStep(v2, step)
  {
    var r1 := RoundDownToStep(v1, step);
    var n := (r1 / step).Floor;
    MultipleCount(r1, step);
    RoundDownIsLargest(v2, step, n);
  }

  /** `Math.round`: the nearest integer, halves rounded up. */
  function Round(x: real): (r: int)
    ensures r as real - 0.5 <= x < r as real + 0.5
  {
    (x + 0.5).Floor
  }

  /** `Math.round` picks the one integer within half a unit (halves going up). */
  lemma RoundIsNearest(x: real, k: int)
    requires k as real - 0.5 <= x < k as real + 0.5
    ensures Round(x) == k
  {
  }

  const FxContractSize: real := 100000.0

  /** `pipSize`: 0.01 for yen pairs, 0.0001 for everything else. */
  function PipSize(symbol: string): (r: real)
    ensures r == 0.01 <==> Text.EndsWith(symbol, "JPY")
    ensures r == 0.01 || r == 0.0001
  {
    if Text.EndsWith(symbol, "JPY") then 0.01 else 0.0001
  }

  /**
   * `fxValuePerPipPerLotCHF`: for a CHF-quoted pair one pip of a standard lot is worth
   * `100000 * pip` francs outright; otherwise the USD value is converted at the USD/CHF rate.
   */
  function FxValuePerPipPerLotChf(symbol: string, usdchfRate: real): (r: real)
    ensures Text.EndsWith(symbol, "CHF") ==> r == FxContractSize * PipSize(symbol)
    ensures !Text.EndsWith(symbol, "CHF") ==> r == FxContractSize * PipSize(symbol) * usdchfRate
    ensures usdchfRate > 0.0 ==> r > 0.0
  {
    var ps := PipSize(symbol);
    if Text.EndsWith(symbol, "CHF") then FxContractSize * ps
    else
      var pipValueUsd := FxContractSize * ps;
      pipValueUsd * usdchfRate
  }

  /** A CHF-quoted pair's pip value does not depend on the conversion rate. */
  lemma ChfQuotedIgnoresRate(symbol: string, rate1: real, rate2: real)
    requires Text.EndsWith(symbol, "CHF")
    ensures FxValuePerPipPerLotChf(symbol, rate1) == FxValuePerPipPerLotChf(symbol, rate2)
  {
  }

  /** `fxExposureUnits`: the lot size in base-currency units, rounded. */
  function FxExposureUnits(lots: real): (r: int)
    ensures r as real - 0.5 <= lots * FxContractSize < r as real + 0.5
  {
    Round(lots * FxContractSize)
  }

  const GoldContractSizeMessage: string := "Gold contract size must be > 0."
  const GoldTickSizeMessage: string := "Gold tick size must be > 0."

  /** `goldValuePerTickPerLotCHF`: contract size checked first, then tick size; the value is in francs. */
  function GoldValuePerTickPerLotChf(contractSize: real, tickSize: real, usdchfRate: real): (r: Result<real, string>)
    ensures contractSize <= 0.0 ==> r == Failure(GoldContractSizeMessage)
    ensures contractSize > 0.0 && tickSize <= 0.0 ==> r == Failure(GoldTickSizeMessage)
    ensures r.Success? <==> contractSize > 0.0 && tickSize > 0.0
    ensures r.Success? ==> r.value == contractSize * tickSize * usdchfRate
    ensures r.Success? && usdchfRate > 0.0 ==> r.value > 0.0
  {
    if !(contractSize > 0.0) then Failure(GoldContractSizeMessage)
    else if !(tickSize > 0.0) then Failure(GoldTickSizeMessage)
    else
      var tickValueUsd := contractSize * tickSize;
      Success(tickValueUsd * usdchfRate)
  }

  /** `goldExposureOz`: ounces held, rounded. */
  function GoldExposureOz(lots: real, contractSize: real): (r: int)
    ensures r as real - 0.5 <= lots * contractSize < r as real + 0.5
  {
    Round(lots * contractSize)
  }

  /** `CalcResult`. */
  datatype CalcResult = CalcResult(
    riskMoneyChf: real, valuePerUnitPerLotChf: real, stopValuePerLotChf: real,
    lots: real, exposureUnits: int, unitLabel: string, distanceLabel: string)

  const GoldSymbol: string := "XAUUSD"
  const LotsZeroMessage: string := "Lot size rounded down to 0."

  /** The value of one pip (FX) or tick (gold) of one lot, in francs, or the gold helper's error. */
  function UnitValue(input: CalcInputs): (r: Result<real, string>)
    ensures input.symbol != GoldSymbol ==> r == Success(FxValuePerPipPerLotChf(input.symbol, input.usdchfRate))
    ensures input.symbol == GoldSymbol ==>
      r == GoldValuePerTickPerLotChf(input.goldContractSize, input.goldTickSize, input.usdchfRate)
  {
    if input.symbol == GoldSymbol then
      GoldValuePerTickPerLotChf(input.goldContractSize, input.goldTickSize, input.usdchfRate)
    else
      Success(FxValuePerPipPerLotChf(input.symbol, input.usdchfRate))
  }

  /**
   * `roundDownToStep(riskMoney / stopValue, lotStep)`: a whole number of lot steps whose stop
   * loss stays within the risk budget and misses it by less than one step's worth.
   */
  function LotsFor(riskMoney: real, stopValue: real, lotStep: real): (lots: real)
    requires stopValue > 0.0 && lotStep > 0.0
    ensures IsMultipleOf(lots, lotStep)
    ensures lots * stopValue <= riskMoney < (lots + lotStep) * stopValue
  {
    var rawLots := riskMoney / stopValue;
    var lots := RoundDownToStep(rawLots, lotStep);
    LotsWithinBudget(riskMoney, stopValue, rawLots, lots, lotStep);
    lots
  }

  /**
   * The sizing step of `computePositionSize` once the inputs are valid and the unit value is known:
   * the lot count is the risk budget divided by the stop's value per lot, rounded down to the lot
   * step, so it never exceeds the budget and misses it by less than one step; a count that rounds
   * to zero is refused; exposure is computed from the rounded lots.
   */
  function SizePosition(input: CalcInputs, valuePerUnit: real): (r: Result<CalcResult, string>)
    requires ValidInputs(input) && valuePerUnit > 0.0
    ensures r.Failure? ==> r.error == LotsZeroMessage
    ensures r.Success? <==>
      LotsFor(input.balance * (input.riskPct / 100.0), input.stopDistance * valuePerUnit, input.lotStep) > 0.0
    ensures r.Success? ==>
      var res := r.value;
      && res.riskMoneyChf == input.balance * (input.riskPct / 100.0)
      && res.valuePerUnitPerLotChf == valuePerUnit
      && res.stopValuePerLotChf == input.stopDistance * valuePerUnit
      && res.stopValuePerLotChf > 0.0
      && res.lots > 0.0
      && res.lots == LotsFor(res.riskMoneyChf, res.stopValuePerLotChf, input.lotStep)
    ensures r.Success? ==>
      if input.symbol == GoldSymbol then
        && r.value.unitLabel == "oz" && r.value.distanceLabel == "ticks"
        && r.value.exposureUnits == GoldExposureOz(r.value.lots, input.goldContractSize)
      else
        && r.value.unitLabel == "units" && r.value.distanceLabel == "pips"
        && r.value.exposureUnits == FxExposureUnits(r.value.lots)
  {
    var riskMoneyChf := input.balance * (input.riskPct / 100.0);
    var stopValue := input.stopDistance * valuePerUnit;
    MultiplyPreservesStrictOrder(0.0, input.stopDistance, valuePerUnit);
    var lots := LotsFor(riskMoneyChf, stopValue, input.lotStep);
    if !(lots > 0.0) then Failure(LotsZeroMessage)
    else
      var isGold := input.symbol == GoldSymbol;
      var exposure := if isGold then GoldExposureOz(lots, input.goldContractSize) else FxExposureUnits(lots);
      Success(CalcResult(riskMoneyChf, valuePerUnit, stopValue, lots, exposure,
                         if isGold then "oz" else "units", if isGold then "ticks" else "pips"))
  }

  /**
   * `computePositionSize`: validation first, then the unit value (whose gold branch may throw),
   * then the sizing step.
   */
  function ComputePositionSize(input: CalcInputs): (r: Result<CalcResult, string>)
    ensures ValidateInputs(input).Some? ==> r == Failure(ValidateInputs(input).value)
    ensures ValidateInputs(input).None? && UnitValue(input).Failure? ==> r == Failure(UnitValue(input).error)
    ensures r.Failure? && ValidateInputs(input).None? ==>
      r.error in {GoldContractSizeMessage, GoldTickSizeMessage, LotsZeroMessage}
    ensures r.Success? ==>
      && ValidInputs(input) && UnitValue(input).Success? && UnitValue(input).value > 0.0
      && r == SizePosition(input, UnitValue(input).value)
    ensures ValidateInputs(input).None? && UnitValue(input).Success? ==>
      && ValidInputs(input) && UnitValue(input).value > 0.0
      && r == SizePosition(input, UnitValue(input).value)
  {
    match ValidateInputs(input)
    case Some(message) => Failure(message)
    case None =>
      match UnitValue(input)
      case Failure(message) => Failure(message)
      case Success(valuePerUnit) => SizePosition(input, valuePerUnit)
  }

  /** Scaling the rounding bounds `lots <= raw < lots + step` by the stop value. */
  lemma LotsWithinBudget(riskMoney: real, stopValue: real, rawLots: real, lots: real, step: real)
    requires stopValue > 0.0 && rawLots == riskMoney / stopValue
    requires lots <= rawLots < lots + step
    ensures lots * stopValue <= riskMoney < (lots + step) * stopValue
  {
    assert rawLots * stopValue == riskMoney;
    MultiplyPreservesOrder(lots, rawLots, stopValue);
    MultiplyPreservesStrictOrder(rawLots, lots + step, stopValue);
  }

  /** A larger budget over the same stop value never rounds to fewer lots. */
  lemma LotsForMonotone(risk1: real, risk2: real, stopValue: real, lotStep: real)
    requires risk1 <= risk2 && stopValue > 0.0 && lotStep > 0.0
    ensures LotsFor(risk1, stopValue, lotStep) <= LotsFor(risk2, stopValue, lotStep)
  {
    DividePreservesOrder(risk1, risk2, stopValue);
    RoundDownMonotone(risk1 / stopValue, risk2 / stopValue, lotStep);
  }

  /** Less than one step's worth of budget buys no lots. */
  lemma LotsForBelowOneStep(risk: real, stopValue: real, lotStep: real)
    requires stopValue > 0.0 && lotStep > 0.0
    requires risk < lotStep * stopValue
    ensures LotsFor(risk, stopValue, lotStep) <= 0.0
  {
    var lots := LotsFor(risk, stopValue, lotStep);
    MultiplyReflectsStrictOrder(lots, lotStep, stopValue);
    var n := (lots / lotStep).Floor;
    MultipleCount(lots, lotStep);
    MultiplyReflectsStrictOrder(n as real, 1.0, lotStep);
    MultiplyPreservesOrder(n as real, 0.0, lotStep);
  }
}
