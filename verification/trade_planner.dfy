/**
 * The trade planner's stop-loss / take-profit placement (`computeSLTP`): the stop distance
 * (pips, or ticks for gold) becomes a price distance, and the stop and target are placed on
 * either side of the entry according to the direction.
 */
module TradePlanner {
  import opened Common
  import Calc

  datatype Direction = Long | Short

  datatype TradePlanInputs = TradePlanInputs(
    symbol: string, direction: Direction, entryPrice: real, stopDistance: real, rewardToRisk: real)

  datatype TradePlanResult = TradePlanResult(
    slPrice: real, tpPrice: real, riskDistancePrice: real, rewardDistancePrice: real)

  const EntryPriceMessage: string := "Entry price must be > 0."
  const StopDistanceMessage: string := "Stop distance must be > 0."
  const RMultipleMessage: string := "R multiple must be > 0."

  /** The planner's guards, in the order they run. */
  function PlanGuards(input: TradePlanInputs): seq<Calc.Guard> {
    [Calc.Guard(input.entryPrice > 0.0, EntryPriceMessage),
     Calc.Guard(input.stopDistance > 0.0, StopDistanceMessage),
     Calc.Guard(input.rewardToRisk > 0.0, RMultipleMessage)]
  }

  /** The price change of one unit of stop distance: a 0.01 tick for gold, the pip size otherwise. */
  function PriceStep(symbol: string): (r: real)
    ensures symbol == Calc.GoldSymbol ==> r == 0.01
    ensures symbol != Calc.GoldSymbol ==> r == Calc.PipSize(symbol)
    ensures r > 0.0
  {
    if symbol == Calc.GoldSymbol then 0.01 else Calc.PipSize(symbol)
  }

  /**
   * `computeSLTP`: the three guards in order, then the risk distance is the stop distance in
   * price units and the reward distance is that times the R multiple. A long trade has its stop
   * below and its target above the entry; a short trade the reverse.
   */
  function ComputeSlTp(input: TradePlanInputs): (r: Result<TradePlanResult, string>)
    ensures r.Failure? ==> Calc.FirstFailing(PlanGuards(input)) == Some(r.error)
    ensures r.Success? <==> Calc.FirstFailing(PlanGuards(input)).None?
    ensures r.Success? ==>
      var p := r.value;
      && p.riskDistancePrice == input.stopDistance * PriceStep(input.symbol)
      && p.rewardDistancePrice == p.riskDistancePrice * input.rewardToRisk
      && 0.0 < p.riskDistancePrice && 0.0 < p.rewardDistancePrice
    ensures r.Success? && input.direction == Long ==>
      && r.value.slPrice < input.entryPrice < r.value.tpPrice
      && input.entryPrice - r.value.slPrice == r.value.riskDistancePrice
      && r.value.tpPrice - input.entryPrice == r.value.rewardDistancePrice
    ensures r.Success? && input.direction == Short ==>
      && r.value.tpPrice < input.entryPrice < r.value.slPrice
      && r.value.slPrice - input.entryPrice == r.value.riskDistancePrice
      && input.entryPrice - r.value.tpPrice == r.value.rewardDistancePrice
  {
    var guards := PlanGuards(input);
    assert guards[0..] == guards && guards[3..] == [];
    Calc.FirstFailingStep(guards, 0);
    Calc.FirstFailingStep(guards, 1);
    Calc.FirstFailingStep(guards, 2);
    if !(input.entryPrice > 0.0) then Failure(EntryPriceMessage)
    else if !(input.stopDistance > 0.0) then Failure(StopDistanceMessage)
    else if !(input.rewardToRisk > 0.0) then Failure(RMultipleMessage)
    else
      var step := PriceStep(input.symbol);
      var riskDistance := input.stopDistance * step;
      Calc.MultiplyPreservesStrictOrder(0.0, input.stopDistance, step);
      var rewardDistance := riskDistance * input.rewardToRisk;
      Calc.MultiplyPreservesStrictOrder(0.0, riskDistance, input.rewardToRisk);
      var slPrice := if input.direction == Long then input.entryPrice - riskDistance else input.entryPrice + riskDistance;
      var tpPrice := if input.direction == Long then input.entryPrice + rewardDistance else input.entryPrice - rewardDistance;
      Success(TradePlanResult(slPrice, tpPrice, riskDistance, rewardDistance))
  }

  /** Long and short plans mirror each other around the entry price. */
  lemma DirectionsMirror(input: TradePlanInputs)
    requires ComputeSlTp(input).Success?
    ensures var long := ComputeSlTp(input.(direction := Long)).value;
      var short := ComputeSlTp(input.(direction := Short)).value;
      && long.slPrice + short.slPrice == 2.0 * input.entryPrice
      && long.tpPrice + short.tpPrice == 2.0 * input.entryPrice
      && long.riskDistancePrice == short.riskDistancePrice
  {
    assert PlanGuards(input.(direction := Long)) == PlanGuards(input) == PlanGuards(input.(direction := Short));
  }
}
