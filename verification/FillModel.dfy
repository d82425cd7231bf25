/** Simulated fills: mid price, half the spread and size slippage, clipped to the tradable range. */
module FillModel {
  import opened Wrappers

  const LOWEST: real := 0.001
  const HIGHEST: real := 0.999

  datatype Side = YesBuy | YesSell | NoBuy
  datatype Fill = Fill(price: real, slippage: real)
  datatype Costs = Costs(spread: real, size: real, slippagePerUnit: real)
  datatype FillError = BadMid | BadSpread | BadSize | BadSlippage

  function Clip(x: real): real {
    var capped := if x < HIGHEST then x else HIGHEST;
    if capped > LOWEST then capped else LOWEST
  }

  /** What a trade costs on top of the mid. */
  function Cost(c: Costs): real {
    c.spread / 2.0 + c.slippagePerUnit * c.size
  }

  function ComputeFill(side: Side, mid: real, c: Costs): Result<Fill, FillError> {
    if !(0.0 <= mid <= 1.0) then Failure(BadMid)
    else if c.spread < 0.0 then Failure(BadSpread)
    else if c.size < 0.0 then Failure(BadSize)
    else if c.slippagePerUnit < 0.0 then Failure(BadSlippage)
    else
      match side
      case YesBuy => Success(Fill(Clip(mid + Cost(c)), Cost(c)))
      case YesSell => Success(Fill(Clip(mid - Cost(c)), -Cost(c)))
      case NoBuy => Success(Fill(Clip(1.0 - mid + Cost(c)), Cost(c)))
  }

  lemma CostIsNonNegative(side: Side, mid: real, c: Costs)
    requires ComputeFill(side, mid, c).Success?
    ensures Cost(c) >= 0.0
  {
  }

  lemma ClipFacts(x: real, y: real)
    ensures LOWEST <= Clip(x) <= HIGHEST
    ensures x <= y ==> Clip(x) <= Clip(y) <= Clip(x) + (y - x)
  {
  }

  /**
   * A trade fills exactly for a mid that is a probability and costs that are not negative. Its price lies in
   * [0.001, 0.999]; unless clipped it misses the side's mid by half the spread and the size slippage, to the
   * buyer's or seller's disadvantage, which it records as its slippage.
   */
  lemma FillVerdict(side: Side, mid: real, c: Costs)
    ensures var r := ComputeFill(side, mid, c);
            && (r.Success? <==> 0.0 <= mid <= 1.0 && c.spread >= 0.0 && c.size >= 0.0 && c.slippagePerUnit >= 0.0)
            && (r.Success? ==>
                  var worse := if side == YesSell then -r.value.slippage else r.value.slippage;
                  && 2.0 * worse == c.spread + 2.0 * (c.slippagePerUnit * c.size)
                  && 0.001 <= r.value.price <= 0.999
                  && (0.001 < r.value.price < 0.999 ==> r.value.price == SideMid(side, mid) + r.value.slippage)
                  && (r.value.price == 0.001 ==> SideMid(side, mid) + r.value.slippage <= 0.001)
                  && (r.value.price == 0.999 ==> SideMid(side, mid) + r.value.slippage >= 0.999))
  {
  }

  /** The mid of the side bought or sold. */
  function SideMid(side: Side, mid: real): real {
    if side == NoBuy then 1.0 - mid else mid
  }

  /** Without spread and size a trade fills at its mid exactly when the mid lies in the tradable range. */
  lemma FreeFillIsTheMid(side: Side, mid: real, c: Costs)
    requires 0.0 <= mid <= 1.0 && c.spread == 0.0 && c.size == 0.0 && c.slippagePerUnit >= 0.0
    ensures ComputeFill(side, mid, c).Success?
    ensures ComputeFill(side, mid, c).value.price == SideMid(side, mid) <==> 0.001 <= mid <= 0.999
  {
  }

  /** A market at zero: every side misses its mid by the clipping bound. */
  lemma FreeFillMissesAnExtremeMid(side: Side, slippagePerUnit: real)
    requires slippagePerUnit >= 0.0
    ensures var r := ComputeFill(side, 0.0, Costs(0.0, 0.0, slippagePerUnit));
            r.Success? && Distance(r.value.price, SideMid(side, 0.0)) == LOWEST
  {
  }

  function Distance(x: real, y: real): real {
    if x < y then y - x else x - y
  }

  /**
   * Buying YES and selling it again gains exactly if the mid has risen by more than twice the cost and
   * neither price is clipped to its worst.
   */
  lemma YesRoundTrip(mid: real, later: real, c: Costs)
    requires ComputeFill(YesBuy, mid, c).Success? && ComputeFill(YesSell, later, c).Success?
    ensures var gain := ComputeFill(YesSell, later, c).value.price - ComputeFill(YesBuy, mid, c).value.price;
            (gain > 0.0 <==> later - mid > 2.0 * Cost(c) && mid + Cost(c) < HIGHEST && later - Cost(c) > LOWEST)
            && (later <= mid ==> gain <= 0.0)
  {
    CostIsNonNegative(YesBuy, mid, c);
  }

  /** What closing a YES position is booked as, per share: its sale price less its purchase price. */
  function YesGain(mid: real, later: real, c: Costs): real {
    Clip(later - Cost(c)) - Clip(mid + Cost(c))
  }

  /** What closing a NO position is booked as: NO entry price less the YES price paid to close it. */
  function NoGain(mid: real, later: real, c: Costs): real {
    Clip(1.0 - mid + Cost(c)) - Clip(later + Cost(c))
  }

  /** What selling the NO shares again would bring. */
  function NoMarkToMarket(mid: real, later: real, c: Costs): real {
    Clip(1.0 - later - Cost(c)) - Clip(1.0 - mid + Cost(c))
  }

  /** The booked gain is positive exactly when the mids add up to less than one, clipping aside. */
  lemma NoGainSign(mid: real, later: real, c: Costs)
    ensures NoGain(mid, later, c) > 0.0
       <==> mid + later < 1.0 && later + Cost(c) < HIGHEST && 1.0 - mid + Cost(c) > LOWEST
  {
  }

  /** The marked gain is positive exactly when the mid has fallen by more than twice the cost, clipping aside. */
  lemma NoMarkToMarketSign(mid: real, later: real, c: Costs)
    ensures NoMarkToMarket(mid, later, c) > 0.0
       <==> mid - later > 2.0 * Cost(c) && 1.0 - mid + Cost(c) < HIGHEST && 1.0 - later - Cost(c) > LOWEST
  {
  }

  /** The booked gain is the mark-to-market gain exactly for an entry mid of one half plus the cost. */
  lemma NoGainIsNotMarkToMarket(mid: real, later: real, c: Costs)
    ensures NoGain(mid, later, c) == NoMarkToMarket(mid, later, c) <==> mid == 0.5 + Cost(c)
  {
  }
}
