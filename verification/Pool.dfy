/** The canary pool: checked word arithmetic of a constant-product pool with a
    fee, and the checks a probe makes on its events. Every law holds for every
    word size. */
module Pool {
  import opened Wrappers

  const KEPT := 997
  const BASE := 1000

  /** A checked operation of the source's words: `limit` is the number of
      values a word has, 2^256 there, and any number here. */
  function Checked(limit: nat, n: int): Option<nat> {
    if 0 <= n < limit then Some(n) else None
  }

  function CheckedDiv(a: nat, b: nat): Option<nat> {
    if b == 0 then None else Some(a / b)
  }

  lemma DivisionLaw(a: nat, b: nat)
    requires b > 0
    ensures a / b >= 0 && (a / b) * b <= a < (a / b) * b + b
  {
  }

  datatype Reserves = Reserves(eth: nat, token: nat) {
    function Product(limit: nat): Option<nat> {
      Checked(limit, eth * token)
    }
  }

  datatype Outcome = SwapMismatch | InvariantBroken | LiquidityMismatch

  /** The output of a swap after the fee. */
  function AmountOut(limit: nat, amountIn: nat, reserveIn: nat, reserveOut: nat): Option<nat> {
    match Checked(limit, amountIn * KEPT)
    case None => None
    case Some(kept) =>
      match Checked(limit, reserveIn * BASE)
      case None => None
      case Some(scaled) =>
        match Checked(limit, scaled + kept)
        case None => None
        case Some(denominator) =>
          match Checked(limit, kept * reserveOut)
          case None => None
          case Some(numerator) => CheckedDiv(numerator, denominator)
  }

  datatype SwapEvent = SwapEvent(ethIn: bool, amountIn: nat, amountOut: nat, before: Reserves, after: Reserves, seqNo: nat) {
    function Oriented(r: Reserves): (nat, nat) {
      if ethIn then (r.eth, r.token) else (r.token, r.eth)
    }

    function Check(limit: nat): Result<(), Outcome> {
      var (rIn, rOut) := Oriented(before);
      match AmountOut(limit, amountIn, rIn, rOut)
      case None => Err(SwapMismatch)
      case Some(expected) =>
        match (Checked(limit, rIn + amountIn), Checked(limit, rOut - amountOut))
        case (Some(afterIn), Some(afterOut)) =>
          if expected != amountOut || Oriented(after) != (afterIn, afterOut) then Err(SwapMismatch) else
            (match (before.Product(limit), after.Product(limit))
             case (Some(p0), Some(p1)) => if p1 < p0 then Err(InvariantBroken) else Ok(())
             case _ => Err(SwapMismatch))
        case _ => Err(SwapMismatch)
    }
  }

  datatype LiquidityEvent = LiquidityEvent(
    added: bool, eth: nat, token: nat, shares: nat, before: Reserves, sharesBefore: nat, seqNo: nat)
  {
    function Scaled(limit: nat, a: nat, b: nat, d: nat): Option<nat> {
      match Checked(limit, a * b)
      case None => None
      case Some(n) => CheckedDiv(n, d)
    }

    function Check(limit: nat): Result<(), Outcome> {
      var fits :=
        if added then
          match (Scaled(limit, eth, sharesBefore, before.eth), Scaled(limit, token, sharesBefore, before.token))
          case (Some(a), Some(b)) => shares == if a <= b then a else b
          case _ => false
        else
          Scaled(limit, shares, before.eth, sharesBefore) == Some(eth)
          && Scaled(limit, shares, before.token, sharesBefore) == Some(token);
      if fits then Ok(()) else Err(LiquidityMismatch)
    }
  }

  // ----- one swap

  /** Nothing in the formula overflows a word, and the pool is not empty on the
      input side of an empty swap. */
  predicate InRange(limit: nat, a: nat, rIn: nat, rOut: nat) {
    && 997 * a < limit && 1000 * rIn + 997 * a < limit && 997 * a * rOut < limit
    && 1000 * rIn + 997 * a > 0
  }

  /** `AmountOut` without division: the largest output whose product with the
      denominator stays within the numerator. */
  lemma AmountOutExact(limit: nat, a: nat, rIn: nat, rOut: nat, out: nat)
    ensures AmountOut(limit, a, rIn, rOut) == Some(out) <==>
              InRange(limit, a, rIn, rOut)
              && out * (1000 * rIn + 997 * a) <= 997 * a * rOut < (out + 1) * (1000 * rIn + 997 * a)
  {
    var d, n := BASE * rIn + KEPT * a, KEPT * a * rOut;
    if InRange(limit, a, rIn, rOut) {
      FloorIsUnique(n, d, out);
      assert (out + 1) * d == out * d + d;
    }
  }

  lemma FloorIsUnique(n: nat, d: nat, q: nat)
    requires d > 0
    ensures n / d == q <==> q * d <= n < q * d + d
  {
    DivisionLaw(n, d);
    var p := n / d;
    if q * d <= n < q * d + d {
      assert p * d < (q + 1) * d && q * d < (p + 1) * d;
      MulCancelStrict(p, q + 1, d);
      MulCancelStrict(q, p + 1, d);
    }
  }

  /** What a successful `AmountOut` says, without division. */
  lemma AmountOutBounds(limit: nat, a: nat, rIn: nat, rOut: nat)
    requires AmountOut(limit, a, rIn, rOut).Some?
    ensures
      var out, d := AmountOut(limit, a, rIn, rOut).value, BASE * rIn + KEPT * a;
      d > 0 && out * d <= KEPT * a * rOut < out * d + d
  {
  }

  lemma MulMono(a: int, b: int, k: int)
    requires a <= b && 0 <= k
    ensures a * k <= b * k
  {
  }

  lemma MulCancel(a: int, b: int, k: int)
    requires a * k <= b * k && 0 < k
    ensures a <= b
  {
    assert a > b ==> (a - (b + 1)) * k >= 0;
  }

  /** The output never exceeds the reserve, and the product never falls; with
      a positive input reserve and a positive output it rises. */
  lemma SwapGrowsProduct(a: nat, rIn: nat, rOut: nat, out: nat)
    requires out * (BASE * rIn + KEPT * a) <= KEPT * a * rOut && BASE * rIn + KEPT * a > 0
    ensures out <= rOut
    ensures (rIn + a) * (rOut - out) >= rIn * rOut
    ensures rIn > 0 && out > 0 ==> (rIn + a) * (rOut - out) > rIn * rOut
  {
    assert out * (BASE * rIn + KEPT * a) == KEPT * (out * (rIn + a)) + 3 * (out * rIn);
    assert KEPT * a * rOut == KEPT * (a * rOut);
    assert KEPT * (out * (rIn + a)) + 3 * (out * rIn) <= KEPT * (a * rOut);
    assert rIn > 0 && out > 0 ==> out * rIn > 0;
    assert (rIn + a) * (rOut - out) == rIn * rOut + a * rOut - out * (rIn + a);
    assert out * (rIn + a) <= a * rOut;
    MulMono(a, rIn + a, rOut);
    if rIn + a > 0 {
      assert out * (rIn + a) <= rOut * (rIn + a);
      MulCancel(out, rOut, rIn + a);
    }
  }

  /** The event is a swap at the formula's output: what comes in is added to
      its own reserve, what goes out is taken from the other, and the reserves
      after it and both products are in range. */
  ghost predicate MatchesFormula(limit: nat, ev: SwapEvent) {
    && (if ev.ethIn then
          && AmountOut(limit, ev.amountIn, ev.before.eth, ev.before.token) == Some(ev.amountOut)
          && ev.after.eth == ev.before.eth + ev.amountIn && ev.after.token == ev.before.token - ev.amountOut
        else
          && AmountOut(limit, ev.amountIn, ev.before.token, ev.before.eth) == Some(ev.amountOut)
          && ev.after.token == ev.before.token + ev.amountIn && ev.after.eth == ev.before.eth - ev.amountOut)
    && ev.after.eth < limit && ev.after.token < limit
    && ev.before.eth * ev.before.token < limit && ev.after.eth * ev.after.token < limit
  }

  /** `Check` accepts exactly the swaps that match the formula, and can never
      answer that the product fell. */
  lemma SwapCheckIsTheFormula(limit: nat, ev: SwapEvent)
    ensures ev.Check(limit).Ok? <==> MatchesFormula(limit, ev)
    ensures ev.Check(limit).Err? ==> ev.Check(limit).error == SwapMismatch
  {
    hide AmountOut;
    var (rIn, rOut) := ev.Oriented(ev.before);
    if AmountOut(limit, ev.amountIn, rIn, rOut) == Some(ev.amountOut) {
      FormulaGrowsProduct(limit, ev.amountIn, rIn, rOut);
      Commutes(ev.before.eth, ev.before.token);
      Commutes(ev.after.eth, ev.after.token);
    }
  }

  lemma FormulaGrowsProduct(limit: nat, a: nat, rIn: nat, rOut: nat)
    requires AmountOut(limit, a, rIn, rOut).Some?
    ensures AmountOut(limit, a, rIn, rOut).value <= rOut
    ensures (rIn + a) * (rOut - AmountOut(limit, a, rIn, rOut).value) >= rIn * rOut
  {
    hide AmountOut;
    AmountOutBounds(limit, a, rIn, rOut);
    SwapGrowsProduct(a, rIn, rOut, AmountOut(limit, a, rIn, rOut).value);
  }

  lemma Commutes(a: int, b: int)
    ensures a * b == b * a
  {
  }

  // ----- two swaps

  /** Splitting an input over two swaps never pays more than one swap. */
  lemma SplitNeverBeatsOneSwap(limit: nat, a1: nat, a2: nat, e: nat, t: nat)
    requires AmountOut(limit, a1, e, t).Some? && AmountOut(limit, a1 + a2, e, t).Some?
    ensures AmountOut(limit, a1, e, t).value <= t
    ensures AmountOut(limit, a2, e + a1, t - AmountOut(limit, a1, e, t).value).Some? ==>
              AmountOut(limit, a1, e, t).value + AmountOut(limit, a2, e + a1, t - AmountOut(limit, a1, e, t).value).value
              <= AmountOut(limit, a1 + a2, e, t).value
  {
    hide AmountOut;
    var o1 := AmountOut(limit, a1, e, t).value;
    AmountOutBounds(limit, a1, e, t);
    SwapGrowsProduct(a1, e, t, o1);
    if AmountOut(limit, a2, e + a1, t - o1).Some? {
      AmountOutBounds(limit, a2, e + a1, t - o1);
      AmountOutBounds(limit, a1 + a2, e, t);
      SplitArithmetic(KEPT * a1, KEPT * a2, BASE * e, BASE * a1, t, o1, AmountOut(limit, a2, e + a1, t - o1).value,
                      AmountOut(limit, a1 + a2, e, t).value);
    }
  }

  /** With `k` the kept input and `s` the scaled reserve. The two outputs times
      the one-swap denominator stay below the one-swap numerator. */
  lemma SplitArithmetic(k1: nat, k2: nat, s: nat, fee: nat, t: nat, o1: nat, o2: nat, o: nat)
    requires k1 <= fee && o1 <= t && s + k1 + k2 > 0
    requires o1 * (s + k1) <= k1 * t
    requires o2 * (s + fee + k2) <= k2 * (t - o1)
    requires (k1 + k2) * t < o * (s + (k1 + k2)) + (s + (k1 + k2))
    ensures o1 + o2 <= o
  {
    var d := s + k1 + k2;
    MulMono(d, s + fee + k2, o2);
    SplitBelowWhole(k1, k2, s, t, o1, o2);
    MulCancelStrict(o1 + o2, o + 1, d);
  }

  lemma SplitBelowWhole(k1: nat, k2: nat, s: nat, t: nat, o1: nat, o2: nat)
    requires o1 <= t && o1 * (s + k1) <= k1 * t && (s + k1 + k2) * o2 <= k2 * (t - o1)
    ensures (o1 + o2) * (s + k1 + k2) <= (k1 + k2) * t
  {
    assert (o1 + o2) * (s + k1 + k2) == o1 * (s + k1) + o1 * k2 + (s + k1 + k2) * o2;
    assert k2 * (t - o1) == k2 * t - o1 * k2;
  }

  lemma MulCancelStrict(a: int, b: int, k: int)
    requires a * k < b * k && 0 < k
    ensures a < b
  {
    assert a >= b ==> (a - b) * k >= 0;
  }

  /** Swapping in and selling the whole output back returns strictly less. */
  lemma RoundTripLoses(limit: nat, a: nat, e: nat, t: nat)
    requires a > 0 && e > 0 && t > 0
    requires AmountOut(limit, a, e, t).Some?
    ensures AmountOut(limit, a, e, t).value <= t
    ensures
      var out := AmountOut(limit, a, e, t).value;
      AmountOut(limit, out, t - out, e + a).Some? ==> AmountOut(limit, out, t - out, e + a).value < a
  {
    hide AmountOut;
    var out := AmountOut(limit, a, e, t).value;
    AmountOutBounds(limit, a, e, t);
    SwapGrowsProduct(a, e, t, out);
    if AmountOut(limit, out, t - out, e + a).Some? {
      var back := AmountOut(limit, out, t - out, e + a).value;
      AmountOutBounds(limit, out, t - out, e + a);
      SwapGrowsProduct(out, t - out, e + a, back);
      ProductsComposed(a, e, t, out, back);
    }
  }

  lemma ProductsComposed(a: nat, e: nat, t: nat, out: nat, back: nat)
    requires a > 0 && e > 0 && t > 0 && out <= t && back <= e + a
    requires (e + a) * (t - out) >= e * t && (out > 0 ==> (e + a) * (t - out) > e * t)
    requires t * (e + a - back) >= (t - out) * (e + a)
    requires back * (BASE * (t - out) + KEPT * out) <= KEPT * out * (e + a)
    ensures back < a
  {
    if out == 0 {
      assert back * (BASE * t) <= 0;
      assert back > 0 ==> back * (BASE * t) > 0;
    } else {
      assert t * (e + a - back) > e * t;
      assert t * (e + a - back) == t * e + t * (a - back);
      assert back >= a ==> t * (a - back) <= 0;
    }
  }

  // ----- runs

  datatype PoolEvent = Swap(swap: SwapEvent) | Liquidity(liquidity: LiquidityEvent)

  /** The pool between events. */
  datatype PoolState = PoolState(eth: nat, token: nat, shares: nat)

  /** The event starts from `s` and passes its check; a remove burns at most
      the outstanding shares. */
  ghost predicate Follows(limit: nat, s: PoolState, ev: PoolEvent) {
    match ev
    case Swap(w) => w.before.eth == s.eth && w.before.token == s.token && w.Check(limit).Ok?
    case Liquidity(l) =>
      && l.before.eth == s.eth && l.before.token == s.token && l.sharesBefore == s.shares && l.Check(limit).Ok?
      && (!l.added ==> l.shares <= s.shares)
  }

  lemma ScaledBounds(limit: nat, l: LiquidityEvent, a: nat, b: nat, d: nat)
    requires l.Scaled(limit, a, b, d).Some?
    ensures d > 0 && l.Scaled(limit, a, b, d).value * d <= a * b
  {
  }

  /** What an accepted add or remove says, without division. */
  lemma LiquidityBounds(limit: nat, l: LiquidityEvent)
    requires l.Check(limit).Ok?
    ensures l.added ==> l.shares * l.before.eth <= l.eth * l.sharesBefore
                        && l.shares * l.before.token <= l.token * l.sharesBefore
    ensures !l.added ==> l.sharesBefore > 0 && l.eth * l.sharesBefore <= l.shares * l.before.eth
                         && l.token * l.sharesBefore <= l.shares * l.before.token
  {
    if l.added {
      AddBounds(limit, l);
    } else {
      ScaledBounds(limit, l, l.shares, l.before.eth, l.sharesBefore);
      ScaledBounds(limit, l, l.shares, l.before.token, l.sharesBefore);
    }
  }

  lemma AddBounds(limit: nat, l: LiquidityEvent)
    requires l.added && l.Check(limit).Ok?
    ensures l.shares * l.before.eth <= l.eth * l.sharesBefore
    ensures l.shares * l.before.token <= l.token * l.sharesBefore
  {
    hide LiquidityEvent.Scaled;
    var a, b := l.Scaled(limit, l.eth, l.sharesBefore, l.before.eth).value, l.Scaled(limit, l.token, l.sharesBefore, l.before.token).value;
    ScaledBounds(limit, l, l.eth, l.sharesBefore, l.before.eth);
    ScaledBounds(limit, l, l.token, l.sharesBefore, l.before.token);
    MulMono(l.shares, a, l.before.eth);
    MulMono(l.shares, b, l.before.token);
  }

  /** An add is accepted exactly for the most shares that both amounts cover,
      on a pool with both reserves; a remove exactly for the floor of each
      reserve's part. In particular no add to an empty pool is accepted. */
  lemma LiquidityCheckIsExact(limit: nat, l: LiquidityEvent)
    ensures l.added ==> (l.Check(limit).Ok? <==>
              && l.before.eth > 0 && l.before.token > 0
              && l.eth * l.sharesBefore < limit && l.token * l.sharesBefore < limit
              && l.shares * l.before.eth <= l.eth * l.sharesBefore
              && l.shares * l.before.token <= l.token * l.sharesBefore
              && ((l.shares + 1) * l.before.eth > l.eth * l.sharesBefore
                  || (l.shares + 1) * l.before.token > l.token * l.sharesBefore))
    ensures !l.added ==> (l.Check(limit).Ok? <==>
              && l.sharesBefore > 0
              && l.shares * l.before.eth < limit && l.shares * l.before.token < limit
              && l.eth * l.sharesBefore <= l.shares * l.before.eth < (l.eth + 1) * l.sharesBefore
              && l.token * l.sharesBefore <= l.shares * l.before.token < (l.token + 1) * l.sharesBefore)
    ensures l.Check(limit).Err? ==> l.Check(limit).error == LiquidityMismatch
  {
    hide LiquidityEvent.Scaled;
    if l.added {
      AddIsExact(limit, l);
    } else {
      ScaledExact(limit, l, l.shares, l.before.eth, l.sharesBefore, l.eth);
      ScaledExact(limit, l, l.shares, l.before.token, l.sharesBefore, l.token);
    }
  }

  /** Why the canary does not check a first deposit: with no shares out, an add
      passes exactly when it mints none, on a pool that has both reserves. */
  lemma FirstDepositNeedsTheGuard(limit: nat, l: LiquidityEvent)
    requires limit > 0 && l.added && l.sharesBefore == 0
    ensures l.Check(limit).Ok? <==> l.before.eth > 0 && l.before.token > 0 && l.shares == 0
  {
    hide LiquidityEvent.Check;
    AddIsExact(limit, l);
    assert l.shares > 0 && l.before.eth > 0 ==> l.shares * l.before.eth > 0;
  }

  lemma ScaledExact(limit: nat, l: LiquidityEvent, a: nat, b: nat, d: nat, q: nat)
    ensures l.Scaled(limit, a, b, d) == Some(q) <==> d > 0 && a * b < limit && q * d <= a * b < (q + 1) * d
  {
    hide LiquidityEvent.Scaled;
    ScaledSome(limit, l, a, b, d);
    assert (q + 1) * d == q * d + d;
    if l.Scaled(limit, a, b, d).Some? {
      FloorIsUnique(a * b, d, q);
      FloorIsUnique(a * b, d, l.Scaled(limit, a, b, d).value);
    }
  }

  lemma AddIsExact(limit: nat, l: LiquidityEvent)
    requires l.added
    ensures l.Check(limit).Ok? <==>
              && l.before.eth > 0 && l.before.token > 0
              && l.eth * l.sharesBefore < limit && l.token * l.sharesBefore < limit
              && l.shares * l.before.eth <= l.eth * l.sharesBefore
              && l.shares * l.before.token <= l.token * l.sharesBefore
              && ((l.shares + 1) * l.before.eth > l.eth * l.sharesBefore
                  || (l.shares + 1) * l.before.token > l.token * l.sharesBefore)
  {
    hide LiquidityEvent.Scaled;
    var x, y := l.Scaled(limit, l.eth, l.sharesBefore, l.before.eth), l.Scaled(limit, l.token, l.sharesBefore, l.before.token);
    ScaledSome(limit, l, l.eth, l.sharesBefore, l.before.eth);
    ScaledSome(limit, l, l.token, l.sharesBefore, l.before.token);
    if x.Some? && y.Some? {
      AtMostFloor(l.eth * l.sharesBefore, l.before.eth, x.value, l.shares);
      AtMostFloor(l.token * l.sharesBefore, l.before.token, y.value, l.shares);
      AtMostFloor(l.eth * l.sharesBefore, l.before.eth, x.value, l.shares + 1);
      AtMostFloor(l.token * l.sharesBefore, l.before.token, y.value, l.shares + 1);
    }
  }

  lemma ScaledSome(limit: nat, l: LiquidityEvent, a: nat, b: nat, d: nat)
    ensures l.Scaled(limit, a, b, d).Some? <==> d > 0 && a * b < limit
    ensures l.Scaled(limit, a, b, d).Some? ==>
              l.Scaled(limit, a, b, d).value * d <= a * b < l.Scaled(limit, a, b, d).value * d + d
  {
    if d > 0 {
      DivisionLaw(a * b, d);
    }
  }

  /** `k` multiples of `d` fit in `n` exactly when `k` is at most the floor. */
  lemma AtMostFloor(n: nat, d: nat, q: nat, k: nat)
    requires d > 0 && q * d <= n < q * d + d
    ensures k * d <= n <==> k <= q
  {
    if k <= q {
      MulMono(k, q, d);
    } else {
      MulMono(q + 1, k, d);
      assert (q + 1) * d == q * d + d;
    }
  }

  /** A part of a reserve for at most all shares is at most the reserve. */
  lemma PartIsWithin(x: nat, sh: nat, total: nat, reserve: nat)
    requires total > 0 && sh <= total && x * total <= sh * reserve
    ensures x <= reserve
  {
    MulMono(sh, total, reserve);
    MulCancel(x, reserve, total);
  }

  /** The pool after the event. A liquidity event carries no reserves after,
      so they come from its amounts. */
  ghost function After(limit: nat, s: PoolState, ev: PoolEvent): PoolState
    requires Follows(limit, s, ev)
  {
    match ev
    case Swap(w) => PoolState(w.after.eth, w.after.token, s.shares)
    case Liquidity(l) =>
      if l.added then PoolState(s.eth + l.eth, s.token + l.token, s.shares + l.shares) else
        hide LiquidityEvent.Check;
        LiquidityBounds(limit, l);
        PartIsWithin(l.eth, l.shares, s.shares, s.eth);
        PartIsWithin(l.token, l.shares, s.shares, s.token);
        PoolState(s.eth - l.eth, s.token - l.token, s.shares - l.shares)
  }

  /** The reserves behind a share, squared, did not fall from `s` to `r`:
      `eth * token / shares^2` without the division. */
  ghost predicate ShareWorthKept(s: PoolState, r: PoolState) {
    r.eth * r.token * (s.shares * s.shares) >= s.eth * s.token * (r.shares * r.shares)
  }

  /** Both reserves grew at least as the shares did. */
  lemma RatioGrows(e: nat, t: nat, sh: nat, e': nat, t': nat, sh': nat)
    requires sh' * e <= sh * e' && sh' * t <= sh * t'
    ensures e' * t' * (sh * sh) >= e * t * (sh' * sh')
  {
    var x, y, x', y' := sh' * e, sh' * t, sh * e', sh * t';
    MulMono(x, x', y);
    MulMono(y, y', x');
    assert x * y <= x' * y';
    assert x * y == e * t * (sh' * sh');
    assert x' * y' == e' * t' * (sh * sh);
  }

  lemma AddKeepsRatio(e: nat, t: nat, sh: nat, x: nat, y: nat, minted: nat)
    requires minted * e <= x * sh && minted * t <= y * sh
    ensures (e + x) * (t + y) * (sh * sh) >= e * t * ((sh + minted) * (sh + minted))
  {
    assert (sh + minted) * e == sh * e + minted * e;
    assert (sh + minted) * t == sh * t + minted * t;
    assert sh * (e + x) == sh * e + x * sh && sh * (t + y) == sh * t + y * sh;
    RatioGrows(e, t, sh, e + x, t + y, sh + minted);
  }

  lemma RemoveKeepsRatio(e: nat, t: nat, sh: nat, x: nat, y: nat, burned: nat)
    requires x <= e && y <= t && burned <= sh
    requires x * sh <= burned * e && y * sh <= burned * t
    ensures (e - x) * (t - y) * (sh * sh) >= e * t * ((sh - burned) * (sh - burned))
  {
    assert (sh - burned) * e == sh * e - burned * e;
    assert (sh - burned) * t == sh * t - burned * t;
    assert sh * (e - x) == sh * e - x * sh && sh * (t - y) == sh * t - y * sh;
    RatioGrows(e, t, sh, e - x, t - y, sh - burned);
  }

  lemma EventKeepsShareWorth(limit: nat, s: PoolState, ev: PoolEvent)
    requires Follows(limit, s, ev)
    ensures ShareWorthKept(s, After(limit, s, ev))
    ensures s.shares == 0 ==> After(limit, s, ev).shares == 0
  {
    hide LiquidityEvent.Check;
    hide SwapEvent.Check;
    match ev
    case Swap(w) =>
      SwapKeepsProduct(limit, w);
      MulMono(s.eth * s.token, w.after.eth * w.after.token, s.shares * s.shares);
    case Liquidity(l) =>
      LiquidityBounds(limit, l);
      var r := After(limit, s, ev);
      if l.added {
        AddKeepsRatio(s.eth, s.token, s.shares, l.eth, l.token, l.shares);
        if s.shares == 0 {
          ZeroSharesMintNone(limit, l);
        }
      } else {
        RemoveKeepsRatio(s.eth, s.token, s.shares, l.eth, l.token, l.shares);
      }
  }

  lemma SwapKeepsProduct(limit: nat, w: SwapEvent)
    requires w.Check(limit).Ok?
    ensures w.before.eth * w.before.token <= w.after.eth * w.after.token
  {
    hide AmountOut;
  }

  lemma ZeroSharesMintNone(limit: nat, l: LiquidityEvent)
    requires l.added && l.Check(limit).Ok? && l.sharesBefore == 0
    ensures l.shares == 0
  {
  }

  lemma ShareWorthTransitive(s: PoolState, m: PoolState, r: PoolState)
    requires ShareWorthKept(s, m) && ShareWorthKept(m, r) && (m.shares == 0 ==> r.shares == 0)
    ensures ShareWorthKept(s, r)
  {
    if m.shares > 0 {
      CrossRatio(s.eth * s.token, s.shares * s.shares, m.eth * m.token, m.shares * m.shares,
                 r.eth * r.token, r.shares * r.shares);
    }
  }

  lemma CrossRatio(p0: nat, q0: nat, p1: nat, q1: nat, p2: nat, q2: nat)
    requires q1 > 0 && p1 * q0 >= p0 * q1 && p2 * q1 >= p1 * q2
    ensures p2 * q0 >= p0 * q2
  {
    MulMono(p0 * q1, p1 * q0, q2);
    MulMono(p1 * q2, p2 * q1, q0);
    assert (p0 * q2) * q1 <= (p2 * q0) * q1;
    MulCancel(p0 * q2, p2 * q0, q1);
  }

  ghost predicate Chained(limit: nat, s: PoolState, events: seq<PoolEvent>)
    decreases |events|
  {
    events != [] ==> Follows(limit, s, events[0]) && Chained(limit, After(limit, s, events[0]), events[1..])
  }

  ghost function End(limit: nat, s: PoolState, events: seq<PoolEvent>): PoolState
    requires Chained(limit, s, events)
    decreases |events|
  {
    if events == [] then s else End(limit, After(limit, s, events[0]), events[1..])
  }

  /** No run of accepted events, in any order and direction, takes value from
      the holders of shares. */
  lemma {:induction false} RunKeepsShareWorth(limit: nat, s: PoolState, events: seq<PoolEvent>)
    requires Chained(limit, s, events)
    ensures ShareWorthKept(s, End(limit, s, events))
    ensures s.shares == 0 ==> End(limit, s, events).shares == 0
    decreases |events|
  {
    hide ShareWorthKept;
    hide Follows;
    hide After;
    if events == [] {
      WorthReflexive(s);
    } else {
      var m := After(limit, s, events[0]);
      EventKeepsShareWorth(limit, s, events[0]);
      RunKeepsShareWorth(limit, m, events[1..]);
      ShareWorthTransitive(s, m, End(limit, m, events[1..]));
    }
  }

  lemma WorthReflexive(s: PoolState)
    ensures ShareWorthKept(s, s)
  {
  }
}
