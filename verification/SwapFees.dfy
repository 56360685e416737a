/** The contract as its own swap hook: the fee it takes in ether (docs/superpowers/specs/_contract/Hash.sol)
    and the pool manager's accounting of what a hook returns
    (docs/superpowers/specs/_contract/Hooks.sol). */
module SwapFees {
  import opened Deltas
  import opened Words

  const SWAP_FEE_BPS: nat := 100

  // ---- which hooks an address has ----

  const BEFORE_INITIALIZE_FLAG: nat := 0x2000
  const AFTER_INITIALIZE_FLAG: nat := 0x1000
  const BEFORE_ADD_LIQUIDITY_FLAG: nat := 0x800
  const AFTER_ADD_LIQUIDITY_FLAG: nat := 0x400
  const BEFORE_REMOVE_LIQUIDITY_FLAG: nat := 0x200
  const AFTER_REMOVE_LIQUIDITY_FLAG: nat := 0x100
  const BEFORE_SWAP_FLAG: nat := 0x80
  const AFTER_SWAP_FLAG: nat := 0x40
  const BEFORE_DONATE_FLAG: nat := 0x20
  const AFTER_DONATE_FLAG: nat := 0x10
  const BEFORE_SWAP_RETURNS_DELTA_FLAG: nat := 0x8
  const AFTER_SWAP_RETURNS_DELTA_FLAG: nat := 0x4
  const AFTER_ADD_LIQUIDITY_RETURNS_DELTA_FLAG: nat := 0x2
  const AFTER_REMOVE_LIQUIDITY_RETURNS_DELTA_FLAG: nat := 0x1

  predicate HasPermission(hook: nat, flag: nat)
  {
    BitAnd(hook, flag) != 0
  }

  /** `validateHookPermissions` with the permissions the contract asks for in its constructor. */
  predicate ValidatesPermissions(hook: nat)
  {
    && HasPermission(hook, BEFORE_INITIALIZE_FLAG)
    && !HasPermission(hook, AFTER_INITIALIZE_FLAG)
    && !HasPermission(hook, BEFORE_ADD_LIQUIDITY_FLAG)
    && !HasPermission(hook, AFTER_ADD_LIQUIDITY_FLAG)
    && !HasPermission(hook, BEFORE_REMOVE_LIQUIDITY_FLAG)
    && !HasPermission(hook, AFTER_REMOVE_LIQUIDITY_FLAG)
    && HasPermission(hook, BEFORE_SWAP_FLAG)
    && HasPermission(hook, AFTER_SWAP_FLAG)
    && !HasPermission(hook, BEFORE_DONATE_FLAG)
    && !HasPermission(hook, AFTER_DONATE_FLAG)
    && HasPermission(hook, BEFORE_SWAP_RETURNS_DELTA_FLAG)
    && HasPermission(hook, AFTER_SWAP_RETURNS_DELTA_FLAG)
    && !HasPermission(hook, AFTER_ADD_LIQUIDITY_RETURNS_DELTA_FLAG)
    && !HasPermission(hook, AFTER_REMOVE_LIQUIDITY_RETURNS_DELTA_FLAG)
  }

  /** Numbers agree in their low k bits exactly when they agree modulo 2^k. */
  lemma {:induction false} SameLowBits(x: nat, y: nat, k: nat)
    ensures (forall i: nat :: i < k ==> HasBit(x, i) == HasBit(y, i)) <==> x % Pow2(k) == y % Pow2(k)
  {
    hide HasBit, Pow2;
    if k == 0 {
      OnePower();
    } else {
      BitZero(x);
      BitZero(y);
      PowerStep(k);
      ModDouble(x, Pow2(k - 1));
      ModDouble(y, Pow2(k - 1));
      SameLowBits(x / 2, y / 2, k - 1);
      forall i: nat ensures HasBit(x, i + 1) == HasBit(x / 2, i) && HasBit(y, i + 1) == HasBit(y / 2, i) {
        BitAbove(x, i);
        BitAbove(y, i);
      }
      if forall i: nat :: i < k ==> HasBit(x, i) == HasBit(y, i) {
        forall i: nat | i < k - 1 ensures HasBit(x / 2, i) == HasBit(y / 2, i) {
          assert HasBit(x, i + 1) == HasBit(y, i + 1);
        }
      } else {
        var i: nat :| i < k && HasBit(x, i) != HasBit(y, i);
        assert i > 0 ==> HasBit(x, i - 1 + 1) == HasBit(x / 2, i - 1) && HasBit(y, i - 1 + 1) == HasBit(y / 2, i - 1);
      }
    }
  }

  lemma OnePower()
    ensures Pow2(0) == 1
  {
  }

  lemma PowerStep(k: nat)
    requires k > 0
    ensures Pow2(k) == 2 * Pow2(k - 1)
  {
  }

  lemma BitZero(x: nat)
    ensures HasBit(x, 0) <==> x % 2 == 1
  {
    OnePower();
  }

  lemma BitAbove(x: nat, i: nat)
    ensures HasBit(x, i + 1) == HasBit(x / 2, i)
  {
    HalfQuotient(x, Pow2(i));
  }

  lemma FlagIs(hook: nat, i: nat)
    ensures HasPermission(hook, Pow2(i)) <==> HasBit(hook, i)
  {
    AndWithBit(hook, i);
    hide BitAnd;
  }

  /** The permissions are the low 14 bits of the hook's address: beforeInitialize, beforeSwap, afterSwap and the
      two deltas they return, and no other. */
  lemma PermissionsAre(hook: nat)
    ensures ValidatesPermissions(hook) <==> hook % 0x4000 == 0x20cc
  {
    Fourteen();
    forall i: nat | i < 14 ensures HasPermission(hook, Pow2(i)) <==> HasBit(hook, i) {
      FlagIs(hook, i);
    }
    Demanded();
    hide HasPermission, HasBit, Pow2;
    SameLowBits(hook, 0x20cc, 14);
  }

  lemma Fourteen()
    ensures Pow2(0) == 0x1 && Pow2(1) == 0x2 && Pow2(2) == 0x4 && Pow2(3) == 0x8 && Pow2(4) == 0x10
    ensures Pow2(5) == 0x20 && Pow2(6) == 0x40 && Pow2(7) == 0x80 && Pow2(8) == 0x100 && Pow2(9) == 0x200
    ensures Pow2(10) == 0x400 && Pow2(11) == 0x800 && Pow2(12) == 0x1000 && Pow2(13) == 0x2000 && Pow2(14) == 0x4000
  {
  }

  lemma Demanded()
    ensures HasBit(0x20cc, 2) && HasBit(0x20cc, 3) && HasBit(0x20cc, 6) && HasBit(0x20cc, 7) && HasBit(0x20cc, 13)
    ensures forall i: nat :: i < 14 && i !in {2, 3, 6, 7, 13} ==> !HasBit(0x20cc, i)
  {
    Fourteen();
  }

  // ---- the contract's hooks ----

  /** A swap: zeroForOne sells ether for the token; a negative amount is an exact input. */
  datatype SwapParams = SwapParams(zeroForOne: bool, amountSpecified: Int256)

  /** The contract's side of a hook call: whether mining is open, whether its reentrancy guard is free,
      and whether the pool manager hands the fee over. */
  datatype HookState = HookState(genesisComplete: bool, guardFree: bool, takeSucceeds: bool)

  /** What a hook returns, with the ether it took on the way. */
  datatype Taken<D> = Taken(delta: D, taken: nat)

  function Fee(amount: nat): nat
  {
    amount * SWAP_FEE_BPS / 10_000
  }

  function Magnitude(x: int): nat { if x < 0 then -x else x }

  /** `Hash.beforeSwap`, called by the pool manager. */
  function BeforeSwapFee(s: HookState, p: SwapParams): Result<Taken<Word>>
  {
    var isBuy, isExactInput := p.zeroForOne, p.amountSpecified < 0;
    if !s.guardFree || !s.genesisComplete then Revert
    else if !isBuy && !isExactInput then Revert
    else if !isBuy || !isExactInput then Return(Taken(0, 0))
    else
      var amount: int := p.amountSpecified;
      var ethIn: nat := -amount;
      if ethIn >= W / 2 then Revert
      else if ethIn * SWAP_FEE_BPS >= W then Revert
      else if Fee(ethIn) == 0 then Return(Taken(0, 0))
      else if !s.takeSucceeds then Revert
      else Return(Taken(Pack(Truncate128(Fee(ethIn)), 0), Fee(ethIn)))
  }

  /** `Hash.afterSwap`, called by the pool manager with the pool's delta. */
  function AfterSwapFee(s: HookState, p: SwapParams, delta: Word): Result<Taken<Int128>>
  {
    var isBuy, isExactInput := p.zeroForOne, p.amountSpecified < 0;
    var ethIsUnspecified := (isBuy && !isExactInput) || (!isBuy && isExactInput);
    if !ethIsUnspecified then Return(Taken(0, 0))
    else
      var ethDelta := Upper(delta);
      if ethDelta == -P127 then Revert
      else
        var ethAmount := Magnitude(ethDelta);
        if Fee(ethAmount) == 0 then Return(Taken(0, 0))
        else if !s.takeSucceeds then Revert
        else Return(Taken(Truncate128(Fee(ethAmount)), Fee(ethAmount)))
  }

  // ---- the pool manager's accounting ----

  datatype Swapping = Swapping(amountToSwap: Int256, hookReturn: Word, taken: nat)

  datatype Settled = Settled(callerDelta: Word, hookDelta: Word, taken: nat)

  lemma FeeIsSmall(amount: nat)
    ensures Fee(amount) <= amount && (amount > 0 ==> Fee(amount) < amount)
    ensures Fee(amount) == amount / 100
  {
  }

  /** What the contract returns from `beforeSwap`: packed, the fee it took, as far as 128 bits hold it. */
  lemma BeforeSwapReturns(s: HookState, p: SwapParams)
    requires BeforeSwapFee(s, p).Return?
    ensures var t := BeforeSwapFee(s, p).value;
      && Upper(t.delta) == Truncate128(t.taken) && Lower(t.delta) == 0
      && t.taken == (if p.zeroForOne && p.amountSpecified < 0 then Fee(Magnitude(p.amountSpecified)) else 0)
      && (p.amountSpecified < 0 ==> -(W / 2) <= p.amountSpecified + Upper(t.delta) < 0)
      && (!p.zeroForOne || p.amountSpecified >= 0 ==> t.delta == 0)
      && (!p.zeroForOne ==> p.amountSpecified < 0)
  {
    var amount: int := p.amountSpecified;
    NoDelta();
    hide Pack, Upper, Lower, Fee;
    if amount < 0 {
      FeeIsSmall(-amount);
      PackRoundTrip(Truncate128(Fee(-amount)), 0);
    }
  }

  lemma NoDelta()
    ensures Upper(0) == 0 && Lower(0) == 0
  {
  }

  /** `Hooks.beforeSwap`: the specified part of the fee changes what is left to swap, and never turns an
      exact input around. */
  method BeforeSwap(hook: nat, s: HookState, p: SwapParams) returns (r: Result<Swapping>)
    requires ValidatesPermissions(hook)
    ensures r.Return? <==> BeforeSwapFee(s, p).Return?
    ensures r.Return? ==> r.value.taken == BeforeSwapFee(s, p).value.taken
    ensures r.Return? ==> r.value.hookReturn == BeforeSwapFee(s, p).value.delta
    ensures r.Return? ==> r.value.amountToSwap == p.amountSpecified + Truncate128(r.value.taken)
    ensures r.Return? && p.amountSpecified < 0 ==> r.value.amountToSwap < 0
  {
    hide BeforeSwapFee, Upper, Lower, BitAnd, Fee;
    NoDelta();
    var amountToSwap: Int256 := p.amountSpecified;
    var hookReturn: Word, taken: nat := 0, 0;
    if HasPermission(hook, BEFORE_SWAP_FLAG) {
      var result := BeforeSwapFee(s, p);
      if result.Revert? {
        return Revert;
      }
      BeforeSwapReturns(s, p);
      taken := result.value.taken;
      if HasPermission(hook, BEFORE_SWAP_RETURNS_DELTA_FLAG) {
        hookReturn := result.value.delta;
        var hookDeltaSpecified := Upper(hookReturn);
        if hookDeltaSpecified != 0 {
          var exactInput := amountToSwap < 0;
          amountToSwap := amountToSwap + hookDeltaSpecified;
          if (exactInput && amountToSwap > 0) || (!exactInput && amountToSwap < 0) {
            return Revert;
          }
        }
      }
    }
    return Return(Swapping(amountToSwap, hookReturn, taken));
  }

  /** What the contract returns from `afterSwap`: exactly the fee it took. */
  lemma AfterSwapReturns(s: HookState, p: SwapParams, delta: Word)
    requires AfterSwapFee(s, p, delta).Return?
    ensures AfterSwapFee(s, p, delta).value.delta == AfterSwapFee(s, p, delta).value.taken < P127
    ensures AfterSwapFee(s, p, delta).value.taken ==
            if p.zeroForOne == (p.amountSpecified < 0) then 0 else Fee(Magnitude(Upper(delta)))
  {
    FeeIsSmall(Magnitude(Upper(delta)));
    hide Fee, Upper;
  }

  predicate FitsAfterFee(poolDelta: Word, fee: int)
  {
    -P127 <= Upper(poolDelta) - fee < P127
  }

  /** `Hooks.afterSwap`: both parts of the fee, in the order of the currencies, come off the caller's
      delta. */
  method AfterSwap(hook: nat, s: HookState, p: SwapParams, poolDelta: Word, hookReturn: Word) returns (r: Result<Settled>)
    requires ValidatesPermissions(hook)
    requires Lower(hookReturn) == 0 && (p.zeroForOne || p.amountSpecified < 0)
    requires Upper(hookReturn) != 0 ==> p.zeroForOne && p.amountSpecified < 0
    ensures r.Return? <==> (
      && AfterSwapFee(s, p, poolDelta).Return?
      && FitsAfterFee(poolDelta, Upper(hookReturn) + AfterSwapFee(s, p, poolDelta).value.taken))
    ensures r.Return? ==> r.value.taken == AfterSwapFee(s, p, poolDelta).value.taken
    ensures r.Return? ==> Upper(r.value.hookDelta) == Upper(hookReturn) + r.value.taken && Lower(r.value.hookDelta) == 0
    ensures r.Return? ==> AddDeltas(r.value.callerDelta, r.value.hookDelta) == Return(poolDelta)
    ensures r.Return? ==> Upper(r.value.callerDelta) + Upper(r.value.hookDelta) == Upper(poolDelta)
    ensures r.Return? ==> Lower(r.value.callerDelta) + Lower(r.value.hookDelta) == Lower(poolDelta)
  {
    hide AfterSwapFee, Upper, Lower, BitAnd, AddDeltas, SubDeltas, Pack, ToInt128;
    NoDelta();
    AddNothing(poolDelta);
    var hookDeltaSpecified, hookDeltaUnspecified := Upper(hookReturn), Lower(hookReturn);
    var taken: nat := 0;
    var swapDelta, hookDelta: Word := poolDelta, 0;
    if HasPermission(hook, AFTER_SWAP_FLAG) {
      var result := AfterSwapFee(s, p, swapDelta);
      if result.Revert? {
        return Revert;
      }
      AfterSwapReturns(s, p, swapDelta);
      taken := result.value.taken;
      var returned := if HasPermission(hook, AFTER_SWAP_RETURNS_DELTA_FLAG) then result.value.delta else 0;
      var sum := ToInt128(hookDeltaUnspecified + returned);
      CastIs(hookDeltaUnspecified + returned);
      if sum.Revert? {
        return Revert;
      }
      hookDeltaUnspecified := sum.value;
    }
    if hookDeltaUnspecified != 0 || hookDeltaSpecified != 0 {
      PackRoundTrip(hookDeltaSpecified, hookDeltaUnspecified);
      PackRoundTrip(hookDeltaUnspecified, hookDeltaSpecified);
      hookDelta := if (p.amountSpecified < 0) == p.zeroForOne
        then Pack(hookDeltaSpecified, hookDeltaUnspecified)
        else Pack(hookDeltaUnspecified, hookDeltaSpecified);
      SubIsExact(swapDelta, hookDelta);
      var difference := SubDeltas(swapDelta, hookDelta);
      if difference.Revert? {
        return Revert;
      }
      SubThenAdd(swapDelta, hookDelta);
      swapDelta := difference.value;
    }
    return Return(Settled(swapDelta, hookDelta, taken));
  }

  lemma AddNothing(d: Word)
    ensures AddDeltas(d, 0) == Return(d)
  {
    hide AddDeltas, Upper, Lower, Pack;
    NoDelta();
    AddIsExact(d, 0);
    UnpackRoundTrip(d);
    UnpackRoundTrip(AddDeltas(d, 0).value);
  }

  lemma TruncationIff(fee: nat)
    ensures Truncate128(fee) == fee <==> fee < P127
  {
  }

  /** The fee that does not fit is reachable: an exact input of 100 * 2^127 wei is charged 2^127, which
      comes back from the cast as -2^127. */
  lemma LargeFeeTurnsNegative()
    ensures var p := SwapParams(true, -100 * P127);
      var t := BeforeSwapFee(HookState(true, true, true), p);
      t.Return? && t.value.taken == P127 && Upper(t.value.delta) == -P127
  {
    var p := SwapParams(true, -100 * P127);
    assert Fee(100 * P127) == P127;
    PackRoundTrip(-P127, 0);
    hide Pack, Upper, Fee;
    assert BeforeSwapFee(HookState(true, true, true), p).Return?;
  }

  // ---- a whole swap ----

  /** The ether the fee is a percentage of: what an exact input brings, or what the pool moves. */
  function EtherMoved(p: SwapParams, poolDelta: Word): nat
  {
    Magnitude(if p.zeroForOne && p.amountSpecified < 0 then p.amountSpecified else Upper(poolDelta))
  }

  /** Neither hook reverts, and the caller's ether still fits after the fee. */
  predicate Accepts(s: HookState, p: SwapParams, poolDelta: Word)
  {
    && BeforeSwapFee(s, p).Return? && AfterSwapFee(s, p, poolDelta).Return?
    && FitsAfterFee(poolDelta, Truncate128(BeforeSwapFee(s, p).value.taken) + AfterSwapFee(s, p, poolDelta).value.taken)
  }

  /** What `beforeSwap` takes: one percent of the ether an exact input brings. */
  function FeeBefore(p: SwapParams): nat
  {
    if p.zeroForOne && p.amountSpecified < 0 then Magnitude(p.amountSpecified) / 100 else 0
  }

  /** What `afterSwap` takes: one percent of the ether the pool moved, when that was not specified. */
  function FeeAfter(p: SwapParams, poolDelta: Word): nat
  {
    if p.zeroForOne == (p.amountSpecified < 0) then 0 else Magnitude(Upper(poolDelta)) / 100
  }

  lemma BeforeSwapCommitsIff(s: HookState, p: SwapParams)
    ensures BeforeSwapFee(s, p).Return? <==>
      && s.guardFree && s.genesisComplete
      && (p.zeroForOne || p.amountSpecified < 0)
      && (p.zeroForOne && p.amountSpecified < 0 ==> Magnitude(p.amountSpecified) * 100 < W)
      && (FeeBefore(p) > 0 ==> s.takeSucceeds)
    ensures BeforeSwapFee(s, p).Return? ==> BeforeSwapFee(s, p).value.taken == FeeBefore(p)
  {
    FeeIsSmall(Magnitude(p.amountSpecified));
    hide Fee, Pack;
  }

  lemma AfterSwapCommitsIff(s: HookState, p: SwapParams, poolDelta: Word)
    ensures AfterSwapFee(s, p, poolDelta).Return? <==>
      && (p.zeroForOne != (p.amountSpecified < 0) ==> Upper(poolDelta) != -P127)
      && (FeeAfter(p, poolDelta) > 0 ==> s.takeSucceeds)
    ensures AfterSwapFee(s, p, poolDelta).Return? ==> AfterSwapFee(s, p, poolDelta).value.taken == FeeAfter(p, poolDelta)
  {
    FeeIsSmall(Magnitude(Upper(poolDelta)));
    hide Fee, Upper;
  }

  /** When a whole swap goes through: the guard is free and mining is open, it is not an exact amount of
      ether that is bought, the fee's product fits in a word, the pool's ether is not the one number without
      a magnitude, a fee that is due can be taken, and the caller's ether still fits without it. */
  lemma AcceptsIff(s: HookState, p: SwapParams, poolDelta: Word)
    ensures Accepts(s, p, poolDelta) <==>
      && s.guardFree && s.genesisComplete
      && (p.zeroForOne || p.amountSpecified < 0)
      && (p.zeroForOne && p.amountSpecified < 0 ==> Magnitude(p.amountSpecified) * 100 < W)
      && (p.zeroForOne != (p.amountSpecified < 0) ==> Upper(poolDelta) != -P127)
      && (FeeBefore(p) + FeeAfter(p, poolDelta) > 0 ==> s.takeSucceeds)
      && -P127 <= Upper(poolDelta) - Truncate128(FeeBefore(p)) - FeeAfter(p, poolDelta) < P127
  {
    hide BeforeSwapFee, AfterSwapFee, Upper, Truncate128;
    BeforeSwapCommitsIff(s, p);
    AfterSwapCommitsIff(s, p, poolDelta);
  }

  /** A swap around which the contract takes its fee; the pool moves `poolDelta` in between. The hook is
      credited with exactly the ether it took, and no token, if and only if that fits in 127 bits; what
      the caller and the hook are charged is always what the pool moved. Selling for an exact amount of
      ether is refused. */
  method Swap(hook: nat, s: HookState, p: SwapParams, poolDelta: Word) returns (r: Result<Settled>)
    requires ValidatesPermissions(hook)
    ensures !p.zeroForOne && p.amountSpecified >= 0 ==> r.Revert?
    ensures r.Return? ==> (Upper(r.value.hookDelta) == r.value.taken <==> r.value.taken < P127)
    ensures r.Return? ==> Lower(r.value.hookDelta) == 0
    ensures r.Return? ==> AddDeltas(r.value.callerDelta, r.value.hookDelta) == Return(poolDelta)
    ensures r.Return? ==> Upper(r.value.callerDelta) + Upper(r.value.hookDelta) == Upper(poolDelta)
    ensures r.Return? ==> Lower(r.value.callerDelta) + Lower(r.value.hookDelta) == Lower(poolDelta)
    ensures r.Return? ==> r.value.taken == Fee(EtherMoved(p, poolDelta))
    ensures r.Return? <==> Accepts(s, p, poolDelta)
  {
    hide ValidatesPermissions, Upper, Lower, AddDeltas, AfterSwapFee, BeforeSwapFee, Fee;
    var before := BeforeSwap(hook, s, p);
    if before.Revert? {
      return Revert;
    }
    BeforeSwapReturns(s, p);
    var after := AfterSwap(hook, s, p, poolDelta, before.value.hookReturn);
    if after.Revert? {
      return Revert;
    }
    AfterSwapReturns(s, p, poolDelta);
    TruncationIff(before.value.taken);
    return Return(Settled(after.value.callerDelta, after.value.hookDelta, before.value.taken + after.value.taken));
  }
}
