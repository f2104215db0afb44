/** The per-transaction gas meter: memory expansion, warm storage, net-metered stores, capped refunds
    and fee settlement, on the mainnet schedule. */
module Gas {
  import opened Basics
  import opened Outcomes
  import opened Transfers

  const MEMORY_GAS: int := 3
  const MEMORY_EXPANSION_QUOTIENT: int := 512
  const MAX_MEMORY_WORDS: int := 0x1FFFFFF
  const COLD_SLOAD_COST: int := 20
  const WARM_STORAGE_READ_COST: int := 48
  const SSTORE_SET_GAS: int := 200
  const SSTORE_RESET_GAS: int := 50
  const SSTORE_SENTRY_GAS: int := 23
  const SSTORE_CLEARS_SCHEDULE: int := 48
  const MAX_REFUND_QUOTIENT: int := 5

  /** A 32-byte storage key. */
  datatype Key = Key(id: nat)

  datatype GasError = OutOfGas | SstoreSentry | PrepaidOverflow | UsedFeeOverflow | UsedFeeExceedsPrepaid
    | BalanceUnderflow | BalanceOverflow

  datatype SStoreGas = SStoreGas(gasCost: U64, refundDelta: int)

  function SaturatingAdd(a: U64, b: U64): U64 {
    if a + b >= TWO_64 then TWO_64 - 1 else a + b
  }

  function SaturatingMul(a: U64, b: U64): U64 {
    ProductMonotone(a, 0, b);
    var p := a * b;
    if p >= TWO_64 then TWO_64 - 1 else p
  }

  // ----- cost functions -------------------------------------------------------------------

  /** The fewest 32-byte words that hold `len` bytes, as long as rounding up does not overflow. */
  function NumWords(len: U64): (r: U64)
    ensures len <= TWO_64 - 32 ==> len <= 32 * r < len + 32
  {
    SaturatingAdd(len, 31) / 32
  }

  /** Three gas per word and one per 512 squared words, exactly: up to the largest memory nothing
      saturates, and beyond it the cost stays. */
  function MemoryCost(words: U64): (r: U64)
    ensures words <= 0x1FFFFFF ==> r == 3 * words + words * words / 512
    ensures words > 0x1FFFFFF ==> r == 3 * 0x1FFFFFF + 0x1FFFFFF * 0x1FFFFFF / 512
  {
    if words == 0 then 0
    else
      var w := if words < MAX_MEMORY_WORDS then words else MAX_MEMORY_WORDS;
      SquareMonotone(w, MAX_MEMORY_WORDS);
      SaturatingAdd(SaturatingMul(w, MEMORY_GAS), SaturatingMul(w, w) / MEMORY_EXPANSION_QUOTIENT)
  }

  function MemoryExpansionCost(oldWords: U64, newWords: U64): U64 {
    if newWords <= oldWords then 0 else SaturatingSub(MemoryCost(newWords), MemoryCost(oldWords))
  }

  function MemoryWordsForRange(offset: U64, len: U64): U64 {
    if len == 0 then 0 else NumWords(SaturatingAdd(offset, len))
  }

  function SloadGas(isWarm: bool): U64 {
    if isWarm then WARM_STORAGE_READ_COST else WARM_STORAGE_READ_COST + COLD_SLOAD_COST
  }

  /** 1 for a slot that held a value when the transaction began and holds none now. */
  function Counts(original: U256, value: U256): int {
    if original != 0 && value == 0 then 1 else 0
  }

  /** A store costs what a load costs unless it is the first to change a clean slot; its refund delta
      is the clear refund for what it changes about the slot being cleared. */
  function SstoreGas(original: U256, current: U256, new_: U256, isWarm: bool): (r: SStoreGas)
    ensures r.gasCost >= SloadGas(isWarm)
    ensures r.gasCost == SloadGas(isWarm) <==> current == new_ || original != current
    ensures r.refundDelta == SSTORE_CLEARS_SCHEDULE * (Counts(original, new_) - Counts(original, current))
  {
    var surcharge := if isWarm then 0 else COLD_SLOAD_COST;
    if current == new_ then SStoreGas(WARM_STORAGE_READ_COST + surcharge, 0)
    else if original == current then
      if original == 0 then SStoreGas(SSTORE_SET_GAS + surcharge, 0)
      else SStoreGas(SSTORE_RESET_GAS + surcharge, if new_ == 0 then SSTORE_CLEARS_SCHEDULE else 0)
    else
      SStoreGas(WARM_STORAGE_READ_COST + surcharge,
                if original == 0 then 0
                else if current == 0 then -SSTORE_CLEARS_SCHEDULE
                else if new_ == 0 then SSTORE_CLEARS_SCHEDULE
                else 0)
  }

  lemma {:induction false} SquareMonotone(a: nat, b: nat)
    requires a <= b
    ensures a * a <= b * b
  {
    assert b * b - a * a == (b - a) * (b + a);
  }

  lemma {:induction false} MemoryCostMonotone(a: U64, b: U64)
    requires a <= b
    ensures MemoryCost(a) <= MemoryCost(b)
  {
    var v, w := Saturated(a, MAX_MEMORY_WORDS), Saturated(b, MAX_MEMORY_WORDS);
    SquareMonotone(v, w);
    SquareMonotone(w, MAX_MEMORY_WORDS);
  }

  // ----- the meter ------------------------------------------------------------------------

  datatype Meter = Meter(limit: U64, used: U64, refund: U64, memoryWords: U64, warm: set<Key>)

  function Fresh(limit: U64): Meter {
    Meter(limit, 0, 0, 0, {})
  }

  function Consumed(m: Meter, amount: U64): (Meter, Result<U64, GasError>) {
    var next := SaturatingAdd(m.used, amount);
    if next > m.limit then (m, Err(OutOfGas)) else (m.(used := next), Ok(amount))
  }

  function AfterMemory(m: Meter, offset: U64, len: U64): (Meter, Result<U64, GasError>) {
    if len == 0 then (m, Ok(0))
    else
      var required := MemoryWordsForRange(offset, len);
      var (m', r) := Consumed(m, MemoryExpansionCost(m.memoryWords, required));
      (if r.Ok? && required > m.memoryWords then m'.(memoryWords := required) else m', r)
  }

  function AfterLoad(m: Meter, key: Key): (Meter, Result<U64, GasError>) {
    Consumed(m.(warm := m.warm + {key}), SloadGas(key in m.warm))
  }

  function AfterStore(m: Meter, key: Key, original: U256, current: U256, new_: U256): (Meter, Result<U64, GasError>) {
    if m.limit - m.used <= SSTORE_SENTRY_GAS then (m, Err(SstoreSentry))
    else
      var cost := SstoreGas(original, current, new_, key in m.warm);
      var (m', r) := Consumed(m.(warm := m.warm + {key}), cost.gasCost);
      (if r.Ok? then m'.(refund := ShiftRefund(m.refund, cost.refundDelta)) else m', r)
  }

  function ShiftRefund(refund: U64, delta: int): U64
    requires -TWO_64 < delta < TWO_64
  {
    if delta >= 0 then SaturatingAdd(refund, delta) else SaturatingSub(refund, -delta)
  }

  function AfterRefunds(m: Meter): (Meter, U64) {
    if m.used == 0 then (m.(refund := 0), 0)
    else
      var cap := m.used / MAX_REFUND_QUOTIENT;
      var applied := if m.refund < cap then m.refund else cap;
      (m.(used := m.used - applied, refund := 0), applied)
  }

  function EffectiveGasUsed(m: Meter): U64 {
    if m.used == 0 then 0
    else
      var cap := m.used / MAX_REFUND_QUOTIENT;
      m.used - (if m.refund < cap then m.refund else cap)
  }

  class GasMeter {
    const gasLimit: U64
    var gasUsed: U64
    var gasRefund: U64
    var memoryWords: U64
    var warmStorage: set<Key>

    constructor (limit: U64)
      ensures View() == Fresh(limit)
    {
      gasLimit, gasUsed, gasRefund, memoryWords, warmStorage := limit, 0, 0, 0, {};
    }

    function View(): Meter
      reads this
    {
      Meter(gasLimit, gasUsed, gasRefund, memoryWords, warmStorage)
    }

    method Consume(amount: U64) returns (r: Result<U64, GasError>)
      modifies `gasUsed
      ensures (View(), r) == Consumed(old(View()), amount)
    {
      var next := SaturatingAdd(gasUsed, amount);
      if next > gasLimit {
        return Err(OutOfGas);
      }
      gasUsed := next;
      return Ok(amount);
    }

    method ApplyRefundDelta(delta: int)
      requires -TWO_64 < delta < TWO_64
      modifies `gasRefund
      ensures gasRefund == ShiftRefund(old(gasRefund), delta)
    {
      if delta >= 0 {
        gasRefund := SaturatingAdd(gasRefund, delta);
      } else {
        gasRefund := SaturatingSub(gasRefund, -delta);
      }
    }

    method ApplyRefunds() returns (applied: U64)
      modifies `gasUsed, `gasRefund
      ensures (View(), applied) == AfterRefunds(old(View()))
    {
      if gasUsed == 0 {
        gasRefund := 0;
        return 0;
      }
      var cap := gasUsed / MAX_REFUND_QUOTIENT;
      applied := if gasRefund < cap then gasRefund else cap;
      gasUsed := SaturatingSub(gasUsed, applied);
      gasRefund := 0;
    }

    method ChargeMemory(offset: U64, len: U64) returns (r: Result<U64, GasError>)
      modifies `gasUsed, `memoryWords
      ensures (View(), r) == AfterMemory(old(View()), offset, len)
    {
      if len == 0 {
        return Ok(0);
      }
      var required := MemoryWordsForRange(offset, len);
      var cost := MemoryExpansionCost(memoryWords, required);
      r := Consume(cost);
      if r.Err? {
        return;
      }
      if required > memoryWords {
        memoryWords := required;
      }
    }

    method TouchStorage(key: Key) returns (wasWarm: bool)
      modifies `warmStorage
      ensures wasWarm == (key in old(warmStorage)) && warmStorage == old(warmStorage) + {key}
    {
      wasWarm := key in warmStorage;
      warmStorage := warmStorage + {key};
    }

    method ChargeSload(key: Key) returns (r: Result<U64, GasError>)
      modifies `gasUsed, `warmStorage
      ensures (View(), r) == AfterLoad(old(View()), key)
    {
      var warm := TouchStorage(key);
      r := Consume(SloadGas(warm));
    }

    method ChargeSstore(key: Key, original: U256, current: U256, new_: U256) returns (r: Result<U64, GasError>)
      modifies `gasUsed, `gasRefund, `warmStorage
      ensures (View(), r) == AfterStore(old(View()), key, original, current, new_)
    {
      if SaturatingSub(gasLimit, gasUsed) <= SSTORE_SENTRY_GAS {
        return Err(SstoreSentry);
      }
      var warm := TouchStorage(key);
      var cost := SstoreGas(original, current, new_, warm);
      r := Consume(cost.gasCost);
      if r.Err? {
        return;
      }
      ApplyRefundDelta(cost.refundDelta);
    }

    /** Prepays the whole gas limit. */
    method DeductFee(account: Account, gasPrice: U256) returns (after: Account, r: Result<U256, GasError>)
      ensures (after, r) == Prepaid(View(), account, gasPrice)
    {
      if gasPrice * gasLimit >= TWO_256 {
        return account, Err(PrepaidOverflow);
      }
      var prepaid: U256 := Product(gasPrice, gasLimit);
      if account.balance < prepaid {
        return account, Err(BalanceUnderflow);
      }
      return account.(balance := account.balance - prepaid), Ok(prepaid);
    }

    /** Returns the part of the prepayment that was not used. */
    method RefundUnused(account: Account, gasPrice: U256) returns (after: Account, r: Result<U256, GasError>)
      ensures (after, r) == Returned(View(), account, gasPrice)
    {
      if gasPrice * gasLimit >= TWO_256 {
        return account, Err(PrepaidOverflow);
      }
      var prepaid: U256 := Product(gasPrice, gasLimit);
      var used := EffectiveGasUsed(View());
      if gasPrice * used >= TWO_256 {
        return account, Err(UsedFeeOverflow);
      }
      var usedFee: U256 := Product(gasPrice, used);
      if prepaid < usedFee {
        return account, Err(UsedFeeExceedsPrepaid);
      }
      var refund: U256 := prepaid - usedFee;
      if refund > 0 {
        if account.balance + refund >= TWO_256 {
          return account, Err(BalanceOverflow);
        }
        return account.(balance := account.balance + refund), Ok(refund);
      }
      return account, Ok(refund);
    }
  }

  function Product(a: U256, b: U64): (r: U256)
    requires a * b < TWO_256
    ensures r == a * b
  {
    assert a * b >= 0;
    a * b
  }

  function Prepaid(m: Meter, account: Account, gasPrice: U256): (Account, Result<U256, GasError>) {
    if gasPrice * m.limit >= TWO_256 then (account, Err(PrepaidOverflow))
    else if account.balance < gasPrice * m.limit then (account, Err(BalanceUnderflow))
    else (account.(balance := account.balance - Product(gasPrice, m.limit)), Ok(Product(gasPrice, m.limit)))
  }

  function Returned(m: Meter, account: Account, gasPrice: U256): (Account, Result<U256, GasError>) {
    var used := EffectiveGasUsed(m);
    if gasPrice * m.limit >= TWO_256 then (account, Err(PrepaidOverflow))
    else if gasPrice * used >= TWO_256 then (account, Err(UsedFeeOverflow))
    else if gasPrice * m.limit < gasPrice * used then (account, Err(UsedFeeExceedsPrepaid))
    else
      var refund: U256 := Product(gasPrice, m.limit) - Product(gasPrice, used);
      if refund == 0 then (account, Ok(refund))
      else if account.balance + refund >= TWO_256 then (account, Err(BalanceOverflow))
      else (account.(balance := account.balance + refund), Ok(refund))
  }

  // ----- runs -----------------------------------------------------------------------------

  type Slots = map<Key, U256>

  function ValueAt(slots: Slots, key: Key): U256 {
    if key in slots then slots[key] else 0
  }

  datatype Charge = Spend(amount: U64) | Memory(offset: U64, len: U64) | Load(key: Key) | Write(key: Key, value: U256)

  /** A meter with the storage it meters, and a separate account of what the charges reported. */
  datatype State = State(meter: Meter, current: Slots, charged: nat, memoryCharged: nat, largest: U64)

  function Start(limit: U64, original: Slots): State {
    State(Fresh(limit), original, 0, 0, 0)
  }

  function Charged(original: Slots, s: State, op: Charge): (Meter, Result<U64, GasError>) {
    match op
    case Spend(amount) => Consumed(s.meter, amount)
    case Memory(offset, len) => AfterMemory(s.meter, offset, len)
    case Load(key) => AfterLoad(s.meter, key)
    case Write(key, value) => AfterStore(s.meter, key, ValueAt(original, key), ValueAt(s.current, key), value)
  }

  /** One charge; a store that is paid for also takes effect, a refused one does not. */
  function Step(original: Slots, s: State, op: Charge): State {
    var (m, r) := Charged(original, s, op);
    if r.Err? then s.(meter := m)
    else
      var t := s.(meter := m, charged := s.charged + r.value);
      match op
      case Write(key, value) => t.(current := s.current[key := value])
      case Memory(offset, len) =>
        var words := MemoryWordsForRange(offset, len);
        t.(memoryCharged := s.memoryCharged + r.value, largest := if words > s.largest then words else s.largest)
      case _ => t
  }

  function Run(original: Slots, s: State, ops: seq<Charge>): State
    decreases |ops|
  {
    if ops == [] then s else Run(original, Step(original, s, ops[0]), ops[1..])
  }

  /** The slots that held a value when the transaction began and are empty now. */
  function Cleared(original: Slots, current: Slots): set<Key> {
    set k | k in original && original[k] != 0 && ValueAt(current, k) == 0
  }

  /** The slots that held a value when the transaction began and hold another one now. */
  function Dirty(original: Slots, current: Slots): set<Key> {
    set k | k in original && original[k] != 0 && ValueAt(current, k) != original[k]
  }

  ghost predicate Metered(s: State) {
    && s.meter.used <= s.meter.limit
    && s.memoryCharged == MemoryCost(s.meter.memoryWords)
    && s.meter.memoryWords == s.largest
  }

  /** The refund counter counts the cleared slots; every dirty slot has been paid for, as long as the
      gas counter still records charges. */
  ghost predicate Refunded(original: Slots, s: State) {
    && s.meter.refund == SSTORE_CLEARS_SCHEDULE * |Cleared(original, s.current)|
    && (s.meter.used < TWO_64 - 1 ==> SSTORE_RESET_GAS * |Dirty(original, s.current)| <= s.meter.used)
  }

  ghost predicate Recorded(s: State) {
    s.meter.used == s.charged <= s.meter.limit < TWO_64 - 1
  }

  lemma {:induction false} ClearedWith(original: Slots, current: Slots, key: Key, rest: set<Key>)
    requires rest == Cleared(original, current) - {key}
    ensures |Cleared(original, current)| == |rest| + Counts(ValueAt(original, key), ValueAt(current, key))
  {
  }

  /** The refund delta of a store is the change in the number of cleared slots, at 48 gas each. */
  lemma {:induction false} DeltaCountsCleared(original: Slots, current: Slots, key: Key, value: U256, isWarm: bool)
    ensures SSTORE_CLEARS_SCHEDULE * |Cleared(original, current[key := value])|
         == SSTORE_CLEARS_SCHEDULE * |Cleared(original, current)|
            + SstoreGas(ValueAt(original, key), ValueAt(current, key), value, isWarm).refundDelta
  {
    var rest := Cleared(original, current) - {key};
    assert Cleared(original, current[key := value]) - {key} == rest;
    ClearedWith(original, current, key, rest);
    ClearedWith(original, current[key := value], key, rest);
  }

  /** Only the first change of a clean slot makes a slot dirty, and it costs at least the reset price. */
  lemma {:induction false} DirtyIsPaid(original: Slots, current: Slots, key: Key, value: U256, isWarm: bool)
    ensures SSTORE_RESET_GAS * |Dirty(original, current[key := value])|
         <= SSTORE_RESET_GAS * |Dirty(original, current)|
            + SstoreGas(ValueAt(original, key), ValueAt(current, key), value, isWarm).gasCost
    ensures |Dirty(original, current[key := value])| <= |Dirty(original, current)| + 1
  {
    var before, after := Dirty(original, current), Dirty(original, current[key := value]);
    if ValueAt(original, key) == ValueAt(current, key) != value {
      SubsetSize(after, before + {key});
    } else {
      SubsetSize(after, before);
    }
  }

  lemma {:induction false} ClearedIsDirty(original: Slots, current: Slots)
    ensures |Cleared(original, current)| <= |Dirty(original, current)|
  {
    SubsetSize(Cleared(original, current), Dirty(original, current));
  }

  lemma {:induction false} StepMetered(original: Slots, s: State, op: Charge)
    requires Metered(s)
    ensures Metered(Step(original, s, op))
  {
    if op.Memory? {
      var words := MemoryWordsForRange(op.offset, op.len);
      MemoryCostMonotone(s.largest, if words > s.largest then words else s.largest);
    }
  }

  /** Under any interleaving of charges the meter never exceeds its limit, and memory has cost
      exactly what the largest range paid for costs on its own. */
  lemma {:induction false} RunMetered(original: Slots, s: State, ops: seq<Charge>)
    requires Metered(s)
    ensures Metered(Run(original, s, ops))
    decreases |ops|
  {
    if ops != [] {
      StepMetered(original, s, ops[0]);
      RunMetered(original, Step(original, s, ops[0]), ops[1..]);
    }
  }

  lemma {:induction false} WriteRefunded(original: Slots, s: State, key: Key, value: U256)
    requires Refunded(original, s)
    ensures Refunded(original, Step(original, s, Write(key, value)))
  {
    DeltaCountsCleared(original, s.current, key, value, key in s.meter.warm);
    DirtyIsPaid(original, s.current, key, value, key in s.meter.warm);
    ClearedIsDirty(original, s.current[key := value]);
  }

  lemma {:induction false} StepRefunded(original: Slots, s: State, op: Charge)
    requires Refunded(original, s)
    ensures Refunded(original, Step(original, s, op))
  {
    if op.Write? { WriteRefunded(original, s, op.key, op.value); }
  }

  /** Under any interleaving of charges the refund counter counts the slots that are cleared now,
      whatever was written on the way, and never saturates. */
  lemma {:induction false} RunRefunded(original: Slots, s: State, ops: seq<Charge>)
    requires Refunded(original, s)
    ensures Refunded(original, Run(original, s, ops))
    decreases |ops|
  {
    if ops != [] {
      StepRefunded(original, s, ops[0]);
      RunRefunded(original, Step(original, s, ops[0]), ops[1..]);
    }
  }

  lemma {:induction false} StepRecorded(original: Slots, s: State, op: Charge)
    requires Recorded(s)
    ensures Recorded(Step(original, s, op))
  {
  }

  lemma {:induction false} RunRecorded(original: Slots, s: State, ops: seq<Charge>)
    requires Recorded(s)
    ensures Recorded(Run(original, s, ops))
    decreases |ops|
  {
    if ops != [] {
      StepRecorded(original, s, ops[0]);
      RunRecorded(original, Step(original, s, ops[0]), ops[1..]);
    }
  }

  lemma {:induction false} StartHolds(limit: U64, original: Slots)
    ensures Metered(Start(limit, original)) && Refunded(original, Start(limit, original))
  {
    assert Cleared(original, original) == {} && Dirty(original, original) == {};
  }

  ghost predicate UsedIsCharged(limit: U64) {
    forall original: Slots, ops: seq<Charge> ::
      var end := Run(original, Start(limit, original), ops);
      end.meter.used == end.charged
  }

  /** The counter saturates at the largest 64-bit number, so a meter with that limit goes on
      accepting charges it can no longer record; under every smaller limit nothing is lost. */
  lemma {:induction false} UsedIsChargedExactly(limit: U64)
    ensures UsedIsCharged(limit) <==> limit < TWO_64 - 1
  {
    if limit < TWO_64 - 1 {
      forall original: Slots, ops: seq<Charge>
        ensures var end := Run(original, Start(limit, original), ops); end.meter.used == end.charged
      {
        RunRecorded(original, Start(limit, original), ops);
      }
    } else {
      var none: Slots := map[];
      var s0 := Start(limit, none);
      var s1 := Step(none, s0, Spend(limit));
      var s2 := Step(none, s1, Spend(1));
      var ops := [Spend(limit), Spend(1)];
      assert Run(none, s2, []) == s2;
      assert Run(none, s1, [Spend(1)]) == s2;
      assert ops[1..] == [Spend(1)];
      assert Run(none, s0, ops) == s2;
      assert s2.charged == limit + 1;
    }
  }

  /** The claw-back of a clear refund never saturates: what it takes back was credited before. */
  lemma {:induction false} ClawBackCovered(original: Slots, s: State, key: Key, value: U256)
    requires Refunded(original, s)
    ensures var cost := SstoreGas(ValueAt(original, key), ValueAt(s.current, key), value, key in s.meter.warm);
      s.meter.refund + cost.refundDelta >= 0
  {
    DeltaCountsCleared(original, s.current, key, value, key in s.meter.warm);
  }

  /** Two runs that end with the same storage and the same largest range paid for have the same
      refund counter and the same memory charge, however they got there. */
  lemma {:induction false} PathIndependent(limit: U64, original: Slots, ops: seq<Charge>, others: seq<Charge>)
    ensures var s, t := Run(original, Start(limit, original), ops), Run(original, Start(limit, original), others);
      && (s.current == t.current ==> s.meter.refund == t.meter.refund)
      && (s.largest == t.largest ==> s.memoryCharged == t.memoryCharged)
  {
    StartHolds(limit, original);
    RunMetered(original, Start(limit, original), ops);
    RunMetered(original, Start(limit, original), others);
    RunRefunded(original, Start(limit, original), ops);
    RunRefunded(original, Start(limit, original), others);
  }

  /** Applying the refunds takes the whole counter off, or the fifth of the gas used that it is capped
      at, and does not change the gas that is paid for. */
  lemma {:induction false} RefundCapped(m: Meter)
    ensures var (m', applied) := AfterRefunds(m);
      && applied * 5 <= m.used && applied <= m.refund && (applied == m.refund || applied == m.used / 5)
      && m'.used == m.used - applied && m'.refund == 0
      && EffectiveGasUsed(m') == EffectiveGasUsed(m) == m'.used
  {
  }

  /** Prepaying, any run of charges, and returning the rest lowers the balance by exactly the price
      of the effective gas, whether or not the refunds were applied first; once the prepayment
      succeeds nothing afterwards can fail. */
  lemma {:induction false} SettlementExact(limit: U64, original: Slots, ops: seq<Charge>, account: Account, price: U256)
    ensures var start := Start(limit, original);
      var end := Run(original, start, ops).meter;
      var (paid, p) := Prepaid(start.meter, account, price);
      && (p.Ok? <==> price * limit < TWO_256 && price * limit <= account.balance)
      && (p.Err? ==> paid == account && (p == Err(PrepaidOverflow) <==> price * limit >= TWO_256))
      && (p.Ok? ==> price * EffectiveGasUsed(end) <= price * limit)
      && (p.Ok? ==>
            var (settled, r) := Returned(end, paid, price);
            && r.Ok?
            && settled == account.(balance := account.balance - Product(price, EffectiveGasUsed(end)))
            && (settled, r) == Returned(AfterRefunds(end).0, paid, price))
  {
    StartHolds(limit, original);
    RunMetered(original, Start(limit, original), ops);
    var end := Run(original, Start(limit, original), ops).meter;
    RunKeepsLimit(original, Start(limit, original), ops);
    RefundCapped(end);
    ProductMonotone(price, EffectiveGasUsed(end), limit);
    ProductMonotone(price, 0, EffectiveGasUsed(end));
  }

  lemma {:induction false} RunKeepsLimit(original: Slots, s: State, ops: seq<Charge>)
    ensures Run(original, s, ops).meter.limit == s.meter.limit
    decreases |ops|
  {
    if ops != [] { RunKeepsLimit(original, Step(original, s, ops[0]), ops[1..]); }
  }
}
