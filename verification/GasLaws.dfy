/** What every charge costs and when it is refused, counted on the trace of charges. */
module GasLaws {
  import opened Basics
  import opened Outcomes
  import opened Transfers
  import opened Gas

  // ----- one charge -----------------------------------------------------------------------

  /** 1 for a store that is the first to change a slot holding its original value. */
  function CleanChange(original: Slots, current: Slots, key: Key, value: U256): nat {
    if ValueAt(current, key) == ValueAt(original, key) != value then 1 else 0
  }

  function Cold(warm: set<Key>, key: Key): nat {
    if key in warm then 0 else 1
  }

  /** The price of a charge: 48 gas per storage access, 20 more at the first touch of a key, and for
      the first change of a slot 152 more from zero and 2 more from another value. */
  function Price(original: Slots, s: State, op: Charge): nat {
    match op
    case Spend(amount) => amount
    case Memory(offset, len) =>
      var words := MemoryWordsForRange(offset, len);
      MemoryCostMonotone(s.meter.memoryWords, if words > s.meter.memoryWords then words else s.meter.memoryWords);
      if words > s.meter.memoryWords then MemoryCost(words) - MemoryCost(s.meter.memoryWords) else 0
    case Load(key) => 48 + 20 * Cold(s.meter.warm, key)
    case Write(key, value) =>
      48 + 20 * Cold(s.meter.warm, key)
      + (if ValueAt(original, key) == 0 then 152 else 2) * CleanChange(original, s.current, key, value)
  }

  function Touches(op: Charge): set<Key> {
    if op.Load? || op.Write? then {op.key} else {}
  }

  predicate BelowSentry(s: State, op: Charge) {
    op.Write? && s.meter.limit - s.meter.used <= 23
  }

  /** A charge is refused exactly when its price passes the limit, or for a store when no more than 23
      gas remain; an accepted one costs its price.  A refusal changes nothing, except that the key of
      an access is warm from then on unless the sentry stopped it. */
  lemma {:induction false} ChargedExactly(original: Slots, s: State, op: Charge)
    requires s.meter.used <= s.meter.limit
    ensures var (m, r) := Charged(original, s, op);
      && (r.Err? <==>
            BelowSentry(s, op)
            || (s.meter.limit < TWO_64 - 1 && s.meter.used + Price(original, s, op) > s.meter.limit))
      && (r.Err? ==> m == s.meter.(warm := m.warm)
                     && m.warm == if BelowSentry(s, op) then s.meter.warm else s.meter.warm + Touches(op))
      && (r.Ok? ==> r.value == Price(original, s, op) && m.warm == s.meter.warm + Touches(op)
                    && m.used == Saturated(s.meter.used + Price(original, s, op), TWO_64 - 1))
  {
    match op
    case Spend(_) =>
    case Memory(offset, len) => MemoryCharged(s, offset, len);
    case Load(_) =>
    case Write(key, value) => StoreCost(original, s, key, value);
  }

  lemma {:induction false} MemoryCharged(s: State, offset: U64, len: U64)
    ensures MemoryExpansionCost(s.meter.memoryWords, MemoryWordsForRange(offset, len))
         == Price(map[], s, Memory(offset, len))
  {
    var words := MemoryWordsForRange(offset, len);
    if words > s.meter.memoryWords { MemoryCostMonotone(s.meter.memoryWords, words); }
  }

  lemma {:induction false} StoreCost(original: Slots, s: State, key: Key, value: U256)
    ensures SstoreGas(ValueAt(original, key), ValueAt(s.current, key), value, key in s.meter.warm).gasCost
         == Price(original, s, Write(key, value))
  {
  }

  // ----- runs -----------------------------------------------------------------------------

  ghost predicate AllAccepted(original: Slots, s: State, ops: seq<Charge>)
    decreases |ops|
  {
    ops == [] || (Charged(original, s, ops[0]).1.Ok? && AllAccepted(original, Step(original, s, ops[0]), ops[1..]))
  }

  function Spent(ops: seq<Charge>): nat {
    if ops == [] then 0 else (if ops[0].Spend? then ops[0].amount else 0) + Spent(ops[1..])
  }

  function Accesses(ops: seq<Charge>): nat {
    if ops == [] then 0 else (if ops[0].Load? || ops[0].Write? then 1 else 0) + Accesses(ops[1..])
  }

  /** The accesses that touch a key for the first time. */
  function FirstTouches(warm: set<Key>, ops: seq<Charge>): nat
    decreases |ops|
  {
    if ops == [] then 0
    else (if ops[0].Load? || ops[0].Write? then Cold(warm, ops[0].key) else 0)
         + FirstTouches(warm + Touches(ops[0]), ops[1..])
  }

  function After(current: Slots, op: Charge): Slots {
    if op.Write? then current[op.key := op.value] else current
  }

  /** The stores that change a slot while it holds its original value, which is zero or not. */
  function CleanChanges(original: Slots, current: Slots, ops: seq<Charge>, fromZero: bool): nat
    decreases |ops|
  {
    if ops == [] then 0
    else (if ops[0].Write? && (ValueAt(original, ops[0].key) == 0) == fromZero
          then CleanChange(original, current, ops[0].key, ops[0].value) else 0)
         + CleanChanges(original, After(current, ops[0]), ops[1..], fromZero)
  }

  /** The gas charged by a run of accepted charges: what is spent outright, what memory grew to cost,
      48 per storage access, 20 per key first touched, and 152 or 2 per store that changes a slot
      holding its original value, which is zero or another one. */
  lemma {:induction false} GasOfRun(original: Slots, s: State, ops: seq<Charge>)
    requires AllAccepted(original, s, ops) && s.meter.used <= s.meter.limit
    ensures var end := Run(original, s, ops);
      end.charged - s.charged == Spent(ops) + (end.memoryCharged - s.memoryCharged)
        + 48 * Accesses(ops) + 20 * FirstTouches(s.meter.warm, ops)
        + 152 * CleanChanges(original, s.current, ops, true) + 2 * CleanChanges(original, s.current, ops, false)
    decreases |ops|
  {
    if ops != [] {
      var t := Step(original, s, ops[0]);
      ChargedExactly(original, s, ops[0]);
      StepUsed(original, s, ops[0]);
      GasOfRun(original, t, ops[1..]);
    }
  }

  lemma {:induction false} StepUsed(original: Slots, s: State, op: Charge)
    requires s.meter.used <= s.meter.limit && Charged(original, s, op).1.Ok?
    ensures var t := Step(original, s, op);
      && t.meter.used <= t.meter.limit && t.meter.warm == s.meter.warm + Touches(op)
      && t.current == After(s.current, op) && t.charged == s.charged + Price(original, s, op)
      && t.memoryCharged == s.memoryCharged + (if op.Memory? then Price(original, s, op) else 0)
  {
    ChargedExactly(original, s, op);
  }

  /** The keys that a run touches, refused charges included unless the sentry stopped them. */
  function Touched(original: Slots, s: State, ops: seq<Charge>): set<Key>
    decreases |ops|
  {
    if ops == [] then {}
    else (if BelowSentry(s, ops[0]) then {} else Touches(ops[0]))
         + Touched(original, Step(original, s, ops[0]), ops[1..])
  }

  lemma {:induction false} WarmStep(original: Slots, s: State, op: Charge, t: State)
    requires s.meter.used <= s.meter.limit && t == Step(original, s, op)
    ensures t.meter.warm == s.meter.warm + (if BelowSentry(s, op) then {} else Touches(op))
    ensures t.meter.used <= t.meter.limit
  {
    ChargedExactly(original, s, op);
    if Charged(original, s, op).1.Ok? { StepUsed(original, s, op); }
  }

  /** Over every run, refusals included, exactly the touched keys turn warm. */
  lemma {:induction false} WarmOfRun(original: Slots, s: State, ops: seq<Charge>)
    requires s.meter.used <= s.meter.limit
    ensures Run(original, s, ops).meter.warm == s.meter.warm + Touched(original, s, ops)
    decreases |ops|
  {
    if ops != [] {
      var t := Step(original, s, ops[0]);
      WarmStep(original, s, ops[0], t);
      WarmOfRun(original, t, ops[1..]);
    }
  }

  // ----- settlement -----------------------------------------------------------------------

  /** Returning the unused part to any account fails only when the prepayment overflows or the balance
      would; otherwise it pays exactly the price of the gas that was not used. */
  lemma {:induction false} ReturnedExactly(m: Meter, account: Account, price: U256)
    requires m.used <= m.limit
    ensures var (after, r) := Returned(m, account, price);
      var unused := price * (m.limit - EffectiveGasUsed(m));
      && (r.Err? <==> price * m.limit >= TWO_256 || account.balance + unused >= TWO_256)
      && (r.Err? ==> after == account)
      && (r.Ok? ==> r.value == unused && after.balance == account.balance + unused && after.nonce == account.nonce)
  {
    var used := EffectiveGasUsed(m);
    assert price * (m.limit - used) == price * m.limit - price * used;
    ProductMonotone(price, used, m.limit);
    ProductMonotone(price, 0, used);
  }
}
