/**
 * Admission of Ethereum transactions (`ante/evm/mono_decorator.go` and the steps it calls): the
 * loop over the messages of a transaction, the closing checks, and what holds over whole runs.
 */
module MonoAnte {
  import opened Options
  import opened Totals
  import Wire

  const TWO_64: int := 0x1_0000_0000_0000_0000
  const MAX_INT64: int := 0x7FFF_FFFF_FFFF_FFFF

  type Address = string

  /**
   * An Ethereum message. `charge` is the fee it is charged, `priority` the priority of its price,
   * and `passes` stands for the checks that change nothing here: unpacking, minimum fees,
   * validation, signature, balance and transferability.
   */
  datatype Msg = Msg(from: Address, nonce: nat, gas: nat, fee: nat, charge: nat, priority: int, passes: bool)

  /** A transaction with the fee and the gas limit that it declares; `valid` is its basic validation. */
  datatype Tx = Tx(msgs: seq<Msg>, valid: bool, declaredFee: int, declaredGas: nat)

  /** Under which circumstances a transaction is handled. */
  datatype Mode = Mode(checkTx: bool, recheck: bool, maxGasWanted: nat, blockGasLimit: nat, london: bool,
                       baseFeeEnabled: bool)

  /** Account sequences, balances and the gas wanted in the current block. */
  datatype State = State(sequences: map<Address, nat>, bank: map<Address, int>, gasWanted: nat)

  /** What is added up over the messages of a transaction. */
  datatype Tally = Tally(gasWanted: nat, minPriority: int, txFee: int, txGasLimit: nat)

  const START: Tally := Tally(0, MAX_INT64, 0, 0)

  datatype Progress = Progress(state: State, tally: Tally)

  /** A missing account is created with sequence zero. */
  function Sequence(s: State, a: Address): nat {
    if a in s.sequences then s.sequences[a] else 0
  }

  // ---------------------------------------------------------------------------------------
  // Steps
  // ---------------------------------------------------------------------------------------

  /** The gas of a message, capped for the mempool. */
  function Capped(mode: Mode, gas: nat): nat {
    if mode.checkTx && mode.maxGasWanted != 0 && gas > mode.maxGasWanted then mode.maxGasWanted else gas
  }

  function UpdateCumulativeGasWanted(mode: Mode, gas: nat, cumulative: nat): nat {
    Wire.Low64(cumulative + Capped(mode, gas))
  }

  function GetMsgPriority(priority: int, minPriority: int): int {
    if priority < minPriority then priority else minPriority
  }

  function Add(t: Tally, mode: Mode, m: Msg): Tally {
    Tally(UpdateCumulativeGasWanted(mode, m.gas, t.gasWanted), GetMsgPriority(m.priority, t.minPriority),
          t.txFee + m.fee, Wire.Low64(t.txGasLimit + m.gas))
  }

  /** One message: charge its fee, add it to the tally, advance the nonce, record the gas wanted. */
  function AdmitMsg(collector: Address, mode: Mode, txGas: nat, p: Progress, m: Msg): Option<Progress> {
    var s := p.state;
    if !m.passes || At(s.bank, m.from) < m.charge || m.nonce != Sequence(s, m.from) then None
    else if mode.london && txGas > mode.blockGasLimit then None
    else
      Some(Progress(State(s.sequences[m.from := Wire.Low64(m.nonce + 1)],
                          Paid(s.bank, m.from, collector, m.charge),
                          if mode.london && mode.baseFeeEnabled then Wire.Low64(s.gasWanted + txGas) else s.gasWanted),
                    Add(p.tally, mode, m)))
  }

  /** A zero fee is not moved. */
  function Paid(bank: map<Address, int>, from: Address, to: Address, amount: nat): map<Address, int> {
    if amount == 0 then bank else Move(bank, from, to, amount)
  }

  function AdmitMsgs(collector: Address, mode: Mode, txGas: nat, p: Progress, msgs: seq<Msg>): Option<Progress>
    decreases |msgs|
  {
    if msgs == [] then Some(p)
    else
      var next := AdmitMsg(collector, mode, txGas, p, msgs[0]);
      if next.None? then None else AdmitMsgs(collector, mode, txGas, next.value, msgs[1..])
  }

  /** The declared fee and gas limit agree with the sums; nothing is declared on a recheck. */
  predicate CheckTxFee(mode: Mode, tx: Tx, t: Tally) {
    mode.recheck || (tx.declaredFee == t.txFee && tx.declaredGas == t.txGasLimit)
  }

  function Admit(collector: Address, mode: Mode, s: State, tx: Tx): Option<Progress> {
    if !mode.recheck && !tx.valid then None
    else
      var r := AdmitMsgs(collector, mode, tx.declaredGas, Progress(s, START), tx.msgs);
      if r.Some? && CheckTxFee(mode, tx, r.value.tally) && r.value.tally.gasWanted <= mode.blockGasLimit then r
      else None
  }

  // ---------------------------------------------------------------------------------------
  // The decorator, updating the state in place
  // ---------------------------------------------------------------------------------------

  class MonoDecorator {
    var sequences: map<Address, nat>
    var bank: map<Address, int>
    var gasWanted: nat
    const collector: Address

    function Contents(): State
      reads this
    {
      State(sequences, bank, gasWanted)
    }

    method IncrementNonce(account: Address, nonce: nat) returns (ok: bool)
      modifies this`sequences
      ensures ok <==> nonce == Sequence(old(Contents()), account)
      ensures sequences == if ok then old(sequences)[account := Wire.Low64(nonce + 1)] else old(sequences)
    {
      var current := if account in sequences then sequences[account] else 0;
      if nonce != current {
        return false;
      }
      sequences := sequences[account := Wire.Low64(current + 1)];
      return true;
    }

    method CheckGasWanted(mode: Mode, txGas: nat) returns (ok: bool)
      modifies this`gasWanted
      ensures ok <==> !(mode.london && txGas > mode.blockGasLimit)
      ensures gasWanted == if ok && mode.london && mode.baseFeeEnabled then Wire.Low64(old(gasWanted) + txGas)
                           else old(gasWanted)
    {
      if !mode.london {
        return true;
      }
      if txGas > mode.blockGasLimit {
        return false;
      }
      if mode.baseFeeEnabled {
        gasWanted := Wire.Low64(gasWanted + txGas);
      }
      return true;
    }

    /** One turn of the message loop. */
    method HandleMsg(mode: Mode, txGas: nat, t: Tally, m: Msg) returns (ok: bool, tally: Tally)
      modifies this
      ensures var r := AdmitMsg(collector, mode, txGas, Progress(old(Contents()), t), m);
              ok == r.Some? && (ok ==> Progress(Contents(), tally) == r.value)
    {
      tally := t;
      if !m.passes || At(bank, m.from) < m.charge {
        return false, tally;
      }
      if m.charge != 0 {
        bank := Move(bank, m.from, collector, m.charge);
      }
      tally := tally.(gasWanted := UpdateCumulativeGasWanted(mode, m.gas, tally.gasWanted));
      tally := tally.(minPriority := GetMsgPriority(m.priority, tally.minPriority));
      tally := tally.(txFee := tally.txFee + m.fee);
      tally := tally.(txGasLimit := Wire.Low64(tally.txGasLimit + m.gas));
      ok := IncrementNonce(m.from, m.nonce);
      if ok {
        ok := CheckGasWanted(mode, txGas);
      }
    }

    /** Handles a transaction; if it is refused, its effects are discarded. */
    method AnteHandle(mode: Mode, tx: Tx) returns (r: Option<Tally>)
      modifies this
      ensures var after := Admit(collector, mode, old(Contents()), tx);
              if after.None? then r == None && Contents() == old(Contents())
              else r == Some(after.value.tally) && Contents() == after.value.state
    {
      if !mode.recheck && !tx.valid {
        return None;
      }
      var before := Contents();
      ghost var start := Progress(Contents(), START);
      var ok, tally := true, START;
      var i := 0;
      while i < |tx.msgs| && ok
        invariant 0 <= i <= |tx.msgs|
        invariant AdmitMsgs(collector, mode, tx.declaredGas, start, tx.msgs) ==
                  if ok then AdmitMsgs(collector, mode, tx.declaredGas, Progress(Contents(), tally), tx.msgs[i..])
                  else None
      {
        assert tx.msgs[i..][1..] == tx.msgs[i + 1..];
        ok, tally := HandleMsg(mode, tx.declaredGas, tally, tx.msgs[i]);
        i := i + 1;
      }
      if ok && CheckTxFee(mode, tx, tally) && tally.gasWanted <= mode.blockGasLimit {
        return Some(tally);
      }
      sequences, bank, gasWanted := before.sequences, before.bank, before.gasWanted;
      return None;
    }
  }

  // ---------------------------------------------------------------------------------------
  // One transaction: its sums
  // ---------------------------------------------------------------------------------------

  function FeeSum(msgs: seq<Msg>): nat {
    if msgs == [] then 0 else msgs[0].fee + FeeSum(msgs[1..])
  }

  function GasSum(msgs: seq<Msg>): nat {
    if msgs == [] then 0 else msgs[0].gas + GasSum(msgs[1..])
  }

  /** The sum of the gas limits, each cut to the maximum that the mempool counts, if there is one. */
  function CappedSum(mode: Mode, msgs: seq<Msg>): nat {
    if msgs == [] then 0
    else
      var cut := mode.checkTx && 0 < mode.maxGasWanted < msgs[0].gas;
      (if cut then mode.maxGasWanted else msgs[0].gas) + CappedSum(mode, msgs[1..])
  }

  /** `p` is the least of the priorities and of `top`. */
  predicate IsLeast(msgs: seq<Msg>, top: int, p: int) {
    && p <= top
    && (forall m | m in msgs :: p <= m.priority)
    && (p == top || exists m | m in msgs :: p == m.priority)
  }

  lemma Low64Add(x: int, y: int)
    ensures Wire.Low64(Wire.Low64(x) + y) == Wire.Low64(x + y)
  {
  }

  lemma {:induction false} TallySums(collector: Address, mode: Mode, txGas: nat, p: Progress, msgs: seq<Msg>)
    requires AdmitMsgs(collector, mode, txGas, p, msgs).Some? && p.tally.txGasLimit < TWO_64
    ensures var t := AdmitMsgs(collector, mode, txGas, p, msgs).value.tally;
            && t.txFee == p.tally.txFee + FeeSum(msgs)
            && t.txGasLimit == Wire.Low64(p.tally.txGasLimit + GasSum(msgs))
    decreases |msgs|
  {
    if msgs != [] {
      var next := AdmitMsg(collector, mode, txGas, p, msgs[0]).value;
      TallySums(collector, mode, txGas, next, msgs[1..]);
      Low64Add(p.tally.txGasLimit + msgs[0].gas, GasSum(msgs[1..]));
    }
  }

  lemma {:induction false} TallyWanted(collector: Address, mode: Mode, txGas: nat, p: Progress, msgs: seq<Msg>)
    requires AdmitMsgs(collector, mode, txGas, p, msgs).Some? && p.tally.gasWanted < TWO_64
    ensures AdmitMsgs(collector, mode, txGas, p, msgs).value.tally.gasWanted ==
            Wire.Low64(p.tally.gasWanted + CappedSum(mode, msgs))
    decreases |msgs|
  {
    if msgs != [] {
      var next := AdmitMsg(collector, mode, txGas, p, msgs[0]).value;
      TallyWanted(collector, mode, txGas, next, msgs[1..]);
      Low64Add(p.tally.gasWanted + Capped(mode, msgs[0].gas), CappedSum(mode, msgs[1..]));
    }
  }

  lemma {:induction false} TallyLeast(collector: Address, mode: Mode, txGas: nat, p: Progress, msgs: seq<Msg>)
    requires AdmitMsgs(collector, mode, txGas, p, msgs).Some?
    ensures IsLeast(msgs, p.tally.minPriority, AdmitMsgs(collector, mode, txGas, p, msgs).value.tally.minPriority)
    decreases |msgs|
  {
    if msgs != [] {
      var next := AdmitMsg(collector, mode, txGas, p, msgs[0]).value;
      TallyLeast(collector, mode, txGas, next, msgs[1..]);
      assert msgs == [msgs[0]] + msgs[1..];
    }
  }

  /**
   * An admitted transaction declares, unless it is rechecked, the sums of the fees and of the gas
   * limits of its messages; its priority is the least of theirs; and its capped gas stays within
   * the block limit. Sums are those of unsigned 64-bit arithmetic.
   */
  lemma AdmittedSums(collector: Address, mode: Mode, s: State, tx: Tx)
    requires Admit(collector, mode, s, tx).Some?
    ensures var t := Admit(collector, mode, s, tx).value.tally;
            && (!mode.recheck ==> tx.declaredFee == FeeSum(tx.msgs) && tx.declaredGas == Wire.Low64(GasSum(tx.msgs)))
            && IsLeast(tx.msgs, MAX_INT64, t.minPriority)
            && t.gasWanted == Wire.Low64(CappedSum(mode, tx.msgs)) <= mode.blockGasLimit
  {
    TallySums(collector, mode, tx.declaredGas, Progress(s, START), tx.msgs);
    TallyWanted(collector, mode, tx.declaredGas, Progress(s, START), tx.msgs);
    TallyLeast(collector, mode, tx.declaredGas, Progress(s, START), tx.msgs);
  }

  // ---------------------------------------------------------------------------------------
  // One transaction: when it is admitted
  // ---------------------------------------------------------------------------------------

  /** How many of the messages an account sends. */
  function CountOf(msgs: seq<Msg>, a: Address): nat {
    if msgs == [] then 0 else CountOf(msgs[..|msgs| - 1], a) + if msgs[|msgs| - 1].from == a then 1 else 0
  }

  /** What the messages do to the balance of an account: it pays for its own, the collector earns all. */
  function NetOf(collector: Address, msgs: seq<Msg>, a: Address): int {
    if msgs == [] then 0
    else
      var m := msgs[|msgs| - 1];
      NetOf(collector, msgs[..|msgs| - 1], a) - (if m.from == a then m.charge else 0) +
      if collector == a then m.charge else 0
  }

  /**
   * Message `i` passes its own checks, has the sequence of its sender advanced by the sender's
   * earlier messages as nonce, and the sender can pay for it after them.
   */
  predicate Fits(collector: Address, s: State, msgs: seq<Msg>, i: nat)
    requires i < |msgs|
  {
    var m, earlier := msgs[i], msgs[..i];
    && m.passes
    && m.nonce == Wire.Low64(Sequence(s, m.from) + CountOf(earlier, m.from))
    && At(s.bank, m.from) + NetOf(collector, earlier, m.from) >= m.charge
  }

  /** The state is that after the messages, as far as admission depends on it. */
  ghost predicate Reached(collector: Address, s: State, done: seq<Msg>, now: State) {
    forall a ::
      && Sequence(now, a) == Wire.Low64(Sequence(s, a) + CountOf(done, a))
      && At(now.bank, a) == At(s.bank, a) + NetOf(collector, done, a)
  }

  lemma ReachedStart(collector: Address, s: State)
    requires Bounded(s)
    ensures Reached(collector, s, [], s)
  {
    forall a
      ensures Sequence(s, a) == Wire.Low64(Sequence(s, a))
    {
      assert a in s.sequences ==> s.sequences[a] < TWO_64;
    }
  }

  lemma ReachedNext(collector: Address, mode: Mode, txGas: nat, s: State, done: seq<Msg>, p: Progress, m: Msg)
    requires Reached(collector, s, done, p.state) && AdmitMsg(collector, mode, txGas, p, m).Some?
    ensures Reached(collector, s, done + [m], AdmitMsg(collector, mode, txGas, p, m).value.state)
  {
    var now := AdmitMsg(collector, mode, txGas, p, m).value.state;
    assert (done + [m])[..|done|] == done;
    forall a
      ensures Sequence(now, a) == Wire.Low64(Sequence(s, a) + CountOf(done + [m], a))
      ensures At(now.bank, a) == At(s.bank, a) + NetOf(collector, done + [m], a)
    {
      MoveAt(p.state.bank, m.from, collector, m.charge, a);
      Low64Add(Sequence(s, a) + CountOf(done, a), 1);
    }
  }

  lemma FitsNow(collector: Address, mode: Mode, txGas: nat, s: State, done: seq<Msg>, p: Progress, msgs: seq<Msg>)
    requires Reached(collector, s, done, p.state) && |done| < |msgs| && msgs[..|done|] == done
    ensures AdmitMsg(collector, mode, txGas, p, msgs[|done|]).Some? <==>
            Fits(collector, s, msgs, |done|) && !(mode.london && txGas > mode.blockGasLimit)
  {
  }

  lemma {:induction false} MsgsAdmitted(collector: Address, mode: Mode, txGas: nat, s: State, p: Progress, msgs: seq<Msg>,
                                        n: nat)
    requires n <= |msgs| && Reached(collector, s, msgs[..n], p.state)
    ensures AdmitMsgs(collector, mode, txGas, p, msgs[n..]).Some? <==>
            && (forall i: nat | n <= i < |msgs| :: Fits(collector, s, msgs, i))
            && (n < |msgs| && mode.london ==> txGas <= mode.blockGasLimit)
    decreases |msgs| - n
  {
    if n < |msgs| {
      FitsNow(collector, mode, txGas, s, msgs[..n], p, msgs);
      assert msgs[n..][0] == msgs[n] && msgs[n..][1..] == msgs[n + 1..];
      var next := AdmitMsg(collector, mode, txGas, p, msgs[n]);
      if next.Some? {
        ReachedNext(collector, mode, txGas, s, msgs[..n], p, msgs[n]);
        assert msgs[..n] + [msgs[n]] == msgs[..n + 1];
        MsgsAdmitted(collector, mode, txGas, s, next.value, msgs, n + 1);
      }
    }
  }

  /**
   * A transaction is admitted exactly when it is valid or only rechecked, each message fits after
   * those before it, its declared gas fits the block once the fork is active, it declares the sums of
   * its messages unless rechecked, and its capped gas fits the block.
   */
  lemma AdmitsExactly(collector: Address, mode: Mode, s: State, tx: Tx)
    requires Bounded(s)
    ensures Admit(collector, mode, s, tx).Some? <==>
            && (mode.recheck || tx.valid)
            && (forall i: nat | i < |tx.msgs| :: Fits(collector, s, tx.msgs, i))
            && (mode.london && tx.msgs != [] ==> tx.declaredGas <= mode.blockGasLimit)
            && (mode.recheck || (tx.declaredFee == FeeSum(tx.msgs) && tx.declaredGas == Wire.Low64(GasSum(tx.msgs))))
            && Wire.Low64(CappedSum(mode, tx.msgs)) <= mode.blockGasLimit
  {
    var start := Progress(s, START);
    ReachedStart(collector, s);
    assert tx.msgs[..0] == [] && tx.msgs[0..] == tx.msgs;
    MsgsAdmitted(collector, mode, tx.declaredGas, s, start, tx.msgs, 0);
    if AdmitMsgs(collector, mode, tx.declaredGas, start, tx.msgs).Some? {
      TallySums(collector, mode, tx.declaredGas, start, tx.msgs);
      TallyWanted(collector, mode, tx.declaredGas, start, tx.msgs);
    }
  }

  /** The gas wanted in the block grows by the declared gas of the transaction once for each message. */
  lemma {:induction false} GasWantedRecorded(collector: Address, mode: Mode, txGas: nat, p: Progress, msgs: seq<Msg>)
    requires AdmitMsgs(collector, mode, txGas, p, msgs).Some? && p.state.gasWanted < TWO_64
    ensures AdmitMsgs(collector, mode, txGas, p, msgs).value.state.gasWanted ==
            if mode.london && mode.baseFeeEnabled then Wire.Low64(p.state.gasWanted + |msgs| * txGas)
            else p.state.gasWanted
    decreases |msgs|
  {
    if msgs != [] {
      var next := AdmitMsg(collector, mode, txGas, p, msgs[0]).value;
      GasWantedRecorded(collector, mode, txGas, next, msgs[1..]);
      WantedOnceMore(p.state.gasWanted, |msgs|, txGas);
    }
  }

  lemma WantedOnceMore(wanted: nat, n: nat, gas: nat)
    requires n > 0
    ensures Wire.Low64(Wire.Low64(wanted + gas) + (n - 1) * gas) == Wire.Low64(wanted + n * gas)
  {
    Low64Add(wanted + gas, (n - 1) * gas);
    assert n * gas == gas + (n - 1) * gas;
  }

  /**
   * So an admitted transaction has its declared gas recorded exactly once if and only if nothing is
   * recorded at all, or the other messages add a multiple of 2^64; in particular for one message.
   */
  lemma RecordedOnceExactly(collector: Address, mode: Mode, s: State, tx: Tx)
    requires Admit(collector, mode, s, tx).Some? && s.gasWanted < TWO_64
    ensures var recorded := Admit(collector, mode, s, tx).value.state.gasWanted;
            if mode.london && mode.baseFeeEnabled then
              recorded == Wire.Low64(s.gasWanted + tx.declaredGas) <==>
              Wire.Low64((|tx.msgs| - 1) * tx.declaredGas) == 0
            else recorded == s.gasWanted
  {
    GasWantedRecorded(collector, mode, tx.declaredGas, Progress(s, START), tx.msgs);
    var n, gas := |tx.msgs|, tx.declaredGas;
    assert n * gas - gas == (n - 1) * gas;
    SameLow64(s.gasWanted + n * gas, s.gasWanted + gas);
  }

  lemma SameLow64(x: int, y: int)
    ensures Wire.Low64(x) == Wire.Low64(y) <==> Wire.Low64(x - y) == 0
  {
  }

  /** A transaction with two messages that declares 42000 gas has 84000 recorded. */
  lemma TwoMessagesCountTwice()
    ensures var mode := Mode(false, false, 0, 1_000_000, true, true);
            var s := State(map["sender" := 0], map["sender" := 100], 0);
            var first := Msg("sender", 0, 21000, 10, 10, 1, true);
            var second := Msg("sender", 1, 21000, 10, 10, 1, true);
            var r := Admit("collector", mode, s, Tx([first, second], true, 20, 42000));
            r.Some? && r.value.state.gasWanted == 84000
  {
    var mode := Mode(false, false, 0, 1_000_000, true, true);
    var s := State(map["sender" := 0], map["sender" := 100], 0);
    var first := Msg("sender", 0, 21000, 10, 10, 1, true);
    var second := Msg("sender", 1, 21000, 10, 10, 1, true);
    var p := Progress(s, START);
    var p1 := AdmitMsg("collector", mode, 42000, p, first).value;
    MoveAt(s.bank, "sender", "collector", 10, "sender");
    assert At(p1.state.bank, "sender") == 90;
    var p2 := AdmitMsg("collector", mode, 42000, p1, second).value;
    assert [first, second][1..] == [second];
    assert AdmitMsgs("collector", mode, 42000, p1, [second]) == AdmitMsgs("collector", mode, 42000, p2, []);
  }

  // ---------------------------------------------------------------------------------------
  // Runs: nonces and balances
  // ---------------------------------------------------------------------------------------

  datatype Event = Event(mode: Mode, tx: Tx)

  function Step(collector: Address, s: State, e: Event): State {
    var r := Admit(collector, e.mode, s, e.tx);
    if r.None? then s else r.value.state
  }

  function After(collector: Address, s: State, run: seq<Event>): State
    decreases |run|
  {
    if run == [] then s else After(collector, Step(collector, s, run[0]), run[1..])
  }

  /** The messages that are admitted along a run, in order. */
  function Admitted(collector: Address, s: State, run: seq<Event>): seq<Msg>
    decreases |run|
  {
    if run == [] then []
    else
      (if Admit(collector, run[0].mode, s, run[0].tx).Some? then run[0].tx.msgs else []) +
      Admitted(collector, Step(collector, s, run[0]), run[1..])
  }

  function NoncesOf(msgs: seq<Msg>, a: Address): seq<nat> {
    if msgs == [] then []
    else (if msgs[0].from == a then [msgs[0].nonce] else []) + NoncesOf(msgs[1..], a)
  }

  function ChargesOf(msgs: seq<Msg>, a: Address): nat {
    if msgs == [] then 0 else (if msgs[0].from == a then msgs[0].charge else 0) + ChargesOf(msgs[1..], a)
  }

  /** Counting up from `start`, as 64-bit numbers do. */
  predicate CountsFrom(start: nat, nonces: seq<nat>) {
    forall i | 0 <= i < |nonces| :: nonces[i] == Wire.Low64(start + i)
  }

  /** Sequences are 64-bit numbers. */
  predicate Bounded(s: State) {
    forall a | a in s.sequences :: s.sequences[a] < TWO_64
  }

  /** From `s` to `r` the messages were admitted in order. */
  ghost predicate Advanced(collector: Address, s: State, r: State, msgs: seq<Msg>, a: Address) {
    && CountsFrom(Sequence(s, a), NoncesOf(msgs, a))
    && Sequence(r, a) == Wire.Low64(Sequence(s, a) + |NoncesOf(msgs, a)|)
    && (a != collector ==> At(r.bank, a) == At(s.bank, a) - ChargesOf(msgs, a))
    && Total(r.bank) == Total(s.bank)
    && Bounded(r)
  }

  lemma AdvancedNot(collector: Address, s: State, a: Address)
    requires Bounded(s)
    ensures Advanced(collector, s, s, [], a)
  {
  }

  lemma AdvancedThen(collector: Address, s: State, m: State, r: State, first: seq<Msg>, second: seq<Msg>, a: Address)
    requires Advanced(collector, s, m, first, a) && Advanced(collector, m, r, second, a)
    ensures Advanced(collector, s, r, first + second, a)
  {
    NoncesAppend(first, second, a);
    ChargesAppend(first, second, a);
    var x, y := NoncesOf(first, a), NoncesOf(second, a);
    Low64Add(Sequence(s, a) + |x|, |y|);
    forall i | 0 <= i < |x + y|
      ensures (x + y)[i] == Wire.Low64(Sequence(s, a) + i)
    {
      if i >= |x| {
        Low64Add(Sequence(s, a) + |x|, i - |x|);
      }
    }
  }

  lemma {:induction false} NoncesAppend(first: seq<Msg>, second: seq<Msg>, a: Address)
    ensures NoncesOf(first + second, a) == NoncesOf(first, a) + NoncesOf(second, a)
  {
    if first == [] {
      assert first + second == second;
    } else {
      var rest := first[1..] + second;
      assert (first + second)[1..] == rest && (first + second)[0] == first[0];
      NoncesAppend(first[1..], second, a);
      var head: seq<nat> := if first[0].from == a then [first[0].nonce] else [];
      var x, y := NoncesOf(first[1..], a), NoncesOf(second, a);
      assert head + (x + y) == (head + x) + y;
    }
  }

  lemma {:induction false} ChargesAppend(first: seq<Msg>, second: seq<Msg>, a: Address)
    ensures ChargesOf(first + second, a) == ChargesOf(first, a) + ChargesOf(second, a)
  {
    if first == [] {
      assert first + second == second;
    } else {
      assert (first + second)[1..] == first[1..] + second;
      ChargesAppend(first[1..], second, a);
    }
  }

  lemma MsgAdvances(collector: Address, mode: Mode, txGas: nat, p: Progress, m: Msg, a: Address)
    requires Bounded(p.state) && AdmitMsg(collector, mode, txGas, p, m).Some?
    ensures Advanced(collector, p.state, AdmitMsg(collector, mode, txGas, p, m).value.state, [m], a)
  {
    if m.charge != 0 {
      MoveAt(p.state.bank, m.from, collector, m.charge, a);
      MoveTotal(p.state.bank, m.from, collector, m.charge);
    }
    assert NoncesOf([m], a) == if m.from == a then [m.nonce] else [];
    assert ChargesOf([m], a) == if m.from == a then m.charge else 0;
  }

  lemma {:induction false} MsgsAdvance(collector: Address, mode: Mode, txGas: nat, p: Progress, msgs: seq<Msg>,
                                       a: Address)
    requires Bounded(p.state) && AdmitMsgs(collector, mode, txGas, p, msgs).Some?
    ensures Advanced(collector, p.state, AdmitMsgs(collector, mode, txGas, p, msgs).value.state, msgs, a)
    decreases |msgs|
  {
    if msgs == [] {
      AdvancedNot(collector, p.state, a);
    } else {
      MsgAdvances(collector, mode, txGas, p, msgs[0], a);
      var next := AdmitMsg(collector, mode, txGas, p, msgs[0]).value;
      MsgsAdvance(collector, mode, txGas, next, msgs[1..], a);
      var last := AdmitMsgs(collector, mode, txGas, next, msgs[1..]).value;
      AdvancedThen(collector, p.state, next.state, last.state, [msgs[0]], msgs[1..], a);
      assert [msgs[0]] + msgs[1..] == msgs;
    }
  }

  /**
   * Along every run, the admitted nonces of each sender count up from its sequence without gap or
   * repetition, whatever the mix of senders and of messages per transaction; its sequence follows;
   * and it pays exactly the fees charged for its admitted messages, with no coin created or lost.
   */
  lemma {:induction false} RunAdvances(collector: Address, s: State, run: seq<Event>, a: Address)
    requires Bounded(s)
    ensures Advanced(collector, s, After(collector, s, run), Admitted(collector, s, run), a)
    decreases |run|
  {
    if run == [] {
      AdvancedNot(collector, s, a);
    } else {
      var e := run[0];
      var next := Step(collector, s, e);
      var first: seq<Msg> := [];
      if Admit(collector, e.mode, s, e.tx).Some? {
        first := e.tx.msgs;
        MsgsAdvance(collector, e.mode, e.tx.declaredGas, Progress(s, START), first, a);
      } else {
        AdvancedNot(collector, s, a);
      }
      RunAdvances(collector, next, run[1..], a);
      AdvancedThen(collector, s, next, After(collector, next, run[1..]), first, Admitted(collector, next, run[1..]), a);
    }
  }

  /** Unless a sequence passes 2^64, admitted nonces never repeat. */
  lemma NoReplay(collector: Address, s: State, run: seq<Event>, a: Address, i: nat, j: nat)
    requires Bounded(s)
    requires i < j < |NoncesOf(Admitted(collector, s, run), a)| <= TWO_64 - Sequence(s, a)
    ensures NoncesOf(Admitted(collector, s, run), a)[j] == NoncesOf(Admitted(collector, s, run), a)[i] + (j - i)
  {
    RunAdvances(collector, s, run, a);
    CountsApart(Sequence(s, a), NoncesOf(Admitted(collector, s, run), a), i, j);
  }

  lemma CountsApart(start: nat, nonces: seq<nat>, i: nat, j: nat)
    requires CountsFrom(start, nonces) && i < j < |nonces| <= TWO_64 - start
    ensures nonces[j] == nonces[i] + (j - i)
  {
  }
}
