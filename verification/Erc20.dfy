/**
 * The ERC-20 precompile (`precompiles/erc20/tx.go`, `precompiles/erc20/approve.go`): allowances,
 * bank balances, the mirrored balances of the EVM state and the emitted events, over whole runs.
 */
module Erc20 {
  import opened Options
  import opened Totals

  const TWO_256: int := 0x1_0000_0000_0000_0000_0000_0000_0000_0000_0000_0000_0000_0000_0000_0000_0000_0000

  type Address = string
  const ZERO_ADDRESS: Address := ""

  datatype Log =
    | TransferLog(from: Address, to: Address, amount: int)
    | ApprovalLog(owner: Address, spender: Address, amount: int)

  type Allowances = map<(Address, Address), int>

  /** The token's part of the chain state. */
  datatype State = State(bank: map<Address, int>, mirror: map<Address, int>, allowances: Allowances, logs: seq<Log>)

  /**
   * The token: whether it is the coin of the EVM, whose balances are mirrored, and the factor that
   * brings its amounts to 18 decimals.
   */
  datatype Token = Token(native: bool, factor: nat)

  /** What a call depends on besides: a usable token pair, and the bank letting the transfer through. */
  datatype Env = Env(pairUsable: bool, sendAllowed: bool)

  datatype Call =
    | Approve(owner: Address, spender: Address, amount: int)
    | Transfer(from: Address, to: Address, amount: int)
    | TransferFrom(caller: Address, from: Address, to: Address, amount: int)

  function Allowance(a: Allowances, owner: Address, spender: Address): int {
    if (owner, spender) in a then a[(owner, spender)] else 0
  }

  // ---------------------------------------------------------------------------------------
  // One call, as a function of the state
  // ---------------------------------------------------------------------------------------

  /** The allowance store: zero deletes, and bad pairs, addresses and values are refused. */
  function Stored(a: Allowances, env: Env, owner: Address, spender: Address, value: int): Option<Allowances> {
    if !env.pairUsable || owner == ZERO_ADDRESS || spender == ZERO_ADDRESS || value < 0 || value >= TWO_256 then None
    else if value == 0 then Some(a - {(owner, spender)})
    else Some(a[(owner, spender) := value])
  }

  function Approved(s: State, env: Env, owner: Address, spender: Address, amount: int): Option<State> {
    var current := Allowance(s.allowances, owner, spender);
    var a := if current == 0 && amount < 0 then None
             else if current > 0 || (current == 0 && amount > 0) then
               Stored(s.allowances, env, owner, spender, if amount < 0 then 0 else amount)
             else Some(s.allowances);
    if a.None? then None
    else Some(s.(allowances := a.value, logs := s.logs + [ApprovalLog(owner, spender, amount)]))
  }

  /** Balances of the EVM state are 256-bit numbers that wrap around. */
  function Wrap(x: int): int {
    x % TWO_256
  }

  function Mirrored(m: map<Address, int>, from: Address, to: Address, amount: int): map<Address, int> {
    var taken := m[from := Wrap(At(m, from) - amount)];
    taken[to := Wrap(At(taken, to) + amount)]
  }

  /** Moves the coins and, for the coin of the EVM, the mirrored balances. */
  function Sent(t: Token, s: State, env: Env, from: Address, to: Address, amount: int): Option<State> {
    if !env.sendAllowed || At(s.bank, from) < amount || (t.native && t.factor * amount >= TWO_256) then None
    else Some(State(Move(s.bank, from, to, amount),
                    if t.native then Mirrored(s.mirror, from, to, t.factor * amount) else s.mirror,
                    s.allowances,
                    s.logs + [TransferLog(from, to, amount)]))
  }

  function Transferred(t: Token, s: State, env: Env, from: Address, to: Address, amount: int): Option<State> {
    if amount <= 0 then None else Sent(t, s, env, from, to, amount)
  }

  function TransferredFrom(t: Token, s: State, env: Env, caller: Address, from: Address, to: Address, amount: int)
    : Option<State>
  {
    var left := Allowance(s.allowances, from, caller) - amount;
    if amount <= 0 || left < 0 then None
    else
      var a := Stored(s.allowances, env, from, caller, left);
      if a.None? then None
      else
        var sent := Sent(t, s.(allowances := a.value), env, from, to, amount);
        if sent.None? then None
        else Some(sent.value.(logs := sent.value.logs + [ApprovalLog(from, caller, 0)]))
  }

  function Called(t: Token, s: State, env: Env, call: Call): Option<State> {
    match call
    case Approve(owner, spender, amount) => Approved(s, env, owner, spender, amount)
    case Transfer(from, to, amount) => Transferred(t, s, env, from, to, amount)
    case TransferFrom(caller, from, to, amount) => TransferredFrom(t, s, env, caller, from, to, amount)
  }

  /** A failed call is reverted. */
  function Step(t: Token, s: State, env: Env, call: Call): State {
    var next := Called(t, s, env, call);
    if next.None? then s else next.value
  }

  // ---------------------------------------------------------------------------------------
  // The precompile, updating the state in place
  // ---------------------------------------------------------------------------------------

  class Precompile {
    var bank: map<Address, int>
    var mirror: map<Address, int>
    var allowances: Allowances
    var logs: seq<Log>
    const token: Token

    function Contents(): State
      reads this
    {
      State(bank, mirror, allowances, logs)
    }

    constructor (token: Token, bank: map<Address, int>, mirror: map<Address, int>)
      ensures Contents() == State(bank, mirror, map[], []) && this.token == token
    {
      this.token := token;
      this.bank, this.mirror, allowances, logs := bank, mirror, map[], [];
    }

    method SetAllowance(env: Env, owner: Address, spender: Address, value: int) returns (ok: bool)
      modifies this`allowances
      ensures ok == Stored(old(allowances), env, owner, spender, value).Some?
      ensures allowances == if ok then Stored(old(allowances), env, owner, spender, value).value else old(allowances)
    {
      if !env.pairUsable || owner == ZERO_ADDRESS || spender == ZERO_ADDRESS {
        return false;
      }
      if value < 0 || value >= TWO_256 {
        return false;
      }
      if value == 0 {
        allowances := allowances - {(owner, spender)};
      } else {
        allowances := allowances[(owner, spender) := value];
      }
      return true;
    }

    /** The five cases of an approval. */
    method ApproveCall(env: Env, owner: Address, spender: Address, amount: int) returns (ok: bool)
      modifies this
      ensures ok == Approved(old(Contents()), env, owner, spender, amount).Some?
      ensures ok ==> Some(Contents()) == Approved(old(Contents()), env, owner, spender, amount)
    {
      var current := Allowance(allowances, owner, spender);
      ok := true;
      if current == 0 && amount < 0 {
        ok := false;
      } else if current == 0 && amount > 0 {
        ok := SetAllowance(env, owner, spender, amount);
      } else if current > 0 && amount <= 0 {
        ok := SetAllowance(env, owner, spender, 0);
      } else if current > 0 {
        ok := SetAllowance(env, owner, spender, amount);
      }
      if ok {
        logs := logs + [ApprovalLog(owner, spender, amount)];
      }
    }

    /** Shared by `transfer`, where the caller is the sender, and `transferFrom`. */
    method TransferCall(env: Env, isTransferFrom: bool, caller: Address, from: Address, to: Address, amount: int)
      returns (ok: bool)
      modifies this
      ensures var after := if isTransferFrom then TransferredFrom(token, old(Contents()), env, caller, from, to, amount)
                           else Transferred(token, old(Contents()), env, from, to, amount);
              ok == after.Some? && (ok ==> Contents() == after.value)
    {
      if amount <= 0 {
        return false;
      }
      var newAllowance := 0;
      if isTransferFrom {
        // The inner variable shadows the outer one, which stays zero.
        var newAllowance := Allowance(allowances, from, caller) - amount;
        if newAllowance < 0 {
          return false;
        }
        ok := SetAllowance(env, from, caller, newAllowance);
        if !ok {
          return false;
        }
      }
      ok := Send(env, from, to, amount);
      if ok && isTransferFrom {
        logs := logs + [ApprovalLog(from, caller, newAllowance)];
      }
    }

    /** The bank transfer, the mirrored balances and the transfer event. */
    method Send(env: Env, from: Address, to: Address, amount: int) returns (ok: bool)
      modifies this
      ensures ok == Sent(token, old(Contents()), env, from, to, amount).Some?
      ensures ok ==> Some(Contents()) == Sent(token, old(Contents()), env, from, to, amount)
    {
      if !env.sendAllowed || At(bank, from) < amount {
        return false;
      }
      bank := Move(bank, from, to, amount);
      if token.native {
        var converted := token.factor * amount;
        if converted >= TWO_256 {
          return false;
        }
        mirror := mirror[from := Wrap(At(mirror, from) - converted)];
        mirror := mirror[to := Wrap(At(mirror, to) + converted)];
      }
      logs := logs + [TransferLog(from, to, amount)];
      return true;
    }

    /** Runs a call and takes back its effects when it fails. */
    method Run(env: Env, call: Call) returns (ok: bool)
      modifies this
      ensures Contents() == Step(token, old(Contents()), env, call)
      ensures ok == Called(token, old(Contents()), env, call).Some?
    {
      var before := Contents();
      match call {
        case Approve(owner, spender, amount) =>
          ok := ApproveCall(env, owner, spender, amount);
        case Transfer(from, to, amount) =>
          ok := TransferCall(env, false, from, from, to, amount);
        case TransferFrom(caller, from, to, amount) =>
          ok := TransferCall(env, true, caller, from, to, amount);
      }
      if !ok {
        bank, mirror, allowances, logs := before.bank, before.mirror, before.allowances, before.logs;
      }
    }
  }

  // ---------------------------------------------------------------------------------------
  // Runs
  // ---------------------------------------------------------------------------------------

  datatype Event = Event(env: Env, call: Call)

  function After(t: Token, s: State, run: seq<Event>): State
    decreases |run|
  {
    if run == [] then s
    else
      var last := run[|run| - 1];
      Step(t, After(t, s, run[..|run| - 1]), last.env, last.call)
  }

  /** Stored allowances are positive 256-bit numbers. */
  predicate Sound(a: Allowances) {
    forall k | k in a :: 0 < a[k] < TWO_256
  }

  predicate Solvent(bank: map<Address, int>) {
    forall k | k in bank :: bank[k] >= 0
  }

  /** Every run keeps the supply, the positive allowances and the solvency of all accounts. */
  lemma {:induction false} RunKeeps(t: Token, s: State, run: seq<Event>)
    requires Sound(s.allowances) && Solvent(s.bank)
    ensures var r := After(t, s, run);
            Total(r.bank) == Total(s.bank) && Sound(r.allowances) && Solvent(r.bank)
    decreases |run|
  {
    if run != [] {
      var last := run[|run| - 1];
      RunKeeps(t, s, run[..|run| - 1]);
      StepKeeps(t, After(t, s, run[..|run| - 1]), last.env, last.call);
    }
  }

  lemma StepKeeps(t: Token, s: State, env: Env, call: Call)
    requires Sound(s.allowances) && Solvent(s.bank)
    ensures var r := Step(t, s, env, call);
            Total(r.bank) == Total(s.bank) && Sound(r.allowances) && Solvent(r.bank)
  {
    match call
    case Approve(_, _, _) =>
    case Transfer(from, to, amount) => MoveTotal(s.bank, from, to, amount);
    case TransferFrom(_, from, to, amount) => MoveTotal(s.bank, from, to, amount);
  }

  /** What a call adds to the balance of an account; nothing if it fails. */
  function Flow(t: Token, s: State, e: Event, account: Address): int {
    if e.call.Approve? || Called(t, s, e.env, e.call).None? then 0
    else (if e.call.to == account then e.call.amount else 0) - (if e.call.from == account then e.call.amount else 0)
  }

  function NetFlow(t: Token, s: State, run: seq<Event>, account: Address): int
    decreases |run|
  {
    if run == [] then 0
    else
      var n := |run| - 1;
      NetFlow(t, s, run[..n], account) + Flow(t, After(t, s, run[..n]), run[n], account)
  }

  /** Balances change by exactly what successful transfers move in and out. */
  lemma {:induction false} BalanceAccounts(t: Token, s: State, run: seq<Event>, account: Address)
    ensures At(After(t, s, run).bank, account) == At(s.bank, account) + NetFlow(t, s, run, account)
    decreases |run|
  {
    if run != [] {
      var n := |run| - 1;
      BalanceAccounts(t, s, run[..n], account);
      FlowStep(t, After(t, s, run[..n]), run[n], account);
    }
  }

  lemma FlowStep(t: Token, s: State, e: Event, account: Address)
    ensures At(Step(t, s, e.env, e.call).bank, account) == At(s.bank, account) + Flow(t, s, e, account)
  {
    if !e.call.Approve? {
      MoveAt(s.bank, e.call.from, e.call.to, e.call.amount, account);
    }
  }

  // ---------------------------------------------------------------------------------------
  // Allowances
  // ---------------------------------------------------------------------------------------

  /** The call succeeds as an approval of the spender by the owner. */
  predicate Approves(t: Token, s: State, e: Event, owner: Address, spender: Address) {
    e.call.Approve? && e.call.owner == owner && e.call.spender == spender && Called(t, s, e.env, e.call).Some?
  }

  /** The call succeeds in spending from the allowance. */
  predicate Spends(t: Token, s: State, e: Event, owner: Address, spender: Address) {
    e.call.TransferFrom? && e.call.from == owner && e.call.caller == spender && Called(t, s, e.env, e.call).Some?
  }

  /** The amount last approved in the run, or else the allowance at its start. */
  function LastApproved(t: Token, s: State, run: seq<Event>, owner: Address, spender: Address): int
    decreases |run|
  {
    if run == [] then Allowance(s.allowances, owner, spender)
    else
      var n := |run| - 1;
      if Approves(t, After(t, s, run[..n]), run[n], owner, spender) then
        if run[n].call.amount < 0 then 0 else run[n].call.amount
      else LastApproved(t, s, run[..n], owner, spender)
  }

  /** What `transferFrom` has moved since the last approval. */
  function SpentSince(t: Token, s: State, run: seq<Event>, owner: Address, spender: Address): int
    decreases |run|
  {
    if run == [] then 0
    else
      var n := |run| - 1;
      var before := After(t, s, run[..n]);
      if Approves(t, before, run[n], owner, spender) then 0
      else
        SpentSince(t, s, run[..n], owner, spender) +
        if Spends(t, before, run[n], owner, spender) then run[n].call.amount else 0
  }

  /** What is left and what has been spent add up to what was last approved. */
  lemma {:induction false} AllowanceAccounts(t: Token, s: State, run: seq<Event>, owner: Address, spender: Address)
    requires Sound(s.allowances) && Solvent(s.bank)
    ensures Allowance(After(t, s, run).allowances, owner, spender) + SpentSince(t, s, run, owner, spender) ==
            LastApproved(t, s, run, owner, spender)
    decreases |run|
  {
    if run != [] {
      var n := |run| - 1;
      AllowanceAccounts(t, s, run[..n], owner, spender);
      RunKeeps(t, s, run[..n]);
      AllowanceStep(t, After(t, s, run[..n]), run[n], owner, spender);
    }
  }

  /** Approvals set the allowance, spending lowers it, and nothing else touches it. */
  lemma AllowanceStep(t: Token, s: State, e: Event, owner: Address, spender: Address)
    requires Sound(s.allowances)
    ensures var before, after := Allowance(s.allowances, owner, spender),
                                 Allowance(Step(t, s, e.env, e.call).allowances, owner, spender);
            after == if Approves(t, s, e, owner, spender) then
                       (if e.call.amount < 0 then 0 else e.call.amount)
                     else if Spends(t, s, e, owner, spender) then before - e.call.amount
                     else before
  {
  }

  /** So a spender never moves more than was last approved. */
  lemma NeverOverspent(t: Token, s: State, run: seq<Event>, owner: Address, spender: Address)
    requires Sound(s.allowances) && Solvent(s.bank)
    ensures SpentSince(t, s, run, owner, spender) <= LastApproved(t, s, run, owner, spender)
  {
    AllowanceAccounts(t, s, run, owner, spender);
    RunKeeps(t, s, run);
  }

  // ---------------------------------------------------------------------------------------
  // The mirror
  // ---------------------------------------------------------------------------------------

  /** How far the mirrored balance of an account is from its converted bank balance. */
  function Drift(t: Token, s: State, account: Address): int {
    Wrap(At(s.mirror, account) - t.factor * At(s.bank, account))
  }

  /** For the coin of the EVM the mirror moves with the bank; for other tokens it does not move. */
  lemma {:induction false} MirrorFollows(t: Token, s: State, run: seq<Event>, account: Address)
    ensures t.native ==> Drift(t, After(t, s, run), account) == Drift(t, s, account)
    ensures !t.native ==> After(t, s, run).mirror == s.mirror
    decreases |run|
  {
    if run != [] {
      var n := |run| - 1;
      MirrorFollows(t, s, run[..n], account);
      DriftStep(t, After(t, s, run[..n]), run[n].env, run[n].call, account);
    }
  }

  lemma DriftStep(t: Token, s: State, env: Env, call: Call, account: Address)
    ensures t.native ==> Drift(t, Step(t, s, env, call), account) == Drift(t, s, account)
    ensures !t.native ==> Step(t, s, env, call).mirror == s.mirror
  {
    if t.native && call.Transfer? {
      SentDrift(t, s.bank, s.mirror, call.from, call.to, call.amount, account);
    }
    if t.native && call.TransferFrom? {
      SentDrift(t, s.bank, s.mirror, call.from, call.to, call.amount, account);
    }
  }

  lemma SentDrift(t: Token, bank: map<Address, int>, mirror: map<Address, int>, from: Address, to: Address,
                  amount: int, account: Address)
    ensures Wrap(At(Mirrored(mirror, from, to, t.factor * amount), account) -
                 t.factor * At(Move(bank, from, to, amount), account)) ==
            Wrap(At(mirror, account) - t.factor * At(bank, account))
  {
    MoveAt(bank, from, to, amount, account);
    var x, b := At(mirror, account), At(bank, account);
    FactorDistributes(t.factor, b, amount);
    DriftKept(x, t.factor * b, t.factor * amount);
  }

  lemma FactorDistributes(f: nat, b: int, amount: int)
    ensures f * (b - amount) == f * b - f * amount
    ensures f * (b + amount) == f * b + f * amount
    ensures f * (b - amount + amount) == f * b
  {
  }

  lemma DriftKept(x: int, y: int, c: int)
    ensures Wrap(Wrap(x - c) - (y - c)) == Wrap(x - y)
    ensures Wrap(Wrap(x + c) - (y + c)) == Wrap(x - y)
    ensures Wrap(Wrap(Wrap(x - c) + c) - y) == Wrap(x - y)
  {
    WrapStep(x - c, y - c);
    WrapStep(x + c, y + c);
    WrapStep(Wrap(x - c) + c, y);
    WrapStep(x - c, y - c);
  }

  /** Wrapping early does not matter. */
  lemma WrapStep(x: int, y: int)
    ensures Wrap(Wrap(x) - y) == Wrap(x - y)
  {
    var q := x / TWO_256;
    assert x - y == (Wrap(x) - y) + q * TWO_256;
    ModShift(Wrap(x) - y, q);
  }

  lemma ModShift(a: int, q: int)
    ensures (a + q * TWO_256) % TWO_256 == a % TWO_256
  {
  }

  // ---------------------------------------------------------------------------------------
  // Events and refusals
  // ---------------------------------------------------------------------------------------

  /** The event of a `transferFrom` states the stored allowance exactly when that has become zero. */
  lemma ApprovalEvent(t: Token, s: State, env: Env, caller: Address, from: Address, to: Address, amount: int)
    requires Sound(s.allowances)
    requires TransferredFrom(t, s, env, caller, from, to, amount).Some?
    ensures var after := TransferredFrom(t, s, env, caller, from, to, amount).value;
            && after.logs == s.logs + [TransferLog(from, to, amount), ApprovalLog(from, caller, 0)]
            && (Allowance(after.allowances, from, caller) == 0 <==> Allowance(s.allowances, from, caller) == amount)
  {
  }

  /**
   * An approval fails exactly when there is no allowance and the amount is negative, or when the store
   * has to change but the pair is unusable, an address is zero or the amount does not fit 256 bits.
   * Otherwise the allowance becomes the amount, or nothing if that is negative; the event states the
   * amount as given; and nothing else changes.
   */
  lemma ApproveSucceeds(s: State, env: Env, owner: Address, spender: Address, amount: int)
    requires Sound(s.allowances)
    ensures var current := Allowance(s.allowances, owner, spender);
            Approved(s, env, owner, spender, amount).None? <==>
            || (current == 0 && amount < 0)
            || ((current > 0 || amount > 0) &&
                (!env.pairUsable || owner == ZERO_ADDRESS || spender == ZERO_ADDRESS || amount >= TWO_256))
    ensures Approved(s, env, owner, spender, amount).Some? ==>
              var after := Approved(s, env, owner, spender, amount).value;
              && after.bank == s.bank && after.mirror == s.mirror
              && after.logs == s.logs + [ApprovalLog(owner, spender, amount)]
              && Allowance(after.allowances, owner, spender) == (if amount < 0 then 0 else amount)
              && forall k | k != (owner, spender) :: Allowance(after.allowances, k.0, k.1) == Allowance(s.allowances, k.0, k.1)
  {
    assert Allowance(s.allowances, owner, spender) >= 0;
  }

  /**
   * A transfer moves the coins, leaves the allowances alone and emits one event; the mirrored balances
   * stay 256-bit numbers.
   */
  lemma TransferEffect(t: Token, s: State, env: Env, from: Address, to: Address, amount: int, account: Address)
    requires Transferred(t, s, env, from, to, amount).Some?
    ensures var after := Transferred(t, s, env, from, to, amount).value;
            && after.allowances == s.allowances
            && after.logs == s.logs + [TransferLog(from, to, amount)]
            && At(after.bank, account) == At(s.bank, account) -
                 (if account == from then amount else 0) + (if account == to then amount else 0)
            && (t.native && account in {from, to} ==> 0 <= At(after.mirror, account) < TWO_256)
  {
    MoveAt(s.bank, from, to, amount, account);
  }

  /** When a `transferFrom` succeeds. In particular a zero amount is refused. */
  lemma TransferFromSucceeds(t: Token, s: State, env: Env, caller: Address, from: Address, to: Address, amount: int)
    requires Sound(s.allowances)
    ensures TransferredFrom(t, s, env, caller, from, to, amount).Some? <==>
            && 0 < amount <= Allowance(s.allowances, from, caller)
            && amount <= At(s.bank, from)
            && env.pairUsable && env.sendAllowed && from != ZERO_ADDRESS && caller != ZERO_ADDRESS
            && (t.native ==> t.factor * amount < TWO_256)
  {
  }

  /** When a `transfer` succeeds. In particular a zero amount is refused. */
  lemma TransferSucceeds(t: Token, s: State, env: Env, from: Address, to: Address, amount: int)
    ensures Transferred(t, s, env, from, to, amount).Some? <==>
            && 0 < amount <= At(s.bank, from) && env.sendAllowed
            && (t.native ==> t.factor * amount < TWO_256)
  {
  }

  /** A spender with an allowance of 5 moves 2: the event says that nothing is left, the store has 3. */
  lemma ApprovalEventDiffers()
    ensures var s := State(map["owner" := 10], map[], map[("owner", "spender") := 5], []);
            var r := TransferredFrom(Token(false, 1), s, Env(true, true), "spender", "owner", "payee", 2);
            && r.Some?
            && r.value.logs == [TransferLog("owner", "payee", 2), ApprovalLog("owner", "spender", 0)]
            && Allowance(r.value.allowances, "owner", "spender") == 3
  {
    var s := State(map["owner" := 10], map[], map[("owner", "spender") := 5], []);
    TransferFromSucceeds(Token(false, 1), s, Env(true, true), "spender", "owner", "payee", 2);
    ApprovalEvent(Token(false, 1), s, Env(true, true), "spender", "owner", "payee", 2);
  }

  /** An account with 10 coins cannot transfer zero, nor use `transferFrom` on itself without an allowance. */
  lemma RefusedTransfers()
    ensures var s := State(map["owner" := 10], map[], map[], []);
            && Transferred(Token(false, 1), s, Env(true, true), "owner", "payee", 0).None?
            && TransferredFrom(Token(false, 1), s, Env(true, true), "owner", "owner", "payee", 0).None?
            && TransferredFrom(Token(false, 1), s, Env(true, true), "owner", "owner", "payee", 2).None?
  {
  }
}
