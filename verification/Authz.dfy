/**
 * The authorization limiter (`ante/cosmos/authz.go`): which forests of nested messages a
 * transaction may hold.
 */
module Authz {
  import opened Options

  /** Authorization messages whose content cannot be unpacked are told apart. */
  datatype Msg =
    | Exec(nested: seq<Msg>)
    | UnreadableExec
    | Grant(url: string)
    | UnreadableGrant
    | Other(typeUrl: string)

  const MAX_NESTED := 7

  method IsDisabledMsg(disabled: seq<string>, url: string) returns (found: bool)
    ensures found <==> url in disabled
  {
    for i := 0 to |disabled|
      invariant url !in disabled[..i]
    {
      if url == disabled[i] {
        return true;
      }
    }
    return false;
  }

  predicate Accepts(disabled: seq<string>, msgs: seq<Msg>, inner: bool, level: int) {
    level < MAX_NESTED && AcceptsList(disabled, msgs, inner, level)
  }

  /** The loop of the check; the level grows with every `MsgExec` that has been passed. */
  predicate AcceptsList(disabled: seq<string>, msgs: seq<Msg>, inner: bool, level: int)
    decreases msgs, 0
  {
    msgs == [] ||
    (AcceptsHead(disabled, msgs[0], inner, level) &&
     AcceptsList(disabled, msgs[1..], inner, level + (if msgs[0].Exec? then 1 else 0)))
  }

  predicate AcceptsHead(disabled: seq<string>, msg: Msg, inner: bool, level: int)
    decreases msg, 0
  {
    match msg
    case Exec(nested) => level + 1 < MAX_NESTED && AcceptsList(disabled, nested, true, level + 1)
    case Grant(url) => url !in disabled
    case Other(url) => !(inner && url in disabled)
    case _ => false
  }

  method CheckDisabledMsgs(disabled: seq<string>, msgs: seq<Msg>, inner: bool, level: int) returns (ok: bool)
    ensures ok == Accepts(disabled, msgs, inner, level)
    decreases msgs
  {
    if level >= MAX_NESTED {
      return false;
    }
    var nested := level;
    for i := 0 to |msgs|
      invariant AcceptsList(disabled, msgs, inner, level) == AcceptsList(disabled, msgs[i..], inner, nested)
    {
      assert msgs[i..][1..] == msgs[i + 1..];
      match msgs[i] {
        case Exec(content) =>
          nested := nested + 1;
          var accepted := CheckDisabledMsgs(disabled, content, true, nested);
          if !accepted {
            return false;
          }
        case Grant(url) =>
          var bad := IsDisabledMsg(disabled, url);
          if bad {
            return false;
          }
        case Other(url) =>
          var bad := IsDisabledMsg(disabled, url);
          if inner && bad {
            return false;
          }
        case _ =>
          return false;
      }
    }
    return true;
  }

  // ---------------------------------------------------------------------------------------
  // Positions in the forest
  // ---------------------------------------------------------------------------------------

  /** The message reached by following the indices into nested `MsgExec`s. */
  function MsgAt(msgs: seq<Msg>, path: seq<nat>): Option<Msg>
    decreases |path|
  {
    if path == [] || path[0] >= |msgs| then None
    else if |path| == 1 then Some(msgs[path[0]])
    else
      match msgs[path[0]]
      case Exec(nested) => MsgAt(nested, path[1..])
      case _ => None
  }

  /** How many of the first `n` messages are `MsgExec`s. */
  function ExecsBefore(msgs: seq<Msg>, n: nat): nat
    requires n <= |msgs|
  {
    if n == 0 then 0 else (if msgs[0].Exec? then 1 else 0) + ExecsBefore(msgs[1..], n - 1)
  }

  /** The sum, along the chain to a message, of one plus the earlier `MsgExec` siblings. */
  function Weight(msgs: seq<Msg>, path: seq<nat>): nat
    requires MsgAt(msgs, path).Some?
    decreases |path|
  {
    1 + ExecsBefore(msgs, path[0]) +
    if |path| == 1 then 0 else Weight(msgs[path[0]].nested, path[1..])
  }

  /** What is demanded of the message at a position of a list that is checked at the given level. */
  predicate AllowedFrom(disabled: seq<string>, msgs: seq<Msg>, path: seq<nat>, inner: bool, level: int)
    requires MsgAt(msgs, path).Some?
  {
    match MsgAt(msgs, path).value
    case Exec(_) => level + Weight(msgs, path) < MAX_NESTED
    case Grant(url) => url !in disabled
    case Other(url) => (|path| == 1 && !inner) || url !in disabled
    case _ => false
  }

  /** What is demanded of the message at a position of the transaction. */
  predicate Allowed(disabled: seq<string>, msgs: seq<Msg>, path: seq<nat>)
    requires MsgAt(msgs, path).Some?
  {
    match MsgAt(msgs, path).value
    case Exec(_) => Weight(msgs, path) <= 5
    case Grant(url) => url !in disabled
    case Other(url) => |path| == 1 || url !in disabled
    case _ => false
  }

  /** The check accepts a transaction exactly when every message in it, at any depth, is allowed. */
  lemma AcceptsExactly(disabled: seq<string>, msgs: seq<Msg>)
    ensures Accepts(disabled, msgs, false, 1) <==>
            forall path | MsgAt(msgs, path).Some? :: Allowed(disabled, msgs, path)
  {
    if Accepts(disabled, msgs, false, 1) {
      forall path | MsgAt(msgs, path).Some?
        ensures Allowed(disabled, msgs, path)
      {
        AcceptedIsAllowed(disabled, msgs, false, 1, path);
      }
    } else {
      var path := FirstRefused(disabled, msgs, false, 1);
      assert !Allowed(disabled, msgs, path);
    }
  }

  lemma {:induction false} AcceptedIsAllowed(disabled: seq<string>, msgs: seq<Msg>, inner: bool, level: int,
                                             path: seq<nat>)
    requires AcceptsList(disabled, msgs, inner, level) && MsgAt(msgs, path).Some?
    ensures AllowedFrom(disabled, msgs, path, inner, level)
    decreases |path|
  {
    var i := path[0];
    AcceptsDrop(disabled, msgs, inner, level, i);
    if |path| > 1 {
      var nested := msgs[i].nested;
      AcceptedIsAllowed(disabled, nested, true, level + ExecsBefore(msgs, i) + 1, path[1..]);
    }
  }

  /** Message `i` is checked at the level raised by the `MsgExec`s before it. */
  lemma {:induction false} AcceptsDrop(disabled: seq<string>, msgs: seq<Msg>, inner: bool, level: int, i: nat)
    requires AcceptsList(disabled, msgs, inner, level) && i < |msgs|
    ensures AcceptsHead(disabled, msgs[i], inner, level + ExecsBefore(msgs, i))
    decreases i
  {
    if i > 0 {
      AcceptsDrop(disabled, msgs[1..], inner, level + (if msgs[0].Exec? then 1 else 0), i - 1);
    }
  }

  /** A refused list has a message that is not allowed. */
  lemma {:induction false} FirstRefused(disabled: seq<string>, msgs: seq<Msg>, inner: bool, level: int)
    returns (path: seq<nat>)
    requires !AcceptsList(disabled, msgs, inner, level)
    ensures MsgAt(msgs, path).Some? && !AllowedFrom(disabled, msgs, path, inner, level)
    decreases msgs
  {
    var head := msgs[0];
    if AcceptsHead(disabled, head, inner, level) {
      var next := level + (if head.Exec? then 1 else 0);
      var later := FirstRefused(disabled, msgs[1..], inner, next);
      path := [later[0] + 1] + later[1..];
      Shifted(msgs, later, path);
    } else if head.Exec? && level + 1 < MAX_NESTED {
      var below := FirstRefused(disabled, head.nested, true, level + 1);
      path := [0] + below;
      assert path[1..] == below;
    } else {
      path := [0];
    }
  }

  lemma Shifted(msgs: seq<Msg>, later: seq<nat>, path: seq<nat>)
    requires msgs != [] && MsgAt(msgs[1..], later).Some? && path == [later[0] + 1] + later[1..]
    ensures MsgAt(msgs, path) == MsgAt(msgs[1..], later)
    ensures Weight(msgs, path) == Weight(msgs[1..], later) + (if msgs[0].Exec? then 1 else 0)
  {
    assert path[1..] == later[1..];
    assert msgs[path[0]] == msgs[1..][later[0]];
  }

  // ---------------------------------------------------------------------------------------
  // Consequences
  // ---------------------------------------------------------------------------------------

  /** The decorator before it: no message of the given type on the top level. */
  method RejectMessages(msgs: seq<Msg>, ethereumTx: string) returns (ok: bool)
    ensures ok <==> Other(ethereumTx) !in msgs
  {
    for i := 0 to |msgs|
      invariant Other(ethereumTx) !in msgs[..i]
    {
      if msgs[i] == Other(ethereumTx) {
        return false;
      }
    }
    return true;
  }

  /** What passes both decorators holds no Ethereum transaction at any depth. */
  lemma NoEthereumTxInside(disabled: seq<string>, msgs: seq<Msg>, ethereumTx: string, path: seq<nat>)
    requires Other(ethereumTx) !in msgs && ethereumTx in disabled
    requires Accepts(disabled, msgs, false, 1) && MsgAt(msgs, path).Some?
    ensures MsgAt(msgs, path) != Some(Other(ethereumTx))
  {
    AcceptsExactly(disabled, msgs);
    assert Allowed(disabled, msgs, path);
  }

  lemma {:induction false} WeightAtLeast(msgs: seq<Msg>, path: seq<nat>)
    requires MsgAt(msgs, path).Some?
    ensures Weight(msgs, path) >= |path|
    decreases |path|
  {
    if |path| > 1 {
      WeightAtLeast(msgs[path[0]].nested, path[1..]);
    }
  }

  /** Accepted transactions nest `MsgExec`s at most five deep. */
  lemma DepthBound(disabled: seq<string>, msgs: seq<Msg>, path: seq<nat>)
    requires Accepts(disabled, msgs, false, 1) && MsgAt(msgs, path).Some? && MsgAt(msgs, path).value.Exec?
    ensures |path| <= 5
  {
    AcceptsExactly(disabled, msgs);
    assert Allowed(disabled, msgs, path);
    WeightAtLeast(msgs, path);
  }

  /** The list of messages at a path: that of the transaction, or that of a `MsgExec`. */
  function ListAt(msgs: seq<Msg>, path: seq<nat>): Option<seq<Msg>> {
    if path == [] then Some(msgs)
    else
      match MsgAt(msgs, path)
      case Some(Exec(nested)) => Some(nested)
      case _ => None
  }

  /** What the chain to a list has used up of the limit. */
  function Used(msgs: seq<Msg>, path: seq<nat>): nat
    requires ListAt(msgs, path).Some?
  {
    if path == [] then 0 else Weight(msgs, path)
  }

  /**
   * The limit also counts siblings: no list of an accepted transaction, at any depth, holds more
   * `MsgExec`s than the chain to it has left of the limit of five.
   */
  lemma SiblingBound(disabled: seq<string>, msgs: seq<Msg>, path: seq<nat>)
    requires Accepts(disabled, msgs, false, 1) && ListAt(msgs, path).Some?
    ensures Used(msgs, path) + ExecsBefore(ListAt(msgs, path).value, |ListAt(msgs, path).value|) <= 5
  {
    AcceptsExactly(disabled, msgs);
    var list := ListAt(msgs, path).value;
    if ExecsBefore(list, |list|) > 0 {
      var i := LastExec(list);
      OneFurther(msgs, path, i);
      assert Allowed(disabled, msgs, path + [i]);
    } else if path != [] {
      assert Allowed(disabled, msgs, path);
    }
  }

  lemma {:induction false} OneFurther(msgs: seq<Msg>, path: seq<nat>, i: nat)
    requires ListAt(msgs, path).Some? && i < |ListAt(msgs, path).value|
    ensures MsgAt(msgs, path + [i]) == Some(ListAt(msgs, path).value[i])
    ensures Weight(msgs, path + [i]) == Used(msgs, path) + 1 + ExecsBefore(ListAt(msgs, path).value, i)
    decreases |path|
  {
    var longer := path + [i];
    if path != [] {
      assert longer[0] == path[0] && longer[1..] == path[1..] + [i];
      OneFurther(msgs[path[0]].nested, path[1..], i);
    }
  }

  /** Six empty `MsgExec`s side by side are refused, although none is nested. */
  lemma SixSiblingsRefused()
    ensures !Accepts([], [Exec([]), Exec([]), Exec([]), Exec([]), Exec([]), Exec([])], false, 1)
  {
    var e := Exec([]);
    var msgs := [e, e, e, e, e, e];
    AllExecs(msgs, 6);
    if Accepts([], msgs, false, 1) {
      SiblingBound([], msgs, []);
    }
  }

  lemma {:induction false} AllExecs(msgs: seq<Msg>, n: nat)
    requires n <= |msgs| && forall m | m in msgs :: m.Exec?
    ensures ExecsBefore(msgs, n) == n
  {
    if n > 0 {
      AllExecs(msgs[1..], n - 1);
    }
  }

  lemma {:induction false} LastExec(msgs: seq<Msg>) returns (i: nat)
    requires ExecsBefore(msgs, |msgs|) > 0
    ensures i < |msgs| && msgs[i].Exec? && ExecsBefore(msgs, i) + 1 == ExecsBefore(msgs, |msgs|)
  {
    if ExecsBefore(msgs[1..], |msgs| - 1) == 0 {
      i := 0;
    } else {
      var j := LastExec(msgs[1..]);
      i := j + 1;
    }
  }
}
