/**
 * Denomination traces of ICS-20 transfers (`ibc/utils.go`): how the trace of a token changes when
 * a packet is received, and what that means along any route through a network of channels.
 */
module IbcDenom {

  datatype Hop = Hop(port: string, channel: string)

  /** A denomination: its base name and the channel ends it came through, the latest first. */
  datatype Denom = Denom(base: string, trace: seq<Hop>)

  datatype Token = Token(denom: Denom, amount: int)

  datatype Packet = Packet(source: Hop, destination: Hop)

  predicate HasPrefix(denom: Denom, hop: Hop) {
    denom.trace != [] && denom.trace[0] == hop
  }

  /** The token as seen by the receiving chain. */
  function GetReceivedCoin(packet: Packet, token: Token): (r: Token)
    ensures r.amount == token.amount && r.denom.base == token.denom.base
  {
    var trace := token.denom.trace;
    if HasPrefix(token.denom, packet.source) then token.(denom := token.denom.(trace := trace[1..]))
    else token.(denom := token.denom.(trace := [packet.destination] + trace))
  }

  function Reverse(packet: Packet): Packet {
    Packet(packet.destination, packet.source)
  }

  /**
   * Sending a received token straight back restores it exactly when the trace did not lead in
   * through the source end right after leading out through the destination end.
   */
  lemma ReverseRestores(packet: Packet, token: Token)
    ensures var trace := token.denom.trace;
            GetReceivedCoin(Reverse(packet), GetReceivedCoin(packet, token)) == token <==>
            !(|trace| > 1 && trace[0] == packet.source && trace[1] == packet.destination)
  {
    var trace := token.denom.trace;
    var there := GetReceivedCoin(packet, token);
    if HasPrefix(token.denom, packet.source) {
      if HasPrefix(there.denom, packet.destination) {
        assert |GetReceivedCoin(Reverse(packet), there).denom.trace| == |trace| - 2;
      } else {
        assert [packet.source] + trace[1..] == trace;
      }
    } else {
      assert ([packet.destination] + trace)[1..] == trace;
    }
  }

  // ---------------------------------------------------------------------------------------
  // Networks
  // ---------------------------------------------------------------------------------------

  /** One end of a channel. */
  datatype End = End(chain: string, hop: Hop)

  /** Each end and its counterparty. */
  type Network = map<End, End>

  predicate Paired(net: Network) {
    forall e | e in net :: net[e] in net && net[net[e]] == e
  }

  /** A token on a chain. */
  datatype Holding = Holding(chain: string, token: Token)

  predicate CanSend(net: Network, h: Holding, hop: Hop) {
    End(h.chain, hop) in net
  }

  function Send(net: Network, h: Holding, hop: Hop): Holding
    requires CanSend(net, h, hop)
  {
    var to := net[End(h.chain, hop)];
    Holding(to.chain, GetReceivedCoin(Packet(hop, to.hop), h.token))
  }

  /**
   * The trace leads back through channels of the network, and no hop is followed by the
   * counterparty end of the hop before it.
   */
  predicate Traced(net: Network, chain: string, trace: seq<Hop>)
    decreases |trace|
  {
    trace == [] ||
    (End(chain, trace[0]) in net &&
     var back := net[End(chain, trace[0])];
     Traced(net, back.chain, trace[1..]) && (|trace| > 1 ==> trace[1] != back.hop))
  }

  /** The chain that the trace leads back to. */
  function Home(net: Network, chain: string, trace: seq<Hop>): string
    requires Traced(net, chain, trace)
    decreases |trace|
  {
    if trace == [] then chain else Home(net, net[End(chain, trace[0])].chain, trace[1..])
  }

  predicate Genuine(net: Network, h: Holding) {
    Traced(net, h.chain, h.token.denom.trace)
  }

  /** A transfer keeps the trace free of detours and its home chain. */
  lemma SendKeeps(net: Network, h: Holding, hop: Hop)
    requires Paired(net) && Genuine(net, h) && CanSend(net, h, hop)
    ensures var r := Send(net, h, hop);
            && Genuine(net, r)
            && Home(net, r.chain, r.token.denom.trace) == Home(net, h.chain, h.token.denom.trace)
            && r.token.amount == h.token.amount && r.token.denom.base == h.token.denom.base
  {
    var trace := h.token.denom.trace;
    var to := net[End(h.chain, hop)];
    if !HasPrefix(h.token.denom, hop) {
      var longer := [to.hop] + trace;
      assert longer[1..] == trace;
      assert net[End(to.chain, longer[0])] == End(h.chain, hop);
    }
  }

  /** A transfer is undone by the transfer over the same channel in the other direction. */
  lemma SendBack(net: Network, h: Holding, hop: Hop)
    requires Paired(net) && Genuine(net, h) && CanSend(net, h, hop)
    ensures var r := Send(net, h, hop);
            var back := net[End(h.chain, hop)].hop;
            CanSend(net, r, back) && Send(net, r, back) == h
  {
    ReverseRestores(Packet(hop, net[End(h.chain, hop)].hop), h.token);
  }

  // ---------------------------------------------------------------------------------------
  // Routes
  // ---------------------------------------------------------------------------------------

  predicate CanFollow(net: Network, h: Holding, route: seq<Hop>)
    decreases |route|
  {
    route == [] || (CanSend(net, h, route[0]) && CanFollow(net, Send(net, h, route[0]), route[1..]))
  }

  function Follow(net: Network, h: Holding, route: seq<Hop>): Holding
    requires CanFollow(net, h, route)
    decreases |route|
  {
    if route == [] then h else Follow(net, Send(net, h, route[0]), route[1..])
  }

  /** The route back: the counterparty ends in the opposite order. */
  function Reversed(net: Network, h: Holding, route: seq<Hop>): seq<Hop>
    requires CanFollow(net, h, route)
    decreases |route|
  {
    if route == [] then []
    else Reversed(net, Send(net, h, route[0]), route[1..]) + [net[End(h.chain, route[0])].hop]
  }

  /** Along every route, the trace stays free of detours and its home and amount stay the same. */
  lemma {:induction false} RouteKeeps(net: Network, h: Holding, route: seq<Hop>)
    requires Paired(net) && Genuine(net, h) && CanFollow(net, h, route)
    ensures var r := Follow(net, h, route);
            && Genuine(net, r)
            && Home(net, r.chain, r.token.denom.trace) == Home(net, h.chain, h.token.denom.trace)
            && r.token.amount == h.token.amount && r.token.denom.base == h.token.denom.base
    decreases |route|
  {
    if route != [] {
      SendKeeps(net, h, route[0]);
      RouteKeeps(net, Send(net, h, route[0]), route[1..]);
    }
  }

  lemma {:induction false} FollowAppend(net: Network, h: Holding, route: seq<Hop>, hop: Hop)
    requires CanFollow(net, h, route) && CanSend(net, Follow(net, h, route), hop)
    ensures CanFollow(net, h, route + [hop])
    ensures Follow(net, h, route + [hop]) == Send(net, Follow(net, h, route), hop)
    decreases |route|
  {
    if route == [] {
      assert (route + [hop])[1..] == [];
    } else {
      assert (route + [hop])[1..] == route[1..] + [hop];
      FollowAppend(net, Send(net, h, route[0]), route[1..], hop);
    }
  }

  /** Any route followed by its reversal restores chain, trace and amount. */
  lemma {:induction false} RoundTrip(net: Network, h: Holding, route: seq<Hop>)
    requires Paired(net) && Genuine(net, h) && CanFollow(net, h, route)
    ensures var there := Follow(net, h, route);
            var back := Reversed(net, h, route);
            CanFollow(net, there, back) && Follow(net, there, back) == h
    decreases |route|
  {
    if route != [] {
      var next := Send(net, h, route[0]);
      SendKeeps(net, h, route[0]);
      RoundTrip(net, next, route[1..]);
      SendBack(net, h, route[0]);
      FollowAppend(net, Follow(net, next, route[1..]), Reversed(net, next, route[1..]), net[End(h.chain, route[0])].hop);
    }
  }

  /** The trace itself is a route home, where the token is native again. */
  lemma {:induction false} Unwind(net: Network, h: Holding)
    requires Paired(net) && Genuine(net, h)
    ensures var trace := h.token.denom.trace;
            && CanFollow(net, h, trace)
            && Follow(net, h, trace) ==
               Holding(Home(net, h.chain, trace), h.token.(denom := h.token.denom.(trace := [])))
    decreases |h.token.denom.trace|
  {
    var trace := h.token.denom.trace;
    if trace != [] {
      SendKeeps(net, h, trace[0]);
      Unwind(net, Send(net, h, trace[0]));
    }
  }

  /** So a token that starts native on a chain can always be brought back there as the native token. */
  lemma NativeComesHome(net: Network, h: Holding, route: seq<Hop>)
    requires Paired(net) && h.token.denom.trace == [] && CanFollow(net, h, route)
    ensures var there := Follow(net, h, route);
            var trace := there.token.denom.trace;
            CanFollow(net, there, trace) && Follow(net, there, trace) == h
  {
    RouteKeeps(net, h, route);
    Unwind(net, Follow(net, h, route));
  }
}
