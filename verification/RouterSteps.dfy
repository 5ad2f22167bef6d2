/** Proof steps: what single changes of the tables do to the agreement between them. */
module RouterSteps {
  import opened Wrappers
  import opened Ipv4
  import opened AddressDatas
  import opened RoutingTables
  import opened RouterFlows

  // ----- single steps on the tables -----

  function WithAddressFlows(vid: nat, a: Address, flows: FlowTable): FlowTable {
    flows[MacLearningKey(vid, a) := Flow(AddressCookie(vid, a), ToController)]
         [IpHandlingKey(vid, a) := Flow(AddressCookie(vid, a), ToController)]
         [L2Key(vid, a) := Flow(AddressCookie(vid, a), Normal)]
  }

  /** A stored zero-length network and a misfiled route have one key between them, and the entry there
      serves both only while they have one cookie and wait for the gateway. */
  ghost predicate Clash(addrs: map<Net, Address>, routes: map<Net, Route>) {
    && DefaultNet() in addrs && DefaultNet() in routes && routes[DefaultNet()].dstIp.Some?
    && !(routes[DefaultNet()].gatewayMac.None? && routes[DefaultNet()].id * TWO16 == addrs[DefaultNet()].id)
  }

  lemma ServingHasNoClash(vid: nat, addrs: map<Net, Address>, routes: map<Net, Route>, flows: FlowTable)
    requires TablesServe(vid, addrs, routes, flows)
    ensures !Clash(addrs, routes)
  {
    var n := DefaultNet();
    if n in addrs && n in routes && routes[n].dstIp.Some? {
      assert HasAddressFlows(vid, addrs[n], flows) && HasRouteFlow(vid, routes[n], flows);
      assert addrs[n].Key() == n && RouteOk(n, routes[n]);
      assert RouteKey(vid, routes[n]) == MacLearningKey(vid, addrs[n]);
    }
  }

  lemma AddAddressExplained(vid: nat, addrs: map<Net, Address>, routes: map<Net, Route>, flows: FlowTable, a: Address)
    requires ExplainedAbove(vid, addrs, routes, flows) && ForeignOk(vid, flows) && a.Key() !in addrs
    ensures ExplainedAbove(vid, addrs[a.Key() := a], routes, WithAddressFlows(vid, a, flows))
    ensures ForeignOk(vid, WithAddressFlows(vid, a, flows))
  {
    var addrs', flows' := addrs[a.Key() := a], WithAddressFlows(vid, a, flows);
    forall k | k in flows' && Own(vid, k) && k != DefaultKey(vid)
      ensures Explained(vid, addrs', routes, k, flows'[k])
    {
      if k in {MacLearningKey(vid, a), IpHandlingKey(vid, a), L2Key(vid, a)} {
        assert a.Key() in addrs' && IsAddressFlow(vid, addrs'[a.Key()], k, flows'[k]);
      } else {
        assert Explained(vid, addrs, routes, k, flows[k]);
        if m :| m in addrs && IsAddressFlow(vid, addrs[m], k, flows[k]) {
          assert m in addrs' && IsAddressFlow(vid, addrs'[m], k, flows'[k]);
        }
      }
    }
  }

  lemma AddAddressComplete(vid: nat, addrs: map<Net, Address>, routes: map<Net, Route>, flows: FlowTable, a: Address)
    requires AddressesHaveFlows(vid, addrs, flows) && RoutesHaveFlows(vid, routes, flows)
    requires a.Key() !in addrs && AddressesOk(addrs[a.Key() := a]) && !Clash(addrs[a.Key() := a], routes)
    requires RoutesOk(routes)
    ensures AddressesHaveFlows(vid, addrs[a.Key() := a], WithAddressFlows(vid, a, flows))
    ensures RoutesHaveFlows(vid, routes, WithAddressFlows(vid, a, flows))
  {
    var addrs', flows' := addrs[a.Key() := a], WithAddressFlows(vid, a, flows);
    assert a.Key() in addrs' && addrs'[a.Key()] == a;
    forall m | m in addrs'
      ensures HasAddressFlows(vid, addrs'[m], flows')
    {
      if m == a.Key() {
        assert HasAddressFlows(vid, a, flows');
      } else {
        var b := addrs'[m];
        assert b.Key() == m && Contains(m, b.defaultGw) && Contains(a.Key(), a.defaultGw);
        AddressKeysApart(vid, a, b);
        assert HasAddressFlows(vid, addrs[m], flows);
      }
    }
    forall n | n in routes
      ensures HasRouteFlow(vid, routes[n], flows')
    {
      assert HasRouteFlow(vid, routes[n], flows) && RouteOk(n, routes[n]);
      RouteVersusAddress(vid, n, routes[n], a);
      ZeroLengthIsDefaultKey(a.Key());
      MaskIdempotent(a.defaultGw, a.netmask);
    }
  }

  /** Adding an address with its entries goes on serving the tables unless it clashes. */
  lemma AddAddressStep(vid: nat, addrs: map<Net, Address>, routes: map<Net, Route>, flows: FlowTable, a: Address)
    requires TablesServe(vid, addrs, routes, flows)
    requires a.Key() !in addrs && AddressesOk(addrs[a.Key() := a])
    ensures var addrs', flows' := addrs[a.Key() := a], WithAddressFlows(vid, a, flows);
            TablesServe(vid, addrs', routes, flows') <==> !Clash(addrs', routes)
  {
    var addrs', flows' := addrs[a.Key() := a], WithAddressFlows(vid, a, flows);
    if Clash(addrs', routes) {
      if TablesServe(vid, addrs', routes, flows') {
        ServingHasNoClash(vid, addrs', routes, flows');
      }
    } else {
      AddAddressExplained(vid, addrs, routes, flows, a);
      AddAddressComplete(vid, addrs, routes, flows, a);
    }
  }

  lemma AddressBottom(vid: nat, routes: map<Net, Route>, flows: FlowTable, a: Address)
    requires BottomRight(vid, routes, flows)
    ensures BottomRight(vid, routes, WithAddressFlows(vid, a, flows))
  {
  }

  lemma CoveredMonotone(addrs: map<Net, Address>, a: Address, routes: map<Net, Route>)
    requires GatewaysCovered(addrs, routes) && a.Key() !in addrs
    ensures GatewaysCovered(addrs[a.Key() := a], routes)
  {
  }

  lemma RouteCovered(addrs: map<Net, Address>, routes: map<Net, Route>, n: Net, r: Route)
    requires GatewaysCovered(addrs, routes) && Covered(addrs, r.gatewayIp)
    ensures GatewaysCovered(addrs, routes[n := r])
  {
  }

  /** Storing a route under `n` together with its entry goes on serving the tables unless it clashes. A
      route that was stored there leaves its entry behind only at the bottom. */
  lemma SetRouteStep(vid: nat, addrs: map<Net, Address>, routes: map<Net, Route>, flows: FlowTable,
                     n: Net, r: Route, f: Flow)
    requires TablesServe(vid, addrs, routes, flows)
    requires RoutesOk(routes[n := r]) && IsRouteFlow(vid, r, RouteKey(vid, r), f)
    requires n in routes ==> RouteKey(vid, routes[n]) in {RouteKey(vid, r), DefaultKey(vid)}
    ensures var routes', flows' := routes[n := r], flows[RouteKey(vid, r) := f];
            TablesServe(vid, addrs, routes', flows') <==> !Clash(addrs, routes')
  {
    var routes', flows' := routes[n := r], flows[RouteKey(vid, r) := f];
    assert RouteOk(n, routes'[n]);
    if Clash(addrs, routes') {
      if TablesServe(vid, addrs, routes', flows') {
        ServingHasNoClash(vid, addrs, routes', flows');
      }
    } else {
      SetRouteExplained(vid, addrs, routes, flows, n, r, f);
      SetRouteComplete(vid, addrs, routes, flows, n, r, f);
    }
  }

  lemma SetRouteExplained(vid: nat, addrs: map<Net, Address>, routes: map<Net, Route>, flows: FlowTable,
                          n: Net, r: Route, f: Flow)
    requires ExplainedAbove(vid, addrs, routes, flows) && ForeignOk(vid, flows)
    requires IsRouteFlow(vid, r, RouteKey(vid, r), f)
    requires n in routes ==> RouteKey(vid, routes[n]) in {RouteKey(vid, r), DefaultKey(vid)}
    ensures ExplainedAbove(vid, addrs, routes[n := r], flows[RouteKey(vid, r) := f])
    ensures ForeignOk(vid, flows[RouteKey(vid, r) := f])
  {
    var routes', flows' := routes[n := r], flows[RouteKey(vid, r) := f];
    forall k | k in flows' && Own(vid, k) && k != DefaultKey(vid)
      ensures Explained(vid, addrs, routes', k, flows'[k])
    {
      if k == RouteKey(vid, r) {
        assert n in routes' && IsRouteFlow(vid, routes'[n], k, flows'[k]);
      } else {
        assert Explained(vid, addrs, routes, k, flows[k]);
        if m :| m in routes && IsRouteFlow(vid, routes[m], k, flows[k]) {
          assert m in routes' && IsRouteFlow(vid, routes'[m], k, flows'[k]);
        }
      }
    }
  }

  lemma SetRouteComplete(vid: nat, addrs: map<Net, Address>, routes: map<Net, Route>, flows: FlowTable,
                         n: Net, r: Route, f: Flow)
    requires AddressesHaveFlows(vid, addrs, flows) && RoutesHaveFlows(vid, routes, flows)
    requires AddressesOk(addrs) && RoutesOk(routes[n := r]) && !Clash(addrs, routes[n := r])
    requires IsRouteFlow(vid, r, RouteKey(vid, r), f)
    ensures AddressesHaveFlows(vid, addrs, flows[RouteKey(vid, r) := f])
    ensures RoutesHaveFlows(vid, routes[n := r], flows[RouteKey(vid, r) := f])
  {
    var routes', flows' := routes[n := r], flows[RouteKey(vid, r) := f];
    assert RouteOk(n, routes'[n]);
    forall m | m in routes'
      ensures HasRouteFlow(vid, routes'[m], flows')
    {
      if m != n {
        assert RouteOk(m, routes'[m]);
        RouteKeysApart(vid, m, routes[m], n, r);
        assert HasRouteFlow(vid, routes[m], flows);
      }
    }
    forall m | m in addrs
      ensures HasAddressFlows(vid, addrs[m], flows')
    {
      assert HasAddressFlows(vid, addrs[m], flows);
      RouteVersusAddress(vid, n, r, addrs[m]);
      ZeroLengthIsDefaultKey(m);
      MaskIdempotent(addrs[m].defaultGw, m.len);
    }
  }

  /** The bottom entry stays right exactly unless the route is misfiled. */
  lemma SetRouteBottom(vid: nat, routes: map<Net, Route>, flows: FlowTable, n: Net, r: Route, f: Flow)
    requires BottomRight(vid, routes, flows) && RouteOk(n, r)
    ensures BottomRight(vid, routes[n := r], flows[RouteKey(vid, r) := f]) <==>
            !(n == DefaultNet() && r.dstIp.Some?)
  {
  }

  /** What a misfiled route leaves behind is an entry that nothing explains. */
  lemma LeftBehind(vid: nat, addrs: map<Net, Address>, routes: map<Net, Route>, flows: FlowTable)
    requires AddressesOk(addrs) && RoutesOk(routes) && DefaultKey(vid) in flows
    requires DefaultNet() in routes && routes[DefaultNet()].dstIp.Some?
    ensures !AllExplained(vid, addrs, routes, flows)
  {
    var k := DefaultKey(vid);
    forall n | n in routes
      ensures !IsRouteFlow(vid, routes[n], k, flows[k])
    {
      assert RouteOk(n, routes[n]);
      RouteKeysApart(vid, n, routes[n], n, routes[n]);
    }
    assert Own(vid, k) && !Explained(vid, addrs, routes, k, flows[k]);
  }

  /** Entries that are not this VLAN's own are as before, except that a request for id 0 takes away those
      whose cookie has this VLAN and nothing else: on VLAN 0, the ARP and switching entries of the
      enclosing router. */
  ghost predicate ForeignAfter(vid: nat, request: Option<int>, before: FlowTable, after: FlowTable) {
    forall k {:trigger Own(vid, k)} :: !Own(vid, k) ==>
      && (k in after <==> k in before && !(request == Some(0) && CookieToId(VlanId, before[k].cookie) == vid))
      && (k in after ==> after[k] == before[k])
  }

  /** So all of them are kept if and only if the request is not for id 0 or there are none of that kind. */
  lemma ForeignKeptIff(vid: nat, request: Option<int>, before: FlowTable, after: FlowTable)
    requires ForeignAfter(vid, request, before, after)
    ensures (forall k :: k in before && !Own(vid, k) ==> k in after && after[k] == before[k]) <==>
            || request != Some(0)
            || (forall k :: k in before && !Own(vid, k) ==> CookieToId(VlanId, before[k].cookie) != vid)
  {
  }

  // ----- ids -----

  lemma AddressFits(addrs: map<Net, Address>, a: Address)
    requires a.Key() !in addrs && AddressIdsFit(addrs)
    ensures AddressIdsFit(addrs[a.Key() := a]) <==> a.id <= UINT16_MAX && !AddressIdTaken(addrs, a.id)
  {
    NewIdDistinct(addrs, a);
    assert a.Key() in addrs[a.Key() := a];
  }

  lemma RouteFits(routes: map<Net, Route>, n: Net, r: Route)
    requires RouteIdsFit(routes)
    ensures RouteIdsFit(routes[n := r]) <==> r.id <= UINT16_MAX && !RouteIdTaken(routes - {n}, r.id)
  {
    NewRouteIdDistinct(routes, n, r);
    assert n in routes[n := r];
  }

  // ----- learning from ARP -----

  function WithMac(r: Route, mac: Mac): Route {
    r.(gatewayMac := Some(mac))
  }

  /** The routing table after the gateway `ip` has announced `mac`. */
  function Announced(routes: map<Net, Route>, ip: Ip, mac: Mac): map<Net, Route> {
    map n | n in routes :: if routes[n].gatewayIp == ip then WithMac(routes[n], mac) else routes[n]
  }

  /** The same, part-way through the loop: the routes in `todo` are still as before. */
  ghost function PartlyAnnounced(routes: map<Net, Route>, ip: Ip, mac: Mac, todo: set<Net>): map<Net, Route> {
    map n | n in routes :: if routes[n].gatewayIp == ip && n !in todo then WithMac(routes[n], mac) else routes[n]
  }

  ghost function AnnouncedAt(routes: map<Net, Route>, ip: Ip, mac: Mac, k: Net): map<Net, Route>
    requires k in routes
  {
    if routes[k].gatewayIp == ip then routes[k := WithMac(routes[k], mac)] else routes
  }

  ghost predicate GatewaySeen(routes: map<Net, Route>, ip: Ip, todo: set<Net>) {
    exists n :: n in routes && n !in todo && routes[n].gatewayIp == ip
  }

  lemma AnnouncedNext(routes: map<Net, Route>, ip: Ip, mac: Mac, todo: set<Net>, k: Net)
    requires k in todo && todo <= routes.Keys
    ensures PartlyAnnounced(routes, ip, mac, todo - {k})
         == AnnouncedAt(PartlyAnnounced(routes, ip, mac, todo), ip, mac, k)
    ensures GatewaySeen(routes, ip, todo - {k}) <==> GatewaySeen(routes, ip, todo) || routes[k].gatewayIp == ip
    ensures PartlyAnnounced(routes, ip, mac, todo)[k] == routes[k]
  {
  }

  /** `k` is the entry of a route through the gateway `ip` that does not know `mac` yet and was visited. */
  ghost predicate TurnsForward(vid: nat, routes: map<Net, Route>, ip: Ip, mac: Mac, todo: set<Net>, k: FlowKey) {
    exists n :: n in routes && n !in todo && routes[n].gatewayIp == ip && routes[n].gatewayMac != Some(mac)
                && k == RouteKey(vid, routes[n])
  }

  /** The flow table after the gateway `ip` has announced `mac`, but for the routes in `todo`: exactly those
      entries change, and they keep their cookies. */
  ghost function Forwarded(vid: nat, routes: map<Net, Route>, ip: Ip, mac: Mac, todo: set<Net>,
                           flows: FlowTable, action: Action): FlowTable {
    map k | k in flows ::
      if TurnsForward(vid, routes, ip, mac, todo, k) then Flow(flows[k].cookie, action) else flows[k]
  }

  lemma NoneForwarded(vid: nat, routes: map<Net, Route>, ip: Ip, mac: Mac, flows: FlowTable, action: Action)
    ensures Forwarded(vid, routes, ip, mac, routes.Keys, flows, action) == flows
  {
  }

  lemma ForwardedNext(vid: nat, routes: map<Net, Route>, ip: Ip, mac: Mac, todo: set<Net>, n: Net,
                      flows: FlowTable, action: Action)
    requires n in todo && n in routes
    requires RouteKey(vid, routes[n]) in flows && flows[RouteKey(vid, routes[n])].cookie == RouteCookie(vid, routes[n])
    ensures Forwarded(vid, routes, ip, mac, todo - {n}, flows, action) ==
            var f := Forwarded(vid, routes, ip, mac, todo, flows, action);
            if routes[n].gatewayIp == ip && routes[n].gatewayMac != Some(mac)
            then f[RouteKey(vid, routes[n]) := Flow(RouteCookie(vid, routes[n]), action)] else f
  {
  }

  lemma ForwardedAt(vid: nat, routes: map<Net, Route>, ip: Ip, mac: Mac, flows: FlowTable, action: Action, n: Net)
    requires n in routes && routes[n].gatewayIp == ip && routes[n].gatewayMac != Some(mac)
    requires RouteKey(vid, routes[n]) in flows
    ensures var f := Forwarded(vid, routes, ip, mac, {}, flows, action);
            RouteKey(vid, routes[n]) in f && f[RouteKey(vid, routes[n])].action == action
  {
  }

  lemma NotAGateway(vid: nat, routes: map<Net, Route>, ip: Ip, mac: Mac, flows: FlowTable, action: Action)
    requires forall n :: n in routes ==> routes[n].gatewayIp != ip
    ensures Forwarded(vid, routes, ip, mac, {}, flows, action) == flows
  {
  }

  lemma FlowsOfRoutes(vid: nat, addrs: map<Net, Address>, routes: map<Net, Route>, flows: FlowTable)
    requires FlowsServe(vid, addrs, routes, flows)
    ensures RoutesHaveFlows(vid, routes, flows)
  {
  }

  lemma RouteHasFlow(vid: nat, routes: map<Net, Route>, flows: FlowTable, n: Net)
    requires RoutesHaveFlows(vid, routes, flows) && n in routes
    ensures RouteKey(vid, routes[n]) in flows && flows[RouteKey(vid, routes[n])].cookie == RouteCookie(vid, routes[n])
  {
    assert HasRouteFlow(vid, routes[n], flows);
  }

  /** Forwarding entries are the VLAN's own. */
  lemma ForwardedIsOwn(vid: nat, routes: map<Net, Route>, ip: Ip, mac: Mac, flows: FlowTable, action: Action)
    ensures ForeignAfter(vid, None, flows, Forwarded(vid, routes, ip, mac, {}, flows, action))
  {
  }

  /** A gateway's MAC address enters its route and the route's entry together. */
  lemma LearnGatewayStep(vid: nat, addrs: map<Net, Address>, routes: map<Net, Route>, flows: FlowTable,
                         n: Net, mac: Mac, action: Action)
    requires TablesServe(vid, addrs, routes, flows) && n in routes
    requires action.Forward? && action.dstMac == mac
    ensures var routes' := routes[n := WithMac(routes[n], mac)];
            var flows' := flows[RouteKey(vid, routes[n]) := Flow(RouteCookie(vid, routes[n]), action)];
            TablesServe(vid, addrs, routes', flows') <==> !Clash(addrs, routes')
  {
    var r := WithMac(routes[n], mac);
    assert RouteOk(n, routes[n]);
    SetRouteStep(vid, addrs, routes, flows, n, r, Flow(RouteCookie(vid, r), action));
  }

  lemma BottomStays(vid: nat, routes: map<Net, Route>, flows: FlowTable, n: Net, mac: Mac, action: Action)
    requires RoutesOk(routes) && n in routes
    ensures BottomRight(vid, routes, flows) ==>
            BottomRight(vid, routes[n := WithMac(routes[n], mac)],
                        flows[RouteKey(vid, routes[n]) := Flow(RouteCookie(vid, routes[n]), action)])
  {
  }

  lemma BottomHasNoClash(vid: nat, addrs: map<Net, Address>, routes: map<Net, Route>, flows: FlowTable)
    ensures BottomRight(vid, routes, flows) ==> !Clash(addrs, routes)
  {
  }

  lemma HostKeepsBottom(vid: nat, routes: map<Net, Route>, flows: FlowTable, flows': FlowTable, host: Ip)
    requires forall k :: k != HostKey(vid, host) ==>
               (k in flows <==> k in flows') && (k in flows ==> flows'[k] == flows[k])
    ensures BottomRight(vid, routes, flows) <==> BottomRight(vid, routes, flows')
  {
  }

  lemma WithMacOk(addrs: map<Net, Address>, routes: map<Net, Route>, n: Net, mac: Mac)
    requires RoutesOk(routes) && GatewaysCovered(addrs, routes) && n in routes
    ensures var routes' := routes[n := WithMac(routes[n], mac)];
            && RoutesOk(routes') && GatewaysCovered(addrs, routes')
            && (Clash(addrs, routes) ==> Clash(addrs, routes'))
  {
  }

  /** Learning a host inside an address network, or forgetting it, touches nothing else. */
  lemma LearnHostStep(vid: nat, addrs: map<Net, Address>, routes: map<Net, Route>, flows: FlowTable,
                      m: Net, host: Ip, action: Action)
    requires TablesServe(vid, addrs, routes, flows)
    requires m in addrs && Contains(m, host) && action.Forward?
    ensures TablesServe(vid, addrs, routes, flows[HostKey(vid, host) := Flow(AddressCookie(vid, addrs[m]), action)])
  {
    var k0 := HostKey(vid, host);
    var flows' := flows[k0 := Flow(AddressCookie(vid, addrs[m]), action)];
    forall k | k in flows' && Own(vid, k) && k != DefaultKey(vid)
      ensures Explained(vid, addrs, routes, k, flows'[k])
    {
      if k == k0 {
        assert IsAddressFlow(vid, addrs[m], k, flows'[k]);
      } else {
        assert Explained(vid, addrs, routes, k, flows[k]);
      }
    }
    HostKeyApart(vid, addrs, routes, flows, flows', host);
  }

  lemma ForgetHostStep(vid: nat, addrs: map<Net, Address>, routes: map<Net, Route>, flows: FlowTable, host: Ip)
    requires TablesServe(vid, addrs, routes, flows)
    ensures TablesServe(vid, addrs, routes, flows - {HostKey(vid, host)})
  {
    var flows' := flows - {HostKey(vid, host)};
    forall k | k in flows' && Own(vid, k) && k != DefaultKey(vid)
      ensures Explained(vid, addrs, routes, k, flows'[k])
    {
      assert Explained(vid, addrs, routes, k, flows[k]);
    }
    HostKeyApart(vid, addrs, routes, flows, flows', host);
  }

  lemma HostKeyApart(vid: nat, addrs: map<Net, Address>, routes: map<Net, Route>, flows: FlowTable, flows': FlowTable,
                     host: Ip)
    requires AddressesHaveFlows(vid, addrs, flows) && RoutesHaveFlows(vid, routes, flows)
    requires RoutesOk(routes)
    requires forall k :: k != HostKey(vid, host) ==>
               (k in flows <==> k in flows') && (k in flows ==> flows'[k] == flows[k])
    ensures AddressesHaveFlows(vid, addrs, flows') && RoutesHaveFlows(vid, routes, flows')
  {
    forall m | m in addrs
      ensures HasAddressFlows(vid, addrs[m], flows')
    {
      assert HasAddressFlows(vid, addrs[m], flows);
    }
    forall n | n in routes
      ensures HasRouteFlow(vid, routes[n], flows')
    {
      assert HasRouteFlow(vid, routes[n], flows);
      RouteFlowMatches(vid, n, routes[n], host, host);
    }
  }
}
