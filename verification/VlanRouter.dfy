/** One VLAN router: its address table, its routing table and the flow entries it keeps on the switch. */
module VlanRouters {
  import opened Wrappers
  import opened Ipv4
  import opened AddressDatas
  import opened RoutingTables
  import opened RouterFlows
  import opened RouterSteps
  import opened RouterDeletes

  datatype ArpRequest = ArpRequest(srcIp: Ip, dstIp: Ip)

  class VlanRouter {
    const vid: nat
    const ofp10: bool
    const addresses: AddressData
    const routes: RoutingTable
    /** The flow table of the switch, with the entries of all VLANs. */
    var flows: FlowTable

    /** The tables are well-formed, and every route's gateway lies in a stored network. Every method keeps
        this, whatever the switch holds and whatever the ids are. */
    ghost predicate Safe()
      reads this, addresses, routes
    {
      addresses.Valid() && routes.Valid() && GatewaysCovered(addresses.table, routes.table)
    }

    /** The switch forwards as the tables say. */
    ghost predicate Serves()
      reads this, addresses, routes
    {
      Safe() && FlowsServe(vid, addresses.table, routes.table, flows)
    }

    /** The tables and the flow table agree: no entry of this VLAN is left over. */
    ghost predicate Valid()
      reads this, addresses, routes
    {
      Safe() && FlowsOk(vid, addresses.table, routes.table, flows)
    }

    lemma ValidIff()
      requires Safe()
      ensures Valid() <==> Serves() && BottomRight(vid, routes.table, flows)
    {
      AgreeIffServeAndBottom(vid, addresses.table, routes.table, flows);
    }

    /** Ids are distinct and of 16 bits, as the cookies take them to be. */
    ghost predicate Fit()
      reads addresses, routes
    {
      IdsFit(addresses.table, routes.table)
    }

    constructor (vid: nat, ofp10: bool, flows: FlowTable)
      requires forall k :: k in flows ==> !Own(vid, k)
      requires ForeignOk(vid, flows)
      ensures Valid() && this.vid == vid && fresh(addresses) && fresh(routes)
      ensures addresses.table == map[] && routes.table == map[]
      ensures this.flows == flows[DefaultKey(vid) := DropFlow(vid)]
    {
      this.vid, this.ofp10, this.flows := vid, ofp10, flows;
      addresses := new AddressData();
      routes := new RoutingTable();
      new;
      SetDefaultRouteDrop();
    }

    /** What the switch does with a packet whose destination lies outside every stored network: one entry
        of this VLAN decides it, that of the longest matching route, or, if no route matches and no entry is
        left over, the drop entry. */
    lemma ForwardsByLongestMatch(src: Ip, dst: Ip) returns (k: FlowKey)
      requires Serves() && !Covered(addresses.table, dst)
      ensures forall n :: IsLongestMatch(routes.table, dst, n) ==>
                && Decides(vid, flows, src, dst, k)
                && k == RouteKey(vid, routes.table[n])
                && if routes.table[n].gatewayMac.None? then flows[k].action == ToController
                   else flows[k].action.Forward? && flows[k].action.dstMac == routes.table[n].gatewayMac.value
      ensures Valid() ==> Decides(vid, flows, src, dst, k)
      ensures Valid() && (forall n :: n in routes.table ==> !Contains(n, dst)) ==> flows[k].action == Drop
    {
      var n := LongestMatchExists(routes.table, dst);
      hide FlowsOk, FlowsServe, RoutesOk, AddressesOk, GatewaysCovered, Decides, IsRouteFlow;
      if n.Some? {
        k := RouteKey(vid, routes.table[n.value]);
        PriorityRefinesLongestMatch(vid, addresses.table, routes.table, flows, src, dst, n.value);
        forall m | IsLongestMatch(routes.table, dst, m)
          ensures m == n.value
        {
          LongestMatchUnique(routes.table, dst, m, n.value);
        }
      } else {
        k := DefaultKey(vid);
        if Valid() {
          NoRouteIsDropped(vid, addresses.table, routes.table, flows, src, dst);
        }
      }
    }

    /** What it does with one to a destination inside a stored network. When the views agree, one entry
        decides. */
    lemma ForwardsInside(src: Ip, dst: Ip, m: Net, k: FlowKey)
      requires Serves() && m in addresses.table && Contains(m, dst)
      requires IsInsideKey(vid, addresses.table[m], routes.table, flows, src, dst, k)
      ensures Decides(vid, flows, src, dst, k) <==>
              !(k == MacLearningKey(vid, addresses.table[m]) && LearningTied(vid, addresses.table[m], routes.table))
      ensures Valid() ==> Decides(vid, flows, src, dst, k)
      ensures k in flows
      ensures
        if dst == addresses.table[m].defaultGw then flows[k].action == ToController
        else if Contains(m, src) then flows[k].action == Normal
        else if HostKey(vid, dst) in flows then flows[k].action.Forward?
        else (forall n :: !IsLongestStatic(routes.table, dst, n)) ==> flows[k].action == ToController
    {
      InsideDecides(vid, addresses.table, routes.table, flows, src, dst, m, k);
      InsideAction(vid, addresses.table, routes.table, flows, src, dst, m, k);
      ValidIff();
    }

    /** `_set_defaultroute_drop`. */
    method SetDefaultRouteDrop()
      modifies this
      ensures flows == old(flows)[DefaultKey(vid) := DropFlow(vid)]
    {
      flows := flows[DefaultKey(vid) := DropFlow(vid)];
    }

    /** `get_all_flow`: the switch lists its entries in an order of its own. */
    method GetAllFlow() returns (stats: seq<FlowStats>)
      ensures Snapshot(flows, stats) && Distinct(stats)
    {
      stats := [];
      var todo := flows.Keys;
      while todo != {}
        invariant todo <= flows.Keys
        invariant forall i :: 0 <= i < |stats| ==>
                    stats[i].key in flows && stats[i].key !in todo && flows[stats[i].key] == stats[i].flow
        invariant forall k :: k in flows && k !in todo ==> FlowStats(k, flows[k]) in stats
        invariant Distinct(stats)
        decreases todo
      {
        var k :| k in todo;
        stats := stats + [FlowStats(k, flows[k])];
        todo := todo - {k};
      }
    }

    /** `delete_flow`: OpenFlow 1.0 deletes the one entry strictly, later versions delete by cookie. */
    method DeleteFlow(s: FlowStats)
      modifies this
      ensures flows == AfterDelete(ofp10, old(flows), s)
    {
      if ofp10 {
        flows := flows - {s.key};
      } else {
        flows := map k | k in flows && flows[k].cookie != s.flow.cookie :: flows[k];
      }
    }

    /** `_set_address_data`: adds an address with its three entries, or changes nothing. The views stay in
        step whatever the id; ids go on fitting exactly unless this one is longer than 16 bits or taken. */
    method SetAddressData(gw: Ip, len: int) returns (r: Result<nat, RouterError>, garp: Option<ArpRequest>)
      requires Safe()
      modifies this, addresses
      ensures Safe()
      ensures old(Serves()) ==> (Serves() <==> !Clash(addresses.table, routes.table))
      ensures old(Valid()) ==> Valid()
      ensures old(Fit()) ==>
                (Fit() <==> r.Failure? || (old(addresses.nextId) <= UINT16_MAX
                                           && !AddressIdTaken(old(addresses.table), old(addresses.nextId))))
      ensures r.Success? <==> 0 <= len <= 32 &&
                              forall n :: n in old(addresses.table) ==> !Shares(n, Net(ApplyMask(gw, len), len))
      ensures r.Failure? ==> unchanged(this) && unchanged(addresses) && garp.None?
      ensures r.Success? ==>
                var a := Address(r.value, ApplyMask(gw, len), len, gw);
                && r.value == old(addresses.nextId)
                && addresses.table == old(addresses.table)[a.Key() := a]
                && HostBitsClear(a.nwAddr, len) && Agree(a.nwAddr, gw, len)
                && flows == WithAddressFlows(vid, a, old(flows))
                && garp == Some(ArpRequest(gw, gw))
    {
      hide FlowsServe, FlowsOk, GatewaysCovered, RoutesOk, AddressesOk, Clash, BottomRight;
      var added := addresses.Add(gw, len);
      if added.Failure? {
        if old(Serves()) {
          ServingHasNoClash(vid, addresses.table, routes.table, flows);
        }
        return Failure(added.error), None;
      }
      var address := added.value;
      ghost var before := flows;
      var cookie := IdToCookie(vid, AddressId, address.id);
      flows := flows[MacLearningKey(vid, address) := Flow(cookie, ToController)];
      flows := flows[IpHandlingKey(vid, address) := Flow(cookie, ToController)];
      flows := flows[L2Key(vid, address) := Flow(cookie, Normal)];
      assert flows == WithAddressFlows(vid, address, before);
      CoveredMonotone(old(addresses.table), address, routes.table);
      AddressAdded(old(addresses.table), before, address);
      if old(Fit()) {
        AddressFits(old(addresses.table), address);
      }
      return Success(address.id), Some(ArpRequest(address.defaultGw, address.defaultGw));
    }

    lemma AddressAdded(a0: map<Net, Address>, f0: FlowTable, a: Address)
      requires Safe() && AddressesOk(a0) && a.Key() !in a0
      requires addresses.table == a0[a.Key() := a] && flows == WithAddressFlows(vid, a, f0)
      ensures FlowsServe(vid, a0, routes.table, f0) ==> (Serves() <==> !Clash(addresses.table, routes.table))
      ensures FlowsOk(vid, a0, routes.table, f0) ==> Valid()
    {
      hide FlowsServe, FlowsOk, GatewaysCovered;
      AgreeIffServeAndBottom(vid, a0, routes.table, f0);
      if FlowsServe(vid, a0, routes.table, f0) {
        AddAddressStep(vid, a0, routes.table, f0, a);
      }
      if FlowsOk(vid, a0, routes.table, f0) {
        AddressBottom(vid, routes.table, f0, a);
        ValidIff();
      }
    }

    /** `_set_routing_data`: a route is only accepted for a gateway inside a stored network. All views
        stay in step unless the destination is a zero-length prefix not spelled "0.0.0.0/0"; then an entry is
        left over. A destination without host bits is a key of the table from then on. Ids go on fitting exactly
        unless this one is longer than 16 bits or that of another route. */
    method SetRoutingData(dst: Dest, gateway: Ip) returns (r: Result<nat, RouterError>, arp: Option<ArpRequest>)
      requires Safe()
      modifies this, routes
      ensures Safe()
      ensures old(Serves()) ==> (Serves() <==> !Clash(addresses.table, routes.table))
      ensures old(Valid()) ==>
                if r.Failure? || !dst.Misfiled() then Valid()
                else !AllExplained(vid, addresses.table, routes.table, flows)
      ensures r.Failure? ==> unchanged(this) && unchanged(routes) && arp.None?
      ensures r.Success? <==>
                && Covered(addresses.table, gateway)
                && (forall n :: n in addresses.table && Contains(n, gateway) ==>
                                  addresses.table[n].defaultGw != gateway)
                && 0 <= dst.mask <= 32
                && !(dst.canonical && Net(dst.ip, dst.mask) in old(routes.table))
      ensures r.Success? ==>
                var dstIp := if dst.IsDefault() then None else Some(dst.Key().addr);
                var route := Route(r.value, dstIp, dst.mask, gateway, None);
                && r.value == old(routes.nextId)
                && routes.table == old(routes.table)[dst.Key() := route]
                && (Net(dst.ip, dst.mask) in routes.table <==> HostBitsClear(dst.ip, dst.mask))
                && flows == old(flows)[RouteKey(vid, route) := Flow(RouteCookie(vid, route), ToController)]
                && (old(Fit()) ==> (Fit() <==> && r.value <= UINT16_MAX
                                               && !RouteIdTaken(old(routes.table) - {dst.Key()}, r.value)))
                && arp.Some? && arp.value.dstIp == gateway
                && forall n :: n in addresses.table && Contains(n, gateway) ==>
                                 arp.value.srcIp == addresses.table[n].defaultGw
    {
      hide FlowsServe, FlowsOk, GatewaysCovered, AddressIdsFit, RouteIdsFit, RouteIdsDistinct, RouteIdTaken, RoutesOk;
      hide Clash, BottomRight, AllExplained;
      if old(Serves()) {
        ServingHasNoClash(vid, addresses.table, routes.table, flows);
      }
      var address := addresses.GetByIp(gateway);
      if address.None? {
        return Failure(GatewayNotRegistered), None;
      }
      assert address.value.Key() in addresses.table && Contains(address.value.Key(), gateway);
      if gateway == address.value.defaultGw {
        return Failure(GatewayIsDefaultGw(address.value.id)), None;
      }
      var added := routes.Add(dst, gateway);
      if added.Failure? {
        return Failure(added.error), None;
      }
      var route := added.value;
      if old(Fit()) {
        RouteFits(old(routes.table), dst.Key(), route);
      }
      RouteCovered(addresses.table, old(routes.table), dst.Key(), route);
      flows := flows[RouteKey(vid, route) := Flow(IdToCookie(vid, RouteId, route.id), ToController)];
      RouteAdded(old(routes.table), old(flows), dst, route);
      return Success(route.id), Some(ArpRequest(address.value.defaultGw, gateway));
    }

    lemma RouteAdded(r0: map<Net, Route>, f0: FlowTable, dst: Dest, r: Route)
      requires Safe() && RoutesOk(r0) && 0 <= dst.mask <= 32
      requires routes.table == r0[dst.Key() := r]
      requires r.dstIp == (if dst.IsDefault() then None else Some(dst.Key().addr)) && r.gatewayMac == None
      requires !(dst.canonical && Net(dst.ip, dst.mask) in r0)
      requires flows == f0[RouteKey(vid, r) := Flow(RouteCookie(vid, r), ToController)]
      ensures FlowsServe(vid, addresses.table, r0, f0) ==> (Serves() <==> !Clash(addresses.table, routes.table))
      ensures FlowsOk(vid, addresses.table, r0, f0) ==>
                if !dst.Misfiled() then Valid() else !AllExplained(vid, addresses.table, routes.table, flows)
    {
      hide FlowsServe, FlowsOk, GatewaysCovered, AllExplained;
      var n, f := dst.Key(), Flow(RouteCookie(vid, r), ToController);
      AgreeIffServeAndBottom(vid, addresses.table, r0, f0);
      DefaultContainsAll(dst.ip);
      assert RouteOk(n, routes.table[n]);
      if n in r0 {
        assert RouteOk(n, r0[n]);
        RouteKeysApart(vid, n, r0[n], n, r);
      }
      if FlowsServe(vid, addresses.table, r0, f0) {
        SetRouteStep(vid, addresses.table, r0, f0, n, r, f);
      }
      if FlowsOk(vid, addresses.table, r0, f0) {
        SetRouteBottom(vid, r0, f0, n, r, f);
        ValidIff();
        if dst.Misfiled() {
          LeftBehind(vid, addresses.table, routes.table, flows);
        }
      }
    }

    /** The filter of `_delete_routing_data`. */
    method SelectRoutes(stats: seq<FlowStats>, request: Option<int>) returns (list: seq<FlowStats>)
      requires Distinct(stats)
      ensures forall s :: s in list <==> s in stats && SelectedRoute(vid, request, s)
      ensures Distinct(list)
    {
      list := [];
      for i := 0 to |stats|
        invariant forall s :: s in list <==> s in stats[..i] && SelectedRoute(vid, request, s)
        invariant Distinct(list)
      {
        var vlanId := CookieToId(VlanId, stats[i].flow.cookie);
        if vlanId == vid {
          var rtId := CookieToId(RouteId, stats[i].flow.cookie);
          if request.None? && rtId == COOKIE_DEFAULT_ID {
          } else if request.Some? && request.value != rtId {
          } else {
            ExtendDistinct(stats, i, list);
            list := list + [stats[i]];
          }
        }
      }
      assert stats[..|stats|] == stats;
    }

    /** One round of the deletion loop. */
    method DeleteRouteEntry(s: FlowStats) returns (id: nat)
      requires routes.Valid()
      modifies this, routes
      ensures id == CookieToId(RouteId, s.flow.cookie)
      ensures routes.Valid() && routes.nextId == old(routes.nextId) && IsPart(routes.table, old(routes.table))
      ensures OneGoes(RouteIds(old(routes.table)), RouteIds(routes.table), id)
      ensures flows == AfterEntry(vid, ofp10, old(flows), s)
    {
      DeleteFlow(s);
      id := CookieToId(RouteId, s.flow.cookie);
      routes.Delete(id);
      OneRouteGoes(old(routes.table), routes.table, id);
      if GetPriorityType(s.key.priority, vid) == PRIORITY_DEFAULT_ROUTING {
        SetDefaultRouteDrop();
      }
    }

    /** `_delete_routing_data`: deletes what carries the asked route id, entry and table rows together, and
        puts the drop entry back when the default route goes. The switch goes on serving the tables exactly
        if no address's cookie reads as an asked route (for id 0 any address of 16 bits does, for "all" any
        longer one). For id 0 the views stay in step exactly if the request spares the bottom entry as well;
        that hangs on the order in which the switch lists the entries. */
    method DeleteRoutingData(request: Option<int>) returns (deleted: seq<nat>, ghost listed: seq<FlowStats>)
      requires Safe()
      modifies this, routes
      ensures Safe()
      ensures forall s :: s in listed <==>
                s.key in old(flows) && old(flows)[s.key] == s.flow && SelectedRoute(vid, request, s)
      ensures old(Serves()) ==>
                routes.table ==
                map n | n in old(routes.table) && !AskedRoute(request, old(routes.table)[n].id) :: old(routes.table)[n]
      ensures old(Serves()) ==>
                forall n :: n in old(routes.table) ==>
                  (n !in routes.table <==> && (request.None? || request == Some(old(routes.table)[n].id))
                                           && old(routes.table)[n].id <= 0xffff)
      ensures old(Serves()) && request != Some(0) ==>
                && flows == WithoutRoutes(vid, request, old(flows))
                && (Serves() <==> NoneReadsAsRoute(addresses.table, request))
      ensures old(Serves()) && !NoneReadsAsRoute(addresses.table, request) ==> !Serves()
      ensures old(Valid()) ==>
                (Valid() <==> && NoneReadsAsRoute(addresses.table, request)
                              && (request == Some(0) ==> DropSpared(vid, ofp10, old(routes.table), listed)))
      ensures old(Valid()) && NoneReadsAsRoute(addresses.table, request) ==>
                if request == Some(0) then IsZeroListing(vid, old(flows), listed)
                else forall id :: id in deleted <==> RouteIdTaken(old(routes.table), id) && AskedRoute(request, id)
      ensures old(ForeignOk(vid, flows)) ==> ForeignAfter(vid, request, old(flows), flows)
    {
      hide AddressesOk, RoutesOk, GatewaysCovered, FlowsOk, FlowsServe, BottomRight, WithoutRoutes, PlainListing;
      hide DropTracked, AllDeleted, PlainTracked, NoneReadsAsRoute, SelectedRoute, DropSpared, IsZeroListing;
      hide DropOrDefault, Enough, OnlyListedGo;
      var stats := GetAllFlow();
      var list := SelectRoutes(stats, request);
      listed := list;
      ghost var r0, f0, a0 := routes.table, flows, addresses.table;
      AgreeIffServeAndBottom(vid, a0, r0, f0);
      ghost var plain := TablesServe(vid, a0, r0, f0) && request != Some(0);
      ghost var zero := && TablesServe(vid, a0, r0, f0) && BottomRight(vid, r0, f0)
                        && request == Some(0) && NoneReadsAsRoute(a0, request);
      if TablesServe(vid, a0, r0, f0) {
        RoutesHaveEntries(r0, f0, request, stats, list);
      }
      if plain {
        ServingListsPlainly(vid, a0, r0, f0, request, stats, list);
      }
      if zero {
        ZeroListing(vid, a0, r0, f0, stats, list);
      }
      deleted := DeleteRouteList(list, request, AskedIds(request, r0), plain, zero);
      PartCovered(a0, r0, routes.table);
      if ForeignOk(vid, f0) {
        ForeignAfterRoutes(vid, f0, request, stats, list, flows);
      }
      if TablesServe(vid, a0, r0, f0) {
        RouteRows(request, r0, routes.table, vid, stats, list);
        RoutesDeleted(r0, f0, request, stats, list, deleted, plain, zero);
      }
    }

    lemma RoutesHaveEntries(r0: map<Net, Route>, f0: FlowTable, request: Option<int>,
                            stats: seq<FlowStats>, list: seq<FlowStats>)
      requires RoutesOk(r0) && FlowsServe(vid, addresses.table, r0, f0) && Snapshot(f0, stats)
      requires forall s :: s in list <==> s in stats && SelectedRoute(vid, request, s)
      ensures Enough(RouteIds(r0), AskedIds(request, r0), Ids(RouteId, list))
    {
      EnoughRouteEntries(vid, r0, f0, request, stats, list);
    }

    /** What the loop has done, in terms of the request. */
    lemma RoutesDeleted(r0: map<Net, Route>, f0: FlowTable, request: Option<int>, stats: seq<FlowStats>,
                        list: seq<FlowStats>, deleted: seq<nat>, plain: bool, zero: bool)
      requires Safe() && TablesServe(vid, addresses.table, r0, f0) && Snapshot(f0, stats)
      requires forall s :: s in list <==> s in stats && SelectedRoute(vid, request, s)
      requires plain <==> request != Some(0)
      requires plain ==> flows == WithoutRoutes(vid, request, f0)
      requires zero <==> request == Some(0) && BottomRight(vid, r0, f0) && NoneReadsAsRoute(addresses.table, request)
      requires zero ==> && IsZeroListing(vid, f0, list) && DropOrDefault(vid, r0, f0)
                        && (DefaultNet() !in r0 ==> list != []) && DropTracked(vid, ofp10, f0, flows, list, |list|)
      requires routes.table == map n | n in r0 && !AskedRoute(request, r0[n].id) :: r0[n]
      requires AllDeleted(vid, f0, flows, list)
      requires forall id :: id in deleted <==> Listed(list, id)
      ensures !NoneReadsAsRoute(addresses.table, request) ==> !Serves() && !Valid()
      ensures plain && NoneReadsAsRoute(addresses.table, request) ==>
                && Serves()
                && (BottomRight(vid, r0, f0) ==>
                      && Valid()
                      && forall id :: id in deleted <==> RouteIdTaken(r0, id) && AskedRoute(request, id))
      ensures zero ==> (Valid() <==> DropSpared(vid, ofp10, r0, list))
    {
      hide AddressesHaveFlows, BottomRight, DropSpared, DropTracked, DropOrDefault, GatewaysCovered, WithoutRoutes;
      if !NoneReadsAsRoute(addresses.table, request) {
        AddressEntryListed(vid, addresses.table, f0, request, stats, list, flows);
      } else if plain {
        RoutesGone(vid, addresses.table, r0, f0, request, routes.table, flows);
        if BottomRight(vid, r0, f0) {
          RoutesGoneBottom(vid, addresses.table, r0, f0, request, routes.table, flows);
          ValidIff();
          forall id
            ensures Listed(list, id) <==> RouteIdTaken(r0, id) && AskedRoute(request, id)
          {
            ReportedIds(vid, addresses.table, r0, f0, request, stats, list, id);
          }
        }
      } else if zero {
        ZeroOutcome(vid, ofp10, addresses.table, r0, f0, list, flows);
        assert routes.table == r0 by {
          assert forall n :: n in r0 ==> 1 <= r0[n].id;
        }
      }
    }

    /** The deletion loop. `plain` says that only the bottom entry is listed with the drop entry's priority,
        `zero` that all listed entries share the drop entry's cookie. */
    method DeleteRouteList(list: seq<FlowStats>, ghost request: Option<int>, ghost wanted: set<nat>,
                           ghost plain: bool, ghost zero: bool) returns (deleted: seq<nat>)
      requires routes.Valid()
      requires forall s :: s in list ==> s.key in flows && flows[s.key] == s.flow
      requires plain ==> PlainListing(vid, request, flows, list)
      requires zero ==> && DropOrDefault(vid, routes.table, flows)
                        && forall s :: s in list ==> s.flow.cookie == DropFlow(vid).cookie
      modifies this, routes
      ensures routes.Valid() && routes.nextId == old(routes.nextId) && IsPart(routes.table, old(routes.table))
      ensures OnlyListedGo(RouteIds(old(routes.table)), RouteIds(routes.table), Ids(RouteId, list))
      ensures Enough(RouteIds(old(routes.table)), wanted, Ids(RouteId, list)) ==>
                forall n :: n in RouteIds(routes.table) ==> RouteIds(routes.table)[n] !in wanted
      ensures AllDeleted(vid, old(flows), flows, list)
      ensures plain ==> flows == WithoutRoutes(vid, request, old(flows))
      ensures zero ==> DropTracked(vid, ofp10, old(flows), flows, list, |list|)
      ensures forall id :: id in deleted <==> Listed(list, id)
    {
      hide RoutesOk, PlainTracked, DropTracked, AllDeleted, AfterEntry, IsPart, RowsTracked, OneGoes, RouteIds;
      hide PlainListing, WithoutRoutes, Ids, OnlyListedGo, Enough;
      deleted := [];
      ghost var r0, f0, ids := routes.table, flows, Ids(RouteId, list);
      NothingDeletedYet(vid, ofp10, f0, list);
      PlainStart(vid, request, f0, list);
      PartOfItself(r0);
      RowsTrackedStart(RouteIds(r0), wanted, ids);
      for i := 0 to |list|
        invariant routes.Valid() && routes.nextId == old(routes.nextId) && IsPart(routes.table, r0)
        invariant RowsTracked(RouteIds(r0), RouteIds(routes.table), wanted, ids, i)
        invariant AllDeleted(vid, f0, flows, list[..i])
        invariant plain ==> PlainTracked(vid, request, f0, flows, list, i)
        invariant zero ==> DropTracked(vid, ofp10, f0, flows, list, i)
        invariant forall id :: id in deleted <==> Listed(list[..i], id)
      {
        assert list[i] in list;
        AllDeletedNext(vid, ofp10, f0, flows, list, i);
        if plain {
          PlainTrackedNext(vid, ofp10, request, f0, flows, list, i);
        }
        if zero {
          DropTrackedNext(vid, ofp10, f0, flows, list, i);
        }
        ghost var r1 := routes.table;
        var id := DeleteRouteEntry(list[i]);
        IdAt(RouteId, list, i);
        RowsTrackedNext(RouteIds(r0), RouteIds(r1), RouteIds(routes.table), wanted, ids, i);
        PartOfPart(routes.table, r1, r0);
        if id !in deleted {
          deleted := deleted + [id];
        }
        ListedNext(list, i);
      }
      assert list[..|list|] == list;
      IdsLength(RouteId, list);
      RowsTrackedEnd(RouteIds(r0), RouteIds(routes.table), wanted, ids);
      if plain {
        PlainResult(vid, request, f0, flows, list);
      }
    }

    /** `_chk_addr_relation_route`: the asked addresses that some route needs. */
    method ChkAddrRelationRoute(request: Option<int>) returns (skip: set<nat>)
      requires addresses.Valid()
      ensures IsSkip(addresses.table, routes.table, request, skip)
    {
      skip := {};
      var todo := routes.table.Keys;
      while todo != {}
        invariant todo <= routes.table.Keys
        invariant forall id :: id in skip ==> Asked(request, id) && NeededId(addresses.table, routes.table, id)
        invariant forall n, m ::
                    && n in routes.table && n !in todo && m in addresses.table
                    && Contains(m, routes.table[n].gatewayIp) && Asked(request, addresses.table[m].id) ==>
                      addresses.table[m].id in skip
        decreases todo
      {
        var k :| k in todo;
        var address := addresses.GetByIp(routes.table[k].gatewayIp);
        if address.Some? {
          assert HoldsGateway(routes.table, address.value.Key());
          if request.None? && address.value.id !in skip {
            skip := skip + {address.value.id};
          } else if request == Some(address.value.id) {
            skip := {address.value.id};
            break;
          }
        }
        todo := todo - {k};
      }
    }

    /** The filter of `_delete_address_data`. */
    method SelectAddresses(stats: seq<FlowStats>, request: Option<int>, skip: set<nat>) returns (list: seq<FlowStats>)
      ensures forall s :: s in list <==> s in stats && SelectedAddress(vid, request, skip, s)
    {
      list := [];
      for i := 0 to |stats|
        invariant forall s :: s in list <==> s in stats[..i] && SelectedAddress(vid, request, skip, s)
      {
        var vlanId := CookieToId(VlanId, stats[i].flow.cookie);
        if vlanId == vid {
          var addrId := CookieToId(AddressId, stats[i].flow.cookie);
          if addrId in skip {
          } else if request.None? && (addrId <= COOKIE_DEFAULT_ID || UINT16_MAX < addrId) {
          } else if request.Some? && request.value != addrId {
          } else {
            list := list + [stats[i]];
          }
        }
      }
      assert stats[..|stats|] == stats;
    }

    /** One round of the deletion loop of `_delete_address_data`. */
    method DeleteAddressEntry(s: FlowStats)
      requires addresses.Valid()
      modifies this, addresses
      ensures addresses.Valid() && addresses.nextId == old(addresses.nextId)
      ensures flows == AfterDelete(ofp10, old(flows), s)
      ensures forall m :: m in addresses.table ==>
                m in old(addresses.table) && addresses.table[m] == old(addresses.table)[m]
      ensures OneGoes(AddressIds(old(addresses.table)), AddressIds(addresses.table),
                      CookieToId(AddressId, s.flow.cookie))
    {
      DeleteFlow(s);
      var addressId := CookieToId(AddressId, s.flow.cookie);
      var delAddress := addresses.GetById(addressId);
      if delAddress.Some? {
        addresses.Delete(addressId);
      }
      OneAddressGoes(old(addresses.table), addresses.table, addressId);
    }

    /** The deletion loop of `_delete_address_data`. */
    method DeleteAddressList(list: seq<FlowStats>, ghost wanted: set<nat>)
      requires addresses.Valid()
      requires forall s :: s in list ==> s.key in flows && flows[s.key] == s.flow
      requires forall s, k {:trigger s in list, k in flows} ::
                 s in list && k in flows && flows[k].cookie == s.flow.cookie ==> FlowStats(k, flows[k]) in list
      modifies this, addresses
      ensures addresses.Valid() && addresses.nextId == old(addresses.nextId)
      ensures flows == map k | k in old(flows) && FlowStats(k, old(flows)[k]) !in list :: old(flows)[k]
      ensures forall m :: m in addresses.table ==>
                m in old(addresses.table) && addresses.table[m] == old(addresses.table)[m]
      ensures OnlyListedGo(AddressIds(old(addresses.table)), AddressIds(addresses.table), Ids(AddressId, list))
      ensures Enough(AddressIds(old(addresses.table)), wanted, Ids(AddressId, list)) ==>
                forall m :: m in AddressIds(addresses.table) ==> AddressIds(addresses.table)[m] !in wanted
    {
      hide AddressesOk, Enough, OnlyListedGo, OneGoes, Ids, RowsTracked, AddressIds, AfterDelete, PartlyDeleted;
      ghost var a0, f0, ids := addresses.table, flows, Ids(AddressId, list);
      RowsTrackedStart(AddressIds(a0), wanted, ids);
      PartlyDeletedStart(f0, list);
      for i := 0 to |list|
        invariant addresses.Valid() && addresses.nextId == old(addresses.nextId)
        invariant PartlyDeleted(f0, flows, list, i)
        invariant forall m :: m in addresses.table ==> m in a0 && addresses.table[m] == a0[m]
        invariant RowsTracked(AddressIds(a0), AddressIds(addresses.table), wanted, ids, i)
      {
        assert list[i] in list;
        PartlyDeletedNext(ofp10, f0, flows, list, i);
        ghost var a1 := addresses.table;
        DeleteAddressEntry(list[i]);
        IdAt(AddressId, list, i);
        RowsTrackedNext(AddressIds(a0), AddressIds(a1), AddressIds(addresses.table), wanted, ids, i);
      }
      IdsLength(AddressId, list);
      RowsTrackedEnd(AddressIds(a0), AddressIds(addresses.table), wanted, ids);
      PartlyDeletedEnd(f0, flows, list);
    }

    /** `_delete_address_data`: drops the asked addresses with their entries, except those of which one
        with the same id holds a route's gateway. The switch goes on serving the tables exactly when the
        request spares the routes' entries, and all views stay in step exactly when it is harmless. Entries
        of others are spared except by id 0. Gateways stay covered in any case. */
    method DeleteAddressData(request: Option<int>)
      requires Safe()
      modifies this, addresses
      ensures Safe()
      ensures old(Serves()) ==>
                && (Serves() <==> SparesRoutes(old(addresses.table), routes.table, request))
                && addresses.table ==
                   map m | m in old(addresses.table)
                           && !Goes(old(addresses.table), routes.table, request, old(addresses.table)[m].id)
                        :: old(addresses.table)[m]
      ensures old(Serves()) ==>
                forall m :: m in old(addresses.table) ==>
                  (m !in addresses.table <==>
                     && (if request.None? then old(addresses.table)[m].id <= 0xffff
                         else request == Some(old(addresses.table)[m].id))
                     && forall m2, n :: m2 in old(addresses.table) && n in routes.table
                                        && old(addresses.table)[m2].id == old(addresses.table)[m].id ==>
                                          !Contains(m2, routes.table[n].gatewayIp))
      ensures old(Valid()) ==> (Valid() <==> HarmlessAddressId(old(addresses.table), routes.table, request))
      ensures old(ForeignOk(vid, flows)) ==> ForeignAfter(vid, request, old(flows), flows)
    {
      hide GatewaysCovered, FlowsOk, FlowsServe, SparesRoutes, HarmlessAddressId, RoutesOk, OnlyListedGo, IsSkip;
      hide SelectedAddress, AddressesOk, HoldsGateway, ForeignOk, ForeignAfter, Enough, Ids, GoingIds;
      var skip := ChkAddrRelationRoute(request);
      var stats := GetAllFlow();
      var list := SelectAddresses(stats, request, skip);
      ghost var a0, f0, r := addresses.table, flows, routes.table;
      CookieClosed(vid, f0, request, skip, stats, list);
      DeleteAddressList(list, GoingIds(a0, r, request));
      NoGatewayGoes(vid, a0, r, addresses.table, request, skip, stats, list);
      GatewaysStayCovered(a0, r, addresses.table);
      if ForeignOk(vid, f0) {
        ForeignAfterAddresses(vid, a0, r, f0, request, skip, stats, list, flows);
      }
      AgreeIffServeAndBottom(vid, a0, r, f0);
      if old(Serves()) {
        AddressesDeleted(a0, f0, request, skip, stats, list);
        forall m | m in a0
          ensures Goes(a0, r, request, a0[m].id) <==>
                  && (if request.None? then a0[m].id <= 0xffff else request == Some(a0[m].id))
                  && forall m2, n :: m2 in a0 && n in r && a0[m2].id == a0[m].id ==> !Contains(m2, r[n].gatewayIp)
        {
          GoesMeans(a0, r, request, a0[m].id);
        }
      }
    }

    /** What the loop has done, in terms of the request. */
    lemma AddressesDeleted(a0: map<Net, Address>, f0: FlowTable, request: Option<int>, skip: set<nat>,
                           stats: seq<FlowStats>, list: seq<FlowStats>)
      requires Safe() && TablesServe(vid, a0, routes.table, f0)
      requires Snapshot(f0, stats) && IsSkip(a0, routes.table, request, skip)
      requires forall s :: s in list <==> s in stats && SelectedAddress(vid, request, skip, s)
      requires forall m :: m in addresses.table ==> m in a0 && addresses.table[m] == a0[m]
      requires OnlyListedGo(AddressIds(a0), AddressIds(addresses.table), Ids(AddressId, list))
      requires Enough(AddressIds(a0), GoingIds(a0, routes.table, request), Ids(AddressId, list)) ==>
                 forall m :: m in AddressIds(addresses.table) ==>
                               AddressIds(addresses.table)[m] !in GoingIds(a0, routes.table, request)
      requires flows == map k | k in f0 && FlowStats(k, f0[k]) !in list :: f0[k]
      ensures Serves() <==> SparesRoutes(a0, routes.table, request)
      ensures addresses.table == map m | m in a0 && !Goes(a0, routes.table, request, a0[m].id) :: a0[m]
      ensures BottomRight(vid, routes.table, f0) ==> (Valid() <==> HarmlessAddressId(a0, routes.table, request))
    {
      EnoughAddressEntries(vid, a0, routes.table, f0, request, skip, stats, list);
      hide GatewaysCovered, FlowsServe, FlowsOk, SparesRoutes, HarmlessAddressId, RoutesOk, IsSkip, AddressesOk;
      hide BottomRight, OnlyListedGo, Enough, Ids, GoingIds, Goes;
      AddressRows(vid, a0, routes.table, addresses.table, request, skip, stats, list);
      UnselectedStay(vid, f0, request, skip, stats, list);
      AddressesGone(vid, a0, routes.table, f0, request, skip, addresses.table, flows);
      if BottomRight(vid, routes.table, f0) && SparesRoutes(a0, routes.table, request) {
        AddressesGoneBottom(vid, a0, routes.table, f0, request, skip, flows);
      }
      ValidIff();
      HarmlessSpares(a0, routes.table, request);
    }

    /** `_update_routing_tbl`: an ARP message from a gateway puts its MAC address into every route that
        uses it and turns those routes' entries into forwarding ones. */
    method UpdateRoutingTbl(outPort: nat, srcMac: Mac, dstMac: Mac, srcIp: Ip) returns (gwFlg: bool)
      requires Safe()
      modifies this, routes
      ensures Safe() && routes.nextId == old(routes.nextId)
      ensures old(Serves()) ==> (Serves() <==> !Clash(addresses.table, routes.table))
      ensures old(BottomRight(vid, routes.table, flows)) ==> BottomRight(vid, routes.table, flows)
      ensures gwFlg <==> exists n :: n in old(routes.table) && old(routes.table)[n].gatewayIp == srcIp
      ensures routes.table == Announced(old(routes.table), srcIp, srcMac)
      ensures forall n :: n in old(routes.table) ==>
                && n in routes.table
                && routes.table[n] == if old(routes.table)[n].gatewayIp != srcIp then old(routes.table)[n]
                                      else old(routes.table)[n].(gatewayMac := Some(srcMac))
      ensures old(Serves()) ==>
                && flows == Forwarded(vid, old(routes.table), srcIp, srcMac, {}, old(flows),
                                      Forward(dstMac, srcMac, outPort))
                && forall n :: n in old(routes.table) && old(routes.table)[n].gatewayIp == srcIp
                               && old(routes.table)[n].gatewayMac != Some(srcMac) ==>
                     var k := RouteKey(vid, old(routes.table)[n]);
                     k in flows && flows[k].action == Forward(dstMac, srcMac, outPort)
    {
      hide FlowsServe, RoutesOk, AddressesOk, GatewaysCovered, Forwarded, Clash, BottomRight;
      gwFlg := false;
      ghost var action := Forward(dstMac, srcMac, outPort);
      ghost var r0, f0 := routes.table, flows;
      ghost var serves := Serves();
      NoneForwarded(vid, r0, srcIp, srcMac, f0, action);
      if serves {
        FlowsOfRoutes(vid, addresses.table, r0, f0);
        ServingHasNoClash(vid, addresses.table, r0, f0);
      }
      var todo := routes.table.Keys;
      while todo != {}
        invariant Safe() && todo <= r0.Keys && routes.nextId == old(routes.nextId)
        invariant serves ==> (Serves() <==> !Clash(addresses.table, routes.table))
        invariant BottomRight(vid, r0, f0) ==> BottomRight(vid, routes.table, flows)
        invariant routes.table == PartlyAnnounced(r0, srcIp, srcMac, todo)
        invariant gwFlg <==> GatewaySeen(r0, srcIp, todo)
        invariant serves ==> flows == Forwarded(vid, r0, srcIp, srcMac, todo, f0, action)
        decreases todo
      {
        var k :| k in todo;
        AnnouncedNext(r0, srcIp, srcMac, todo, k);
        if serves {
          RouteHasFlow(vid, r0, f0, k);
          ForwardedNext(vid, r0, srcIp, srcMac, todo, k, f0, action);
        }
        var hit := UpdateRoute(k, outPort, srcMac, dstMac, srcIp);
        gwFlg := gwFlg || hit;
        todo := todo - {k};
      }
      if serves {
        forall n | n in r0 && r0[n].gatewayIp == srcIp && r0[n].gatewayMac != Some(srcMac)
          ensures RouteKey(vid, r0[n]) in flows && flows[RouteKey(vid, r0[n])].action == action
        {
          RouteHasFlow(vid, r0, f0, n);
          ForwardedAt(vid, r0, srcIp, srcMac, f0, action, n);
        }
      }
    }

    /** The loop body of `_update_routing_tbl`. */
    method UpdateRoute(n: Net, outPort: nat, srcMac: Mac, dstMac: Mac, srcIp: Ip) returns (hit: bool)
      requires Safe() && n in routes.table
      modifies this, routes
      ensures Safe() && routes.nextId == old(routes.nextId)
      ensures old(Serves()) || old(Clash(addresses.table, routes.table)) ==>
                (Serves() <==> !Clash(addresses.table, routes.table))
      ensures old(BottomRight(vid, routes.table, flows)) ==> BottomRight(vid, routes.table, flows)
      ensures hit <==> old(routes.table)[n].gatewayIp == srcIp
      ensures routes.table == AnnouncedAt(old(routes.table), srcIp, srcMac, n)
      ensures flows == if hit && old(routes.table)[n].gatewayMac != Some(srcMac)
                       then old(flows)[RouteKey(vid, old(routes.table)[n]) :=
                              Flow(RouteCookie(vid, old(routes.table)[n]), Forward(dstMac, srcMac, outPort))]
                       else old(flows)
    {
      hide FlowsServe, GatewaysCovered, RoutesOk, Clash, BottomRight;
      ghost var r0, f0 := routes.table, flows;
      var value := routes.table[n];
      hit := value.gatewayIp == srcIp;
      if hit && value.gatewayMac != Some(srcMac) {
        var action := Forward(dstMac, srcMac, outPort);
        WithMacOk(addresses.table, routes.table, n, srcMac);
        BottomStays(vid, r0, f0, n, srcMac, action);
        if Serves() {
          LearnGatewayStep(vid, addresses.table, routes.table, flows, n, srcMac, action);
        }
        routes.table := routes.table[n := WithMac(value, srcMac)];
        flows := flows[RouteKey(vid, value) := Flow(RouteCookie(vid, value), action)];
      }
      if Serves() {
        ServingHasNoClash(vid, addresses.table, routes.table, flows);
      }
    }

    /** `_packetin_arp` as far as it changes tables and entries: a gateway updates its routes, any other
        host of a stored network is learned with an entry of its own. */
    method PacketInArp(outPort: nat, srcMac: Mac, dstMac: Mac, srcIp: Ip)
      requires Safe()
      modifies this, routes
      ensures Safe() && routes.nextId == old(routes.nextId)
      ensures old(Serves()) ==> (Serves() <==> !Clash(addresses.table, routes.table))
      ensures old(Valid()) ==> Valid()
      ensures routes.table ==
              if Covered(addresses.table, srcIp) then Announced(old(routes.table), srcIp, srcMac) else old(routes.table)
      ensures forall n :: n in old(routes.table) && old(routes.table)[n].gatewayIp == srcIp
                          && Covered(addresses.table, srcIp) ==>
                            n in routes.table && routes.table[n].gatewayMac == Some(srcMac)
      ensures !Covered(addresses.table, srcIp) ==> flows == old(flows)
      ensures old(Serves()) && Covered(addresses.table, srcIp)
              && (exists n :: n in old(routes.table) && old(routes.table)[n].gatewayIp == srcIp) ==>
                flows == Forwarded(vid, old(routes.table), srcIp, srcMac, {}, old(flows),
                                   Forward(dstMac, srcMac, outPort))
      ensures forall m :: old(Serves()) && m in addresses.table && Contains(m, srcIp)
                          && (forall n :: n in old(routes.table) ==> old(routes.table)[n].gatewayIp != srcIp) ==>
                            flows == old(flows)[HostKey(vid, srcIp) :=
                              Flow(AddressCookie(vid, addresses.table[m]), Forward(dstMac, srcMac, outPort))]
      ensures old(Serves()) ==> ForeignAfter(vid, None, old(flows), flows)
    {
      hide FlowsServe, FlowsOk, GatewaysCovered, RoutesOk, Clash, BottomRight;
      AgreeIffServeAndBottom(vid, addresses.table, routes.table, flows);
      if old(Serves()) {
        ServingHasNoClash(vid, addresses.table, routes.table, flows);
      }
      var srcAddr := addresses.GetByIp(srcIp);
      if srcAddr.None? {
        return;
      }
      ghost var action := Forward(dstMac, srcMac, outPort);
      var gwFlg := UpdateRoutingTbl(outPort, srcMac, dstMac, srcIp);
      ForwardedIsOwn(vid, old(routes.table), srcIp, srcMac, old(flows), action);
      BottomHasNoClash(vid, addresses.table, routes.table, flows);
      if !gwFlg {
        NotAGateway(vid, old(routes.table), srcIp, srcMac, old(flows), action);
        ghost var before := flows;
        var cookie := IdToCookie(vid, AddressId, srcAddr.value.id);
        flows := flows[HostKey(vid, srcIp) := Flow(cookie, Forward(dstMac, srcMac, outPort))];
        HostKeepsBottom(vid, routes.table, before, flows, srcIp);
        if old(Serves()) {
          if FlowsServe(vid, addresses.table, routes.table, before) {
            LearnHostStep(vid, addresses.table, routes.table, before, srcAddr.value.Key(), srcIp, action);
          }
          if Serves() {
            ServingHasNoClash(vid, addresses.table, routes.table, flows);
          }
        }
      }
      ValidIff();
    }

    /** The idle timeout of a learned host's entry, at any moment. */
    method ExpireHost(host: Ip)
      requires Safe()
      modifies this
      ensures Safe() && flows == old(flows) - {HostKey(vid, host)}
      ensures old(Serves()) ==> Serves()
      ensures old(Valid()) ==> Valid()
    {
      hide FlowsServe, FlowsOk, GatewaysCovered;
      AgreeIffServeAndBottom(vid, addresses.table, routes.table, flows);
      if Serves() {
        ForgetHostStep(vid, addresses.table, routes.table, flows, host);
      }
      flows := flows - {HostKey(vid, host)};
      HostKeepsBottom(vid, routes.table, old(flows), flows, host);
      ValidIff();
    }

    /** The request comes from the router's own address in the network it asks about. */
    ghost predicate FromOwnNetwork(r: ArpRequest)
      reads addresses
    {
      exists m :: m in addresses.table && Contains(m, r.dstIp) && r.srcIp == addresses.table[m].defaultGw
    }

    /** `send_arp_all_gw`: the address lookup succeeds for every gateway, in every reachable state. */
    method SendArpAllGw() returns (requests: seq<ArpRequest>)
      requires Safe()
      ensures forall n :: n in routes.table ==> exists r :: r in requests && r.dstIp == routes.table[n].gatewayIp
      ensures forall r :: r in requests ==> FromOwnNetwork(r)
    {
      requests := [];
      var todo := routes.table.Keys;
      while todo != {}
        invariant todo <= routes.table.Keys
        invariant forall n :: n in routes.table && n !in todo ==>
                    exists r :: r in requests && r.dstIp == routes.table[n].gatewayIp
        invariant forall r :: r in requests ==> FromOwnNetwork(r)
        decreases todo
      {
        var k :| k in todo;
        var gateway := routes.table[k].gatewayIp;
        var address := addresses.GetByIp(gateway);
        assert Covered(addresses.table, routes.table[k].gatewayIp);
        var request := ArpRequest(address.value.defaultGw, gateway);
        assert FromOwnNetwork(request);
        requests := requests + [request];
        assert request in requests;
        todo := todo - {k};
      }
    }
  }
}
