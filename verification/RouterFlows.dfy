/** The flow entries of one VLAN router: priorities, cookies, and what the flow table must hold
    for a given address table and routing table. */
module RouterFlows {
  import opened Wrappers
  import opened Ipv4
  import opened AddressDatas
  import opened RoutingTables

  // ----- priorities -----

  const PRIORITY_VLAN_SHIFT := 1000
  const PRIORITY_NETMASK_SHIFT := 32
  const PRIORITY_DEFAULT_ROUTING := 1
  const PRIORITY_MAC_LEARNING := 2
  const PRIORITY_STATIC_ROUTING := 2
  const PRIORITY_IMPLICIT_ROUTING := 3
  const PRIORITY_L2_SWITCHING := 4
  const PRIORITY_IP_HANDLING := 5

  datatype PriorityType = Fixed(base: nat) | RouteType(route: Route)

  /** `get_priority`. */
  function GetPriority(ptype: PriorityType, vid: nat): nat {
    var base :=
      if ptype.Fixed? then ptype.base
      else if ptype.route.dstIp.Some? then PRIORITY_STATIC_ROUTING else PRIORITY_DEFAULT_ROUTING;
    var p := if ptype.RouteType? && ptype.route.dstIp.Some? then base + ptype.route.netmask else base;
    p + (if vid != 0 || base == PRIORITY_IP_HANDLING then PRIORITY_VLAN_SHIFT else 0)
      + (if base > PRIORITY_STATIC_ROUTING then PRIORITY_NETMASK_SHIFT else 0)
  }

  /** `get_priority_type`. */
  function GetPriorityType(priority: nat, vid: nat): int {
    if vid != 0 then priority - PRIORITY_VLAN_SHIFT else priority
  }

  // ----- cookies -----

  const COOKIE_DEFAULT_ID := 0
  const UINT16_MAX := 0xffff
  const TWO16 := 0x1_0000
  const TWO32 := 0x1_0000_0000

  datatype IdType = VlanId | AddressId | RouteId

  /** `_id_to_cookie`; shifting left is multiplying by a power of two. */
  function IdToCookie(vid: nat, idType: IdType, id: nat): nat {
    match idType
    case VlanId => id * TWO32
    case AddressId => vid * TWO32 + id
    case RouteId => vid * TWO32 + id * TWO16
  }

  /** `_cookie_to_id`. */
  function CookieToId(idType: IdType, cookie: nat): nat {
    match idType
    case VlanId => cookie / TWO32
    case AddressId => cookie % TWO32
    case RouteId => (cookie % TWO32) / TWO16
  }

  /** Ids up to 65535 live in classes that no decoder confuses: an address cookie has no route id,
      a route cookie has an address part that no address id reaches, and both keep the VLAN. */
  lemma CookieClasses(vid: nat, id: nat)
    requires 1 <= id <= UINT16_MAX
    ensures var a := IdToCookie(vid, AddressId, id);
            && CookieToId(VlanId, a) == vid && CookieToId(AddressId, a) == id
            && CookieToId(RouteId, a) == COOKIE_DEFAULT_ID
    ensures var r := IdToCookie(vid, RouteId, id);
            && CookieToId(VlanId, r) == vid && CookieToId(RouteId, r) == id
            && CookieToId(AddressId, r) == id * TWO16 > UINT16_MAX
    ensures var v := IdToCookie(vid, VlanId, vid);
            CookieToId(VlanId, v) == vid && CookieToId(AddressId, v) == 0 && CookieToId(RouteId, v) == 0
  {
  }

  /** A route cookie decodes to its own VLAN and id exactly when the id fits 16 bits, although the
      id counter runs to 32 bits. What does not fit is added to the VLAN. */
  lemma RouteCookieDecodesIff(vid: nat, id: nat)
    ensures CookieToId(VlanId, IdToCookie(vid, RouteId, id)) == vid + id / TWO16
    ensures CookieToId(VlanId, IdToCookie(vid, RouteId, id)) == vid
            && CookieToId(RouteId, IdToCookie(vid, RouteId, id)) == id
            <==> id <= UINT16_MAX
  {
  }

  /** An address cookie keeps its VLAN and id on all 32 bits, but from 65536 on it reads as a route's too. */
  lemma AddressCookieDecodes(vid: nat, id: nat)
    requires id < TWO32
    ensures var a := IdToCookie(vid, AddressId, id);
            CookieToId(VlanId, a) == vid && CookieToId(AddressId, a) == id
            && (CookieToId(RouteId, a) != COOKIE_DEFAULT_ID <==> id > UINT16_MAX)
  {
  }

  // ----- flow entries -----

  /** `ipv4` is False for the two VLAN-less entries of the enclosing router (ARP and normal). */
  datatype Match = Match(ipv4: bool, vlan: nat, src: Option<Net>, dst: Option<Net>)

  datatype FlowKey = FlowKey(mtch: Match, priority: nat)

  datatype Action =
    | Drop
    | ToController
    | Normal
    | Forward(srcMac: Mac, dstMac: Mac, port: nat)

  datatype Flow = Flow(cookie: nat, action: Action)

  type FlowTable = map<FlowKey, Flow>

  predicate MatchesPacket(m: Match, src: Ip, dst: Ip) {
    && m.ipv4
    && (m.src.Some? ==> Contains(m.src.value, src))
    && (m.dst.Some? ==> Contains(m.dst.value, dst))
  }

  function DefaultKey(vid: nat): FlowKey {
    FlowKey(Match(true, vid, None, None), GetPriority(Fixed(PRIORITY_DEFAULT_ROUTING), vid))
  }

  function DropFlow(vid: nat): Flow {
    Flow(IdToCookie(vid, VlanId, vid), Drop)
  }

  function RouteKey(vid: nat, r: Route): FlowKey {
    FlowKey(Match(true, vid, None, if r.dstIp.Some? then Some(Net(r.dstIp.value, r.netmask)) else None),
            GetPriority(RouteType(r), vid))
  }

  function RouteCookie(vid: nat, r: Route): nat {
    IdToCookie(vid, RouteId, r.id)
  }

  function AddressCookie(vid: nat, a: Address): nat {
    IdToCookie(vid, AddressId, a.id)
  }

  function MacLearningKey(vid: nat, a: Address): FlowKey {
    FlowKey(Match(true, vid, None, Some(a.Key())), GetPriority(Fixed(PRIORITY_MAC_LEARNING), vid))
  }

  function IpHandlingKey(vid: nat, a: Address): FlowKey {
    FlowKey(Match(true, vid, None, Some(Net(a.defaultGw, 32))), GetPriority(Fixed(PRIORITY_IP_HANDLING), vid))
  }

  function L2Key(vid: nat, a: Address): FlowKey {
    FlowKey(Match(true, vid, Some(a.Key()), Some(a.Key())), GetPriority(Fixed(PRIORITY_L2_SWITCHING), vid))
  }

  function HostKey(vid: nat, host: Ip): FlowKey {
    FlowKey(Match(true, vid, None, Some(Net(host, 32))), GetPriority(Fixed(PRIORITY_IMPLICIT_ROUTING), vid))
  }

  // ----- what the flow table must hold -----

  /** The entry of a stored route: packet-in until its gateway has answered an ARP request, then
      forwarding to the gateway's MAC address. */
  ghost predicate IsRouteFlow(vid: nat, r: Route, k: FlowKey, f: Flow) {
    && k == RouteKey(vid, r)
    && f.cookie == RouteCookie(vid, r)
    && match r.gatewayMac
       case None => f.action == ToController
       case Some(mac) => f.action.Forward? && f.action.dstMac == mac
  }

  ghost predicate IsHostFlow(vid: nat, a: Address, k: FlowKey, f: Flow) {
    && k.mtch.dst.Some?
    && k == HostKey(vid, k.mtch.dst.value.addr)
    && Contains(a.Key(), k.mtch.dst.value.addr)
    && f.action.Forward?
  }

  ghost predicate IsAddressFlow(vid: nat, a: Address, k: FlowKey, f: Flow) {
    && f.cookie == AddressCookie(vid, a)
    && (|| (k == MacLearningKey(vid, a) && f.action == ToController)
        || (k == IpHandlingKey(vid, a) && f.action == ToController)
        || (k == L2Key(vid, a) && f.action == Normal)
        || IsHostFlow(vid, a, k, f))
  }

  /** The entry `k` belongs to this VLAN's router. */
  predicate Own(vid: nat, k: FlowKey) {
    k.mtch.ipv4 && k.mtch.vlan == vid
  }

  /** Why an own entry may be there. */
  ghost predicate Explained(vid: nat, addrs: map<Net, Address>, routes: map<Net, Route>, k: FlowKey, f: Flow) {
    || (k == DefaultKey(vid) && f == DropFlow(vid) && DefaultNet() !in routes)
    || (exists n :: n in routes && IsRouteFlow(vid, routes[n], k, f))
    || (exists n :: n in addrs && IsAddressFlow(vid, addrs[n], k, f))
  }

  ghost predicate HasAddressFlows(vid: nat, a: Address, flows: FlowTable) {
    && MacLearningKey(vid, a) in flows
    && flows[MacLearningKey(vid, a)] == Flow(AddressCookie(vid, a), ToController)
    && IpHandlingKey(vid, a) in flows
    && flows[IpHandlingKey(vid, a)] == Flow(AddressCookie(vid, a), ToController)
    && L2Key(vid, a) in flows
    && flows[L2Key(vid, a)] == Flow(AddressCookie(vid, a), Normal)
  }

  ghost predicate HasRouteFlow(vid: nat, r: Route, flows: FlowTable) {
    RouteKey(vid, r) in flows && IsRouteFlow(vid, r, RouteKey(vid, r), flows[RouteKey(vid, r)])
  }

  ghost predicate AllExplained(vid: nat, addrs: map<Net, Address>, routes: map<Net, Route>, flows: FlowTable) {
    forall k {:trigger Explained(vid, addrs, routes, k, flows[k])} ::
      k in flows && Own(vid, k) ==> Explained(vid, addrs, routes, k, flows[k])
  }

  ghost predicate ExplainedAbove(vid: nat, addrs: map<Net, Address>, routes: map<Net, Route>, flows: FlowTable) {
    forall k {:trigger Explained(vid, addrs, routes, k, flows[k])} ::
      k in flows && Own(vid, k) && k != DefaultKey(vid) ==> Explained(vid, addrs, routes, k, flows[k])
  }

  /** Entries of other VLANs do not carry this VLAN's address or route cookies. */
  ghost predicate ForeignOk(vid: nat, flows: FlowTable) {
    forall k {:trigger Own(vid, k)} ::
      k in flows && !Own(vid, k) && CookieToId(VlanId, flows[k].cookie) == vid ==>
                  flows[k].cookie == IdToCookie(vid, VlanId, vid)
  }

  ghost predicate AddressesHaveFlows(vid: nat, addrs: map<Net, Address>, flows: FlowTable) {
    forall n {:trigger HasAddressFlows(vid, addrs[n], flows)} :: n in addrs ==> HasAddressFlows(vid, addrs[n], flows)
  }

  ghost predicate RoutesHaveFlows(vid: nat, routes: map<Net, Route>, flows: FlowTable) {
    forall n {:trigger HasRouteFlow(vid, routes[n], flows)} :: n in routes ==> HasRouteFlow(vid, routes[n], flows)
  }

  /** What forwarding needs: every table entry has its flows, and every own entry above the bottom one is
      explained by the tables. The bottom entry, without a destination, may be one left behind. */
  ghost predicate FlowsServe(vid: nat, addrs: map<Net, Address>, routes: map<Net, Route>, flows: FlowTable) {
    && ExplainedAbove(vid, addrs, routes, flows)
    && ForeignOk(vid, flows)
    && AddressesHaveFlows(vid, addrs, flows)
    && RoutesHaveFlows(vid, routes, flows)
  }

  /** The three views agree: every own entry is explained by the tables, every table entry has its flows,
      and there is a bottom entry. */
  ghost predicate FlowsOk(vid: nat, addrs: map<Net, Address>, routes: map<Net, Route>, flows: FlowTable) {
    && AllExplained(vid, addrs, routes, flows)
    && ForeignOk(vid, flows)
    && AddressesHaveFlows(vid, addrs, flows)
    && RoutesHaveFlows(vid, routes, flows)
    && DefaultKey(vid) in flows
  }

  /** The bottom entry is the default route's own, or the drop entry exactly while there is no default
      route. */
  ghost predicate BottomRight(vid: nat, routes: map<Net, Route>, flows: FlowTable) {
    && DefaultKey(vid) in flows
    && if DefaultNet() in routes then routes[DefaultNet()].dstIp.None? else flows[DefaultKey(vid)] == DropFlow(vid)
  }

  /** So agreement is serving with the right bottom entry. */
  lemma AgreeIffServeAndBottom(vid: nat, addrs: map<Net, Address>, routes: map<Net, Route>, flows: FlowTable)
    requires RoutesOk(routes)
    ensures FlowsOk(vid, addrs, routes, flows) <==>
            FlowsServe(vid, addrs, routes, flows) && BottomRight(vid, routes, flows)
  {
    var k := DefaultKey(vid);
    if FlowsOk(vid, addrs, routes, flows) {
      assert Explained(vid, addrs, routes, k, flows[k]);
      if DefaultNet() in routes {
        assert RouteOk(DefaultNet(), routes[DefaultNet()]);
      }
    }
    if FlowsServe(vid, addrs, routes, flows) && BottomRight(vid, routes, flows) {
      if DefaultNet() in routes {
        assert HasRouteFlow(vid, routes[DefaultNet()], flows);
      }
      assert Explained(vid, addrs, routes, k, flows[k]);
    }
  }

  /** Every stored route's gateway lies in some stored address network. */
  ghost predicate GatewaysCovered(addrs: map<Net, Address>, routes: map<Net, Route>) {
    forall n :: n in routes ==> Covered(addrs, routes[n].gatewayIp)
  }

  /** The tables are well-formed and the flow table serves them. */
  ghost predicate TablesServe(vid: nat, addrs: map<Net, Address>, routes: map<Net, Route>, flows: FlowTable) {
    AddressesOk(addrs) && RoutesOk(routes) && FlowsServe(vid, addrs, routes, flows)
  }

  /** The ids are what the cookies can tell apart: distinct, and of 16 bits. */
  ghost predicate IdsFit(addrs: map<Net, Address>, routes: map<Net, Route>) {
    AddressIdsFit(addrs) && RouteIdsFit(routes)
  }

  ghost predicate AddressIdsFit(addrs: map<Net, Address>) {
    AddressIdsDistinct(addrs) && forall n :: n in addrs ==> addrs[n].id <= UINT16_MAX
  }

  ghost predicate RouteIdsFit(routes: map<Net, Route>) {
    RouteIdsDistinct(routes) && forall n :: n in routes ==> routes[n].id <= UINT16_MAX
  }

  // ----- keys of different entries differ -----

  lemma RouteKeysApart(vid: nat, m: Net, r: Route, n: Net, s: Route)
    requires RouteOk(m, r) && RouteOk(n, s)
    ensures m != n ==> RouteKey(vid, r) != RouteKey(vid, s)
    ensures RouteKey(vid, r) == DefaultKey(vid) <==> r.dstIp.None?
  {
  }

  lemma RouteVersusAddress(vid: nat, n: Net, r: Route, a: Address)
    requires RouteOk(n, r) && Contains(a.Key(), a.defaultGw)
    ensures a.netmask != 0 || r.dstIp.None? || n != DefaultNet() ==>
              RouteKey(vid, r) !in {MacLearningKey(vid, a), IpHandlingKey(vid, a), L2Key(vid, a)}
    ensures DefaultKey(vid) !in {MacLearningKey(vid, a), IpHandlingKey(vid, a), L2Key(vid, a)}
  {
  }

  lemma ZeroLengthIsDefaultKey(n: Net)
    ensures Contains(n, n.addr) && n.len == 0 ==> n == DefaultNet()
  {
  }

  lemma AddressKeysApart(vid: nat, a: Address, b: Address)
    requires a.Key() != b.Key() && a.defaultGw != b.defaultGw
    ensures {MacLearningKey(vid, a), IpHandlingKey(vid, a), L2Key(vid, a)} !!
            {MacLearningKey(vid, b), IpHandlingKey(vid, b), L2Key(vid, b)}
  {
  }

  // ----- consequences -----

  /** The entry that decides a packet: it matches, and every other matching entry of this VLAN has a
      strictly lower priority. */
  ghost predicate Decides(vid: nat, flows: FlowTable, src: Ip, dst: Ip, k: FlowKey) {
    && k in flows && Own(vid, k) && MatchesPacket(k.mtch, src, dst)
    && forall k' :: k' in flows && Own(vid, k') && MatchesPacket(k'.mtch, src, dst) && k' != k ==>
        k'.priority < k.priority
  }

  /** An address flow only ever sees packets for its own network. */
  lemma AddressFlowStaysInside(vid: nat, a: Address, k: FlowKey, f: Flow, src: Ip, dst: Ip)
    requires IsAddressFlow(vid, a, k, f) && Contains(a.Key(), a.defaultGw)
    requires MatchesPacket(k.mtch, src, dst)
    ensures Contains(a.Key(), dst)
  {
  }

  /** The matching route flows are those of the matching routes, ordered by prefix length. */
  lemma RouteFlowMatches(vid: nat, n: Net, r: Route, src: Ip, dst: Ip)
    requires RouteOk(n, r)
    ensures MatchesPacket(RouteKey(vid, r).mtch, src, dst) <==> Contains(n, dst)
    ensures RouteKey(vid, r).priority
         == (if r.dstIp.None? then 1 else 2 + n.len) + (if vid != 0 then PRIORITY_VLAN_SHIFT else 0)
    ensures r.dstIp.None? <==> RouteKey(vid, r) == DefaultKey(vid)
  {
  }

  /** Flow priorities refine longest-prefix match: for a destination outside every address network,
      the deciding flow is the one of the longest matching route. An entry left behind at the bottom, by a
      misfiled route, cannot change that. */
  lemma PriorityRefinesLongestMatch(vid: nat, addrs: map<Net, Address>, routes: map<Net, Route>,
                                    flows: FlowTable, src: Ip, dst: Ip, n: Net)
    requires TablesServe(vid, addrs, routes, flows)
    requires !Covered(addrs, dst)
    requires IsLongestMatch(routes, dst, n)
    ensures Decides(vid, flows, src, dst, RouteKey(vid, routes[n]))
    ensures IsRouteFlow(vid, routes[n], RouteKey(vid, routes[n]), flows[RouteKey(vid, routes[n])])
    ensures var action := flows[RouteKey(vid, routes[n])].action;
            if routes[n].gatewayMac.None? then action == ToController
            else action.Forward? && action.dstMac == routes[n].gatewayMac.value
  {
    var k := RouteKey(vid, routes[n]);
    assert HasRouteFlow(vid, routes[n], flows);
    RouteFlowMatches(vid, n, routes[n], src, dst);
    forall k' | k' in flows && Own(vid, k') && MatchesPacket(k'.mtch, src, dst) && k' != k
      ensures k'.priority < k.priority
    {
      if k' == DefaultKey(vid) {
      } else if m :| m in routes && IsRouteFlow(vid, routes[m], k', flows[k']) {
        RouteFlowMatches(vid, m, routes[m], src, dst);
        if m.len == n.len {
          SameLengthSameNet(m, n, dst);
        }
      } else {
        assert Explained(vid, addrs, routes, k', flows[k']);
        var m :| m in addrs && IsAddressFlow(vid, addrs[m], k', flows[k']);
        AddressFlowStaysInside(vid, addrs[m], k', flows[k'], src, dst);
      }
    }
  }

  /** Without a matching route the packet is dropped. */
  lemma NoRouteIsDropped(vid: nat, addrs: map<Net, Address>, routes: map<Net, Route>, flows: FlowTable, src: Ip,
                         dst: Ip)
    requires AddressesOk(addrs) && RoutesOk(routes) && FlowsOk(vid, addrs, routes, flows)
    requires !Covered(addrs, dst)
    requires forall n :: n in routes ==> !Contains(n, dst)
    ensures Decides(vid, flows, src, dst, DefaultKey(vid)) && flows[DefaultKey(vid)].action == Drop
  {
    DefaultContainsAll(dst);
    AgreeIffServeAndBottom(vid, addrs, routes, flows);
    forall k' | k' in flows && Own(vid, k') && MatchesPacket(k'.mtch, src, dst)
      ensures k' == DefaultKey(vid)
    {
      assert Explained(vid, addrs, routes, k', flows[k']);
      if m :| m in routes && IsRouteFlow(vid, routes[m], k', flows[k']) {
        RouteFlowMatches(vid, m, routes[m], src, dst);
      } else if m :| m in addrs && IsAddressFlow(vid, addrs[m], k', flows[k']) {
        AddressFlowStaysInside(vid, addrs[m], k', flows[k'], src, dst);
      }
    }
  }

  /** The longest stored prefix that contains `dst`, the default route apart. */
  ghost predicate IsLongestStatic(routes: map<Net, Route>, dst: Ip, n: Net) {
    IsLongestMatch(routes - {DefaultNet()}, dst, n)
  }

  /** The entry for a packet to a destination inside the stored network of `a`: handling by the router for
      its own address, switching between hosts of the network, the host's entry once it is learned, a static
      route that covers it, and learning of the host. So a static route hides hosts not yet learned. */
  ghost predicate IsInsideKey(vid: nat, a: Address, routes: map<Net, Route>, flows: FlowTable,
                              src: Ip, dst: Ip, k: FlowKey) {
    if dst == a.defaultGw then k == IpHandlingKey(vid, a)
    else if Contains(a.Key(), src) then k == L2Key(vid, a)
    else if HostKey(vid, dst) in flows then k == HostKey(vid, dst)
    else if exists n :: IsLongestStatic(routes, dst, n)
    then exists n :: IsLongestStatic(routes, dst, n) && k == RouteKey(vid, routes[n])
    else k == MacLearningKey(vid, a)
  }

  /** A misfiled route under the default route's key has an entry of its own beside the learning entry. */
  ghost predicate LearningTied(vid: nat, a: Address, routes: map<Net, Route>) {
    && DefaultNet() in routes && routes[DefaultNet()].dstIp.Some?
    && RouteKey(vid, routes[DefaultNet()]) != MacLearningKey(vid, a)
  }

  /** What may match a packet to a destination inside the stored network `m`. */
  lemma InsideEntry(vid: nat, addrs: map<Net, Address>, routes: map<Net, Route>, flows: FlowTable,
                    src: Ip, dst: Ip, m: Net, k: FlowKey)
    requires TablesServe(vid, addrs, routes, flows)
    requires m in addrs && Contains(m, dst)
    requires k in flows && Own(vid, k) && MatchesPacket(k.mtch, src, dst) && k != DefaultKey(vid)
    ensures
      var a := addrs[m];
      || k == MacLearningKey(vid, a)
      || (k == IpHandlingKey(vid, a) && dst == a.defaultGw)
      || (k == L2Key(vid, a) && Contains(a.Key(), src))
      || k == HostKey(vid, dst)
      || (exists n :: n in routes && Contains(n, dst) && k == RouteKey(vid, routes[n]) && routes[n].dstIp.Some?)
  {
    assert Explained(vid, addrs, routes, k, flows[k]);
    WholeAddress(dst);
    if n :| n in routes && IsRouteFlow(vid, routes[n], k, flows[k]) {
      RouteFlowMatches(vid, n, routes[n], src, dst);
    } else {
      var b :| b in addrs && IsAddressFlow(vid, addrs[b], k, flows[k]);
      AddressFlowStaysInside(vid, addrs[b], k, flows[k], src, dst);
      assert b == m;
    }
  }

  lemma InsideMatches(vid: nat, addrs: map<Net, Address>, routes: map<Net, Route>, flows: FlowTable,
                      src: Ip, dst: Ip, m: Net, k: FlowKey)
    requires TablesServe(vid, addrs, routes, flows)
    requires m in addrs && Contains(m, dst) && IsInsideKey(vid, addrs[m], routes, flows, src, dst, k)
    ensures k in flows && Own(vid, k) && MatchesPacket(k.mtch, src, dst)
  {
    assert HasAddressFlows(vid, addrs[m], flows);
    WholeAddress(dst);
    if n :| IsLongestStatic(routes, dst, n) && k == RouteKey(vid, routes[n]) {
      assert HasRouteFlow(vid, routes[n], flows);
      RouteFlowMatches(vid, n, routes[n], src, dst);
    }
  }

  /** What the switch does with such a packet. */
  lemma InsideAction(vid: nat, addrs: map<Net, Address>, routes: map<Net, Route>, flows: FlowTable,
                     src: Ip, dst: Ip, m: Net, k: FlowKey)
    requires TablesServe(vid, addrs, routes, flows)
    requires m in addrs && Contains(m, dst) && IsInsideKey(vid, addrs[m], routes, flows, src, dst, k)
    ensures k in flows
    ensures
      if dst == addrs[m].defaultGw then flows[k].action == ToController
      else if Contains(m, src) then flows[k].action == Normal
      else if HostKey(vid, dst) in flows then flows[k].action.Forward?
      else (forall n :: !IsLongestStatic(routes, dst, n)) ==> flows[k].action == ToController
  {
    InsideMatches(vid, addrs, routes, flows, src, dst, m, k);
    assert HasAddressFlows(vid, addrs[m], flows);
    if k == HostKey(vid, dst) {
      HostForwards(vid, addrs, routes, flows, dst);
    }
  }

  lemma HostForwards(vid: nat, addrs: map<Net, Address>, routes: map<Net, Route>, flows: FlowTable, host: Ip)
    requires TablesServe(vid, addrs, routes, flows) && HostKey(vid, host) in flows
    ensures flows[HostKey(vid, host)].action.Forward?
  {
    var k := HostKey(vid, host);
    assert Own(vid, k) && Explained(vid, addrs, routes, k, flows[k]);
    if n :| n in routes && IsRouteFlow(vid, routes[n], k, flows[k]) {
      RouteFlowMatches(vid, n, routes[n], host, host);
    }
  }

  /** It decides, except that a misfiled route ties with the learning of hosts. */
  lemma InsideDecides(vid: nat, addrs: map<Net, Address>, routes: map<Net, Route>, flows: FlowTable,
                      src: Ip, dst: Ip, m: Net, k: FlowKey)
    requires TablesServe(vid, addrs, routes, flows)
    requires m in addrs && Contains(m, dst) && IsInsideKey(vid, addrs[m], routes, flows, src, dst, k)
    ensures Decides(vid, flows, src, dst, k) <==>
            !(k == MacLearningKey(vid, addrs[m]) && LearningTied(vid, addrs[m], routes))
  {
    InsideMatches(vid, addrs, routes, flows, src, dst, m, k);
    if k == MacLearningKey(vid, addrs[m]) && LearningTied(vid, addrs[m], routes) {
      var r := routes[DefaultNet()];
      assert HasRouteFlow(vid, r, flows);
      RouteFlowMatches(vid, DefaultNet(), r, src, dst);
      DefaultContainsAll(dst);
    } else {
      forall k' | k' in flows && Own(vid, k') && MatchesPacket(k'.mtch, src, dst) && k' != k
        ensures k'.priority < k.priority
      {
        InsideOutranks(vid, addrs, routes, flows, src, dst, m, k, k');
      }
    }
  }

  lemma InsideOutranks(vid: nat, addrs: map<Net, Address>, routes: map<Net, Route>, flows: FlowTable,
                       src: Ip, dst: Ip, m: Net, k: FlowKey, k': FlowKey)
    requires TablesServe(vid, addrs, routes, flows)
    requires m in addrs && Contains(m, dst) && IsInsideKey(vid, addrs[m], routes, flows, src, dst, k)
    requires !(k == MacLearningKey(vid, addrs[m]) && LearningTied(vid, addrs[m], routes))
    requires k' in flows && Own(vid, k') && MatchesPacket(k'.mtch, src, dst) && k' != k
    ensures k'.priority < k.priority
  {
    if k' != DefaultKey(vid) {
      InsideEntry(vid, addrs, routes, flows, src, dst, m, k');
    }
    hide TablesServe, IsInsideKey, MatchesPacket, LearningTied;
    if n :| n in routes && Contains(n, dst) && k' == RouteKey(vid, routes[n]) && routes[n].dstIp.Some? {
      OutranksRoute(vid, addrs[m], routes, flows, src, dst, k, n);
    } else {
      OutranksRest(vid, addrs[m], routes, flows, src, dst, k, k');
    }
  }

  lemma OutranksRest(vid: nat, a: Address, routes: map<Net, Route>, flows: FlowTable, src: Ip, dst: Ip,
                     k: FlowKey, k': FlowKey)
    requires RoutesOk(routes) && IsInsideKey(vid, a, routes, flows, src, dst, k) && k' in flows && k' != k
    requires || k' == DefaultKey(vid)
             || k' == MacLearningKey(vid, a)
             || (k' == IpHandlingKey(vid, a) && dst == a.defaultGw)
             || (k' == L2Key(vid, a) && Contains(a.Key(), src))
             || k' == HostKey(vid, dst)
    ensures k'.priority < k.priority
  {
    if s :| IsLongestStatic(routes, dst, s) && k == RouteKey(vid, routes[s]) {
      RouteFlowMatches(vid, s, routes[s], src, dst);
      assert s in routes && s != DefaultNet();
      ZeroLengthIsDefaultKey(s);
    }
  }

  lemma OutranksRoute(vid: nat, a: Address, routes: map<Net, Route>, flows: FlowTable, src: Ip, dst: Ip,
                      k: FlowKey, n: Net)
    requires RoutesOk(routes) && n in routes && Contains(n, dst) && RouteKey(vid, routes[n]) != k
    requires IsInsideKey(vid, a, routes, flows, src, dst, k)
    requires !(k == MacLearningKey(vid, a) && LearningTied(vid, a, routes))
    ensures RouteKey(vid, routes[n]).priority < k.priority
  {
    RouteFlowMatches(vid, n, routes[n], src, dst);
    if dst == a.defaultGw || Contains(a.Key(), src) || HostKey(vid, dst) in flows {
    } else if exists s :: IsLongestStatic(routes, dst, s) {
      var s :| IsLongestStatic(routes, dst, s) && k == RouteKey(vid, routes[s]);
      RouteFlowMatches(vid, s, routes[s], src, dst);
      LongestIsLonger(routes, dst, s, n);
    } else if n != DefaultNet() {
      NoStaticContains(routes, dst, n);
    }
  }

  lemma LongestIsLonger(routes: map<Net, Route>, dst: Ip, s: Net, n: Net)
    requires IsLongestStatic(routes, dst, s) && n in routes && Contains(n, dst) && n != s && RoutesOk(routes)
    ensures n.len < s.len && routes[s].dstIp.Some?
  {
    assert RouteOk(s, routes[s]);
    ZeroLengthIsDefaultKey(s);
    if n.len == s.len {
      SameLengthSameNet(n, s, dst);
    }
  }

  lemma NoStaticContains(routes: map<Net, Route>, dst: Ip, n: Net)
    requires n in routes && n != DefaultNet() && Contains(n, dst)
    ensures exists s :: IsLongestStatic(routes, dst, s)
  {
    var s := LongestMatchExists(routes - {DefaultNet()}, dst);
    assert n in routes - {DefaultNet()};
    assert IsLongestStatic(routes, dst, s.value);
  }

  /** No address cookie is that of the route. */
  ghost predicate OwnCookie(addrs: map<Net, Address>, r: Route) {
    forall m :: m in addrs ==> addrs[m].id != r.id * TWO16
  }

  /** A route's cookie sits on exactly one entry of the whole switch, its own, unless an address has the
      route's id in route position. */
  lemma OneFlowPerRoute(vid: nat, addrs: map<Net, Address>, routes: map<Net, Route>, flows: FlowTable, n: Net,
                        k: FlowKey)
    requires AddressesOk(addrs) && RoutesOk(routes) && FlowsOk(vid, addrs, routes, flows)
    requires RouteIdsDistinct(routes) && n in routes && routes[n].id <= UINT16_MAX && OwnCookie(addrs, routes[n])
    requires k in flows
    ensures flows[k].cookie == RouteCookie(vid, routes[n]) <==> k == RouteKey(vid, routes[n])
  {
    CookieClasses(vid, routes[n].id);
    assert HasRouteFlow(vid, routes[n], flows);
    if Own(vid, k) {
      assert Explained(vid, addrs, routes, k, flows[k]);
      if m :| m in addrs && IsAddressFlow(vid, addrs[m], k, flows[k]) {
        AddressCookieDecodes(vid, addrs[m].id);
      }
    }
  }

  /** What the cookie of an entry says about the entry. */
  lemma ExplainedCookie(vid: nat, addrs: map<Net, Address>, routes: map<Net, Route>, flows: FlowTable, k: FlowKey)
    requires AddressesOk(addrs) && RoutesOk(routes) && FlowsOk(vid, addrs, routes, flows) && IdsFit(addrs, routes)
    requires k in flows && CookieToId(VlanId, flows[k].cookie) == vid
    ensures var low := CookieToId(AddressId, flows[k].cookie);
            || (low == 0 && flows[k].cookie == IdToCookie(vid, VlanId, vid)
                && (Own(vid, k) ==> k == DefaultKey(vid) && DefaultNet() !in routes))
            || (1 <= low <= UINT16_MAX && Own(vid, k) && CookieToId(RouteId, flows[k].cookie) == 0
                && exists n :: n in addrs && addrs[n].id == low && IsAddressFlow(vid, addrs[n], k, flows[k]))
            || (low == CookieToId(RouteId, flows[k].cookie) * TWO16 > UINT16_MAX && Own(vid, k)
                && exists n :: n in routes && routes[n].id * TWO16 == low && IsRouteFlow(vid, routes[n], k, flows[k]))
  {
    var f := flows[k];
    if Own(vid, k) {
      assert Explained(vid, addrs, routes, k, f);
      if n :| n in routes && IsRouteFlow(vid, routes[n], k, f) {
        CookieClasses(vid, routes[n].id);
      } else if n :| n in addrs && IsAddressFlow(vid, addrs[n], k, f) {
        CookieClasses(vid, addrs[n].id);
      } else {
        CookieClasses(vid, 1);
      }
    } else {
      CookieClasses(vid, 1);
    }
  }
}
