/** Deleting routes and addresses: the deletion loops take entries from the switch and rows from the tables
    by what the cookies read as. */
module RouterDeletes {
  import opened Wrappers
  import opened Ipv4
  import opened AddressDatas
  import opened RoutingTables
  import opened RouterFlows
  import opened RouterSteps

  datatype FlowStats = FlowStats(key: FlowKey, flow: Flow)

  /** The listing is a snapshot of the flow table. */
  ghost predicate Snapshot(flows: FlowTable, stats: seq<FlowStats>) {
    && (forall s :: s in stats ==> s.key in flows && flows[s.key] == s.flow)
    && (forall k :: k in flows ==> FlowStats(k, flows[k]) in stats)
  }

  ghost predicate Distinct(stats: seq<FlowStats>) {
    forall i, j :: 0 <= i < j < |stats| ==> stats[i].key != stats[j].key
  }

  lemma ExtendDistinct(stats: seq<FlowStats>, i: nat, list: seq<FlowStats>)
    requires i < |stats| && Distinct(stats) && Distinct(list)
    requires forall s :: s in list ==> s in stats[..i]
    ensures Distinct(list + [stats[i]])
  {
    forall j | 0 <= j < |list|
      ensures list[j].key != stats[i].key
    {
      assert list[j] in stats[..i];
    }
  }

  // ----- rows go by id -----

  /** The ids that the deletion loop reads off the listed cookies. */
  ghost function Ids(idType: IdType, list: seq<FlowStats>): seq<nat> {
    seq(|list|, i requires 0 <= i < |list| => CookieToId(idType, list[i].flow.cookie))
  }

  ghost function RouteIds(t: map<Net, Route>): map<Net, nat> {
    map n | n in t :: t[n].id
  }

  ghost function AddressIds(t: map<Net, Address>): map<Net, nat> {
    map n | n in t :: t[n].id
  }

  ghost function RowsWith(rows: map<Net, nat>, id: nat): set<Net> {
    set n | n in rows && rows[n] == id
  }

  /** One row with this id goes, if there is one. */
  ghost predicate OneGoes(rows: map<Net, nat>, rows': map<Net, nat>, id: nat) {
    if RowsWith(rows, id) == {} then rows' == rows
    else exists n :: n in RowsWith(rows, id) && rows' == rows - {n}
  }

  /** `todo` names each of the `wanted` ids at least as often as there are rows with it. */
  ghost predicate Enough(rows: map<Net, nat>, wanted: set<nat>, todo: seq<nat>) {
    forall id :: id in wanted ==> |RowsWith(rows, id)| <= multiset(todo)[id]
  }

  lemma EnoughNext(rows: map<Net, nat>, rows': map<Net, nat>, wanted: set<nat>, todo: seq<nat>)
    requires todo != [] && Enough(rows, wanted, todo) && OneGoes(rows, rows', todo[0])
    ensures Enough(rows', wanted, todo[1..])
  {
    assert todo == [todo[0]] + todo[1..];
    forall id | id in wanted
      ensures |RowsWith(rows', id)| <= multiset(todo[1..])[id]
    {
      if n :| n in RowsWith(rows, todo[0]) && rows' == rows - {n} {
        assert RowsWith(rows', id) == RowsWith(rows, id) - {n};
      }
    }
  }

  lemma NoneWanted(rows: map<Net, nat>, wanted: set<nat>)
    requires Enough(rows, wanted, [])
    ensures forall n :: n in rows ==> rows[n] !in wanted
  {
    forall n | n in rows
      ensures rows[n] !in wanted
    {
      assert n in RowsWith(rows, rows[n]);
    }
  }

  /** Rows whose entries are all listed are no more than the listed entries with their id. */
  lemma {:induction false} EntriesCount(idType: IdType, rows: set<Net>, entry: map<Net, FlowStats>,
                                        list: seq<FlowStats>, id: nat)
    requires forall n :: n in rows ==>
               n in entry && entry[n] in list && CookieToId(idType, entry[n].flow.cookie) == id
    requires forall m, n :: m in rows && n in rows && entry[m] == entry[n] ==> m == n
    ensures |rows| <= multiset(Ids(idType, list))[id]
    decreases rows
  {
    if rows != {} {
      var n :| n in rows;
      var j :| 0 <= j < |list| && list[j] == entry[n];
      var rest := list[..j] + list[j + 1..];
      forall m | m in rows - {n}
        ensures entry[m] in rest
      {
        var i :| 0 <= i < |list| && list[i] == entry[m];
        assert if i < j then rest[i] == entry[m] else rest[i - 1] == entry[m];
      }
      EntriesCount(idType, rows - {n}, entry, rest, id);
      IdsWithout(idType, list, j);
    }
  }

  lemma IdsWithout(idType: IdType, list: seq<FlowStats>, j: nat)
    requires j < |list|
    ensures multiset(Ids(idType, list)) == multiset(Ids(idType, list[..j] + list[j + 1..]))
                                           + multiset{CookieToId(idType, list[j].flow.cookie)}
  {
    var ids := Ids(idType, list);
    assert Ids(idType, list[..j] + list[j + 1..]) == ids[..j] + ids[j + 1..];
    hide Ids, CookieToId;
    OneLess(ids, j);
  }

  lemma OneLess(ids: seq<nat>, j: nat)
    requires j < |ids|
    ensures multiset(ids) == multiset(ids[..j] + ids[j + 1..]) + multiset{ids[j]}
  {
    assert ids == ids[..j] + [ids[j]] + ids[j + 1..];
  }

  lemma IdAt(idType: IdType, list: seq<FlowStats>, i: nat)
    requires i < |list|
    ensures |Ids(idType, list)| == |list| && Ids(idType, list)[i] == CookieToId(idType, list[i].flow.cookie)
  {
  }

  lemma IdsLength(idType: IdType, list: seq<FlowStats>)
    ensures |Ids(idType, list)| == |list|
  {
  }

  lemma OneRouteGoes(t: map<Net, Route>, t': map<Net, Route>, id: nat)
    requires if RouteIdTaken(t, id) then exists n :: n in t && t[n].id == id && t' == t - {n} else t' == t
    ensures IsPart(t', t) && OneGoes(RouteIds(t), RouteIds(t'), id)
  {
    if n :| n in t && t[n].id == id && t' == t - {n} {
      assert n in RowsWith(RouteIds(t), id) && RouteIds(t') == RouteIds(t) - {n};
    } else {
      assert RowsWith(RouteIds(t), id) == {};
    }
  }

  lemma OneAddressGoes(t: map<Net, Address>, t': map<Net, Address>, id: nat)
    requires if AddressIdTaken(t, id) then exists n :: n in t && t[n].id == id && t' == t - {n} else t' == t
    ensures OneGoes(AddressIds(t), AddressIds(t'), id)
  {
    if n :| n in t && t[n].id == id && t' == t - {n} {
      assert n in RowsWith(AddressIds(t), id) && AddressIds(t') == AddressIds(t) - {n};
    } else {
      assert RowsWith(AddressIds(t), id) == {};
    }
  }

  /** Rows went only with listed ids. */
  ghost predicate OnlyListedGo(rows: map<Net, nat>, rows': map<Net, nat>, ids: seq<nat>) {
    forall n :: n in rows && n !in rows' ==> rows[n] in ids
  }

  lemma OnlyListedNext(rows: map<Net, nat>, rows1: map<Net, nat>, rows2: map<Net, nat>, ids: seq<nat>, i: nat)
    requires i < |ids| && OnlyListedGo(rows, rows1, ids) && OneGoes(rows1, rows2, ids[i])
    requires forall n :: n in rows1 ==> n in rows && rows1[n] == rows[n]
    ensures OnlyListedGo(rows, rows2, ids)
  {
  }

  /** Part-way through the deletion loop. */
  ghost predicate RowsTracked(rows0: map<Net, nat>, rows: map<Net, nat>, wanted: set<nat>, ids: seq<nat>, i: nat) {
    && i <= |ids|
    && (forall n :: n in rows ==> n in rows0 && rows[n] == rows0[n])
    && OnlyListedGo(rows0, rows, ids)
    && (Enough(rows0, wanted, ids) ==> Enough(rows, wanted, ids[i..]))
  }

  lemma RowsTrackedStart(rows: map<Net, nat>, wanted: set<nat>, ids: seq<nat>)
    ensures RowsTracked(rows, rows, wanted, ids, 0)
  {
  }

  lemma RowsTrackedNext(rows0: map<Net, nat>, rows1: map<Net, nat>, rows2: map<Net, nat>, wanted: set<nat>,
                        ids: seq<nat>, i: nat)
    requires i < |ids| && RowsTracked(rows0, rows1, wanted, ids, i) && OneGoes(rows1, rows2, ids[i])
    ensures RowsTracked(rows0, rows2, wanted, ids, i + 1)
  {
    OnlyListedNext(rows0, rows1, rows2, ids, i);
    if Enough(rows0, wanted, ids) {
      assert ids[i..][0] == ids[i] && ids[i..][1..] == ids[i + 1..];
      EnoughNext(rows1, rows2, wanted, ids[i..]);
    }
  }

  /** In the end none of the wanted ids is left, if there were enough entries. */
  lemma RowsTrackedEnd(rows0: map<Net, nat>, rows: map<Net, nat>, wanted: set<nat>, ids: seq<nat>)
    requires RowsTracked(rows0, rows, wanted, ids, |ids|)
    ensures OnlyListedGo(rows0, rows, ids)
    ensures Enough(rows0, wanted, ids) ==> forall n :: n in rows ==> rows[n] !in wanted
  {
    assert ids[|ids|..] == [];
    if Enough(rows0, wanted, ids) {
      NoneWanted(rows, wanted);
    }
  }

  // ----- entries go by cookie -----

  /** `delete_flow`: OpenFlow 1.0 deletes the one entry strictly, later versions delete by cookie. */
  function AfterDelete(ofp10: bool, flows: FlowTable, s: FlowStats): FlowTable {
    if ofp10 then flows - {s.key}
    else map k | k in flows && flows[k].cookie != s.flow.cookie :: flows[k]
  }

  /** The priority for which the deletion loop puts the drop entry back. An entry of the enclosing router
      may have it too. */
  predicate RestoresDrop(vid: nat, s: FlowStats) {
    GetPriorityType(s.key.priority, vid) == PRIORITY_DEFAULT_ROUTING
  }

  /** The flow table after one round of the deletion loop. */
  function AfterEntry(vid: nat, ofp10: bool, flows: FlowTable, s: FlowStats): FlowTable {
    var rest := AfterDelete(ofp10, flows, s);
    if RestoresDrop(vid, s) then rest[DefaultKey(vid) := DropFlow(vid)] else rest
  }

  ghost predicate CookieListed(list: seq<FlowStats>, cookie: nat) {
    exists s :: s in list && s.flow.cookie == cookie
  }

  /** The listed entries are gone, and of the others only such that share the cookie of a listed one. */
  ghost predicate AllDeleted(vid: nat, before: FlowTable, after: FlowTable, done: seq<FlowStats>) {
    && (forall s :: s in done && s.key in after ==> s.key == DefaultKey(vid))
    && (forall k :: k in after && k != DefaultKey(vid) ==> k in before && after[k] == before[k])
    && (forall k :: k in before && k !in after && k != DefaultKey(vid) ==> CookieListed(done, before[k].cookie))
  }

  lemma NothingDeletedYet(vid: nat, ofp10: bool, flows: FlowTable, list: seq<FlowStats>)
    ensures AllDeleted(vid, flows, flows, [])
    ensures DefaultKey(vid) in flows ==> DropTracked(vid, ofp10, flows, flows, list, 0)
  {
  }

  lemma AllDeletedNext(vid: nat, ofp10: bool, f0: FlowTable, f: FlowTable, list: seq<FlowStats>, i: nat)
    requires i < |list| && AllDeleted(vid, f0, f, list[..i]) && list[i].key in f0 && f0[list[i].key] == list[i].flow
    ensures AllDeleted(vid, f0, AfterEntry(vid, ofp10, f, list[i]), list[..i + 1])
  {
  }

  // ----- route requests -----

  /** `id` is one the client asks for; None is "all". */
  predicate Asked(request: Option<int>, id: nat) {
    request.None? || request.value == id
  }

  predicate SelectedRoute(vid: nat, request: Option<int>, s: FlowStats) {
    && CookieToId(VlanId, s.flow.cookie) == vid
    && if request.None? then CookieToId(RouteId, s.flow.cookie) != COOKIE_DEFAULT_ID
       else request.value == CookieToId(RouteId, s.flow.cookie)
  }

  /** `id` is one that a route-delete request goes through with: cookies hold 16 bits of it. */
  predicate AskedRoute(request: Option<int>, id: nat) {
    Asked(request, id) && id <= UINT16_MAX
  }

  /** The cookie of an address with this id reads as that of an asked route. */
  predicate ReadsAsRoute(request: Option<int>, id: nat) {
    if request.None? then id > UINT16_MAX else request.value == id / TWO16
  }

  ghost predicate NoneReadsAsRoute(addrs: map<Net, Address>, request: Option<int>) {
    forall m :: m in addrs ==> !ReadsAsRoute(request, addrs[m].id)
  }

  /** Which entries a request to delete routes picks: those of a route with the asked id, as long as that
      id fits 16 bits, and those of an address whose cookie reads as an asked route. */
  lemma SelectedRouteIff(vid: nat, request: Option<int>, r: Route, a: Address, k: FlowKey, action: Action)
    requires 1 <= r.id <= UINT32_MAX && 1 <= a.id <= UINT32_MAX
    ensures SelectedRoute(vid, request, FlowStats(k, Flow(RouteCookie(vid, r), action))) <==>
            Asked(request, r.id) && r.id <= UINT16_MAX
    ensures SelectedRoute(vid, request, FlowStats(k, Flow(AddressCookie(vid, a), action))) <==>
              ReadsAsRoute(request, a.id)
  {
  }

  lemma ForeignAfterRoutes(vid: nat, flows: FlowTable, request: Option<int>, stats: seq<FlowStats>,
                           list: seq<FlowStats>, flows': FlowTable)
    requires ForeignOk(vid, flows) && Snapshot(flows, stats) && AllDeleted(vid, flows, flows', list)
    requires forall s :: s in list <==> s in stats && SelectedRoute(vid, request, s)
    ensures ForeignAfter(vid, request, flows, flows')
  {
  }

  /** `t` holds some of the rows of `t0`. */
  ghost predicate IsPart(t: map<Net, Route>, t0: map<Net, Route>) {
    forall n :: n in t ==> n in t0 && t[n] == t0[n]
  }

  lemma PartOfItself(t: map<Net, Route>)
    ensures IsPart(t, t)
  {
  }

  lemma PartOfPart(t: map<Net, Route>, t1: map<Net, Route>, t0: map<Net, Route>)
    requires IsPart(t, t1) && IsPart(t1, t0)
    ensures IsPart(t, t0)
  {
  }

  lemma PartCovered(addrs: map<Net, Address>, t0: map<Net, Route>, t: map<Net, Route>)
    requires GatewaysCovered(addrs, t0) && IsPart(t, t0)
    ensures GatewaysCovered(addrs, t)
  {
  }

  /** Which rows a route-delete request takes: all with an asked id, since each has an entry in the listing. */
  lemma RouteRows(request: Option<int>, r0: map<Net, Route>, r: map<Net, Route>, vid: nat,
                  stats: seq<FlowStats>, list: seq<FlowStats>)
    requires forall s :: s in list <==> s in stats && SelectedRoute(vid, request, s)
    requires IsPart(r, r0) && OnlyListedGo(RouteIds(r0), RouteIds(r), Ids(RouteId, list))
    requires forall n :: n in RouteIds(r) ==> RouteIds(r)[n] !in AskedIds(request, r0)
    ensures r == map n | n in r0 && !AskedRoute(request, r0[n].id) :: r0[n]
  {
    forall n | n in r0
      ensures n in r <==> !AskedRoute(request, r0[n].id)
    {
      if n in r {
        assert n in RouteIds(r);
      } else {
        assert RouteIds(r0)[n] in Ids(RouteId, list);
        var j :| 0 <= j < |list| && CookieToId(RouteId, list[j].flow.cookie) == r0[n].id;
        assert list[j] in list;
      }
    }
  }

  ghost function AskedIds(request: Option<int>, routes: map<Net, Route>): set<nat> {
    set n | n in routes && AskedRoute(request, routes[n].id) :: routes[n].id
  }

  lemma EnoughRouteEntries(vid: nat, routes: map<Net, Route>, flows: FlowTable, request: Option<int>,
                           stats: seq<FlowStats>, list: seq<FlowStats>)
    requires RoutesOk(routes) && RoutesHaveFlows(vid, routes, flows) && Snapshot(flows, stats)
    requires forall s :: s in list <==> s in stats && SelectedRoute(vid, request, s)
    ensures Enough(RouteIds(routes), AskedIds(request, routes), Ids(RouteId, list))
  {
    var entry := map n | n in routes && HasRouteFlow(vid, routes[n], flows) ::
      FlowStats(RouteKey(vid, routes[n]), flows[RouteKey(vid, routes[n])]);
    forall id | id in AskedIds(request, routes)
      ensures |RowsWith(RouteIds(routes), id)| <= multiset(Ids(RouteId, list))[id]
    {
      CookieClasses(vid, id);
      forall n | n in RowsWith(RouteIds(routes), id)
        ensures n in entry && entry[n] in list && CookieToId(RouteId, entry[n].flow.cookie) == id
      {
        assert HasRouteFlow(vid, routes[n], flows);
      }
      forall m, n | m in RowsWith(RouteIds(routes), id) && n in RowsWith(RouteIds(routes), id) && entry[m] == entry[n]
        ensures m == n
      {
        RouteKeysApart(vid, m, routes[m], n, routes[n]);
      }
      EntriesCount(RouteId, RowsWith(RouteIds(routes), id), entry, list, id);
    }
  }

  /** What a request for routes leaves of the flow table: the entries whose cookies read as an asked route
      go, and the drop entry takes the place of one at the bottom. */
  function WithoutRoutes(vid: nat, request: Option<int>, flows: FlowTable): FlowTable {
    var k0 := DefaultKey(vid);
    var rest := map k | k in flows && !SelectedRoute(vid, request, FlowStats(k, flows[k])) :: flows[k];
    if k0 in flows && SelectedRoute(vid, request, FlowStats(k0, flows[k0])) then rest[k0 := DropFlow(vid)] else rest
  }

  /** A listing for an id other than 0, or for all, in which only the bottom entry has the drop entry's
      priority. */
  ghost predicate PlainListing(vid: nat, request: Option<int>, flows: FlowTable, list: seq<FlowStats>) {
    && request != Some(0) && Distinct(list)
    && (forall s :: s in list <==> s.key in flows && flows[s.key] == s.flow && SelectedRoute(vid, request, s))
    && (forall s :: s in list ==> (RestoresDrop(vid, s) <==> s.key == DefaultKey(vid)))
  }

  lemma ServingListsPlainly(vid: nat, addrs: map<Net, Address>, routes: map<Net, Route>, flows: FlowTable,
                            request: Option<int>, stats: seq<FlowStats>, list: seq<FlowStats>)
    requires TablesServe(vid, addrs, routes, flows) && request != Some(0)
    requires Snapshot(flows, stats) && Distinct(list)
    requires forall s :: s in list <==> s in stats && SelectedRoute(vid, request, s)
    ensures PlainListing(vid, request, flows, list)
  {
    CookieClasses(vid, 1);
    forall s | s in list
      ensures RestoresDrop(vid, s) <==> s.key == DefaultKey(vid)
    {
      assert Own(vid, s.key);
      if s.key != DefaultKey(vid) {
        assert Explained(vid, addrs, routes, s.key, s.flow);
        if n :| n in routes && IsRouteFlow(vid, routes[n], s.key, s.flow) {
          RouteFlowMatches(vid, n, routes[n], Zero(), Zero());
        }
      }
    }
  }

  /** Part-way through such a listing, strict or not: what was processed is gone, what is not listed stays. */
  ghost predicate PlainTracked(vid: nat, request: Option<int>, before: FlowTable, after: FlowTable,
                               list: seq<FlowStats>, i: nat)
    requires i <= |list|
  {
    var k0 := DefaultKey(vid);
    && (forall k :: k in after && k != k0 ==>
                      k in before && after[k] == before[k] && FlowStats(k, before[k]) !in list[..i])
    && (forall k :: k in before && k != k0 && FlowStats(k, before[k]) !in list ==> k in after)
    && if k0 in before && FlowStats(k0, before[k0]) in list then
         && (FlowStats(k0, before[k0]) in list[..i] ==> k0 in after && after[k0] == DropFlow(vid))
         && (k0 in after ==> after[k0] == before[k0] || after[k0] == DropFlow(vid))
       else (k0 in after <==> k0 in before) && (k0 in after ==> after[k0] == before[k0])
  }

  lemma PlainStart(vid: nat, request: Option<int>, flows: FlowTable, list: seq<FlowStats>)
    ensures PlainTracked(vid, request, flows, flows, list, 0)
  {
  }

  lemma PlainTrackedNext(vid: nat, ofp10: bool, request: Option<int>, before: FlowTable, after: FlowTable,
                         list: seq<FlowStats>, i: nat)
    requires i < |list| && PlainListing(vid, request, before, list)
    requires PlainTracked(vid, request, before, after, list, i)
    ensures PlainTracked(vid, request, before, AfterEntry(vid, ofp10, after, list[i]), list, i + 1)
  {
  }

  lemma PlainResult(vid: nat, request: Option<int>, before: FlowTable, after: FlowTable, list: seq<FlowStats>)
    requires PlainListing(vid, request, before, list) && PlainTracked(vid, request, before, after, list, |list|)
    ensures after == WithoutRoutes(vid, request, before)
  {
  }

  /** After such a request the switch goes on serving the tables exactly if no address's cookie reads as an
      asked route, and the bottom entry stays right. */
  lemma RoutesGone(vid: nat, addrs: map<Net, Address>, r0: map<Net, Route>, f0: FlowTable, request: Option<int>,
                   r: map<Net, Route>, f: FlowTable)
    requires TablesServe(vid, addrs, r0, f0) && request != Some(0) && NoneReadsAsRoute(addrs, request)
    requires r == map n | n in r0 && !AskedRoute(request, r0[n].id) :: r0[n]
    requires f == WithoutRoutes(vid, request, f0)
    ensures FlowsServe(vid, addrs, r, f)
  {
    CookieClasses(vid, 1);
    RoutesGoneExplained(vid, addrs, r0, f0, request, r, f);
    forall n | n in r
      ensures HasRouteFlow(vid, r[n], f)
    {
      var k := RouteKey(vid, r0[n]);
      assert HasRouteFlow(vid, r0[n], f0);
      RouteSelected(vid, request, r0[n], k, f0[k]);
    }
    forall m | m in addrs
      ensures HasAddressFlows(vid, addrs[m], f)
    {
      assert HasAddressFlows(vid, addrs[m], f0) && !ReadsAsRoute(request, addrs[m].id);
      AddressSelected(vid, request, addrs[m]);
    }
  }

  lemma RoutesGoneExplained(vid: nat, addrs: map<Net, Address>, r0: map<Net, Route>, f0: FlowTable,
                            request: Option<int>, r: map<Net, Route>, f: FlowTable)
    requires RoutesOk(r0) && ExplainedAbove(vid, addrs, r0, f0)
    requires r == map n | n in r0 && !AskedRoute(request, r0[n].id) :: r0[n]
    requires f == WithoutRoutes(vid, request, f0)
    ensures ExplainedAbove(vid, addrs, r, f)
  {
    forall k | k in f && Own(vid, k) && k != DefaultKey(vid)
      ensures Explained(vid, addrs, r, k, f[k])
    {
      assert Explained(vid, addrs, r0, k, f0[k]);
      if n :| n in r0 && IsRouteFlow(vid, r0[n], k, f0[k]) {
        RouteSelected(vid, request, r0[n], k, f0[k]);
        assert n in r && IsRouteFlow(vid, r[n], k, f[k]);
      }
    }
  }

  lemma RouteSelected(vid: nat, request: Option<int>, r: Route, k: FlowKey, f: Flow)
    requires 1 <= r.id <= UINT32_MAX && f.cookie == RouteCookie(vid, r)
    ensures SelectedRoute(vid, request, FlowStats(k, f)) <==> AskedRoute(request, r.id)
  {
  }

  lemma AddressSelected(vid: nat, request: Option<int>, a: Address)
    requires 1 <= a.id <= UINT32_MAX && !ReadsAsRoute(request, a.id)
    ensures forall s: FlowStats :: s.flow.cookie == AddressCookie(vid, a) ==> !SelectedRoute(vid, request, s)
  {
  }

  lemma RoutesGoneBottom(vid: nat, addrs: map<Net, Address>, r0: map<Net, Route>, f0: FlowTable,
                         request: Option<int>, r: map<Net, Route>, f: FlowTable)
    requires TablesServe(vid, addrs, r0, f0) && request != Some(0) && BottomRight(vid, r0, f0)
    requires r == map n | n in r0 && !AskedRoute(request, r0[n].id) :: r0[n]
    requires f == WithoutRoutes(vid, request, f0)
    ensures BottomRight(vid, r, f)
  {
    CookieClasses(vid, 1);
    if DefaultNet() in r0 {
      assert HasRouteFlow(vid, r0[DefaultNet()], f0);
      RouteSelected(vid, request, r0[DefaultNet()], DefaultKey(vid), f0[DefaultKey(vid)]);
    }
  }

  lemma ListedNext(list: seq<FlowStats>, i: nat)
    requires i < |list|
    ensures forall id :: Listed(list[..i + 1], id) <==>
              Listed(list[..i], id) || CookieToId(RouteId, list[i].flow.cookie) == id
  {
  }

  ghost predicate Listed(list: seq<FlowStats>, id: nat) {
    exists s :: s in list && CookieToId(RouteId, s.flow.cookie) == id
  }

  /** When the views agree, the ids reported as deleted are those of the asked routes. */
  lemma ReportedIds(vid: nat, addrs: map<Net, Address>, routes: map<Net, Route>, flows: FlowTable,
                    request: Option<int>, stats: seq<FlowStats>, list: seq<FlowStats>, id: nat)
    requires TablesServe(vid, addrs, routes, flows) && BottomRight(vid, routes, flows) && Snapshot(flows, stats)
    requires NoneReadsAsRoute(addrs, request) && request != Some(0)
    requires forall s :: s in list <==> s in stats && SelectedRoute(vid, request, s)
    ensures Listed(list, id) <==> RouteIdTaken(routes, id) && AskedRoute(request, id)
  {
    if Listed(list, id) {
      var s :| s in list && CookieToId(RouteId, s.flow.cookie) == id;
      CookieClasses(vid, 1);
      AgreeIffServeAndBottom(vid, addrs, routes, flows);
      assert Own(vid, s.key) && Explained(vid, addrs, routes, s.key, s.flow);
      if n :| n in routes && IsRouteFlow(vid, routes[n], s.key, s.flow) {
        RouteCookieDecodesIff(vid, routes[n].id);
      } else {
        var m :| m in addrs && IsAddressFlow(vid, addrs[m], s.key, s.flow);
        AddressSelected(vid, request, addrs[m]);
        assert false;
      }
    } else if n :| n in routes && routes[n].id == id && AskedRoute(request, id) {
      assert HasRouteFlow(vid, routes[n], flows);
      CookieClasses(vid, id);
      assert FlowStats(RouteKey(vid, routes[n]), flows[RouteKey(vid, routes[n])]) in list;
    }
  }

  /** An address whose cookie reads as an asked route loses its entries. */
  lemma AddressEntryListed(vid: nat, addrs: map<Net, Address>, flows: FlowTable, request: Option<int>,
                           stats: seq<FlowStats>, list: seq<FlowStats>, flows': FlowTable)
    requires AddressesOk(addrs) && AddressesHaveFlows(vid, addrs, flows) && !NoneReadsAsRoute(addrs, request)
    requires Snapshot(flows, stats)
    requires forall s :: s in list <==> s in stats && SelectedRoute(vid, request, s)
    requires AllDeleted(vid, flows, flows', list)
    ensures !AddressesHaveFlows(vid, addrs, flows')
  {
    var m :| m in addrs && ReadsAsRoute(request, addrs[m].id);
    assert HasAddressFlows(vid, addrs[m], flows);
    AddressCookieDecodes(vid, addrs[m].id);
    var s := FlowStats(MacLearningKey(vid, addrs[m]), flows[MacLearningKey(vid, addrs[m])]);
    assert s in list;
    assert !HasAddressFlows(vid, addrs[m], flows');
  }

  // ----- route id 0 -----

  /** What the switch holds where the drop entry or the default route's entry belongs, after `i` rounds over
      entries that share the drop entry's cookie. */
  ghost predicate DropTracked(vid: nat, ofp10: bool, before: FlowTable, flows: FlowTable, list: seq<FlowStats>, i: nat)
    requires i <= |list|
  {
    var k := DefaultKey(vid);
    && k in before && (k in flows ==> flows[k] == before[k] || flows[k] == DropFlow(vid))
    && if before[k] == DropFlow(vid) then k in flows <==> i == 0 || ofp10 || RestoresDrop(vid, list[i - 1])
       else k in flows && flows[k] == before[k] <==> forall j :: 0 <= j < i ==> !RestoresDrop(vid, list[j])
  }

  lemma DropTrackedNext(vid: nat, ofp10: bool, before: FlowTable, flows: FlowTable, list: seq<FlowStats>, i: nat)
    requires i < |list| && DropTracked(vid, ofp10, before, flows, list, i)
    requires list[i].flow.cookie == DropFlow(vid).cookie && list[i].key in before && before[list[i].key] == list[i].flow
    requires before[DefaultKey(vid)] == DropFlow(vid) || before[DefaultKey(vid)].cookie != DropFlow(vid).cookie
    ensures DropTracked(vid, ofp10, before, AfterEntry(vid, ofp10, flows, list[i]), list, i + 1)
  {
  }

  /** The entry without a destination spells the default route or drops. */
  ghost predicate DropOrDefault(vid: nat, routes: map<Net, Route>, flows: FlowTable) {
    && DefaultKey(vid) in flows
    && if DefaultNet() in routes then flows[DefaultKey(vid)].cookie != DropFlow(vid).cookie
       else flows[DefaultKey(vid)] == DropFlow(vid)
  }

  /** A request for route id 0 that no address's cookie meets lists the entries with the drop entry's cookie. */
  lemma ZeroListing(vid: nat, addrs: map<Net, Address>, routes: map<Net, Route>, flows: FlowTable,
                    stats: seq<FlowStats>, list: seq<FlowStats>)
    requires TablesServe(vid, addrs, routes, flows) && BottomRight(vid, routes, flows)
    requires NoneReadsAsRoute(addrs, Some(0)) && Snapshot(flows, stats) && Distinct(list)
    requires forall s :: s in list <==> s in stats && SelectedRoute(vid, Some(0), s)
    ensures DropOrDefault(vid, routes, flows) && IsZeroListing(vid, flows, list)
    ensures DefaultNet() !in routes ==> list != []
  {
    CookieClasses(vid, 1);
    if DefaultNet() in routes {
      var r := routes[DefaultNet()];
      assert HasRouteFlow(vid, r, flows);
      RouteCookieDecodesIff(vid, r.id);
    } else {
      assert FlowStats(DefaultKey(vid), DropFlow(vid)) in list;
    }
    forall s: FlowStats | s.key in flows && flows[s.key] == s.flow
      ensures s in list <==> s.flow.cookie == DropFlow(vid).cookie
    {
      ZeroCookie(vid, addrs, routes, flows, s);
    }
  }

  lemma ZeroCookie(vid: nat, addrs: map<Net, Address>, routes: map<Net, Route>, flows: FlowTable, s: FlowStats)
    requires TablesServe(vid, addrs, routes, flows) && BottomRight(vid, routes, flows)
    requires NoneReadsAsRoute(addrs, Some(0)) && s.key in flows && flows[s.key] == s.flow
    ensures SelectedRoute(vid, Some(0), s) <==> s.flow.cookie == DropFlow(vid).cookie
  {
    CookieClasses(vid, 1);
    if Own(vid, s.key) {
      AgreeIffServeAndBottom(vid, addrs, routes, flows);
      assert Explained(vid, addrs, routes, s.key, s.flow);
      OwnCookie0(vid, addrs, routes, s.key, s.flow);
    }
  }

  /** Route id 0 in this VLAN is the drop entry's among the VLAN's own. */
  lemma OwnCookie0(vid: nat, addrs: map<Net, Address>, routes: map<Net, Route>, k: FlowKey, f: Flow)
    requires AddressesOk(addrs) && RoutesOk(routes) && NoneReadsAsRoute(addrs, Some(0))
    requires Explained(vid, addrs, routes, k, f)
    ensures CookieToId(VlanId, f.cookie) == vid && CookieToId(RouteId, f.cookie) == 0 ==>
            k == DefaultKey(vid) && f == DropFlow(vid) && DefaultNet() !in routes
  {
  }

  /** Whether such a request spares the drop entry, or the default route's: the entries are listed in an
      order of the switch, and deletion by cookie takes the drop entry along each time. */
  ghost predicate DropSpared(vid: nat, ofp10: bool, routes: map<Net, Route>, list: seq<FlowStats>) {
    if DefaultNet() in routes then forall j :: 0 <= j < |list| ==> !RestoresDrop(vid, list[j])
    else list != [] && (ofp10 || RestoresDrop(vid, list[|list| - 1]))
  }

  lemma ZeroSparesRest(vid: nat, addrs: map<Net, Address>, routes: map<Net, Route>, flows: FlowTable,
                       list: seq<FlowStats>, flows': FlowTable)
    requires TablesServe(vid, addrs, routes, flows) && NoneReadsAsRoute(addrs, Some(0))
    requires IsZeroListing(vid, flows, list) && AllDeleted(vid, flows, flows', list)
    ensures forall k {:trigger Own(vid, k)} :: k in flows && Own(vid, k) && k != DefaultKey(vid) ==> k in flows'
  {
    CookieClasses(vid, 1);
    forall k | k in flows && Own(vid, k) && k != DefaultKey(vid)
      ensures k in flows'
    {
      assert Explained(vid, addrs, routes, k, flows[k]);
      OwnCookie0(vid, addrs, routes, k, flows[k]);
    }
  }

  /** Apart from that entry the VLAN's own entries are as before, so the views agree exactly if it is. */
  lemma ZeroOutcome(vid: nat, ofp10: bool, addrs: map<Net, Address>, routes: map<Net, Route>, flows: FlowTable,
                    list: seq<FlowStats>, flows': FlowTable)
    requires TablesServe(vid, addrs, routes, flows) && BottomRight(vid, routes, flows)
    requires NoneReadsAsRoute(addrs, Some(0)) && AllDeleted(vid, flows, flows', list)
    requires DropOrDefault(vid, routes, flows) && (DefaultNet() !in routes ==> list != [])
    requires IsZeroListing(vid, flows, list) && DropTracked(vid, ofp10, flows, flows', list, |list|)
    ensures FlowsOk(vid, addrs, routes, flows') <==> DropSpared(vid, ofp10, routes, list)
  {
    var k := DefaultKey(vid);
    AgreeIffServeAndBottom(vid, addrs, routes, flows');
    ZeroSparesRest(vid, addrs, routes, flows, list, flows');
    if DefaultNet() in routes {
      assert HasRouteFlow(vid, routes[DefaultNet()], flows);
      if k in flows' && flows'[k] == flows[k] {
        SameOwnEntries(vid, addrs, routes, flows, flows');
      } else {
        RouteCookieDecodesIff(vid, routes[DefaultNet()].id);
        assert !HasRouteFlow(vid, routes[DefaultNet()], flows');
      }
    } else {
      SameOwnEntries(vid, addrs, routes, flows, flows');
    }
  }

  /** Serving only looks at the VLAN's own entries above the bottom, at the default route's, and at the
      cookies of others. */
  lemma SameOwnEntries(vid: nat, addrs: map<Net, Address>, routes: map<Net, Route>, flows: FlowTable, flows': FlowTable)
    requires TablesServe(vid, addrs, routes, flows)
    requires forall k :: k in flows' && k != DefaultKey(vid) ==> k in flows && flows'[k] == flows[k]
    requires forall k {:trigger Own(vid, k)} :: k in flows && Own(vid, k) && k != DefaultKey(vid) ==> k in flows'
    requires DefaultNet() in routes ==> DefaultKey(vid) in flows' && DefaultKey(vid) in flows
                                        && flows'[DefaultKey(vid)] == flows[DefaultKey(vid)]
    ensures FlowsServe(vid, addrs, routes, flows')
  {
    forall k | k in flows' && Own(vid, k) && k != DefaultKey(vid)
      ensures Explained(vid, addrs, routes, k, flows'[k])
    {
      assert Explained(vid, addrs, routes, k, flows[k]);
    }
    forall m | m in addrs
      ensures HasAddressFlows(vid, addrs[m], flows')
    {
      var a := addrs[m];
      assert HasAddressFlows(vid, a, flows);
      assert Own(vid, MacLearningKey(vid, a)) && Own(vid, IpHandlingKey(vid, a)) && Own(vid, L2Key(vid, a));
    }
    forall n | n in routes
      ensures HasRouteFlow(vid, routes[n], flows')
    {
      assert HasRouteFlow(vid, routes[n], flows) && RouteOk(n, routes[n]);
      RouteKeysApart(vid, n, routes[n], n, routes[n]);
      assert Own(vid, RouteKey(vid, routes[n]));
    }
  }

  // ----- the order in which the switch lists -----

  /** The switch lists the entries with the drop entry's cookie, in some order. */
  ghost predicate IsZeroListing(vid: nat, flows: FlowTable, list: seq<FlowStats>) {
    && Distinct(list)
    && forall s :: s in list <==> s.key in flows && flows[s.key] == s.flow && s.flow.cookie == DropFlow(vid).cookie
  }

  /** The entry for `k` carries the drop entry's cookie, and the loop puts the drop entry back after it. */
  ghost predicate Restoring(vid: nat, flows: FlowTable, k: FlowKey)
    requires k in flows
  {
    flows[k].cookie == DropFlow(vid).cookie && RestoresDrop(vid, FlowStats(k, flows[k]))
  }

  /** A listing of the entries with keys in `todo` that ends with a given one. */
  lemma {:induction false} ListingThatEndsWith(flows: FlowTable, todo: set<FlowKey>, last: FlowKey)
    returns (list: seq<FlowStats>)
    requires todo <= flows.Keys && last in todo
    ensures Distinct(list) && list != [] && list[|list| - 1] == FlowStats(last, flows[last])
    ensures forall s :: s in list <==> s.key in todo && flows[s.key] == s.flow
    decreases todo
  {
    if todo == {last} {
      list := [FlowStats(last, flows[last])];
    } else {
      assert todo == (todo - {last}) + {last};
      var k :| k in todo - {last};
      var rest := ListingThatEndsWith(flows, todo - {k}, last);
      var s0 := FlowStats(k, flows[k]);
      list := [s0] + rest;
      forall j | 1 <= j < |list|
        ensures list[j].key != k
      {
        assert list[j] == rest[j - 1] && rest[j - 1] in rest;
      }
    }
  }

  /** A request for id 0 spares the bottom entry however the switch lists its entries if and only if, with a
      default route, no entry with the drop entry's cookie has the drop entry's priority, and otherwise
      deletion is strict or all of them have it. */
  lemma SparedInEveryOrder(vid: nat, ofp10: bool, routes: map<Net, Route>, flows: FlowTable)
    requires DropOrDefault(vid, routes, flows)
    ensures (forall list :: IsZeroListing(vid, flows, list) ==> DropSpared(vid, ofp10, routes, list)) <==>
            if DefaultNet() in routes then forall k :: k in flows ==> !Restoring(vid, flows, k)
            else ofp10 || forall k :: k in flows && flows[k].cookie == DropFlow(vid).cookie ==> Restoring(vid, flows, k)
  {
    forall list: seq<FlowStats> | IsZeroListing(vid, flows, list)
      ensures forall k :: k in flows && flows[k].cookie == DropFlow(vid).cookie ==> FlowStats(k, flows[k]) in list
      ensures forall j :: 0 <= j < |list| ==>
                list[j].key in flows && (Restoring(vid, flows, list[j].key) <==> RestoresDrop(vid, list[j]))
                && flows[list[j].key].cookie == DropFlow(vid).cookie
      ensures DefaultNet() !in routes ==> FlowStats(DefaultKey(vid), DropFlow(vid)) in list
    {
      assert forall j :: 0 <= j < |list| ==> list[j] in list;
    }
    var cond := if DefaultNet() in routes then forall k :: k in flows ==> !Restoring(vid, flows, k)
      else ofp10 || forall k :: k in flows && flows[k].cookie == DropFlow(vid).cookie ==> Restoring(vid, flows, k);
    if !cond {
      var k :| k in flows && flows[k].cookie == DropFlow(vid).cookie
               && (Restoring(vid, flows, k) <==> DefaultNet() in routes);
      var todo := set h | h in flows && flows[h].cookie == DropFlow(vid).cookie;
      var list := ListingThatEndsWith(flows, todo, k);
      assert IsZeroListing(vid, flows, list) && !DropSpared(vid, ofp10, routes, list);
    }
  }

  // ----- address requests -----

  /** The address network `m` holds the gateway of some route. */
  ghost predicate HoldsGateway(routes: map<Net, Route>, m: Net) {
    exists n :: n in routes && Contains(m, routes[n].gatewayIp)
  }

  /** An address with this id holds a gateway. */
  ghost predicate NeededId(addrs: map<Net, Address>, routes: map<Net, Route>, id: int) {
    exists m :: m in addrs && addrs[m].id == id && HoldsGateway(routes, m)
  }

  /** The asked address holds a gateway, so the request is refused. */
  ghost predicate Refused(addrs: map<Net, Address>, routes: map<Net, Route>, request: Option<int>) {
    request.Some? && NeededId(addrs, routes, request.value)
  }

  /** An address-delete request spares the route entries: it is refused, or its id is not a route id of 16
      bits shifted into route position. */
  ghost predicate SparesRoutes(addrs: map<Net, Address>, routes: map<Net, Route>, request: Option<int>) {
    request.Some? && !Refused(addrs, routes, request) ==>
      forall n :: n in routes && routes[n].id <= UINT16_MAX ==> routes[n].id * TWO16 != request.value
  }

  /** It spares the drop entry as well: its id is not 0 while that entry stands. */
  ghost predicate HarmlessAddressId(addrs: map<Net, Address>, routes: map<Net, Route>, request: Option<int>) {
    SparesRoutes(addrs, routes, request) && (request == Some(0) ==> DefaultNet() in routes)
  }

  /** `id` is one that an address-delete request goes through with; "all" stops at 16 bits. */
  predicate AskedAddress(request: Option<int>, id: nat) {
    if request.None? then id <= UINT16_MAX else request.value == id
  }

  /** The ids that `_chk_addr_relation_route` reports: the asked addresses that hold a gateway. */
  ghost predicate IsSkip(addrs: map<Net, Address>, routes: map<Net, Route>, request: Option<int>, skip: set<nat>) {
    forall id: nat :: id in skip <==> Asked(request, id) && NeededId(addrs, routes, id)
  }

  predicate SelectedAddress(vid: nat, request: Option<int>, skip: set<nat>, s: FlowStats) {
    var id := CookieToId(AddressId, s.flow.cookie);
    && CookieToId(VlanId, s.flow.cookie) == vid
    && id !in skip
    && if request.None? then COOKIE_DEFAULT_ID < id <= UINT16_MAX else request.value == id
  }

  /** Part-way through the deletion loop, strict or not: what was processed is gone, what is not listed
      stays. */
  ghost predicate PartlyDeleted(before: FlowTable, after: FlowTable, list: seq<FlowStats>, i: nat)
    requires i <= |list|
  {
    && (forall k :: k in after ==> k in before && after[k] == before[k] && FlowStats(k, before[k]) !in list[..i])
    && (forall k :: k in before && FlowStats(k, before[k]) !in list ==> k in after)
  }

  lemma PartlyDeletedStart(flows: FlowTable, list: seq<FlowStats>)
    ensures PartlyDeleted(flows, flows, list, 0)
  {
  }

  lemma PartlyDeletedEnd(before: FlowTable, after: FlowTable, list: seq<FlowStats>)
    requires PartlyDeleted(before, after, list, |list|)
    ensures after == map k | k in before && FlowStats(k, before[k]) !in list :: before[k]
  {
  }

  lemma PartlyDeletedNext(ofp10: bool, before: FlowTable, after: FlowTable, list: seq<FlowStats>, i: nat)
    requires i < |list| && PartlyDeleted(before, after, list, i)
    requires list[i].key in before && before[list[i].key] == list[i].flow
    requires forall k :: k in before && before[k].cookie == list[i].flow.cookie ==> FlowStats(k, before[k]) in list
    ensures PartlyDeleted(before, AfterDelete(ofp10, after, list[i]), list, i + 1)
  {
  }

  /** Dropping only addresses that hold no gateway keeps all gateways covered. */
  lemma GatewaysStayCovered(addrs: map<Net, Address>, routes: map<Net, Route>, addrs': map<Net, Address>)
    requires GatewaysCovered(addrs, routes)
    requires forall m :: m in addrs && HoldsGateway(routes, m) ==> m in addrs'
    ensures GatewaysCovered(addrs', routes)
  {
  }

  /** The filter looks at nothing but the cookie. */
  lemma CookieClosed(vid: nat, flows: FlowTable, request: Option<int>, skip: set<nat>,
                     stats: seq<FlowStats>, list: seq<FlowStats>)
    requires Snapshot(flows, stats)
    requires forall s :: s in list <==> s in stats && SelectedAddress(vid, request, skip, s)
    ensures forall s :: s in list ==> s.key in flows && flows[s.key] == s.flow
    ensures forall s, k {:trigger s in list, k in flows} ::
              s in list && k in flows && flows[k].cookie == s.flow.cookie ==> FlowStats(k, flows[k]) in list
  {
  }

  lemma UnselectedStay(vid: nat, flows: FlowTable, request: Option<int>, skip: set<nat>,
                       stats: seq<FlowStats>, list: seq<FlowStats>)
    requires Snapshot(flows, stats)
    requires forall s :: s in list <==> s in stats && SelectedAddress(vid, request, skip, s)
    ensures (map k | k in flows && FlowStats(k, flows[k]) !in list :: flows[k])
         == map k | k in flows && !SelectedAddress(vid, request, skip, FlowStats(k, flows[k])) :: flows[k]
  {
  }

  lemma ForeignAfterAddresses(vid: nat, addrs: map<Net, Address>, routes: map<Net, Route>, flows: FlowTable,
                              request: Option<int>, skip: set<nat>, stats: seq<FlowStats>, list: seq<FlowStats>,
                              flows': FlowTable)
    requires AddressesOk(addrs) && ForeignOk(vid, flows) && Snapshot(flows, stats)
             && IsSkip(addrs, routes, request, skip)
    requires forall s :: s in list <==> s in stats && SelectedAddress(vid, request, skip, s)
    requires flows' == map k | k in flows && FlowStats(k, flows[k]) !in list :: flows[k]
    ensures ForeignAfter(vid, request, flows, flows')
  {
  }

  /** `id` is one whose addresses go: it is asked for, and none with it holds a gateway. */
  ghost predicate Goes(addrs: map<Net, Address>, routes: map<Net, Route>, request: Option<int>, id: nat) {
    AskedAddress(request, id) && !NeededId(addrs, routes, id)
  }

  lemma GoesMeans(addrs: map<Net, Address>, routes: map<Net, Route>, request: Option<int>, id: nat)
    ensures Goes(addrs, routes, request, id) <==>
            && (if request.None? then id <= 0xffff else request == Some(id))
            && forall m, n :: m in addrs && n in routes && addrs[m].id == id ==> !Contains(m, routes[n].gatewayIp)
  {
    if m, n :| m in addrs && n in routes && addrs[m].id == id && Contains(m, routes[n].gatewayIp) {
      assert HoldsGateway(routes, m);
    }
  }

  ghost function GoingIds(addrs: map<Net, Address>, routes: map<Net, Route>, request: Option<int>): set<nat> {
    set m | m in addrs && Goes(addrs, routes, request, addrs[m].id) :: addrs[m].id
  }

  lemma AddressGoes(vid: nat, addrs: map<Net, Address>, routes: map<Net, Route>, request: Option<int>, skip: set<nat>,
                    a: Address)
    requires IsSkip(addrs, routes, request, skip) && 1 <= a.id <= UINT32_MAX
    ensures forall s: FlowStats :: s.flow.cookie == AddressCookie(vid, a) ==>
              CookieToId(AddressId, s.flow.cookie) == a.id
              && (SelectedAddress(vid, request, skip, s) <==> Goes(addrs, routes, request, a.id))
  {
  }

  lemma EnoughAddressEntries(vid: nat, addrs: map<Net, Address>, routes: map<Net, Route>, flows: FlowTable,
                             request: Option<int>, skip: set<nat>, stats: seq<FlowStats>, list: seq<FlowStats>)
    requires AddressesOk(addrs) && AddressesHaveFlows(vid, addrs, flows)
    requires Snapshot(flows, stats) && IsSkip(addrs, routes, request, skip)
    requires forall s :: s in list <==> s in stats && SelectedAddress(vid, request, skip, s)
    ensures Enough(AddressIds(addrs), GoingIds(addrs, routes, request), Ids(AddressId, list))
  {
    var entry := map m | m in addrs && HasAddressFlows(vid, addrs[m], flows) ::
      FlowStats(MacLearningKey(vid, addrs[m]), flows[MacLearningKey(vid, addrs[m])]);
    forall id | id in GoingIds(addrs, routes, request)
      ensures |RowsWith(AddressIds(addrs), id)| <= multiset(Ids(AddressId, list))[id]
    {
      forall m | m in RowsWith(AddressIds(addrs), id)
        ensures m in entry && entry[m] in list && CookieToId(AddressId, entry[m].flow.cookie) == id
      {
        assert HasAddressFlows(vid, addrs[m], flows);
        AddressGoes(vid, addrs, routes, request, skip, addrs[m]);
      }
      EntriesCount(AddressId, RowsWith(AddressIds(addrs), id), entry, list, id);
    }
  }

  /** So all addresses with such an id go, and no others. */
  lemma AddressRows(vid: nat, a0: map<Net, Address>, routes: map<Net, Route>, a: map<Net, Address>,
                    request: Option<int>, skip: set<nat>, stats: seq<FlowStats>, list: seq<FlowStats>)
    requires IsSkip(a0, routes, request, skip)
    requires forall s :: s in list <==> s in stats && SelectedAddress(vid, request, skip, s)
    requires forall m :: m in a ==> m in a0 && a[m] == a0[m]
    requires OnlyListedGo(AddressIds(a0), AddressIds(a), Ids(AddressId, list))
    requires forall m :: m in AddressIds(a) ==> AddressIds(a)[m] !in GoingIds(a0, routes, request)
    ensures a == map m | m in a0 && !Goes(a0, routes, request, a0[m].id) :: a0[m]
  {
    forall m | m in a0
      ensures m in a <==> !Goes(a0, routes, request, a0[m].id)
    {
      if m in a {
        assert m in AddressIds(a);
      } else {
        assert AddressIds(a0)[m] in Ids(AddressId, list);
        ListedGoes(vid, a0, routes, request, skip, stats, list, a0[m].id);
      }
    }
  }

  lemma ListedGoes(vid: nat, a0: map<Net, Address>, routes: map<Net, Route>, request: Option<int>, skip: set<nat>,
                   stats: seq<FlowStats>, list: seq<FlowStats>, id: nat)
    requires IsSkip(a0, routes, request, skip)
    requires forall s :: s in list <==> s in stats && SelectedAddress(vid, request, skip, s)
    requires id in Ids(AddressId, list)
    ensures Goes(a0, routes, request, id)
  {
    var j :| 0 <= j < |list| && CookieToId(AddressId, list[j].flow.cookie) == id;
    assert list[j] in list;
  }

  /** No address that holds a gateway goes, whatever the switch lists and whatever the ids are. */
  lemma NoGatewayGoes(vid: nat, a0: map<Net, Address>, routes: map<Net, Route>, a: map<Net, Address>,
                      request: Option<int>, skip: set<nat>, stats: seq<FlowStats>, list: seq<FlowStats>)
    requires IsSkip(a0, routes, request, skip)
    requires forall s :: s in list <==> s in stats && SelectedAddress(vid, request, skip, s)
    requires OnlyListedGo(AddressIds(a0), AddressIds(a), Ids(AddressId, list))
    ensures forall m :: m in a0 && HoldsGateway(routes, m) ==> m in a
  {
    forall m | m in a0 && HoldsGateway(routes, m)
      ensures m in a
    {
      if m !in a {
        assert AddressIds(a0)[m] in Ids(AddressId, list);
        ListedGoes(vid, a0, routes, request, skip, stats, list, a0[m].id);
      }
    }
  }

  /** A request that spares the routes picks none of their entries. */
  lemma RouteNotSelected(vid: nat, addrs: map<Net, Address>, routes: map<Net, Route>, request: Option<int>,
                         skip: set<nat>, n: Net, s: FlowStats)
    requires RoutesOk(routes) && SparesRoutes(addrs, routes, request) && IsSkip(addrs, routes, request, skip)
    requires n in routes && s.flow.cookie == RouteCookie(vid, routes[n])
    ensures !SelectedAddress(vid, request, skip, s)
  {
  }

  lemma HarmlessSpares(addrs: map<Net, Address>, routes: map<Net, Route>, request: Option<int>)
    ensures HarmlessAddressId(addrs, routes, request) ==> SparesRoutes(addrs, routes, request)
  {
  }

  /** An address-delete request goes on serving the tables exactly if it spares the routes. */
  lemma AddressesGone(vid: nat, a0: map<Net, Address>, routes: map<Net, Route>, f0: FlowTable,
                      request: Option<int>, skip: set<nat>, a: map<Net, Address>, f: FlowTable)
    requires TablesServe(vid, a0, routes, f0) && IsSkip(a0, routes, request, skip)
    requires a == map m | m in a0 && !Goes(a0, routes, request, a0[m].id) :: a0[m]
    requires f == map k | k in f0 && !SelectedAddress(vid, request, skip, FlowStats(k, f0[k])) :: f0[k]
    ensures FlowsServe(vid, a, routes, f) <==> SparesRoutes(a0, routes, request)
  {
    if SparesRoutes(a0, routes, request) {
      AddressesGoneServes(vid, a0, routes, f0, request, skip, a, f);
    } else {
      var n :| n in routes && routes[n].id <= UINT16_MAX && routes[n].id * TWO16 == request.value;
      assert HasRouteFlow(vid, routes[n], f0);
      CookieClasses(vid, routes[n].id);
      assert request.value !in skip;
      assert !HasRouteFlow(vid, routes[n], f);
    }
  }

  lemma AddressesGoneServes(vid: nat, a0: map<Net, Address>, routes: map<Net, Route>, f0: FlowTable,
                            request: Option<int>, skip: set<nat>, a: map<Net, Address>, f: FlowTable)
    requires TablesServe(vid, a0, routes, f0) && IsSkip(a0, routes, request, skip) && SparesRoutes(a0, routes, request)
    requires a == map m | m in a0 && !Goes(a0, routes, request, a0[m].id) :: a0[m]
    requires f == map k | k in f0 && !SelectedAddress(vid, request, skip, FlowStats(k, f0[k])) :: f0[k]
    ensures FlowsServe(vid, a, routes, f)
  {
    forall k | k in f && Own(vid, k) && k != DefaultKey(vid)
      ensures Explained(vid, a, routes, k, f[k])
    {
      assert Explained(vid, a0, routes, k, f0[k]);
      if m :| m in a0 && IsAddressFlow(vid, a0[m], k, f0[k]) {
        AddressGoes(vid, a0, routes, request, skip, a0[m]);
        assert m in a && IsAddressFlow(vid, a[m], k, f[k]);
      }
    }
    forall m | m in a
      ensures HasAddressFlows(vid, a[m], f)
    {
      assert HasAddressFlows(vid, a0[m], f0);
      AddressGoes(vid, a0, routes, request, skip, a0[m]);
    }
    forall n | n in routes
      ensures HasRouteFlow(vid, routes[n], f)
    {
      var k := RouteKey(vid, routes[n]);
      assert HasRouteFlow(vid, routes[n], f0);
      RouteNotSelected(vid, a0, routes, request, skip, n, FlowStats(k, f0[k]));
    }
  }

  /** And the bottom entry stays right unless the request takes the drop entry. */
  lemma AddressesGoneBottom(vid: nat, a0: map<Net, Address>, routes: map<Net, Route>, f0: FlowTable,
                            request: Option<int>, skip: set<nat>, f: FlowTable)
    requires TablesServe(vid, a0, routes, f0) && BottomRight(vid, routes, f0)
    requires IsSkip(a0, routes, request, skip) && SparesRoutes(a0, routes, request)
    requires f == map k | k in f0 && !SelectedAddress(vid, request, skip, FlowStats(k, f0[k])) :: f0[k]
    ensures BottomRight(vid, routes, f) <==> HarmlessAddressId(a0, routes, request)
  {
    var k := DefaultKey(vid);
    CookieClasses(vid, 1);
    if DefaultNet() in routes {
      assert HasRouteFlow(vid, routes[DefaultNet()], f0);
      RouteNotSelected(vid, a0, routes, request, skip, DefaultNet(), FlowStats(k, f0[k]));
    } else {
      assert 0 !in skip;
    }
  }
}
