/** The routing table of one VLAN router. */
module RoutingTables {
  import opened Wrappers
  import opened Ipv4
  import opened AddressDatas

  type Mac = nat

  /** `dstIp` is None where the source stores the number 0, which only the default route does. */
  datatype Route = Route(id: nat, dstIp: Option<Ip>, netmask: nat, gatewayIp: Ip, gatewayMac: Option<Mac>)

  /** A destination as the REST client spells it. `canonical` says that the text is exactly the
      key "a.b.c.d/mask" of its two numbers (no missing mask, no leading zeros). */
  datatype Dest = Dest(ip: Ip, mask: int, canonical: bool) {
    /** The text is "0.0.0.0/0". */
    predicate IsDefault() {
      canonical && ip == Zero() && mask == 0
    }

    /** The key under which `add` stores the route. */
    function Key(): Net
      requires 0 <= mask <= 32
    {
      Net(ApplyMask(ip, mask), mask)
    }

    /** A zero-length prefix that is not spelled "0.0.0.0/0": it is stored under the key of the
        default route, yet treated as a static one. */
    predicate Misfiled() {
      mask == 0 && !IsDefault()
    }
  }

  ghost predicate RouteOk(n: Net, r: Route) {
    && n.len <= 32
    && Contains(n, n.addr)
    && r.netmask == n.len
    && (r.dstIp == Some(n.addr) || (n == DefaultNet() && r.dstIp.None?))
  }

  ghost predicate RoutesOk(t: map<Net, Route>) {
    forall n :: n in t ==> RouteOk(n, t[n]) && 1 <= t[n].id <= UINT32_MAX
  }

  ghost predicate RouteIdsDistinct(t: map<Net, Route>) {
    forall m, n :: m in t && n in t && t[m].id == t[n].id ==> m == n
  }

  ghost predicate RouteIdTaken(t: map<Net, Route>, id: nat) {
    exists n :: n in t && t[n].id == id
  }

  /** Storing a route keeps distinct ids distinct exactly unless its id is that of a route that stays. */
  lemma NewRouteIdDistinct(t: map<Net, Route>, key: Net, r: Route)
    requires RouteIdsDistinct(t)
    ensures RouteIdsDistinct(t[key := r]) <==> !RouteIdTaken(t - {key}, r.id)
  {
    var u := t[key := r];
    if n :| n in t - {key} && t[n].id == r.id {
      assert n in u && key in u && u[n].id == u[key].id;
    }
  }

  /** The key and the destination of a new route spell each other, misfiled or not. */
  lemma NewRouteOk(t: map<Net, Route>, dst: Dest, r: Route)
    requires RoutesOk(t) && 1 <= r.id <= UINT32_MAX
    requires 0 <= dst.mask <= 32 && r.netmask == dst.mask
    requires r.dstIp == if dst.IsDefault() then None else Some(dst.Key().addr)
    ensures RoutesOk(t[dst.Key() := r])
    ensures dst.IsDefault() ==> dst.Key() == DefaultNet()
  {
  }

  /** The masked key has the leading bits of the destination and no others, and the destination as given
      is a key exactly if it has no host bits itself. */
  lemma KeyStored(t: map<Net, Route>, dst: Dest, r: Route)
    requires RoutesOk(t) && 0 <= dst.mask <= 32
    ensures HostBitsClear(dst.Key().addr, dst.mask) && Agree(dst.Key().addr, dst.ip, dst.mask)
    ensures Net(dst.ip, dst.mask) in t[dst.Key() := r] <==> HostBitsClear(dst.ip, dst.mask)
  {
    MaskClearsHostBits(dst.ip, dst.mask);
    if Net(dst.ip, dst.mask) in t {
      ContainsIff(Net(dst.ip, dst.mask), dst.ip);
    }
  }

  /** The longest stored prefix that contains `dst`; the default route contains everything. */
  ghost predicate IsLongestMatch(t: map<Net, Route>, dst: Ip, n: Net) {
    && n in t
    && Contains(n, dst)
    && forall m :: m in t && Contains(m, dst) ==> m.len <= n.len
  }

  /** There is never a tie, whatever the order of the dictionary. */
  lemma LongestMatchUnique(t: map<Net, Route>, dst: Ip, m: Net, n: Net)
    requires IsLongestMatch(t, dst, m) && IsLongestMatch(t, dst, n)
    ensures m == n
  {
  }

  /** There is one as soon as any stored prefix contains the destination. */
  lemma {:induction false} LongestMatchExists(t: map<Net, Route>, dst: Ip) returns (n: Option<Net>)
    ensures n.None? <==> forall m :: m in t ==> !Contains(m, dst)
    ensures n.Some? ==> IsLongestMatch(t, dst, n.value)
    decreases |t|
  {
    if t == map[] {
      return None;
    }
    var m :| m in t;
    n := LongestMatchExists(t - {m}, dst);
    if Contains(m, dst) && (n.None? || n.value.len < m.len) {
      n := Some(m);
    }
  }

  lemma ZeroLengthIsDefault(n: Net, ip: Ip)
    requires Contains(n, ip) && n.len == 0
    ensures n == DefaultNet()
  {
  }

  class RoutingTable {
    var table: map<Net, Route>
    var nextId: nat

    ghost predicate Valid()
      reads this
    {
      1 <= nextId <= UINT32_MAX && RoutesOk(table)
    }

    /** The counter has not come round: it is above every stored id, and ids are distinct. */
    ghost predicate Counting()
      reads this
    {
      RouteIdsDistinct(table) && forall n :: n in table ==> table[n].id < nextId
    }

    constructor ()
      ensures Valid() && table == map[] && nextId == 1
    {
      table := map[];
      nextId := 1;
    }

    /** `add`: the duplicate test looks up the text as given, the entry is stored under the masked
        key. So a destination spelled as a key is refused from then on, while its route stands, exactly if it
        has no host bits; one with host bits is never refused. Longest-prefix order is kept for every
        destination, and distinct ids stay distinct exactly unless the counter stands on the id of another
        route. */
    method Add(dst: Dest, gateway: Ip) returns (r: Result<Route, RouterError>)
      requires Valid()
      modifies this
      ensures r == Failure(InvalidMask) <==> !(0 <= dst.mask <= 32)
      ensures 0 <= dst.mask <= 32 ==> (r.Failure? <==> dst.canonical && Net(dst.ip, dst.mask) in old(table))
      ensures r.Failure? ==> unchanged(this)
      ensures r.Success? ==>
                && table == old(table)[dst.Key() := r.value]
                && nextId == NextId(old(nextId))
                && r.value.id == old(nextId) && r.value.netmask == dst.mask
                && r.value.gatewayIp == gateway && r.value.gatewayMac == None
                && r.value.dstIp == (if dst.IsDefault() then None else Some(dst.Key().addr))
      ensures r.Success? ==> HostBitsClear(dst.Key().addr, dst.mask) && Agree(dst.Key().addr, dst.ip, dst.mask)
      ensures r.Success? ==> (Net(dst.ip, dst.mask) in table <==> HostBitsClear(dst.ip, dst.mask))
      ensures Valid()
      ensures old(RouteIdsDistinct(table)) ==>
                (RouteIdsDistinct(table) <==> r.Failure? || !RouteIdTaken(old(table) - {dst.Key()}, old(nextId)))
      ensures old(Counting()) && old(nextId) < UINT32_MAX ==> Counting()
    {
      hide RoutesOk, RouteIdsDistinct, ApplyMask;
      var dstIp, netmask := None, 0;
      if !dst.IsDefault() {
        if dst.mask < 0 || 32 < dst.mask {
          return Failure(InvalidMask);
        }
        dstIp, netmask := Some(ApplyMask(dst.ip, dst.mask)), dst.mask;
      }
      if dst.canonical && Net(dst.ip, dst.mask) in table {
        return Failure(Overlaps(table[Net(dst.ip, dst.mask)].id));
      }
      var route := Route(nextId, dstIp, netmask, gateway, None);
      var key := Net(if dstIp.Some? then dstIp.value else Zero(), netmask);
      NewRouteOk(table, dst, route);
      KeyStored(table, dst, route);
      if RouteIdsDistinct(table) {
        NewRouteIdDistinct(table, key, route);
      }
      table := table[key := route];
      nextId := NextId(nextId);
      return Success(route);
    }

    /** `delete`: drops one route with this id, if there is one; the only one where ids are distinct. */
    method Delete(id: nat)
      requires Valid()
      modifies this
      ensures Valid() && nextId == old(nextId)
      ensures if RouteIdTaken(old(table), id)
              then exists n :: n in old(table) && old(table)[n].id == id && table == old(table) - {n}
              else table == old(table)
      ensures old(RouteIdsDistinct(table)) ==>
                table == map n | n in old(table) && old(table)[n].id != id :: old(table)[n]
    {
      var todo := table.Keys;
      while todo != {}
        invariant todo <= table.Keys && unchanged(this)
        invariant forall n :: n in table && table[n].id == id ==> n in todo
        decreases todo
      {
        var k :| k in todo;
        if table[k].id == id {
          table := table - {k};
          return;
        }
        todo := todo - {k};
      }
    }

    /** `get_data(dst_ip=...)`: a scan that keeps the longest match so far and falls back to the
        default route. */
    method GetByDst(dst: Ip) returns (r: Option<Route>)
      requires Valid()
      ensures r.None? <==> forall n :: n in table ==> !Contains(n, dst)
      ensures r.Some? ==> exists n :: IsLongestMatch(table, dst, n) && r == Some(table[n])
    {
      var best: Option<Net> := None;
      var mask := 0;
      var todo := table.Keys;
      while todo != {}
        invariant todo <= table.Keys
        invariant mask == if best.Some? then best.value.len else 0
        invariant best.Some? ==> best.value in table && Contains(best.value, dst)
        invariant forall n :: n in table && n !in todo && Contains(n, dst) ==> n.len <= mask
        decreases todo
      {
        var k :| k in todo;
        if table[k].dstIp == Some(ApplyMask(dst, table[k].netmask)) && mask < table[k].netmask {
          best, mask := Some(k), table[k].netmask;
        }
        if k == DefaultNet() {
          DefaultContainsAll(dst);
        }
        todo := todo - {k};
      }
      DefaultContainsAll(dst);
      if best.Some? {
        assert IsLongestMatch(table, dst, best.value);
        return Some(table[best.value]);
      }
      forall n | n in table && Contains(n, dst)
        ensures n == DefaultNet()
      {
        ZeroLengthIsDefault(n, dst);
      }
      if DefaultNet() in table {
        assert IsLongestMatch(table, dst, DefaultNet());
        return Some(table[DefaultNet()]);
      }
      return None;
    }
  }
}
