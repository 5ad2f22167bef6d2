/** The address table of one VLAN router. */
module AddressDatas {
  import opened Wrappers
  import opened Ipv4

  datatype Address = Address(id: nat, nwAddr: Ip, netmask: nat, defaultGw: Ip) {
    function Key(): Net {
      Net(nwAddr, netmask)
    }
  }

  datatype RouterError =
    | InvalidMask
    | Overlaps(id: nat)
    | GatewayNotRegistered
    | GatewayIsDefaultGw(id: nat)

  const UINT32_MAX := 0xffff_ffff

  /** The id counter steps on 32 bits and skips 0, which is COOKIE_DEFAULT_ID. */
  function NextId(id: nat): (r: nat)
    ensures 1 <= r <= UINT32_MAX
    ensures id < UINT32_MAX ==> r == id + 1
    ensures id == UINT32_MAX ==> r == 1
  {
    var x := (id + 1) % 0x1_0000_0000;
    if x == 0 then 1 else x
  }

  /** What every reachable table satisfies: keys spell their entries, gateways lie in their own
      network, ids have 32 bits and are not 0, and no address belongs to two networks. */
  ghost predicate AddressesOk(t: map<Net, Address>) {
    && (forall n :: n in t ==> t[n].Key() == n && Contains(n, t[n].defaultGw) && 1 <= t[n].id <= UINT32_MAX)
    && (forall m, n, ip :: m in t && n in t && Contains(m, ip) && Contains(n, ip) ==> m == n)
  }

  ghost predicate AddressIdsDistinct(t: map<Net, Address>) {
    forall m, n :: m in t && n in t && t[m].id == t[n].id ==> m == n
  }

  ghost predicate AddressIdTaken(t: map<Net, Address>, id: nat) {
    exists n :: n in t && t[n].id == id
  }

  /** `ip` lies in some stored network. */
  ghost predicate Covered(t: map<Net, Address>, ip: Ip) {
    exists n :: n in t && Contains(n, ip)
  }

  lemma AddKeepsOk(t: map<Net, Address>, a: Address)
    requires AddressesOk(t) && 1 <= a.id <= UINT32_MAX
    requires Contains(a.Key(), a.defaultGw)
    requires forall n :: n in t ==> !Shares(n, a.Key())
    ensures a.Key() !in t && AddressesOk(t[a.Key() := a])
  {
  }

  lemma NewIdDistinct(t: map<Net, Address>, a: Address)
    requires AddressIdsDistinct(t) && a.Key() !in t
    ensures AddressIdsDistinct(t[a.Key() := a]) <==> !AddressIdTaken(t, a.id)
  {
    var u := t[a.Key() := a];
    if n :| n in t && t[n].id == a.id {
      assert n in u && a.Key() in u && u[n].id == u[a.Key()].id;
    }
  }

  class AddressData {
    var table: map<Net, Address>
    var nextId: nat

    ghost predicate Valid()
      reads this
    {
      1 <= nextId <= UINT32_MAX && AddressesOk(table)
    }

    /** The counter has not come round: it is above every stored id, and ids are distinct. */
    ghost predicate Counting()
      reads this
    {
      AddressIdsDistinct(table) && forall n :: n in table ==> table[n].id < nextId
    }

    constructor ()
      ensures Valid() && table == map[] && nextId == 1
    {
      table := map[];
      nextId := 1;
    }

    /** `add`: rejects a network exactly when it shares an address with a stored one.
        The dictionary is visited in an arbitrary order. Distinct ids stay distinct exactly unless the
        counter stands on a stored one, which cannot be before it has come round. */
    method Add(gw: Ip, len: int) returns (r: Result<Address, RouterError>)
      requires Valid()
      modifies this
      ensures Valid()
      ensures old(AddressIdsDistinct(table)) ==>
                (AddressIdsDistinct(table) <==> r.Failure? || !AddressIdTaken(old(table), old(nextId)))
      ensures old(Counting()) && old(nextId) < UINT32_MAX ==> Counting()
      ensures !(0 <= len <= 32) <==> r == Failure(InvalidMask)
      ensures 0 <= len <= 32 ==>
                (r.Success? <==> forall n :: n in old(table) ==> !Shares(n, Net(ApplyMask(gw, len), len)))
      ensures r.Success? ==>
                && r.value == Address(old(nextId), ApplyMask(gw, len), len, gw)
                && HostBitsClear(r.value.nwAddr, len) && Agree(r.value.nwAddr, gw, len)
                && table == old(table)[r.value.Key() := r.value]
                && r.value.Key() !in old(table)
                && nextId == NextId(old(nextId))
      ensures r.Failure? ==> unchanged(this)
    {
      if len < 0 || 32 < len {
        return Failure(InvalidMask);
      }
      hide ApplyMask, Shares, HostBitsClear, Agree;
      var nw := Net(ApplyMask(gw, len), len);
      MaskIdempotent(gw, len);
      MaskClearsHostBits(gw, len);
      var todo := table.Keys;
      while todo != {}
        invariant todo <= table.Keys && unchanged(this)
        invariant forall n :: n in table && n !in todo ==> !Shares(n, nw)
        decreases todo
      {
        var k :| k in todo;
        var other := table[k];
        OverlapIffSharedAddress(k, other.defaultGw, nw, gw);
        if other.nwAddr == ApplyMask(gw, other.netmask) || nw.addr == ApplyMask(other.defaultGw, len) {
          return Failure(Overlaps(other.id));
        }
        todo := todo - {k};
      }
      var address := Address(nextId, nw.addr, len, gw);
      AddKeepsOk(table, address);
      if AddressIdsDistinct(table) {
        NewIdDistinct(table, address);
      }
      table := table[nw := address];
      nextId := NextId(nextId);
      return Success(address);
    }

    /** `delete`: drops one entry with this id, if there is one; the only one where ids are distinct. */
    method Delete(id: nat)
      requires Valid()
      modifies this
      ensures Valid() && nextId == old(nextId)
      ensures if AddressIdTaken(old(table), id)
              then exists n :: n in old(table) && old(table)[n].id == id && table == old(table) - {n}
              else table == old(table)
      ensures old(AddressIdsDistinct(table)) ==>
                table == map n | n in old(table) && old(table)[n].id != id :: old(table)[n]
    {
      var todo := table.Keys;
      while todo != {}
        invariant todo <= table.Keys && unchanged(this)
        invariant forall n :: n in table && table[n].id == id ==> n in todo
        decreases todo
      {
        var k :| k in todo;
        if table[k].id == id {
          table := table - {k};
          return;
        }
        todo := todo - {k};
      }
    }

    /** `get_data(ip=...)`: the order of the dictionary cannot matter, because the entry that
        contains `ip` is the only one. */
    method GetByIp(ip: Ip) returns (r: Option<Address>)
      requires Valid()
      ensures r.None? <==> !Covered(table, ip)
      ensures r.Some? ==> r.value.Key() in table && table[r.value.Key()] == r.value && Contains(r.value.Key(), ip)
      ensures forall n :: n in table && Contains(n, ip) ==> r == Some(table[n])
    {
      var todo := table.Keys;
      while todo != {}
        invariant todo <= table.Keys
        invariant forall n :: n in table && Contains(n, ip) ==> n in todo
        decreases todo
      {
        var k :| k in todo;
        if ApplyMask(ip, table[k].netmask) == table[k].nwAddr {
          return Some(table[k]);
        }
        todo := todo - {k};
      }
      return None;
    }

    /** `get_data(addr_id=...)`. */
    method GetById(id: nat) returns (r: Option<Address>)
      requires Valid()
      ensures r.None? <==> forall n :: n in table ==> table[n].id != id
      ensures r.Some? ==> r.value.id == id && r.value.Key() in table && table[r.value.Key()] == r.value
    {
      var todo := table.Keys;
      while todo != {}
        invariant todo <= table.Keys
        invariant forall n :: n in table && table[n].id == id ==> n in todo
        decreases todo
      {
        var k :| k in todo;
        if table[k].id == id {
          return Some(table[k]);
        }
        todo := todo - {k};
      }
      return None;
    }
  }
}
