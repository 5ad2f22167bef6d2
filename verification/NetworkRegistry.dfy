/** The registry of networks, switch ports and MAC addresses: three dictionaries that index the same
    ports, and the events that observers follow them by. */
module NetworkRegistry {
  import opened Wrappers

  datatype Nw = Nw(id: nat)
  datatype Mac = Mac(address: nat)
  datatype Loc = Loc(dpid: nat, portNo: nat)
  datatype Port = Port(nw: Nw, mac: Option<Mac>)

  type Networks = map<Nw, set<Loc>>
  type Macs = map<Nw, map<Mac, set<Loc>>>

  datatype Event =
    | PortEvent(nw: Nw, loc: Loc, add: bool)
    | MacEvent(loc: Loc, nw: Nw, mac: Mac, add: bool)
    | NetworkDel(nw: Nw)

  datatype Error = NetworkAlreadyExist | NetworkNotFound | PortAlreadyExist | PortNotFound | MacAddressAlreadyExist

  /** `MacAddresses.get_ports`: a missing entry is the empty set. */
  function MacPorts(macs: Macs, n: Nw, m: Mac): set<Loc> {
    if n in macs && m in macs[n] then macs[n][m] else {}
  }

  // ----- what an observer makes of the events -----

  datatype Membership = In(nw: Nw, loc: Loc)
  datatype Binding = At(nw: Nw, mac: Mac, loc: Loc)

  function ReplayPorts(log: seq<Event>): set<Membership> {
    if log == [] then {}
    else
      var before, e := ReplayPorts(log[..|log| - 1]), log[|log| - 1];
      if !e.PortEvent? then before
      else if e.add then before + {In(e.nw, e.loc)} else before - {In(e.nw, e.loc)}
  }

  function ReplayMacs(log: seq<Event>): set<Binding> {
    if log == [] then {}
    else
      var before, e := ReplayMacs(log[..|log| - 1]), log[|log| - 1];
      if !e.MacEvent? then before
      else if e.add then before + {At(e.nw, e.mac, e.loc)} else before - {At(e.nw, e.mac, e.loc)}
  }

  lemma ReplayOne(log: seq<Event>, e: Event)
    ensures ReplayPorts(log + [e]) ==
            if !e.PortEvent? then ReplayPorts(log)
            else if e.add then ReplayPorts(log) + {In(e.nw, e.loc)} else ReplayPorts(log) - {In(e.nw, e.loc)}
    ensures ReplayMacs(log + [e]) ==
            if !e.MacEvent? then ReplayMacs(log)
            else if e.add then ReplayMacs(log) + {At(e.nw, e.mac, e.loc)}
            else ReplayMacs(log) - {At(e.nw, e.mac, e.loc)}
  {
  }

  // ----- the invariant -----

  /** `networks` is the inverse image of the ports' networks, the unknown one apart. */
  ghost predicate NetworksInvert(unknown: Nw, ports: map<Loc, Port>, networks: Networks) {
    && unknown !in networks
    && (forall l :: l in ports && ports[l].nw != unknown ==> ports[l].nw in networks)
    && (forall n, l :: n in networks ==> (l in networks[n] <==> l in ports && ports[l].nw == n))
  }

  /** `macs` is the inverse image of the ports' networks and addresses. */
  ghost predicate MacsInvert(ports: map<Loc, Port>, macs: Macs) {
    forall n, m, l :: l in MacPorts(macs, n, m) <==> l in ports && ports[l] == Port(n, Some(m))
  }

  ghost predicate PortsTold(networks: Networks, told: set<Membership>) {
    forall n, l :: In(n, l) in told <==> n in networks && l in networks[n]
  }

  ghost predicate MacsTold(ports: map<Loc, Port>, told: set<Binding>) {
    forall n, m, l :: At(n, m, l) in told <==> l in ports && ports[l] == Port(n, Some(m))
  }

  /** `networks` after a port has moved. */
  function Moved(unknown: Nw, networks: Networks, oldNw: Nw, n: Nw, loc: Loc): Networks
    requires n in networks && (oldNw != unknown ==> oldNw in networks)
  {
    if oldNw == n then networks
    else
      var joined := networks[n := networks[n] + {loc}];
      if oldNw == unknown then joined else joined[oldNw := joined[oldNw] - {loc}]
  }

  /** Each of the ports has left the network, once. */
  ghost predicate LeavesOf(leaves: seq<Event>, n: Nw, locs: set<Loc>) {
    && (forall i, j :: 0 <= i < j < |leaves| ==> leaves[i] != leaves[j])
    && (forall i :: 0 <= i < |leaves| ==> leaves[i].PortEvent? && leaves[i] == PortEvent(n, leaves[i].loc, false)
                                          && leaves[i].loc in locs)
    && (forall loc :: loc in locs ==> PortEvent(n, loc, false) in leaves)
  }

  lemma NoneLeft(n: Nw, locs: set<Loc>)
    ensures LeavesOf([], n, locs - locs)
  {
  }

  lemma LeavesNext(leaves: seq<Event>, n: Nw, locs: set<Loc>, loc: Loc)
    requires LeavesOf(leaves, n, locs) && loc !in locs
    ensures LeavesOf(leaves + [PortEvent(n, loc, false)], n, locs + {loc})
  {
    var e := PortEvent(n, loc, false);
    forall l | l in locs + {loc}
      ensures PortEvent(n, l, false) in leaves + [e]
    {
    }
  }

  class Network {
    const unknown: Nw
    /** The keys of `dpids`; `ports` holds the entries of its inner dictionaries. */
    var switches: set<nat>
    var ports: map<Loc, Port>
    var networks: Networks
    var macs: Macs
    var log: seq<Event>

    /** The indexes agree, and the events sent so far tell an observer what they hold. */
    ghost predicate Valid()
      reads this
    {
      && (forall l :: l in ports ==> l.dpid in switches)
      && NetworksInvert(unknown, ports, networks)
      && MacsInvert(ports, macs)
      && PortsTold(networks, ReplayPorts(log))
      && MacsTold(ports, ReplayMacs(log))
    }

    /** `get_network_safe`. */
    function NetworkSafe(loc: Loc): Nw
      reads this
    {
      if loc in ports then ports[loc].nw else unknown
    }

    constructor (unknown: Nw)
      ensures Valid() && this.unknown == unknown
    {
      this.unknown := unknown;
      switches, ports, networks, macs, log := {}, map[], map[], map[], [];
    }

    method Send(e: Event)
      modifies this`log
      ensures log == old(log) + [e]
      ensures ReplayPorts(log) ==
              if !e.PortEvent? then ReplayPorts(old(log))
              else if e.add then ReplayPorts(old(log)) + {In(e.nw, e.loc)}
              else ReplayPorts(old(log)) - {In(e.nw, e.loc)}
      ensures ReplayMacs(log) ==
              if !e.MacEvent? then ReplayMacs(old(log))
              else if e.add then ReplayMacs(old(log)) + {At(e.nw, e.mac, e.loc)}
              else ReplayMacs(old(log)) - {At(e.nw, e.mac, e.loc)}
    {
      ReplayOne(log, e);
      log := log + [e];
    }

    // ----- networks -----

    method UpdateNetwork(n: Nw) returns (e: Option<Error>)
      requires Valid()
      modifies this`networks
      ensures Valid()
      ensures e == if n == unknown then Some(NetworkAlreadyExist) else None
      ensures networks == if n == unknown || n in old(networks) then old(networks) else old(networks)[n := {}]
    {
      if n == unknown {
        return Some(NetworkAlreadyExist);
      }
      if n !in networks {
        networks := networks[n := {}];
      }
      e := None;
    }

    method CreateNetwork(n: Nw) returns (e: Option<Error>)
      requires Valid()
      modifies this`networks
      ensures Valid()
      ensures e == if n == unknown || n in old(networks) then Some(NetworkAlreadyExist) else None
      ensures networks == if e.Some? then old(networks) else old(networks)[n := {}]
    {
      if n == unknown || n in networks {
        return Some(NetworkAlreadyExist);
      }
      networks := networks[n := {}];
      e := None;
    }

    /** Removing a network forgets it and tells so, but its ports still name it: the indexes keep
        agreeing if and only if it was empty. */
    method RemoveNetwork(n: Nw) returns (e: Option<Error>, ghost leaves: seq<Event>)
      requires Valid()
      modifies this
      ensures e == if n in old(networks) then None else Some(NetworkNotFound)
      ensures networks == old(networks) - {n}
      ensures ports == old(ports) && macs == old(macs) && switches == old(switches)
      ensures PortsTold(networks, ReplayPorts(log)) && ReplayMacs(log) == ReplayMacs(old(log))
      ensures Valid() <==> n !in old(networks) || old(networks)[n] == {}
      ensures n !in old(networks) ==> log == old(log)
      ensures n in old(networks) ==>
                log == old(log) + leaves + [NetworkDel(n)] && LeavesOf(leaves, n, old(networks)[n])
    {
      leaves := [];
      if n !in networks {
        assert networks - {n} == networks;
        e := Some(NetworkNotFound);
        return;
      }
      hide NetworksInvert, MacsInvert, MacsTold, PortsTold, LeavesOf;
      ghost var was := networks;
      leaves := TellLeaves(n);
      networks := networks - {n};
      Send(NetworkDel(n));
      NetworkGoneIff(unknown, ports, was, n);
      e := None;
    }

    /** The loop of `Networks.remove`: each port of the network is told to have left it. */
    method TellLeaves(n: Nw) returns (ghost leaves: seq<Event>)
      requires n in networks && PortsTold(networks, ReplayPorts(log))
      modifies this`log
      ensures log == old(log) + leaves && LeavesOf(leaves, n, networks[n])
      ensures PortsTold(networks - {n}, ReplayPorts(log)) && ReplayMacs(log) == ReplayMacs(old(log))
    {
      hide PortsTold, LeavesOf;
      leaves := [];
      var left := networks[n];
      assert networks[n := left] == networks;
      assert LeavesOf([], n, networks[n] - networks[n]) by { NoneLeft(n, networks[n]); }
      while left != {}
        invariant left <= networks[n] && log == old(log) + leaves && LeavesOf(leaves, n, networks[n] - left)
        invariant PortsTold(networks[n := left], ReplayPorts(log)) && ReplayMacs(log) == ReplayMacs(old(log))
        decreases |left|
      {
        var loc :| loc in left;
        OneLeaves(networks, n, left, loc, ReplayPorts(log));
        LeavesNext(leaves, n, networks[n] - left, loc);
        assert networks[n] - left + {loc} == networks[n] - (left - {loc});
        leaves := leaves + [PortEvent(n, loc, false)];
        left := left - {loc};
        Send(PortEvent(n, loc, false));
      }
      AllLeft(networks, n, ReplayPorts(log));
      assert networks[n] - left == networks[n];
    }

    // ----- ports -----

    /** Adding a port of a switch that connects; ports it has already are kept. */
    method PortAdded(loc: Loc, fake: bool)
      requires Valid()
      modifies this
      ensures Valid() && networks == old(networks) && macs == old(macs) && log == old(log)
      ensures ports == if fake || loc in old(ports) then old(ports) else old(ports)[loc := Port(unknown, None)]
      ensures switches == if fake then old(switches) else old(switches) + {loc.dpid}
    {
      if fake {
        return;
      }
      switches := switches + {loc.dpid};
      if loc !in ports {
        ports := ports[loc := Port(unknown, None)];
      }
    }

    /** `remove_raw`. */
    method RemoveRaw(n: Nw, loc: Loc) returns (found: bool)
      modifies this`networks, this`log
      ensures found == (n in old(networks))
      ensures networks == if found then old(networks)[n := old(networks)[n] - {loc}] else old(networks)
      ensures log == old(log) + if found && loc in old(networks)[n] then [PortEvent(n, loc, false)] else []
      ensures ReplayMacs(log) == ReplayMacs(old(log))
      ensures ReplayPorts(log) ==
              ReplayPorts(old(log)) - if found && loc in old(networks)[n] then {In(n, loc)} else {}
    {
      if n !in networks {
        return false;
      }
      found := true;
      if loc in networks[n] {
        networks := networks[n := networks[n] - {loc}];
        Send(PortEvent(n, loc, false));
      } else {
        assert networks[n] - {loc} == networks[n];
      }
    }

    /** `DPIDs.update_port`: the port keeps its MAC address. */
    method SetNetwork(n: Nw, loc: Loc)
      modifies this`switches, this`ports
      ensures switches == old(switches) + {loc.dpid}
      ensures ports == old(ports)[loc := Port(n, if loc in old(ports) then old(ports)[loc].mac else None)]
    {
      switches := switches + {loc.dpid};
      if loc !in ports {
        ports := ports[loc := Port(n, None)];
      }
      ports := ports[loc := ports[loc].(nw := n)];
    }

    /** What `networks` goes through in a move; the port cannot be in a network that is not there. */
    method MoveMembership(n: Nw, oldNw: Nw, loc: Loc)
      requires NetworksInvert(unknown, ports, networks) && PortsTold(networks, ReplayPorts(log))
      requires n in networks && oldNw == NetworkSafe(loc) && oldNw != n
      modifies this`networks, this`log
      ensures networks == Moved(unknown, old(networks), oldNw, n, loc)
      ensures PortsTold(networks, ReplayPorts(log) + {In(n, loc)}) && ReplayMacs(log) == ReplayMacs(old(log))
      ensures log == old(log) + if oldNw == unknown then [] else [PortEvent(oldNw, loc, false)]
    {
      networks := networks[n := networks[n] + {loc}];
      if oldNw != unknown {
        var found := RemoveRaw(oldNw, loc);
        assert found;
      }
    }

    /** The changes of `_update_port`, once nothing stands against them. */
    method MovePort(n: Nw, oldNw: Nw, loc: Loc)
      requires NetworksInvert(unknown, ports, networks) && PortsTold(networks, ReplayPorts(log))
      requires n in networks && oldNw == NetworkSafe(loc)
      modifies this
      ensures macs == old(macs) && switches == old(switches) + {loc.dpid}
      ensures ports == old(ports)[loc := Port(n, if loc in old(ports) then old(ports)[loc].mac else None)]
      ensures oldNw != unknown ==> oldNw in old(networks)
      ensures networks == Moved(unknown, old(networks), oldNw, n, loc)
      ensures PortsTold(networks, ReplayPorts(log)) && ReplayMacs(log) == ReplayMacs(old(log))
      ensures log == old(log) + if oldNw == n then [] else if oldNw == unknown then [PortEvent(n, loc, true)]
                                else [PortEvent(oldNw, loc, false), PortEvent(n, loc, true)]
    {
      KnownNetwork(unknown, ports, networks, n, loc);
      hide NetworksInvert, PortsTold;
      if oldNw != n {
        MoveMembership(n, oldNw, loc);
      }
      SetNetwork(n, loc);
      if oldNw != n {
        Send(PortEvent(n, loc, true));
      }
    }

    /** `_update_port`: puts the port in network `n`, moving it from the one it was in. A refused call
        changes nothing. The indexes keep agreeing if and only if the port carries no MAC address or does
        not change network: its entry in `macs` is not moved along. */
    method UpdatePort(n: Nw, loc: Loc, portMayExist: bool) returns (e: Option<Error>)
      requires Valid()
      modifies this
      ensures macs == old(macs)
      ensures e == if n == unknown then Some(NetworkAlreadyExist)
                   else if n !in old(networks) then Some(NetworkNotFound)
                   else if !portMayExist && old(NetworkSafe(loc)) != unknown then Some(PortAlreadyExist)
                   else None
      ensures e.Some? ==> ports == old(ports) && networks == old(networks) && log == old(log)
      ensures switches == if e.Some? then old(switches) else old(switches) + {loc.dpid}
      ensures e.None? ==>
                var was := old(NetworkSafe(loc));
                log == old(log) + if was == n then [] else if was == unknown then [PortEvent(n, loc, true)]
                                  else [PortEvent(was, loc, false), PortEvent(n, loc, true)]
      ensures e.None? ==>
                && loc in ports && ports[loc].nw == n
                && ports == old(ports)[loc := ports[loc]]
                && ports[loc].mac == (if loc in old(ports) then old(ports)[loc].mac else None)
                && networks == Moved(unknown, old(networks), old(NetworkSafe(loc)), n, loc)
                && NetworksInvert(unknown, ports, networks) && PortsTold(networks, ReplayPorts(log))
      ensures Valid() <==>
              e.Some? || loc !in old(ports) || old(ports)[loc].mac.None? || old(ports)[loc].nw == n
    {
      if n == unknown {
        return Some(NetworkAlreadyExist);
      }
      var oldNw := NetworkSafe(loc);
      if n !in networks {
        return Some(NetworkNotFound);
      }
      hide NetworksInvert, MacsInvert, PortsTold, MacsTold;
      KnownNetwork(unknown, ports, networks, n, loc);
      if (loc in networks[n] || oldNw != unknown) && !portMayExist {
        return Some(PortAlreadyExist);
      }
      ghost var ports0 := ports;
      MovePort(n, oldNw, loc);
      MoveInverts(unknown, ports0, old(networks), ports, networks, loc, n);
      MacsFollowIff(ports0, ports, macs, loc, n);
      e := None;
    }

    /** `remove_port` with the network the caller believes the port to be in. The indexes keep agreeing
        if and only if that belief is right, or the port is not there, or is in no network and has no
        MAC address. */
    method RemovePort(n: Nw, loc: Loc) returns (e: Option<Error>)
      requires Valid()
      modifies this
      ensures e == if loc.dpid in switches then None else Some(PortNotFound)
      ensures ports == old(ports) - {loc} && switches == old(switches)
      ensures networks == if n in old(networks) then old(networks)[n := old(networks)[n] - {loc}] else old(networks)
      ensures log == old(log)
                + (if loc in old(ports) && old(ports)[loc].mac.Some?
                   then [MacEvent(loc, old(ports)[loc].nw, old(ports)[loc].mac.value, false)] else [])
                + (if n in old(networks) && loc in old(networks)[n] then [PortEvent(n, loc, false)] else [])
      ensures forall n2, m2 :: MacPorts(macs, n2, m2) ==
                MacPorts(old(macs), n2, m2)
                - if n2 == n && loc in old(ports) && old(ports)[loc] == Port(n, Some(m2)) then {loc} else {}
      ensures Valid() <==>
              || loc !in old(ports) || old(ports)[loc].nw == n
              || old(ports)[loc] == Port(unknown, None)
    {
      hide NetworksInvert, MacsInvert, MacsTold, PortsTold, MacPorts, ReplayPorts, ReplayMacs;
      ghost var ports0, networks0 := ports, networks;
      var oldMac := if loc in ports && ports[loc].nw == n then ports[loc].mac else None;
      e := ForgetPort(loc);
      if e.Some? {
        AbsentNowhere(unknown, ports, networks, n, loc);
        assert n in networks ==> networks[n] - {loc} == networks[n];
        return;
      }
      var found := RemoveRaw(n, loc);
      if oldMac.Some? {
        MacsRemovePort(n, loc, oldMac.value);
      }
      LeftTold(networks0, networks, ReplayPorts(old(log)), n, loc);
      RemovedInvertsIff(unknown, ports0, networks0, ports, networks, loc, n);
      MacsRemovedIff(ports0, ports, old(macs), macs, loc, n);
    }

    /** `DPIDs.remove_port`: drops the port and tells of its MAC address. */
    method ForgetPort(loc: Loc) returns (e: Option<Error>)
      requires MacsTold(ports, ReplayMacs(log))
      modifies this`ports, this`log
      ensures e == if loc.dpid in switches then None else Some(PortNotFound)
      ensures if e.None? then ports == old(ports) - {loc} else ports == old(ports) && log == old(log)
      ensures e.None? ==>
                log == old(log) + if loc in old(ports) && old(ports)[loc].mac.Some?
                                  then [MacEvent(loc, old(ports)[loc].nw, old(ports)[loc].mac.value, false)] else []
      ensures MacsTold(ports, ReplayMacs(log)) && ReplayPorts(log) == ReplayPorts(old(log))
    {
      if loc.dpid !in switches {
        return Some(PortNotFound);
      }
      if loc in ports {
        var port := ports[loc];
        ports := ports - {loc};
        if port.mac.Some? {
          Send(MacEvent(loc, port.nw, port.mac.value, false));
        }
      } else {
        assert ports - {loc} == ports;
      }
      e := None;
    }

    /** `port_deleted`, when a switch drops a port: the other indexes are not told, so they keep agreeing
        if and only if the port is not there, or is in no network and has no MAC address. */
    method PortDeleted(loc: Loc) returns (e: Option<Error>)
      requires Valid()
      modifies this`ports, this`log
      ensures e == if loc.dpid in switches then None else Some(PortNotFound)
      ensures ports == old(ports) - {loc}
      ensures log == old(log) + if loc in old(ports) && old(ports)[loc].mac.Some?
                                then [MacEvent(loc, old(ports)[loc].nw, old(ports)[loc].mac.value, false)] else []
      ensures Valid() <==> loc !in old(ports) || old(ports)[loc] == Port(unknown, None)
    {
      ghost var ports0 := ports;
      e := ForgetPort(loc);
      if loc in ports0 {
        if ports0[loc].nw != unknown {
          assert loc in networks[ports0[loc].nw];
        } else if ports0[loc].mac.Some? {
          assert loc in MacPorts(macs, unknown, ports0[loc].mac.value);
        }
      }
    }

    // ----- MAC addresses -----

    method MacsAddPort(n: Nw, loc: Loc, m: Mac)
      modifies this`macs
      ensures forall n2, m2 :: MacPorts(macs, n2, m2) ==
                               MacPorts(old(macs), n2, m2) + if n2 == n && m2 == m then {loc} else {}
    {
      var mac2port := if n in macs then macs[n] else map[];
      macs := macs[n := mac2port[m := MacPorts(macs, n, m) + {loc}]];
    }

    /** Empty entries are deleted. */
    method MacsRemovePort(n: Nw, loc: Loc, m: Mac)
      modifies this`macs
      ensures forall n2, m2 :: MacPorts(macs, n2, m2) ==
                               MacPorts(old(macs), n2, m2) - if n2 == n && m2 == m then {loc} else {}
    {
      if n !in macs {
        return;
      }
      var left := MacPorts(macs, n, m) - {loc};
      var mac2port := if left == {} then macs[n] - {m} else macs[n][m := left];
      macs := if mac2port == map[] then macs - {n} else macs[n := mac2port];
      forall n2, m2
        ensures MacPorts(macs, n2, m2) == MacPorts(old(macs), n2, m2) - if n2 == n && m2 == m then {loc} else {}
      {
        assert n2 == n && m2 != m && m2 in old(macs)[n] ==> m2 in mac2port;
      }
    }

    /** `_set_mac`: a port of no network joins network `n` here, but only in `ports`. */
    method SetMac(n: Nw, loc: Loc, m: Mac) returns (e: Option<Error>)
      requires loc in ports
      modifies this`ports, this`log
      ensures e == if old(ports)[loc].nw == n || old(ports)[loc].nw == unknown then None else Some(PortNotFound)
      ensures e.Some? ==> ports == old(ports) && log == old(log)
      ensures e.None? ==> ports == old(ports)[loc := Port(n, Some(m))] && log == old(log) + [MacEvent(loc, n, m, true)]
      ensures e.None? ==> ReplayMacs(log) == ReplayMacs(old(log)) + {At(n, m, loc)}
      ensures ReplayPorts(log) == ReplayPorts(old(log))
    {
      if ports[loc].nw != n && ports[loc].nw != unknown {
        return Some(PortNotFound);
      }
      ports := ports[loc := Port(n, Some(m))];
      Send(MacEvent(loc, n, m, true));
      e := None;
    }

    /** `create_mac` enters the address in `macs` before it checks the port. The indexes keep agreeing if
        and only if the port is in network `n` and has no MAC address or this one. */
    method CreateMac(n: Nw, loc: Loc, m: Mac) returns (e: Option<Error>)
      requires Valid()
      modifies this`macs, this`ports, this`log
      ensures e == if loc !in old(ports) then Some(PortNotFound)
                   else if old(ports)[loc].mac.Some? then Some(MacAddressAlreadyExist)
                   else if old(ports)[loc].nw == n || old(ports)[loc].nw == unknown then None
                   else Some(PortNotFound)
      ensures ports == if e.None? then old(ports)[loc := Port(n, Some(m))] else old(ports)
      ensures log == old(log) + if e.None? then [MacEvent(loc, n, m, true)] else []
      ensures forall n2, m2 :: MacPorts(macs, n2, m2) ==
                               MacPorts(old(macs), n2, m2) + if n2 == n && m2 == m then {loc} else {}
      ensures Valid() <==>
              loc in old(ports) && old(ports)[loc].nw == n
              && (old(ports)[loc].mac.None? || old(ports)[loc].mac == Some(m))
    {
      ghost var ports0, macs0 := ports, macs;
      MacsAddPort(n, loc, m);
      if loc !in ports {
        e := Some(PortNotFound);
      } else if ports[loc].mac.Some? {
        e := Some(MacAddressAlreadyExist);
      } else {
        e := SetMac(n, loc, m);
      }
      AddedMacIff(unknown, ports0, ports, networks, macs0, macs, loc, n, m);
    }

    /** `update_mac` checks first, but keeps the address of a port that has it already without asking for
        the network. */
    method UpdateMac(n: Nw, loc: Loc, m: Mac) returns (e: Option<Error>)
      requires Valid()
      modifies this`macs, this`ports, this`log
      ensures e == if loc !in old(ports) then Some(PortNotFound)
                   else if old(ports)[loc].mac.Some? then
                     if old(ports)[loc].mac == Some(m) then None else Some(MacAddressAlreadyExist)
                   else if old(ports)[loc].nw == n || old(ports)[loc].nw == unknown then None
                   else Some(PortNotFound)
      ensures ports == if e.None? && old(ports)[loc].mac.None? then old(ports)[loc := Port(n, Some(m))] else old(ports)
      ensures log == old(log) + if e.None? && old(ports)[loc].mac.None? then [MacEvent(loc, n, m, true)] else []
      ensures e.Some? ==> macs == old(macs)
      ensures e.None? ==>
                forall n2, m2 ::
                  MacPorts(macs, n2, m2) == MacPorts(old(macs), n2, m2) + if n2 == n && m2 == m then {loc} else {}
      ensures Valid() <==> e.Some? || old(ports)[loc].nw == n
    {
      hide MacPorts, NetworksInvert, MacsInvert, PortsTold, MacsTold;
      ghost var ports0, macs0, told := ports, macs, ReplayMacs(log);
      if loc !in ports {
        return Some(PortNotFound);
      }
      var oldMac := if ports[loc].nw == n then ports[loc].mac else None;
      MacsToldNext(ports0, told, loc, n, m);
      if ports[loc].mac.None? {
        e := SetMac(n, loc, m);
        if e.Some? {
          return;
        }
      } else if ports[loc].mac != Some(m) {
        return Some(MacAddressAlreadyExist);
      }
      assert MacsTold(ports, ReplayMacs(log));
      assert PortsTold(networks, ReplayPorts(log)) && forall l :: l in ports ==> l.dpid in switches;
      Reenter(n, loc, m, oldMac);
      AddedMacIff(unknown, ports0, ports, networks, macs0, macs, loc, n, m);
      assert ports0[loc].mac.None? || ports0[loc].mac == Some(m);
      e := None;
    }

    /** The end of `update_mac`: the entry is taken out if it was there, and made. */
    method Reenter(n: Nw, loc: Loc, m: Mac, oldMac: Option<Mac>)
      requires oldMac.Some? ==> oldMac.value == m
      modifies this`macs
      ensures forall n2, m2 :: MacPorts(macs, n2, m2) ==
                               MacPorts(old(macs), n2, m2) + if n2 == n && m2 == m then {loc} else {}
    {
      if oldMac.Some? {
        MacsRemovePort(n, loc, oldMac.value);
      }
      MacsAddPort(n, loc, m);
    }
  }

  // ----- what one step does to the indexes -----

  lemma OneLeaves(networks: Networks, n: Nw, left: set<Loc>, loc: Loc, told: set<Membership>)
    requires PortsTold(networks[n := left], told)
    ensures PortsTold(networks[n := left - {loc}], told - {In(n, loc)})
  {
  }

  lemma AllLeft(networks: Networks, n: Nw, told: set<Membership>)
    requires PortsTold(networks[n := {}], told)
    ensures PortsTold(networks - {n}, told)
  {
  }

  lemma NetworkGoneIff(unknown: Nw, ports: map<Loc, Port>, networks: Networks, n: Nw)
    requires NetworksInvert(unknown, ports, networks) && n in networks
    ensures NetworksInvert(unknown, ports, networks - {n}) <==> networks[n] == {}
  {
    if networks[n] != {} {
      var loc :| loc in networks[n];
      assert ports[loc].nw == n && n != unknown;
    }
  }

  /** A port that a network holds is in a known network, and so is one whose network is not the unknown. */
  lemma KnownNetwork(unknown: Nw, ports: map<Loc, Port>, networks: Networks, n: Nw, loc: Loc)
    requires NetworksInvert(unknown, ports, networks) && n in networks
    ensures loc in networks[n] ==> loc in ports && ports[loc].nw != unknown
    ensures loc in ports && ports[loc].nw != unknown ==> ports[loc].nw in networks
  {
  }

  lemma AbsentNowhere(unknown: Nw, ports: map<Loc, Port>, networks: Networks, n: Nw, loc: Loc)
    requires NetworksInvert(unknown, ports, networks) && loc !in ports
    ensures n in networks ==> loc !in networks[n]
  {
  }

  lemma LeftTold(networks: Networks, networks2: Networks, told: set<Membership>, n: Nw, loc: Loc)
    requires PortsTold(networks, told)
    requires networks2 == if n in networks then networks[n := networks[n] - {loc}] else networks
    ensures PortsTold(networks2, told - if n in networks && loc in networks[n] then {In(n, loc)} else {})
  {
  }

  lemma MoveInverts(unknown: Nw, ports: map<Loc, Port>, networks: Networks, ports2: map<Loc, Port>, networks2: Networks,
                    loc: Loc, n: Nw)
    requires NetworksInvert(unknown, ports, networks) && n in networks && n != unknown
    requires loc in ports2 && ports2[loc].nw == n && ports2 == ports[loc := ports2[loc]]
    requires networks2 == Moved(unknown, networks, if loc in ports then ports[loc].nw else unknown, n, loc)
    ensures NetworksInvert(unknown, ports2, networks2)
  {
  }

  lemma MacsFollowIff(ports: map<Loc, Port>, ports2: map<Loc, Port>, macs: Macs, loc: Loc, n: Nw)
    requires MacsInvert(ports, macs)
    requires loc in ports2 && ports2 == ports[loc := ports2[loc]]
    requires ports2[loc] == Port(n, if loc in ports then ports[loc].mac else None)
    ensures MacsInvert(ports2, macs) <==> loc !in ports || ports[loc].mac.None? || ports[loc].nw == n
    ensures loc !in ports || ports[loc].mac.None? || ports[loc].nw == n ==>
            forall told :: MacsTold(ports, told) ==> MacsTold(ports2, told)
  {
  }

  lemma RemovedInvertsIff(unknown: Nw, ports: map<Loc, Port>, networks: Networks, ports2: map<Loc, Port>,
                          networks2: Networks, loc: Loc, n: Nw)
    requires NetworksInvert(unknown, ports, networks) && ports2 == ports - {loc}
    requires networks2 == if n in networks then networks[n := networks[n] - {loc}] else networks
    ensures NetworksInvert(unknown, ports2, networks2) <==>
            loc !in ports || ports[loc].nw == n || ports[loc].nw == unknown
  {
    if loc in ports && ports[loc].nw != n && ports[loc].nw != unknown {
      assert loc in networks2[ports[loc].nw];
    }
  }

  lemma MacsRemovedIff(ports: map<Loc, Port>, ports2: map<Loc, Port>, macs: Macs, macs2: Macs, loc: Loc, n: Nw)
    requires MacsInvert(ports, macs) && ports2 == ports - {loc}
    requires forall n2, m2 :: MacPorts(macs2, n2, m2) == MacPorts(macs, n2, m2)
               - if loc in ports && ports[loc] == Port(n2, Some(m2)) && n2 == n then {loc} else {}
    ensures MacsInvert(ports2, macs2) <==> loc !in ports || ports[loc].nw == n || ports[loc].mac.None?
  {
  }

  /** An address that a port gets is told; one that it has already is known. */
  lemma MacsToldNext(ports: map<Loc, Port>, told: set<Binding>, loc: Loc, n: Nw, m: Mac)
    requires MacsTold(ports, told) && loc in ports
    ensures ports[loc].mac.None? ==> MacsTold(ports[loc := Port(n, Some(m))], told + {At(n, m, loc)})
  {
  }

  lemma AddedMacIff(unknown: Nw, ports: map<Loc, Port>, ports2: map<Loc, Port>, networks: Networks, macs: Macs,
                    macs2: Macs, loc: Loc, n: Nw, m: Mac)
    requires NetworksInvert(unknown, ports, networks) && MacsInvert(ports, macs)
    requires forall n2, m2 ::
               MacPorts(macs2, n2, m2) == MacPorts(macs, n2, m2) + if n2 == n && m2 == m then {loc} else {}
    requires ports2 == if loc in ports && ports[loc].mac.None? && (ports[loc].nw == n || ports[loc].nw == unknown)
                       then ports[loc := Port(n, Some(m))] else ports
    ensures NetworksInvert(unknown, ports2, networks) && MacsInvert(ports2, macs2) <==>
            loc in ports && ports[loc].nw == n && (ports[loc].mac.None? || ports[loc].mac == Some(m))
  {
    assert loc in MacPorts(macs2, n, m);
    if loc in ports && ports[loc].nw == unknown && n != unknown && ports[loc].mac.None? {
      assert ports2[loc].nw == n && (n in networks ==> loc !in networks[n]);
      assert !NetworksInvert(unknown, ports2, networks);
    }
    if loc in ports && ports[loc].nw == n && (ports[loc].mac.None? || ports[loc].mac == Some(m)) {
      assert NetworksInvert(unknown, ports2, networks);
      assert MacsInvert(ports2, macs2);
    }
  }
}
