/** The set of connected switches and their ports, kept while connections of one switch come and go. */
module DpSets {
  datatype PortDesc = PortDesc(portNo: nat, attributes: nat)
  type PortState = map<nat, PortDesc>

  /** One connection of a switch; a switch that reconnects has another one with the same `dpid`. */
  datatype Conn = Conn(serial: nat, dpid: nat)

  datatype Event =
    | DP(conn: Conn, enter: bool, ports: seq<PortDesc>)
    | Reconnected(conn: Conn, ports: seq<PortDesc>)
    | PortAdd(conn: Conn, port: PortDesc)
    | PortDelete(conn: Conn, port: PortDesc)
    | PortModify(conn: Conn, port: PortDesc)

  datatype Reason = Add | Delete | Modify

  function With(state: PortState, p: PortDesc): PortState {
    state[p.portNo := p]
  }

  function Without(state: PortState, n: nat): PortState {
    map k | k in state && k != n :: state[k]
  }

  lemma WithMeans(state: PortState, p: PortDesc)
    ensures p.portNo in With(state, p) && With(state, p)[p.portNo] == p && p.portNo !in Without(state, p.portNo)
    ensures With(state, p) - {p.portNo} == state - {p.portNo} == Without(state, p.portNo) - {p.portNo}
  {
  }

  /** The port state that a list of ports describes, later entries last. */
  function FromList(ports: seq<PortDesc>): PortState {
    if ports == [] then map[]
    else With(FromList(ports[..|ports| - 1]), ports[|ports| - 1])
  }

  lemma FromListAppend(ports: seq<PortDesc>, p: PortDesc)
    ensures FromList(ports + [p]) == With(FromList(ports), p)
  {
  }

  /** A port is described by the last entry with its number, and numbers without an entry are absent. */
  lemma {:induction false} FromListMeans(ports: seq<PortDesc>, i: nat)
    requires i < |ports| && forall j :: i < j < |ports| ==> ports[j].portNo != ports[i].portNo
    ensures ports[i].portNo in FromList(ports) && FromList(ports)[ports[i].portNo] == ports[i]
    decreases |ports|
  {
    if i < |ports| - 1 {
      FromListMeans(ports[..|ports| - 1], i);
    }
  }

  lemma {:induction false} OnlyListedPorts(ports: seq<PortDesc>, n: nat)
    requires forall i :: 0 <= i < |ports| ==> ports[i].portNo != n
    ensures n !in FromList(ports)
  {
    if ports != [] {
      OnlyListedPorts(ports[..|ports| - 1], n);
    }
  }

  // ----- what observers make of the events -----

  /** The switches that entered and did not leave. */
  function Present(log: seq<Event>): set<nat> {
    if log == [] then {}
    else
      var before, e := Present(log[..|log| - 1]), log[|log| - 1];
      if !e.DP? then before else if e.enter then before + {e.conn.dpid} else before - {e.conn.dpid}
  }

  /** A switch enters only while absent and leaves only while present. */
  ghost predicate Alternating(log: seq<Event>) {
    forall i :: 0 <= i < |log| && log[i].DP? ==> (log[i].enter <==> log[i].conn.dpid !in Present(log[..i]))
  }

  /** The ports of the present switches, from the events alone. */
  function Replay(log: seq<Event>): map<nat, PortState> {
    if log == [] then map[] else After(Replay(log[..|log| - 1]), log[|log| - 1])
  }

  function After(before: map<nat, PortState>, e: Event): map<nat, PortState> {
    var d := e.conn.dpid;
    match e
    case DP(_, enter, ports) => if enter then before[d := FromList(ports)] else before - {d}
    case Reconnected(_, _) => before
    case PortDelete(_, port) => if d in before then before[d := Without(before[d], port.portNo)] else before
    case _ => if d in before then before[d := With(before[d], e.port)] else before
  }

  predicate Concerns(e: Event, d: nat) {
    e.DP? && e.conn.dpid == d
  }

  /** A switch is present just when the last of its events, if it has any, says that it entered. */
  lemma {:induction false} PresentIsLast(log: seq<Event>, d: nat, i: nat)
    requires i < |log| && Concerns(log[i], d)
    requires forall k :: i < k < |log| ==> !Concerns(log[k], d)
    ensures d in Present(log) <==> log[i].enter
    decreases |log|
  {
    if i < |log| - 1 {
      PresentIsLast(log[..|log| - 1], d, i);
    }
  }

  lemma {:induction false} NeverPresent(log: seq<Event>, d: nat)
    requires forall k :: 0 <= k < |log| ==> !Concerns(log[k], d)
    ensures d !in Present(log)
  {
    if log != [] {
      NeverPresent(log[..|log| - 1], d);
    }
  }

  /** In an alternating log the events of each switch are enter, leave, enter, and so on: its first is
      enter, and of two with none between them exactly one is. */
  lemma StrictlyAlternates(log: seq<Event>, d: nat, j: nat)
    requires Alternating(log) && j < |log| && Concerns(log[j], d)
    ensures (forall k :: 0 <= k < j ==> !Concerns(log[k], d)) ==> log[j].enter
    ensures forall i :: 0 <= i < j && Concerns(log[i], d) && (forall k :: i < k < j ==> !Concerns(log[k], d))
                        ==> log[i].enter != log[j].enter
  {
    if forall k :: 0 <= k < j ==> !Concerns(log[k], d) {
      NeverPresent(log[..j], d);
    }
    forall i | 0 <= i < j && Concerns(log[i], d) && (forall k :: i < k < j ==> !Concerns(log[k], d))
      ensures log[i].enter != log[j].enter
    {
      PresentIsLast(log[..j], d, i);
    }
  }

  lemma LogOne(log: seq<Event>, e: Event)
    ensures Present(log + [e]) == if !e.DP? then Present(log)
                                  else if e.enter then Present(log) + {e.conn.dpid} else Present(log) - {e.conn.dpid}
    ensures Replay(log + [e]) == After(Replay(log), e)
    ensures Alternating(log) && (e.DP? ==> (e.enter <==> e.conn.dpid !in Present(log))) ==> Alternating(log + [e])
  {
    assert (log + [e])[..|log|] == log;
    forall i | 0 <= i < |log|
      ensures (log + [e])[..i] == log[..i]
    {
    }
  }

  class DPSet {
    var dps: map<nat, Conn>
    var portState: map<nat, PortState>
    var log: seq<Event>
    /** The connections that were told to close. */
    var closed: seq<Conn>

    /** The two dictionaries have the same keys and are what the events tell, and the events alternate. */
    ghost predicate Valid()
      reads this
    {
      && dps.Keys == portState.Keys == Present(log)
      && (forall d :: d in dps ==> dps[d].dpid == d)
      && (forall d, n :: d in portState && n in portState[d] ==> portState[d][n].portNo == n)
      && Alternating(log)
      && Replay(log) == portState
    }

    constructor ()
      ensures Valid() && dps == map[] && log == []
    {
      dps, portState, log, closed := map[], map[], [], [];
    }

    /** `_register`: the newest connection of a switch is the one that counts. A switch that was there
        keeps its ports, its older connection is closed, and it does not enter again. */
    method Register(dp: Conn, ports: seq<PortDesc>)
      requires Valid()
      modifies this
      ensures Valid()
      ensures dps == old(dps)[dp.dpid := dp]
      ensures dp.dpid in old(dps) ==>
                && portState == old(portState) && closed == old(closed) + [old(dps)[dp.dpid]]
                && exists ps :: log == old(log) + [Reconnected(dp, ps)] && FromList(ps) == portState[dp.dpid]
      ensures dp.dpid !in old(dps) ==>
                && portState == old(portState)[dp.dpid := FromList(ports)] && closed == old(closed)
                && log == old(log) + [DP(dp, true, ports)]
    {
      var reconnected := dp.dpid in dps;
      if reconnected {
        closed := closed + [dps[dp.dpid]];
      }
      dps := dps[dp.dpid := dp];
      if dp.dpid !in portState {
        var state, evPorts := AddPorts(ports);
        portState := portState[dp.dpid := state];
        Send(DP(dp, true, evPorts));
      }
      if reconnected {
        var ps := ListPorts(portState[dp.dpid]);
        Send(Reconnected(dp, ps));
      }
    }

    /** `_unregister`. A connection that is not the current one of its switch changes nothing. The current
        one takes its switch with it, and the deletions of its ports cannot fail. */
    method Unregister(dp: Conn)
      requires Valid()
      modifies this
      ensures Valid()
      ensures dp !in old(dps).Values ==>
                dps == old(dps) && portState == old(portState) && log == old(log) && closed == old(closed)
      ensures dp in old(dps).Values ==>
                && dp.dpid in old(dps) && old(dps)[dp.dpid] == dp
                && dps == old(dps) - {dp.dpid} && portState == old(portState) - {dp.dpid} && closed == old(closed)
                && exists ps :: log == old(log) + [DP(dp, false, ps)] && FromList(ps) == old(portState)[dp.dpid]
    {
      if dp !in dps.Values {
        return;
      }
      var state := portState[dp.dpid];
      var ps := ListPorts(state);
      var none := RemovePorts(state, ps);
      Send(DP(dp, false, ps));
      dps := dps - {dp.dpid};
      portState := portState - {dp.dpid};
    }

    method Send(e: Event)
      modifies this`log
      ensures log == old(log) + [e] && Replay(log) == After(Replay(old(log)), e)
      ensures Present(log) == if !e.DP? then Present(old(log))
                              else if e.enter then Present(old(log)) + {e.conn.dpid}
                              else Present(old(log)) - {e.conn.dpid}
      ensures Alternating(old(log)) && (e.DP? ==> (e.enter <==> e.conn.dpid !in Present(old(log)))) ==> Alternating(log)
    {
      LogOne(log, e);
      log := log + [e];
    }

    /** `port_status_handler`; it fails, and changes nothing, when the switch is not there, or when the
        port to delete is not. The connection it comes from is not compared with the current one. */
    method PortStatus(dp: Conn, reason: Reason, port: PortDesc) returns (ok: bool)
      requires Valid()
      modifies this`portState, this`log
      ensures Valid()
      ensures ok <==> dp.dpid in old(portState) && (reason.Delete? ==> port.portNo in old(portState)[dp.dpid])
      ensures !ok ==> portState == old(portState) && log == old(log)
      ensures ok ==>
                && dp.dpid in portState
                && (port.portNo in portState[dp.dpid] <==> !reason.Delete?)
                && (!reason.Delete? ==> portState[dp.dpid][port.portNo] == port)
                && portState[dp.dpid] - {port.portNo} == old(portState)[dp.dpid] - {port.portNo}
      ensures ok ==>
                && portState == old(portState)[dp.dpid :=
                     if reason.Delete? then Without(old(portState)[dp.dpid], port.portNo)
                     else With(old(portState)[dp.dpid], port)]
                && log == old(log) + [match reason
                                      case Add => PortAdd(dp, port)
                                      case Delete => PortDelete(dp, port)
                                      case Modify => PortModify(dp, port)]
    {
      if dp.dpid !in portState {
        return false;
      }
      var state := portState[dp.dpid];
      WithMeans(state, port);
      match reason {
        case Add =>
          portState := portState[dp.dpid := With(state, port)];
          Send(PortAdd(dp, port));
        case Delete =>
          if port.portNo !in state {
            return false;
          }
          portState := portState[dp.dpid := Without(state, port.portNo)];
          Send(PortDelete(dp, port));
        case Modify =>
          portState := portState[dp.dpid := With(state, port)];
          Send(PortModify(dp, port));
      }
      ok := true;
    }
  }

  /** The ports of a switch that enters, into its state and into the event. */
  method AddPorts(ports: seq<PortDesc>) returns (state: PortState, evPorts: seq<PortDesc>)
    ensures evPorts == ports && state == FromList(ports)
    ensures forall n :: n in state ==> state[n].portNo == n
  {
    state, evPorts := map[], [];
    for i := 0 to |ports|
      invariant evPorts == ports[..i] && state == FromList(evPorts)
      invariant forall n :: n in state ==> state[n].portNo == n
    {
      FromListAppend(evPorts, ports[i]);
      state := With(state, ports[i]);
      evPorts := evPorts + [ports[i]];
    }
  }

  /** The ports of a switch that leaves: each is there when its turn comes to be deleted. */
  method RemovePorts(state: PortState, ps: seq<PortDesc>) returns (left: PortState)
    requires forall i :: 0 <= i < |ps| ==> ps[i].portNo in state
    requires forall i, j :: 0 <= i < j < |ps| ==> ps[i].portNo != ps[j].portNo
    ensures left.Keys == state.Keys - set i | 0 <= i < |ps| :: ps[i].portNo
  {
    left := state;
    for i := 0 to |ps|
      invariant left.Keys == state.Keys - set k | 0 <= k < i :: ps[k].portNo
    {
      assert ps[i].portNo in left;
      left := Without(left, ps[i].portNo);
    }
  }

  lemma NothingListed()
    ensures FromList([]) == map[]
  {
  }

  lemma OneListed(state: PortState, left: set<nat>, n: nat)
    requires left <= state.Keys && n in left && state[n].portNo == n
    ensures With(state - left, state[n]) == state - (left - {n})
  {
  }

  /** The values of a port state, in some order. */
  method ListPorts(state: PortState) returns (ps: seq<PortDesc>)
    requires forall n :: n in state ==> state[n].portNo == n
    ensures FromList(ps) == state
    ensures forall i :: 0 <= i < |ps| ==> ps[i].portNo in state
    ensures forall i, j :: 0 <= i < j < |ps| ==> ps[i].portNo != ps[j].portNo
  {
    hide FromList, With;
    ps := [];
    var left := state.Keys;
    assert FromList(ps) == state - left by { NothingListed(); }
    while left != {}
      invariant left <= state.Keys
      invariant FromList(ps) == state - left
      invariant forall i :: 0 <= i < |ps| ==> ps[i].portNo in state && ps[i].portNo !in left
      invariant forall i, j :: 0 <= i < j < |ps| ==> ps[i].portNo != ps[j].portNo
      decreases |left|
    {
      var n :| n in left;
      FromListAppend(ps, state[n]);
      OneListed(state, left, n);
      left := left - {n};
      ps := ps + [state[n]];
    }
  }
}
