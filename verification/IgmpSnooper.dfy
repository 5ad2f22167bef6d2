/** The IGMP snooper of one switch: which hosts joined a group, and the flow entries from the querier's
    port to them. */
module IgmpSnoopers {
  import opened Wrappers

  datatype Group = Group(address: nat)

  /** OpenFlow numbers ports from 1, so a known querier port is never the false value 0. */
  datatype Port = Port(number: nat)

  datatype PortFlags = PortFlags(out: bool, inn: bool)

  datatype GroupState = GroupState(replied: bool, leave: Option<Port>, ports: map<Port, PortFlags>)

  datatype Output = ToPorts(ports: set<Port>) | ToController

  /** (in_port, group) -> output. */
  type FlowTable = map<(Port, Group), Output>

  /** EventMulticastGroupStateChanged. */
  datatype Event =
    | GroupAdded(group: Group, src: Option<Port>)
    | MemberChanged(group: Group, src: Option<Port>, dsts: set<Port>)
    | GroupRemoved(group: Group, src: Option<Port>)

  /** What an observer makes of one event. */
  function Apply(view: map<Group, set<Port>>, e: Event): map<Group, set<Port>> {
    match e
    case GroupAdded(_, _) => view
    case MemberChanged(g, _, dsts) => view[g := dsts]
    case GroupRemoved(g, _) => view - {g}
  }

  /** What an observer who follows the events believes the querier's entries to be. */
  function Replay(events: seq<Event>): map<Group, set<Port>> {
    if events == [] then map[] else Apply(Replay(events[..|events| - 1]), events[|events| - 1])
  }

  lemma ReplayNext(events: seq<Event>, e: Event)
    ensures Replay(events + [e]) == Apply(Replay(events), e)
  {
  }

  type Hosts = map<Group, GroupState>

  /** Entries at other ports than the querier's only ever lead to the controller. */
  ghost predicate OthersToController(querier: Option<Port>, flows: FlowTable) {
    forall p, g :: (p, g) in flows && querier != Some(p) ==> flows[(p, g)] == ToController
  }

  /** {ports marked 'in'} <= outputs of the querier's entry <= recorded ports, and no entry for an absent
      group. */
  ghost predicate GroupOk(q: Port, hosts: Hosts, flows: FlowTable, g: Group) {
    && ((q, g) in flows ==> g in hosts && flows[(q, g)].ToPorts? && flows[(q, g)].ports <= hosts[g].ports.Keys)
    && (g in hosts ==> forall p :: p in hosts[g].ports && hosts[g].ports[p].inn ==>
        (q, g) in flows && p in flows[(q, g)].ports)
  }

  /** Following the events yields exactly the querier's entries. */
  ghost predicate EventsOk(q: Port, flows: FlowTable, events: seq<Event>) {
    forall g ::
      (g in Replay(events) <==> (q, g) in flows)
      && (g in Replay(events) ==> flows[(q, g)] == ToPorts(Replay(events)[g]))
  }

  ghost predicate Ok(querier: Option<Port>, hosts: Hosts, flows: FlowTable, events: seq<Event>) {
    && OthersToController(querier, flows)
    && match querier
       case None =>
         Replay(events) == map[] && forall g, p :: g in hosts && p in hosts[g].ports ==> !hosts[g].ports[p].inn
       case Some(q) => EventsOk(q, flows, events) && forall g :: GroupOk(q, hosts, flows, g)
  }

  /** The group and its ports' entries are gone, nothing else changes. */
  ghost predicate GroupCleared(q: Port, ports: set<Port>, before: FlowTable, after: FlowTable, g: Group) {
    && (forall p, h {:trigger (p, h) in after} {:trigger (p, h) in before} ::
          ((p, h) in after <==> (p, h) in before && !(h == g && (p == q || p in ports))))
    && (forall p, h :: (p, h) in after ==> after[(p, h)] == before[(p, h)])
  }

  ghost predicate GroupsCleared(q: Port, hosts: Hosts, gone: set<Group>, before: FlowTable, after: FlowTable) {
    && (forall p, h {:trigger (p, h) in after} {:trigger (p, h) in before} ::
          ((p, h) in after <==> (p, h) in before && !(h in gone && (p == q || Recorded(hosts, h, p)))))
    && (forall p, h :: (p, h) in after ==> after[(p, h)] == before[(p, h)])
  }

  lemma GroupsClearedNext(q: Port, hosts: Hosts, gone: set<Group>, before: FlowTable, f: FlowTable, f': FlowTable,
                          g: Group)
    requires GroupsCleared(q, hosts, gone, before, f) && g in hosts && GroupCleared(q, hosts[g].ports.Keys, f, f', g)
    ensures GroupsCleared(q, hosts, gone + {g}, before, f')
  {
  }

  lemma ClearedEmptyGroup(q: Port, before: FlowTable, after: FlowTable, g: Group)
    requires GroupCleared(q, {}, before, after, g)
    ensures after == before - {(q, g)}
  {
    forall k: (Port, Group)
      ensures k in after <==> k in before - {(q, g)}
      ensures k in after ==> after[k] == before[k]
    {
      var (p, h) := k;
      assert (p, h) in after <==> (p, h) in before && !(h == g && p == q);
    }
  }

  lemma RemoveGroupStep(q: Port, hosts: Hosts, flows: FlowTable, events: seq<Event>, g: Group, ports: set<Port>,
                        flows': FlowTable)
    requires Ok(Some(q), hosts, flows, events) && GroupCleared(q, ports, flows, flows', g)
    ensures Ok(Some(q), hosts - {g}, flows', events + [GroupRemoved(g, Some(q))])
  {
    ReplayNext(events, GroupRemoved(g, Some(q)));
    forall h
      ensures GroupOk(q, hosts - {g}, flows', h)
    {
      assert GroupOk(q, hosts, flows, h);
    }
  }

  /** After the querier's entry of `g` is set to all recorded ports, any marks are right. */
  lemma SetGroupStep(q: Port, hosts: Hosts, flows: FlowTable, events: seq<Event>, g: Group, state: GroupState,
                     hosts': Hosts, flows': FlowTable)
    requires Ok(Some(q), hosts, flows, events) && hosts' == hosts[g := state]
    requires (q, g) in flows' && flows'[(q, g)] == ToPorts(state.ports.Keys)
    requires forall p, h :: h != g ==>
               ((p, h) in flows' <==> (p, h) in flows) && ((p, h) in flows ==> flows'[(p, h)] == flows[(p, h)])
    requires forall p :: (p, g) in flows' && p != q ==> flows'[(p, g)] == ToController
    ensures Ok(Some(q), hosts', flows', events + [MemberChanged(g, Some(q), state.ports.Keys)])
  {
    ReplayNext(events, MemberChanged(g, Some(q), state.ports.Keys));
    forall h
      ensures GroupOk(q, hosts', flows', h)
    {
      assert GroupOk(q, hosts, flows, h);
    }
  }

  /** Marking fewer ports 'in' and recording more ports needs no new entries. */
  lemma RecordStep(querier: Option<Port>, hosts: Hosts, flows: FlowTable, events: seq<Event>, g: Group,
                   state: GroupState, hosts': Hosts)
    requires Ok(querier, hosts, flows, events) && hosts' == hosts[g := state]
    requires g in hosts ==> hosts[g].ports.Keys <= state.ports.Keys
    requires forall p :: p in state.ports && state.ports[p].inn ==>
               g in hosts && p in hosts[g].ports && hosts[g].ports[p].inn
    ensures Ok(querier, hosts', flows, events)
  {
    if querier.Some? {
      forall h
        ensures GroupOk(querier.value, hosts', flows, h)
      {
        assert GroupOk(querier.value, hosts, flows, h);
      }
    }
  }

  lemma AddedStep(querier: Option<Port>, hosts: Hosts, flows: FlowTable, events: seq<Event>, g: Group)
    requires Ok(querier, hosts, flows, events)
    ensures Ok(querier, hosts, flows, events + [GroupAdded(g, querier)])
  {
  }

  predicate Marked(hosts: Hosts, g: Group, p: Port) {
    g in hosts && p in hosts[g].ports && hosts[g].ports[p].inn
  }

  predicate Recorded(hosts: Hosts, g: Group, p: Port) {
    g in hosts && p in hosts[g].ports
  }

  /** The entries after a REPORT: one to the controller for a new port, and the querier's entry towards
      all recorded ports when the port was not marked 'in'. */
  function ReportFlows(querier: Option<Port>, hosts: Hosts, flows: FlowTable, inPort: Port, g: Group): FlowTable {
    var own := if Recorded(hosts, g, inPort) then flows else flows[(inPort, g) := ToController];
    var recorded := if g in hosts then hosts[g].ports.Keys else {};
    if querier.Some? && !Marked(hosts, g, inPort) then own[(querier.value, g) := ToPorts(recorded + {inPort})] else own
  }

  function NewGroup(): GroupState {
    GroupState(false, None, map[])
  }

  /** A group after a REPORT: the port is marked, and where there is a querier, also 'in', and answered. */
  function Reported(querier: Option<Port>, was: GroupState, inPort: Port): (now: GroupState)
    ensures now.ports.Keys == was.ports.Keys + {inPort} && now.leave == was.leave
    ensures now.ports[inPort].out && (querier.Some? ==> now.ports[inPort].inn && now.replied)
    ensures querier.None? ==> now.replied == was.replied
    ensures forall p :: p in was.ports && p != inPort ==> now.ports[p] == was.ports[p]
  {
    var inn := inPort in was.ports && was.ports[inPort].inn;
    GroupState(was.replied || querier.Some?, was.leave,
               was.ports[inPort := PortFlags(true, inn || querier.Some?)])
  }

  lemma UnservedReport(hosts: Hosts, flows: FlowTable, events: seq<Event>, g: Group, inPort: Port, hosts': Hosts)
    requires g in hosts && Ok(None, hosts, flows, events) && hosts' == hosts[g := Reported(None, hosts[g], inPort)]
    ensures Ok(None, hosts', ReportFlows(None, hosts, flows, inPort, g), events)
  {
  }

  lemma EntriesOf(querier: Option<Port>, hosts: Hosts, flows: FlowTable, events: seq<Event>, g: Group)
    requires Ok(querier, hosts, flows, events)
    ensures forall p :: (p, g) in flows && querier != Some(p) ==> flows[(p, g)] == ToController
  {
  }

  /** A recorded port has an entry of its own unless a LEAVE recorded it (`silent`), and only such ports have
      one; at the querier's port stands the group's entry instead. */
  ghost predicate EntriesOk(querier: Option<Port>, hosts: Hosts, flows: FlowTable, silent: set<(Port, Group)>) {
    forall p, g {:trigger (p, g) in flows} {:trigger Recorded(hosts, g, p)} ::
      && (Recorded(hosts, g, p) && (p, g) !in silent ==> (p, g) in flows)
      && ((p, g) in flows && querier != Some(p) ==> Recorded(hosts, g, p) && (p, g) !in silent)
  }

  lemma EntriesAfterGroups(q: Port, hosts: Hosts, flows: FlowTable, silent: set<(Port, Group)>, gone: set<Group>,
                           hosts': Hosts, flows': FlowTable)
    requires EntriesOk(Some(q), hosts, flows, silent)
    requires GroupsCleared(q, hosts, gone, flows, flows') && hosts' == hosts - gone
    ensures EntriesOk(Some(q), hosts', flows', silent)
  {
  }

  lemma MarkedIsServed(querier: Option<Port>, hosts: Hosts, flows: FlowTable, events: seq<Event>, g: Group, p: Port)
    requires Ok(querier, hosts, flows, events)
    ensures querier.Some? && Marked(hosts, g, p) ==>
              && (querier.value, g) in flows && flows[(querier.value, g)].ToPorts?
              && p in flows[(querier.value, g)].ports
  {
    if querier.Some? {
      assert GroupOk(querier.value, hosts, flows, g);
    }
  }

  /** One port is forgotten; the group's entry at the querier's port may be set or gone. */
  lemma EntriesAfterPort(q: Port, hosts: Hosts, flows: FlowTable, silent: set<(Port, Group)>, g: Group, port: Port,
                         hosts': Hosts, flows': FlowTable)
    requires EntriesOk(Some(q), hosts, flows, silent)
    requires forall p, h :: Recorded(hosts', h, p) <==> Recorded(hosts, h, p) && !(p == port && h == g)
    requires forall p, h :: (p, h) != (q, g) ==> ((p, h) in flows' <==> (p, h) in flows && !(p == port && h == g))
    requires Recorded(hosts', g, q) && (q, g) !in silent ==> (q, g) in flows'
    ensures EntriesOk(Some(q), hosts', flows', silent)
  {
  }

  lemma EntriesAfterReport(querier: Option<Port>, hosts: Hosts, flows: FlowTable, silent: set<(Port, Group)>,
                           g: Group, port: Port, hosts': Hosts)
    requires EntriesOk(querier, hosts, flows, silent)
    requires forall p, h :: Recorded(hosts', h, p) <==> Recorded(hosts, h, p) || (p == port && h == g)
    ensures EntriesOk(querier, hosts', ReportFlows(querier, hosts, flows, port, g),
                      if Recorded(hosts, g, port) then silent else silent - {(port, g)})
  {
  }

  lemma EntriesAfterLeave(querier: Option<Port>, hosts: Hosts, flows: FlowTable, silent: set<(Port, Group)>,
                          g: Group, port: Port, hosts': Hosts)
    requires EntriesOk(querier, hosts, flows, silent)
    requires forall p, h :: Recorded(hosts', h, p) <==> Recorded(hosts, h, p) || (p == port && h == g)
    ensures EntriesOk(querier, hosts', flows, if Recorded(hosts, g, port) then silent else silent + {(port, g)})
  {
  }

  class IgmpSnooper {
    var querier: Option<Port>
    var hosts: Hosts
    var flows: FlowTable
    var events: seq<Event>
    /** The records that were made by a LEAVE, from a port that was not recorded then. */
    ghost var silent: set<(Port, Group)>

    ghost predicate Valid()
      reads this
    {
      Agreed() && EntriesOk(querier, hosts, flows, silent)
    }

    ghost predicate Agreed()
      reads this
    {
      Ok(querier, hosts, flows, events)
    }

    constructor ()
      ensures Valid() && querier == None && hosts == map[] && flows == map[] && events == []
    {
      querier, hosts, flows, events, silent := None, map[], map[], [], {};
    }

    /** `_do_query`; None is the general query. Learning another port keeps the entries right exactly when
        neither the old nor the new querier port has any. */
    method DoQuery(inPort: Port, group: Option<Group>)
      requires Valid()
      modifies this
      ensures querier == Some(inPort) && flows == old(flows) && events == old(events) && silent == old(silent)
      ensures hosts == map g | g in old(hosts) ::
                         if group.None? || group == Some(g) then old(hosts)[g].(replied := false, leave := None)
                         else old(hosts)[g]
      ensures Valid() <==>
              || old(querier) == Some(inPort)
              || forall g :: (inPort, g) !in flows && (old(querier).Some? ==> (old(querier).value, g) !in flows)
    {
      querier := Some(inPort);
      hosts := map g | g in hosts ::
                 if group.None? || group == Some(g) then hosts[g].(replied := false, leave := None) else hosts[g];
      QueryStep(old(querier), inPort, old(hosts), hosts, flows, events);
      assert forall g, p :: Recorded(hosts, g, p) <==> Recorded(old(hosts), g, p);
    }

    static lemma QueryStep(querier: Option<Port>, p: Port, hosts: Hosts, hosts': Hosts, flows: FlowTable,
                           events: seq<Event>)
      requires Ok(querier, hosts, flows, events)
      requires hosts'.Keys == hosts.Keys && forall g :: g in hosts ==> hosts'[g].ports == hosts[g].ports
      ensures Ok(Some(p), hosts', flows, events) <==>
              || querier == Some(p)
              || forall g :: (p, g) !in flows && (querier.Some? ==> (querier.value, g) !in flows)
    {
      if querier.Some? {
        forall g
          ensures querier == Some(p) ==> GroupOk(p, hosts', flows, g)
        {
          assert GroupOk(querier.value, hosts, flows, g);
        }
      }
      if querier != Some(p) {
        if Ok(Some(p), hosts', flows, events) {
          forall g
            ensures (p, g) !in flows && (querier.Some? ==> (querier.value, g) !in flows)
          {
            assert GroupOk(p, hosts', flows, g);
            if querier.Some? {
              assert GroupOk(querier.value, hosts, flows, g);
            }
          }
        }
        if forall g :: (p, g) !in flows && (querier.Some? ==> (querier.value, g) !in flows) {
          forall g
            ensures GroupOk(p, hosts', flows, g)
          {
            if querier.Some? {
              assert GroupOk(querier.value, hosts, flows, g);
            }
          }
        }
      }
    }

    method SetFlowEntry(inPort: Port, g: Group, out: Output)
      modifies this`flows
      ensures flows == old(flows)[(inPort, g) := out]
    {
      flows := flows[(inPort, g) := out];
    }

    method DelFlowEntry(inPort: Port, g: Group)
      modifies this`flows
      ensures flows == old(flows) - {(inPort, g)}
    {
      flows := flows - {(inPort, g)};
    }

    /** `_do_report`: says whether the message is passed on to the querier. */
    method DoReport(inPort: Port, g: Group) returns (forwarded: bool)
      requires Valid()
      modifies this
      ensures Valid() && querier == old(querier)
      ensures hosts.Keys == old(hosts).Keys + {g} && inPort in hosts[g].ports && hosts[g].ports[inPort].out
      ensures forall h :: h in old(hosts) && h != g ==> hosts[h] == old(hosts)[h]
      ensures hosts[g] == Reported(querier, if g in old(hosts) then old(hosts)[g] else NewGroup(), inPort)
      ensures querier.Some? ==> hosts[g].ports[inPort].inn && hosts[g].replied
      ensures flows == ReportFlows(querier, old(hosts), old(flows), inPort, g)
      ensures querier.Some? ==>
                && (querier.value, g) in flows && flows[(querier.value, g)].ToPorts?
                && inPort in flows[(querier.value, g)].ports
      ensures querier != Some(inPort) && !Recorded(old(hosts), g, inPort) ==> flows[(inPort, g)] == ToController
      ensures forall p, h {:trigger (p, h) in flows} ::
                h != g ==> ((p, h) in flows <==> (p, h) in old(flows))
                           && ((p, h) in flows ==> flows[(p, h)] == old(flows)[(p, h)])
      ensures events == old(events)
                + (if g in old(hosts) then [] else [GroupAdded(g, querier)])
                + (if querier.None? || Marked(old(hosts), g, inPort) then []
                   else [MemberChanged(g, querier, hosts[g].ports.Keys)])
      ensures forwarded <==> querier.Some? && !(g in old(hosts) && old(hosts)[g].replied)
      ensures silent == if Recorded(old(hosts), g, inPort) then old(silent) else old(silent) - {(inPort, g)}
      ensures querier != Some(inPort) ==>
                ((inPort, g) in flows <==> !(Recorded(old(hosts), g, inPort) && (inPort, g) in old(silent)))
    {
      hide Ok, EntriesOk;
      ghost var h0, f0 := hosts, flows;
      if g !in hosts {
        AddedStep(querier, hosts, flows, events, g);
        events := events + [GroupAdded(g, querier)];
        hosts := hosts[g := NewGroup()];
        RecordStep(querier, old(hosts), flows, events, g, hosts[g], hosts);
        assert hosts[g].ports.Keys == {};
      }
      forwarded := RecordReport(inPort, g);
      EntriesAfterReport(querier, h0, f0, silent, g, inPort, hosts);
      MarkedIsServed(querier, hosts, flows, events, g, inPort);
      if !Recorded(h0, g, inPort) {
        silent := silent - {(inPort, g)};
      }
    }

    /** The part of `_do_report` that records the port, with its own entry when it is new. */
    method RecordPort(inPort: Port, g: Group)
      requires g in hosts
      modifies this`hosts, this`flows
      ensures g in hosts && hosts == old(hosts)[g := hosts[g]]
      ensures var flags :=
                if inPort in old(hosts)[g].ports then old(hosts)[g].ports[inPort] else PortFlags(false, false);
              hosts[g] == old(hosts)[g].(ports := old(hosts)[g].ports[inPort := flags.(out := true)])
      ensures flows == if inPort in old(hosts)[g].ports then old(flows) else old(flows)[(inPort, g) := ToController]
    {
      if inPort !in hosts[g].ports {
        hosts := hosts[g := hosts[g].(ports := hosts[g].ports[inPort := PortFlags(false, false)])];
        SetFlowEntry(inPort, g, ToController);
      }
      hosts := hosts[g := hosts[g].(ports := hosts[g].ports[inPort := hosts[g].ports[inPort].(out := true)])];
    }

    /** The part of `_do_report` after the group is known. */
    method RecordReport(inPort: Port, g: Group) returns (forwarded: bool)
      requires Agreed() && g in hosts
      modifies this`hosts, this`flows, this`events
      ensures Agreed()
      ensures hosts.Keys == old(hosts).Keys && inPort in hosts[g].ports && hosts[g].ports[inPort].out
      ensures hosts[g].ports.Keys == old(hosts)[g].ports.Keys + {inPort}
      ensures forall h :: h in old(hosts) && h != g ==> hosts[h] == old(hosts)[h]
      ensures hosts[g] == Reported(querier, old(hosts)[g], inPort)
      ensures flows == ReportFlows(querier, old(hosts), old(flows), inPort, g)
      ensures events == old(events) + if querier.None? || Marked(old(hosts), g, inPort) then []
                                      else [MemberChanged(g, querier, hosts[g].ports.Keys)]
      ensures forwarded <==> querier.Some? && !old(hosts)[g].replied
    {
      hide GroupOk, EventsOk, OthersToController, Ok;
      ghost var changed := querier.Some? && !Marked(hosts, g, inPort);
      RecordPort(inPort, g);
      assert hosts[g].ports.Keys == old(hosts)[g].ports.Keys + {inPort};
      EntriesOf(querier, old(hosts), old(flows), old(events), g);
      if querier.None? {
        UnservedReport(old(hosts), old(flows), events, g, inPort, hosts);
        return false;
      }
      forwarded := ServeMember(inPort, g);
      if changed {
        SetGroupStep(querier.value, old(hosts), old(flows), old(events), g, hosts[g], hosts, flows);
      } else {
        RecordStep(querier, old(hosts), flows, events, g, hosts[g], hosts);
      }
    }

    /** The part of `_do_report` that concerns the querier: its entry leads to the new member, and it is sent
        the first answer. */
    method ServeMember(inPort: Port, g: Group) returns (forwarded: bool)
      requires querier.Some? && Recorded(hosts, g, inPort)
      modifies this`hosts, this`flows, this`events
      ensures var was, flags := old(hosts)[g], old(hosts)[g].ports[inPort];
              && hosts == old(hosts)[g := GroupState(true, was.leave, was.ports[inPort := flags.(inn := true)])]
              && flows == (if flags.inn then old(flows) else old(flows)[(querier.value, g) := ToPorts(was.ports.Keys)])
              && events == (if flags.inn then old(events)
                            else old(events) + [MemberChanged(g, querier, was.ports.Keys)])
              && forwarded == !was.replied
    {
      var outport := querier.value;
      if !hosts[g].ports[inPort].inn {
        var ports := hosts[g].ports.Keys;
        events := events + [MemberChanged(g, querier, ports)];
        SetFlowEntry(outport, g, ToPorts(ports));
        hosts := hosts[g := hosts[g].(ports := hosts[g].ports[inPort := hosts[g].ports[inPort].(inn := true)])];
      }
      forwarded := !hosts[g].replied;
      if !hosts[g].replied {
        hosts := hosts[g := hosts[g].(replied := true)];
      }
      assert hosts[g].ports == old(hosts)[g].ports[inPort := old(hosts)[g].ports[inPort].(inn := true)];
      assert hosts == old(hosts)[g := hosts[g]];
    }

    /** `_do_leave`: the port is recorded, unmarked, until the timeout. A port that was not recorded gets no
        entry, and a later report will not give it one. */
    method DoLeave(inPort: Port, g: Group)
      requires Valid()
      modifies this
      ensures Valid() && querier == old(querier) && flows == old(flows) && events == old(events)
      ensures querier.None? ==> hosts == old(hosts) && silent == old(silent)
      ensures querier.Some? && Recorded(old(hosts), g, inPort) ==> silent == old(silent)
      ensures querier.Some? && !Recorded(old(hosts), g, inPort) ==> silent == old(silent) + {(inPort, g)}
      ensures querier.Some? ==>
                && hosts.Keys == old(hosts).Keys + {g} && hosts[g].leave == Some(inPort)
                && hosts[g].replied == (g in old(hosts) && old(hosts)[g].replied)
                && hosts[g].ports ==
                   (if g in old(hosts) then old(hosts)[g].ports else map[])[inPort := PortFlags(false, false)]
                && forall h :: h in old(hosts) && h != g ==> hosts[h] == old(hosts)[h]
    {
      if querier.None? {
        return;
      }
      if g !in hosts {
        hosts := hosts[g := NewGroup()];
      }
      hosts := hosts[g := hosts[g].(leave := Some(inPort))];
      hosts := hosts[g := hosts[g].(ports := hosts[g].ports[inPort := PortFlags(false, false)])];
      assert hosts == old(hosts)[g := hosts[g]];
      RecordStep(querier, old(hosts), flows, events, g, hosts[g], hosts);
      EntriesAfterLeave(querier, old(hosts), flows, silent, g, inPort, hosts);
      if !Recorded(old(hosts), g, inPort) {
        silent := silent + {(inPort, g)};
      }
    }

    /** `_remove_multicast_group`; returns the port a saved LEAVE message is passed on for. */
    method RemoveMulticastGroup(outport: Port, g: Group) returns (leave: Option<Port>)
      requires g in hosts
      modifies this`flows, this`events
      ensures GroupCleared(outport, hosts[g].ports.Keys, old(flows), flows, g)
      ensures events == old(events) + [GroupRemoved(g, Some(outport))]
      ensures leave == hosts[g].leave
    {
      events := events + [GroupRemoved(g, Some(outport))];
      DelFlowEntry(outport, g);
      var todo := hosts[g].ports.Keys;
      while todo != {}
        invariant todo <= hosts[g].ports.Keys
        invariant GroupCleared(outport, hosts[g].ports.Keys - todo, old(flows), flows, g)
        invariant events == old(events) + [GroupRemoved(g, Some(outport))]
        decreases todo
      {
        var p :| p in todo;
        DelFlowEntry(p, g);
        todo := todo - {p};
      }
      leave := hosts[g].leave;
    }

    /** `_do_timeout_for_query` after its sleep: groups nobody has answered for go. */
    method TimeoutForQuery()
      requires Valid() && querier.Some?
      modifies this
      ensures Valid() && querier == old(querier) && silent == old(silent)
      ensures hosts == map g | g in old(hosts) && old(hosts)[g].replied :: old(hosts)[g]
      ensures GroupsCleared(querier.value, old(hosts), set g | g in old(hosts) && !old(hosts)[g].replied,
                            old(flows), flows)
      ensures forall g :: g in old(hosts) && !old(hosts)[g].replied ==>
                && (querier.value, g) !in flows
                && forall p :: p in old(hosts)[g].ports ==> (p, g) !in flows
    {
      var outport := querier.value;
      var removeDsts: set<Group> := {};
      var todo := hosts.Keys;
      assert hosts - removeDsts == hosts;
      while todo != {}
        invariant todo <= hosts.Keys && hosts == old(hosts) && querier == Some(outport) == old(querier)
                  && silent == old(silent)
        invariant removeDsts == set g | g in hosts && g !in todo && !hosts[g].replied
        invariant Ok(querier, hosts - removeDsts, flows, events)
        invariant GroupsCleared(outport, hosts, removeDsts, old(flows), flows)
        decreases todo
      {
        var dst :| dst in todo;
        if !hosts[dst].replied {
          ghost var f, e := flows, events;
          var leave := RemoveMulticastGroup(outport, dst);
          RemoveGroupStep(outport, hosts - removeDsts, f, e, dst, hosts[dst].ports.Keys, flows);
          GroupsClearedNext(outport, hosts, removeDsts, old(flows), f, flows, dst);
          assert hosts - removeDsts - {dst} == hosts - (removeDsts + {dst});
          removeDsts := removeDsts + {dst};
        }
        todo := todo - {dst};
      }
      hosts := hosts - removeDsts;
      EntriesAfterGroups(outport, old(hosts), old(flows), silent, removeDsts, hosts, flows);
    }

    /** `_do_timeout_for_leave` after its sleep. When the group or the port is gone by then, the source's
        lookup raises before anything changes. */
    method TimeoutForLeave(g: Group, inPort: Port)
      requires Valid() && querier.Some?
      modifies this
      ensures Valid() && querier == old(querier) && silent == old(silent)
      ensures !(g in old(hosts) && inPort in old(hosts)[g].ports && !old(hosts)[g].ports[inPort].out) ==>
                hosts == old(hosts) && flows == old(flows) && events == old(events)
      ensures g in old(hosts) && inPort in old(hosts)[g].ports && !old(hosts)[g].ports[inPort].out ==>
                var ports := old(hosts)[g].ports - {inPort};
                && hosts == (if ports == map[] then old(hosts) - {g}
                             else old(hosts)[g := old(hosts)[g].(leave := None, ports := ports)])
                && flows == (if ports == map[] then old(flows) - {(inPort, g), (querier.value, g)}
                             else (old(flows) - {(inPort, g)})[(querier.value, g) := ToPorts(ports.Keys)])
                && events == old(events) + [if ports == map[] then GroupRemoved(g, querier)
                                            else MemberChanged(g, querier, ports.Keys)]
    {
      hide Ok, EntriesOk;
      if g !in hosts || inPort !in hosts[g].ports || hosts[g].ports[inPort].out {
        return;
      }
      if |hosts[g].ports - {inPort}| != 0 {
        ForgetPort(g, inPort);
      } else {
        ForgetGroup(g, inPort);
      }
      EntriesAfterPort(querier.value, old(hosts), old(flows), silent, g, inPort, hosts, flows);
    }

    /** The port has not reported again, but others are recorded: its record and entry go, and the
        querier's entry leads to the rest. */
    method ForgetPort(g: Group, inPort: Port)
      requires Agreed() && querier.Some? && Recorded(hosts, g, inPort) && hosts[g].ports - {inPort} != map[]
      modifies this`hosts, this`flows, this`events
      ensures Agreed()
      ensures var ports := old(hosts)[g].ports - {inPort};
              && hosts == old(hosts)[g := old(hosts)[g].(leave := None, ports := ports)]
              && flows == (old(flows) - {(inPort, g)})[(querier.value, g) := ToPorts(ports.Keys)]
              && events == old(events) + [MemberChanged(g, querier, ports.Keys)]
    {
      hide GroupOk, EventsOk, OthersToController, Ok;
      var outport := querier.value;
      hosts := hosts[g := hosts[g].(ports := hosts[g].ports - {inPort})];
      DelFlowEntry(inPort, g);
      var ports := hosts[g].ports.Keys;
      events := events + [MemberChanged(g, querier, ports)];
      SetFlowEntry(outport, g, ToPorts(ports));
      hosts := hosts[g := hosts[g].(leave := None)];
      EntriesOf(old(querier), old(hosts), old(flows), old(events), g);
      SetGroupStep(outport, old(hosts), old(flows), old(events), g, hosts[g], hosts, flows);
    }

    /** The last recorded port has not reported again: the group goes. */
    method ForgetGroup(g: Group, inPort: Port)
      requires Agreed() && querier.Some? && Recorded(hosts, g, inPort) && hosts[g].ports - {inPort} == map[]
      modifies this`hosts, this`flows, this`events
      ensures Agreed()
      ensures hosts == old(hosts) - {g}
      ensures flows == old(flows) - {(inPort, g), (querier.value, g)}
      ensures events == old(events) + [GroupRemoved(g, querier)]
    {
      hide GroupOk, EventsOk, OthersToController, Ok;
      var outport := querier.value;
      hosts := hosts[g := hosts[g].(ports := hosts[g].ports - {inPort})];
      DelFlowEntry(inPort, g);
      var leave := RemoveMulticastGroup(outport, g);
      ClearedEmptyGroup(outport, old(flows) - {(inPort, g)}, flows, g);
      RemoveGroupStep(outport, old(hosts), old(flows), old(events), g, {inPort}, flows);
      hosts := hosts - {g};
      assert hosts == old(hosts) - {g};
    }
  }
}
