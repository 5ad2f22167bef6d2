/** The IGMP querier: group membership by port, and the flow entries that follow it. */
module IgmpQueriers {
  datatype Group = Group(address: nat)
  datatype Port = Port(number: nat)

  /** group -> port -> whether the member has answered the current query. */
  type Members = map<Group, map<Port, bool>>

  datatype Output = ToPorts(ports: set<Port>) | ToController

  /** (in_port, group) -> output. */
  type FlowTable = map<(Port, Group), Output>

  // ----- what the handlers do to the membership map -----

  function MembersOf(m: Members, g: Group): set<Port> {
    if g in m then m[g].Keys else {}
  }

  predicate Replied(m: Members, g: Group, p: Port) {
    g in m && p in m[g] && m[g][p]
  }

  function Group0(m: Members, g: Group): map<Port, bool> {
    if g in m then m[g] else map[]
  }

  function ReportSpec(m: Members, p: Port, g: Group): Members {
    m[g := Group0(m, g)[p := true]]
  }

  function LeaveSpec(m: Members, p: Port, g: Group): Members {
    m[g := Group0(m, g) - {p}]
  }

  function ResetSpec(m: Members): Members {
    map g | g in m :: map p | p in m[g] :: false
  }

  function Answered(status: map<Port, bool>): map<Port, bool> {
    map p | p in status && status[p] :: true
  }

  function SweepSpec(m: Members): Members {
    map g | g in m && Answered(m[g]) != map[] :: Answered(m[g])
  }

  // ----- the flow table as a function of the membership map -----

  ghost predicate FlowOk(server: Port, m: Members, flows: FlowTable, p: Port, g: Group) {
    if p == server then
      ((p, g) in flows <==> MembersOf(m, g) != {}) && ((p, g) in flows ==> flows[(p, g)] == ToPorts(MembersOf(m, g)))
    else
      ((p, g) in flows <==> p in MembersOf(m, g)) && ((p, g) in flows ==> flows[(p, g)] == ToController)
  }

  /** The server's entry of a group exists exactly while the group has members and outputs exactly to
      them; any other port has an entry, to the controller, exactly while it is a member. */
  ghost predicate FlowsOk(server: Port, m: Members, flows: FlowTable) {
    && (forall p, g :: FlowOk(server, m, flows, p, g))
    && (forall g :: server !in MembersOf(m, g))
  }

  /** Only the members matter, not the reply marks or empty groups. */
  lemma SameMembers(server: Port, m: Members, m': Members, flows: FlowTable)
    requires FlowsOk(server, m, flows) && forall g :: MembersOf(m', g) == MembersOf(m, g)
    ensures FlowsOk(server, m', flows)
  {
    forall p, g
      ensures FlowOk(server, m', flows, p, g) && server !in MembersOf(m', g)
    {
      assert FlowOk(server, m, flows, p, g) && server !in MembersOf(m, g);
      assert MembersOf(m', g) == MembersOf(m, g);
    }
  }

  /** The entry at the server's port leads exactly to the members, and there is none without any. */
  lemma ServerLeadsToMembers(server: Port, m: Members, flows: FlowTable, g: Group)
    requires FlowsOk(server, m, flows)
    ensures if MembersOf(m, g) == {} then (server, g) !in flows
            else (server, g) in flows && flows[(server, g)] == ToPorts(MembersOf(m, g))
    ensures forall p :: p != server ==> ((p, g) in flows <==> p in MembersOf(m, g))
    ensures forall p :: p != server && (p, g) in flows ==> flows[(p, g)] == ToController
    ensures server !in MembersOf(m, g)
  {
    assert FlowOk(server, m, flows, server, g);
    forall p | p != server
      ensures ((p, g) in flows <==> p in MembersOf(m, g)) && ((p, g) in flows ==> flows[(p, g)] == ToController)
    {
      assert FlowOk(server, m, flows, p, g);
    }
  }

  /** Changing one group: its own entries must fit, the others are as they were. */
  lemma GroupStep(server: Port, m: Members, flows: FlowTable, g: Group, m': Members, flows': FlowTable)
    requires FlowsOk(server, m, flows)
    requires g in m' && m' == m[g := m'[g]] && server !in m'[g]
    requires forall p, h {:trigger (p, h) in flows'} :: h != g ==>
               ((p, h) in flows' <==> (p, h) in flows) && ((p, h) in flows ==> flows'[(p, h)] == flows[(p, h)])
    requires forall p :: FlowOk(server, m', flows', p, g)
    ensures FlowsOk(server, m', flows')
  {
    forall p, h
      ensures FlowOk(server, m', flows', p, h)
    {
      assert FlowOk(server, m, flows, p, h);
    }
    forall h
      ensures server !in MembersOf(m', h)
    {
      assert server !in MembersOf(m, h);
    }
  }

  lemma LeaveMembers(m: Members, p: Port, g: Group)
    ensures MembersOf(LeaveSpec(m, p, g), g) == MembersOf(m, g) - {p}
    ensures forall h :: h != g ==> MembersOf(LeaveSpec(m, p, g), h) == MembersOf(m, h)
  {
  }

  /** The entries after a leave fit the membership after it. */
  lemma LeaveStep(server: Port, m: Members, flows: FlowTable, p: Port, g: Group, flows': FlowTable)
    requires FlowsOk(server, m, flows)
    requires flows' == (var rest := MembersOf(m, g) - {p};
                        if p !in MembersOf(m, g) then flows
                        else if rest == {} then flows - {(p, g)} - {(server, g)}
                        else (flows - {(p, g)})[(server, g) := ToPorts(rest)])
    ensures FlowsOk(server, LeaveSpec(m, p, g), flows')
  {
    var m' := LeaveSpec(m, p, g);
    assert server !in MembersOf(m, g);
    forall q
      ensures FlowOk(server, m', flows', q, g)
    {
      assert FlowOk(server, m, flows, q, g);
      assert MembersOf(m', g) == MembersOf(m, g) - {p};
    }
    GroupStep(server, m, flows, g, m', flows');
  }

  lemma ReportMembers(m: Members, p: Port, g: Group)
    ensures MembersOf(ReportSpec(m, p, g), g) == MembersOf(m, g) + {p} && Replied(ReportSpec(m, p, g), g, p)
    ensures forall h :: h != g ==> MembersOf(ReportSpec(m, p, g), h) == MembersOf(m, h)
  {
  }

  /** Nothing else is in the table: two tables that fit one membership map are the same. */
  lemma FlowsDetermined(server: Port, m: Members, f1: FlowTable, f2: FlowTable)
    requires FlowsOk(server, m, f1) && FlowsOk(server, m, f2)
    ensures f1 == f2
  {
    forall k: (Port, Group)
      ensures k in f1 <==> k in f2
      ensures k in f1 ==> f1[k] == f2[k]
    {
      assert k == (k.0, k.1);
      assert FlowOk(server, m, f1, k.0, k.1) && FlowOk(server, m, f2, k.0, k.1);
    }
  }

  lemma SweptMembers(m: Members, g: Group)
    ensures forall p :: p in MembersOf(SweepSpec(m), g) <==> Replied(m, g, p)
  {
    forall p
      ensures p in MembersOf(SweepSpec(m), g) <==> Replied(m, g, p)
    {
      if Replied(m, g, p) {
        assert p in Answered(m[g]);
      }
    }
  }

  class IgmpQuerier {
    const serverPort: Port
    var mcast: Members
    var flows: FlowTable

    ghost predicate Valid()
      reads this
    {
      FlowsOk(serverPort, mcast, flows)
    }

    constructor (serverPort: Port)
      ensures Valid() && mcast == map[] && flows == map[] && this.serverPort == serverPort
    {
      this.serverPort, mcast, flows := serverPort, map[], map[];
    }

    method SetFlowEntry(inPort: Port, g: Group, out: Output)
      modifies this
      ensures mcast == old(mcast) && flows == old(flows)[(inPort, g) := out]
    {
      flows := flows[(inPort, g) := out];
    }

    method DelFlowEntry(inPort: Port, g: Group)
      modifies this
      ensures mcast == old(mcast) && flows == old(flows) - {(inPort, g)}
    {
      flows := flows - {(inPort, g)};
    }

    /** `_do_report`. Flow table and membership stay in step exactly unless the member sits on the
        server's own port: there its entry overwrites the server's, and the group is cut off. */
    method DoReport(inPort: Port, g: Group)
      requires Valid()
      modifies this
      ensures mcast == ReportSpec(old(mcast), inPort, g)
      ensures inPort != serverPort ==> Valid()
      ensures (forall p, h :: FlowOk(serverPort, mcast, flows, p, h)) <==> inPort != serverPort
      ensures inPort == serverPort ==> flows == old(flows)[(serverPort, g) := ToController]
      ensures MembersOf(mcast, g) == MembersOf(old(mcast), g) + {inPort} && Replied(mcast, g, inPort)
      ensures forall h :: h != g ==> MembersOf(mcast, h) == MembersOf(old(mcast), h)
      ensures inPort != serverPort ==>
                && (inPort, g) in flows && flows[(inPort, g)] == ToController
                && (serverPort, g) in flows && flows[(serverPort, g)] == ToPorts(MembersOf(mcast, g))
    {
      var update := false;
      if g !in mcast {
        mcast := mcast[g := map[]];
      }
      if inPort !in mcast[g] {
        update := true;
      }
      mcast := mcast[g := mcast[g][inPort := true]];
      if update {
        SetFlowEntry(serverPort, g, ToPorts(mcast[g].Keys));
        SetFlowEntry(inPort, g, ToController);
      }
      if inPort != serverPort {
        assert serverPort !in MembersOf(old(mcast), g);
        forall p
          ensures FlowOk(serverPort, mcast, flows, p, g)
        {
          assert FlowOk(serverPort, old(mcast), old(flows), p, g) && serverPort !in MembersOf(old(mcast), g);
        }
        GroupStep(serverPort, old(mcast), old(flows), g, mcast, flows);
      }
      if inPort == serverPort {
        assert serverPort !in MembersOf(old(mcast), g);
        assert !FlowOk(serverPort, mcast, flows, serverPort, g);
      } else {
        ServerLeadsToMembers(serverPort, mcast, flows, g);
      }
      hide FlowsOk, FlowOk, MembersOf, ReportSpec;
      ReportMembers(old(mcast), inPort, g);
    }

    /** `_do_leave`: at once the port is no member and has no entry, and the server's entry leads exactly to
        the members that stay. */
    method DoLeave(inPort: Port, g: Group)
      requires Valid()
      modifies this
      ensures mcast == LeaveSpec(old(mcast), inPort, g)
      ensures Valid()
      ensures MembersOf(mcast, g) == MembersOf(old(mcast), g) - {inPort}
      ensures forall h :: h != g ==> MembersOf(mcast, h) == MembersOf(old(mcast), h)
      ensures inPort != serverPort ==> (inPort, g) !in flows
      ensures if MembersOf(old(mcast), g) - {inPort} == {} then (serverPort, g) !in flows
              else (serverPort, g) in flows && flows[(serverPort, g)] == ToPorts(MembersOf(old(mcast), g) - {inPort})
    {
      hide FlowsOk, FlowOk;
      if g !in mcast {
        mcast := mcast[g := map[]];
      }
      if inPort in mcast[g] {
        DelFlowEntry(inPort, g);
        mcast := mcast[g := mcast[g] - {inPort}];
        if |mcast[g]| != 0 {
          SetFlowEntry(serverPort, g, ToPorts(mcast[g].Keys));
        } else {
          DelFlowEntry(serverPort, g);
        }
      } else {
        assert Group0(old(mcast), g) - {inPort} == Group0(old(mcast), g);
      }
      LeaveMembers(old(mcast), inPort, g);
      assert mcast[g].Keys == MembersOf(old(mcast), g) - {inPort};
      LeaveStep(serverPort, old(mcast), old(flows), inPort, g, flows);
      ServerLeadsToMembers(serverPort, mcast, flows, g);
    }

    /** The reset at the start of a round of `_send_query`. */
    method ResetReplies()
      requires Valid()
      modifies this
      ensures mcast == ResetSpec(old(mcast))
      ensures Valid() && flows == old(flows)
    {
      var todo := mcast.Keys;
      while todo != {}
        invariant todo <= mcast.Keys && mcast.Keys == old(mcast).Keys && flows == old(flows)
        invariant forall g :: g in mcast ==> mcast[g] == if g in todo then old(mcast)[g] else ResetSpec(old(mcast))[g]
        decreases todo
      {
        var g :| g in todo;
        mcast := mcast[g := map p | p in mcast[g] :: false];
        todo := todo - {g};
      }
      SameMembers(serverPort, old(mcast), mcast, flows);
    }

    /** The expiry part of a round: drops who has not answered, and the groups that end up empty. */
    method Sweep()
      requires Valid()
      modifies this
      ensures mcast == SweepSpec(old(mcast))
      ensures Valid()
      ensures forall p, g :: p in MembersOf(mcast, g) <==> Replied(old(mcast), g, p)
      ensures forall p, g :: p != serverPort ==> ((p, g) in flows <==> Replied(old(mcast), g, p))
    {
      var todo := mcast.Keys;
      var delGroups: set<Group> := {};
      ghost var m0 := mcast;
      while todo != {}
        invariant todo <= m0.Keys && mcast.Keys == m0.Keys
        invariant forall g :: g in mcast ==> mcast[g] == if g in todo then m0[g] else Answered(m0[g])
        invariant delGroups == set g | g in m0 && g !in todo && Answered(m0[g]) == map[]
        invariant Valid()
        decreases todo
      {
        var g :| g in todo;
        var empty := SweepGroup(g);
        if empty {
          delGroups := delGroups + {g};
        }
        todo := todo - {g};
      }
      ghost var m1 := mcast;
      mcast := mcast - delGroups;
      SameMembers(serverPort, m1, mcast, flows);
      forall g
        ensures forall p :: p in MembersOf(mcast, g) <==> Replied(m0, g, p)
        ensures forall p :: p != serverPort ==> ((p, g) in flows <==> p in MembersOf(mcast, g))
      {
        SweptMembers(m0, g);
        ServerLeadsToMembers(serverPort, mcast, flows, g);
      }
    }

    /** The loop body of the expiry part for one group; says whether the group has become empty. */
    method SweepGroup(g: Group) returns (empty: bool)
      requires Valid() && g in mcast
      modifies this
      ensures mcast == old(mcast)[g := Answered(old(mcast)[g])]
      ensures empty <==> Answered(old(mcast)[g]) == map[]
      ensures Valid()
    {
      assert serverPort !in MembersOf(mcast, g);
      var delPorts := set p | p in mcast[g] && !mcast[g][p];
      var actions := set p | p in mcast[g] && mcast[g][p];
      assert Answered(mcast[g]).Keys == actions && actions + delPorts == mcast[g].Keys;
      if actions != {} && delPorts != {} {
        SetFlowEntry(serverPort, g, ToPorts(actions));
      }
      empty := actions == {};
      if empty {
        DelFlowEntry(serverPort, g);
      }
      ghost var f := flows;
      var todo := delPorts;
      while todo != {}
        invariant todo <= delPorts && mcast == old(mcast)
        invariant flows == f - (set p | p in delPorts - todo :: (p, g))
        decreases todo
      {
        var p :| p in todo;
        DelFlowEntry(p, g);
        todo := todo - {p};
      }
      mcast := mcast[g := Answered(mcast[g])];
      forall p
        ensures FlowOk(serverPort, mcast, flows, p, g)
      {
        assert FlowOk(serverPort, old(mcast), old(flows), p, g) && serverPort !in MembersOf(old(mcast), g);
      }
      GroupStep(serverPort, old(mcast), old(flows), g, mcast, flows);
    }
  }

  // ----- one query round, under any interleaving -----

  datatype Message = Report(port: Port, group: Group) | Leave(port: Port, group: Group)

  function Handle(m: Members, e: Message): Members {
    match e
    case Report(p, g) => ReportSpec(m, p, g)
    case Leave(p, g) => LeaveSpec(m, p, g)
  }

  function HandleAll(m: Members, es: seq<Message>): Members
    decreases |es|
  {
    if es == [] then m else Handle(HandleAll(m, es[..|es| - 1]), es[|es| - 1])
  }

  /** The port reported for the group and has not left it since. */
  ghost predicate ReportedLast(es: seq<Message>, p: Port, g: Group) {
    exists i :: 0 <= i < |es| && es[i] == Report(p, g) && forall j :: i < j < |es| ==> es[j] != Leave(p, g)
  }

  lemma ReportedLastNext(es: seq<Message>, p: Port, g: Group)
    requires es != []
    ensures var front, last := es[..|es| - 1], es[|es| - 1];
            ReportedLast(es, p, g) <==> last == Report(p, g) || (last != Leave(p, g) && ReportedLast(front, p, g))
  {
  }

  /** Within the window, who has answered is decided by the messages alone. */
  lemma {:induction false} WindowAnswers(m: Members, es: seq<Message>, p: Port, g: Group)
    ensures Replied(HandleAll(ResetSpec(m), es), g, p) <==> ReportedLast(es, p, g)
    decreases |es|
  {
    if es != [] {
      WindowAnswers(m, es[..|es| - 1], p, g);
      ReportedLastNext(es, p, g);
    }
  }

  /** At any moment, for every interleaving, the members are who reported and has not left since, and the
      members from before that have not left at all. */
  lemma {:induction false} MembersAfter(m: Members, es: seq<Message>, p: Port, g: Group)
    ensures p in MembersOf(HandleAll(m, es), g) <==>
            ReportedLast(es, p, g) || (p in MembersOf(m, g) && Leave(p, g) !in es)
    decreases |es|
  {
    if es != [] {
      var n := |es| - 1;
      assert es == es[..n] + [es[n]];
      MembersAfter(m, es[..n], p, g);
      ReportedLastNext(es, p, g);
    }
  }

  /** A member survives a round exactly when it reported after the reset and has not left since, for
      every interleaving; and the groups left are exactly the non-empty ones. */
  lemma RoundSurvivors(m: Members, es: seq<Message>)
    ensures var after := SweepSpec(HandleAll(ResetSpec(m), es));
            && (forall p, g :: p in MembersOf(after, g) <==> ReportedLast(es, p, g))
            && (forall g :: g in after <==> exists p :: ReportedLast(es, p, g))
  {
    var before := HandleAll(ResetSpec(m), es);
    var after := SweepSpec(before);
    forall p, g
      ensures p in MembersOf(after, g) <==> ReportedLast(es, p, g)
    {
      WindowAnswers(m, es, p, g);
      if g in before && p in Answered(before[g]) {
        assert Answered(before[g]) != map[];
      }
    }
    forall g
      ensures g in after <==> exists p :: ReportedLast(es, p, g)
    {
      if g in after {
        var p :| p in after[g];
        assert p in MembersOf(after, g);
      }
      if p :| ReportedLast(es, p, g) {
        assert p in MembersOf(after, g);
      }
    }
  }
}
