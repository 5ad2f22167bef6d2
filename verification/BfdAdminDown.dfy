/** Two BFD sessions over lossless FIFO channels, either of which may be taken down administratively at any
    moment, and goes on sending. */
module BfdAdminDown {
  import opened BfdSessions
  import opened BfdProtocol

  /** The link, and what the sides have been through: a side is `Disabled` once it was taken down; a queued
      packet is `Late` if its sender was disabled when it sent it; a side is `Told` once it has accepted a late
      packet. */
  datatype AdminLink = AdminLink(link: Link, abLate: seq<bool>, baLate: seq<bool>,
                                 aDisabled: bool, bDisabled: bool, aTold: bool, bTold: bool)

  datatype AdminEvent = Usual(e: Event) | DisableA | DisableB

  function Begin(l: Link): AdminLink {
    AdminLink(l, [], [], false, false, false, false)
  }

  function Disable(s: Session): Session {
    SetStateSpec(s, AdminDown, NoDiag)
  }

  function Tail(late: seq<bool>): seq<bool> {
    if late == [] then [] else late[1..]
  }

  function LinkAfter(l: Link, e: AdminEvent): Link {
    match e
    case DisableA => l.(a := Disable(l.a))
    case DisableB => l.(b := Disable(l.b))
    case Usual(u) => LinkStep(l, u)
  }

  function AdminStep(n: AdminLink, e: AdminEvent): AdminLink {
    var m := n.(link := LinkAfter(n.link, e));
    match e
    case DisableA => m.(aDisabled := true)
    case DisableB => m.(bDisabled := true)
    case Usual(u) =>
      match u
      case SendA => if MaySend(n.link.a) then m.(abLate := n.abLate + [n.aDisabled]) else m
      case SendB => if MaySend(n.link.b) then m.(baLate := n.baLate + [n.bDisabled]) else m
      case ReceiveA =>
        m.(baLate := Tail(n.baLate),
           aTold := n.aTold || (n.link.ba != [] && n.baLate != [] && n.baLate[0]
                                && Accepts(n.link.a.localDiscr, n.link.ba[0])))
      case ReceiveB =>
        m.(abLate := Tail(n.abLate),
           bTold := n.bTold || (n.link.ab != [] && n.abLate != [] && n.abLate[0]
                                && Accepts(n.link.b.localDiscr, n.link.ab[0])))
  }

  function AdminRun(n: AdminLink, es: seq<AdminEvent>): AdminLink
    decreases |es|
  {
    if es == [] then n else AdminRun(AdminStep(n, es[0]), es[1..])
  }

  /** One direction: late packets, and only they, say AdminDown, and nothing follows them but late packets; a
      told receiver is down, and only late packets are queued towards it. */
  ghost predicate Half(snd: Session, ch: seq<Packet>, late: seq<bool>, disabled: bool,
                       rcv: Session, rcvDisabled: bool, told: bool) {
    && |late| == |ch|
    && (snd.state == AdminDown <==> disabled)
    && (forall i :: 0 <= i < |ch| ==> (late[i] <==> ch[i].state == AdminDown) && (late[i] ==> disabled))
    && (forall i, j :: 0 <= i < j < |ch| && late[i] ==> late[j])
    && (told ==> disabled && rcv.state == (if rcvDisabled then AdminDown else Down)
                 && forall i :: 0 <= i < |ch| ==> late[i])
  }

  /** The discriminators on the way are those of the sides. */
  ghost predicate Known(snd: Session, ch: seq<Packet>, rcv: Session) {
    && snd.localDiscr != 0 && (rcv.remoteDiscr == 0 || rcv.remoteDiscr == snd.localDiscr)
    && forall i :: 0 <= i < |ch| ==> ch[i].myDiscr == snd.localDiscr
  }

  ghost predicate Halves(n: AdminLink) {
    && Half(n.link.a, n.link.ab, n.abLate, n.aDisabled, n.link.b, n.bDisabled, n.bTold)
    && Half(n.link.b, n.link.ba, n.baLate, n.bDisabled, n.link.a, n.aDisabled, n.aTold)
  }

  ghost predicate AdminOk(n: AdminLink) {
    Halves(n) && Known(n.link.a, n.link.ab, n.link.b) && Known(n.link.b, n.link.ba, n.link.a)
  }

  /** Receiving the head of the queue, as the receiver's direction and as its own. */
  lemma ReceiveHalf(snd: Session, ch: seq<Packet>, late: seq<bool>, disabled: bool, rcv: Session, rcvDisabled: bool,
                    told: bool)
    requires Half(snd, ch, late, disabled, rcv, rcvDisabled, told) && ch != []
    requires rcv.state == AdminDown <==> rcvDisabled
    ensures var rcv', told' := Deliver(rcv, ch[0]), told || (late[0] && Accepts(rcv.localDiscr, ch[0]));
            && Half(snd, ch[1..], late[1..], disabled, rcv', rcvDisabled, told')
            && (rcv'.state == AdminDown <==> rcvDisabled) && rcv'.localDiscr == rcv.localDiscr
            && (rcv.state == Down && ch[0].state == AdminDown ==> rcv'.state == Down)
  {
    RecvMeans(rcv, ch[0]);
  }

  /** What a side does to its own direction by receiving: nothing but with its state. */
  lemma OtherHalf(snd: Session, snd': Session, ch: seq<Packet>, late: seq<bool>, disabled: bool,
                  rcv: Session, rcvDisabled: bool, told: bool)
    requires Half(snd, ch, late, disabled, rcv, rcvDisabled, told) && (snd'.state == AdminDown <==> disabled)
    ensures Half(snd', ch, late, disabled, rcv, rcvDisabled, told)
  {
  }

  lemma SendHalf(snd: Session, ch: seq<Packet>, late: seq<bool>, disabled: bool, rcv: Session, rcvDisabled: bool,
                 told: bool)
    requires Half(snd, ch, late, disabled, rcv, rcvDisabled, told)
    ensures Half(SendSpec(snd), ch + [SentPacket(snd)], late + [disabled], disabled, rcv, rcvDisabled, told)
  {
  }

  lemma DisableHalves(a: Session, ab: seq<Packet>, abLate: seq<bool>, aDisabled: bool, bTold: bool,
                      b: Session, ba: seq<Packet>, baLate: seq<bool>, bDisabled: bool, aTold: bool)
    requires Half(a, ab, abLate, aDisabled, b, bDisabled, bTold) && Half(b, ba, baLate, bDisabled, a, aDisabled, aTold)
    ensures Half(Disable(a), ab, abLate, true, b, bDisabled, bTold)
    ensures Half(b, ba, baLate, bDisabled, Disable(a), true, aTold)
  {
  }

  lemma KnownSends(snd: Session, ch: seq<Packet>, rcv: Session)
    requires Known(snd, ch, rcv)
    ensures Known(SendSpec(snd), ch + [SentPacket(snd)], rcv) && Known(snd, ch, SendSpec(rcv))
    ensures Known(Disable(snd), ch, rcv) && Known(snd, ch, Disable(rcv))
  {
  }

  lemma KnownReceives(snd: Session, ch: seq<Packet>, rcv: Session, p: Packet)
    requires Known(snd, ch, rcv)
    ensures ch != [] ==> Known(snd, ch[1..], Deliver(rcv, ch[0]))
    ensures Known(Deliver(snd, p), ch, rcv)
  {
  }

  lemma SidesStay(s: Session, p: Packet)
    ensures SendSpec(s).localDiscr == Disable(s).localDiscr == Deliver(s, p).localDiscr == s.localDiscr
    ensures SendSpec(s).detectMult == Disable(s).detectMult == Deliver(s, p).detectMult == s.detectMult
  {
  }

  lemma KnownAlongA(l: Link, e: AdminEvent)
    requires Known(l.a, l.ab, l.b)
    ensures var m := LinkAfter(l, e);
            Known(m.a, m.ab, m.b) && m.a.localDiscr == l.a.localDiscr && m.a.detectMult == l.a.detectMult
  {
    hide Known, Deliver, Disable, SendSpec, SentPacket, MaySend;
    KnownSends(l.a, l.ab, l.b);
    if l.ab != [] {
      KnownReceives(l.a, l.ab, l.b, l.ab[0]);
    }
    if l.ba != [] {
      KnownReceives(l.a, l.ab, l.b, l.ba[0]);
      SidesStay(l.a, l.ba[0]);
    }
    SidesStay(l.a, SentPacket(l.a));
  }

  lemma KnownAlongB(l: Link, e: AdminEvent)
    requires Known(l.b, l.ba, l.a)
    ensures var m := LinkAfter(l, e);
            Known(m.b, m.ba, m.a) && m.b.localDiscr == l.b.localDiscr && m.b.detectMult == l.b.detectMult
  {
    hide Known, Deliver, Disable, SendSpec, SentPacket, MaySend;
    KnownSends(l.b, l.ba, l.a);
    if l.ba != [] {
      KnownReceives(l.b, l.ba, l.a, l.ba[0]);
    }
    if l.ab != [] {
      KnownReceives(l.b, l.ba, l.a, l.ab[0]);
      SidesStay(l.b, l.ab[0]);
    }
    SidesStay(l.b, SentPacket(l.b));
  }

  /** Nothing is ever untold or enabled again. */
  lemma FlagsStay(n: AdminLink, e: AdminEvent)
    ensures var m := AdminStep(n, e);
            && m.link == LinkAfter(n.link, e)
            && (n.aDisabled ==> m.aDisabled) && (n.bDisabled ==> m.bDisabled)
            && (n.aTold ==> m.aTold) && (n.bTold ==> m.bTold)
  {
    hide LinkAfter, Accepts, Tail;
  }

  /** Sending changes nothing that the other direction looks at. */
  lemma SentHalf(snd: Session, ch: seq<Packet>, late: seq<bool>, disabled: bool, rcv: Session, rcvDisabled: bool,
                 told: bool)
    requires Half(snd, ch, late, disabled, rcv, rcvDisabled, told)
    ensures Half(snd, ch, late, disabled, SendSpec(rcv), rcvDisabled, told)
  {
  }

  lemma HalvesFacts(n: AdminLink)
    requires Halves(n)
    ensures |n.abLate| == |n.link.ab| && (n.link.a.state == AdminDown <==> n.aDisabled)
    ensures |n.baLate| == |n.link.ba| && (n.link.b.state == AdminDown <==> n.bDisabled)
  {
  }

  lemma HalvesDisabled(n: AdminLink, e: AdminEvent)
    requires Halves(n) && !e.Usual?
    ensures Halves(AdminStep(n, e))
  {
    var a, b, l := n.link.a, n.link.b, n.link;
    hide Half, Disable;
    if e == DisableA {
      DisableHalves(a, l.ab, n.abLate, n.aDisabled, n.bTold, b, l.ba, n.baLate, n.bDisabled, n.aTold);
    } else {
      DisableHalves(b, l.ba, n.baLate, n.bDisabled, n.aTold, a, l.ab, n.abLate, n.aDisabled, n.bTold);
    }
  }

  lemma HalvesSent(n: AdminLink, e: AdminEvent)
    requires Halves(n) && (e == Usual(SendA) || e == Usual(SendB))
    ensures Halves(AdminStep(n, e))
  {
    var a, b, l := n.link.a, n.link.b, n.link;
    hide Half, SendSpec, SentPacket, MaySend;
    if e == Usual(SendA) {
      SendHalf(a, l.ab, n.abLate, n.aDisabled, b, n.bDisabled, n.bTold);
      SentHalf(b, l.ba, n.baLate, n.bDisabled, a, n.aDisabled, n.aTold);
    } else {
      SendHalf(b, l.ba, n.baLate, n.bDisabled, a, n.aDisabled, n.aTold);
      SentHalf(a, l.ab, n.abLate, n.aDisabled, b, n.bDisabled, n.bTold);
    }
  }

  lemma HalvesReceivedA(n: AdminLink)
    requires Halves(n)
    ensures Halves(AdminStep(n, Usual(ReceiveA)))
  {
    var a, b, l := n.link.a, n.link.b, n.link;
    HalvesFacts(n);
    hide Half, Deliver, Accepts;
    if l.ba != [] {
      ReceiveHalf(b, l.ba, n.baLate, n.bDisabled, a, n.aDisabled, n.aTold);
      OtherHalf(a, Deliver(a, l.ba[0]), l.ab, n.abLate, n.aDisabled, b, n.bDisabled, n.bTold);
    }
  }

  lemma HalvesReceivedB(n: AdminLink)
    requires Halves(n)
    ensures Halves(AdminStep(n, Usual(ReceiveB)))
  {
    var a, b, l := n.link.a, n.link.b, n.link;
    HalvesFacts(n);
    hide Half, Deliver, Accepts;
    if l.ab != [] {
      ReceiveHalf(a, l.ab, n.abLate, n.aDisabled, b, n.bDisabled, n.bTold);
      OtherHalf(b, Deliver(b, l.ab[0]), l.ba, n.baLate, n.bDisabled, a, n.aDisabled, n.aTold);
    }
  }

  lemma AdminStepKeeps(n: AdminLink, e: AdminEvent)
    requires AdminOk(n)
    ensures AdminOk(AdminStep(n, e))
    ensures var m := AdminStep(n, e);
            && (n.aDisabled ==> m.aDisabled) && (n.bDisabled ==> m.bDisabled)
            && (n.aTold ==> m.aTold) && (n.bTold ==> m.bTold)
  {
    KnownAlongA(n.link, e);
    KnownAlongB(n.link, e);
    FlagsStay(n, e);
    hide AdminStep, Halves, Known;
    if !e.Usual? {
      HalvesDisabled(n, e);
    } else if e.e.ReceiveA? {
      HalvesReceivedA(n);
    } else if e.e.ReceiveB? {
      HalvesReceivedB(n);
    } else {
      HalvesSent(n, e);
    }
  }

  lemma {:induction false} AdminRunKeeps(n: AdminLink, es: seq<AdminEvent>)
    requires AdminOk(n)
    ensures AdminOk(AdminRun(n, es))
    ensures var m := AdminRun(n, es);
            && (n.aDisabled ==> m.aDisabled) && (n.bDisabled ==> m.bDisabled)
            && (n.aTold ==> m.aTold) && (n.bTold ==> m.bTold)
    decreases |es|
  {
    if es != [] {
      hide AdminOk, AdminStep;
      AdminStepKeeps(n, es[0]);
      AdminRunKeeps(AdminStep(n, es[0]), es[1..]);
    }
  }

  /** In every run of a fresh pair: a side that was taken down stays so, and once its peer has accepted a
      packet that it sent afterwards, the peer is Down, or was taken down itself, and is never Init or Up
      again in any continuation. */
  lemma ToldStaysDown(l: Link, es: seq<AdminEvent>, later: seq<AdminEvent>)
    requires IsFreshLink(l)
    ensures var m, n := AdminRun(Begin(l), es), AdminRun(AdminRun(Begin(l), es), later);
            && (m.aDisabled ==> n.link.a.state == AdminDown) && (m.bDisabled ==> n.link.b.state == AdminDown)
            && (m.bTold ==> m.aDisabled && n.link.b.state == if n.bDisabled then AdminDown else Down)
            && (m.aTold ==> m.bDisabled && n.link.a.state == if n.aDisabled then AdminDown else Down)
  {
    AdminRunKeeps(Begin(l), es);
    AdminRunKeeps(AdminRun(Begin(l), es), later);
  }

  // ----- the peer can be told -----

  /** Receiving often enough empties the queue, and tells the peer if the last packet in it is acceptable. */
  lemma {:induction false} DrainTells(n: AdminLink) returns (es: seq<AdminEvent>)
    requires AdminOk(n) && n.link.ab != [] && n.abLate[|n.abLate| - 1]
    requires Accepts(n.link.b.localDiscr, n.link.ab[|n.link.ab| - 1])
    ensures AdminRun(n, es).bTold
    decreases |n.link.ab|
  {
    var e := Usual(ReceiveB);
    var m := AdminStep(n, e);
    AdminStepKeeps(n, e);
    es := [e];
    assert AdminRun(m, []) == m;
    if |n.link.ab| > 1 {
      var rest := DrainTells(m);
      es := [e] + rest;
      assert es[1..] == rest;
    }
  }

  /** Whatever has happened to a fresh pair: once a side that has a detection multiplier was taken down, and
      may still send, its peer can be told, and then is down for good. */
  lemma PeerCanBeTold(l: Link, es: seq<AdminEvent>) returns (more: seq<AdminEvent>)
    requires IsFreshLink(l)
    requires var n := AdminRun(Begin(l), es);
             n.aDisabled && MaySend(n.link.a) && n.link.a.detectMult != 0
    ensures AdminRun(AdminRun(Begin(l), es), more).bTold
  {
    var n := AdminRun(Begin(l), es);
    AdminRunKeeps(Begin(l), es);
    var e := Usual(SendA);
    var m := AdminStep(n, e);
    AdminStepKeeps(n, e);
    assert m.link.ab[|m.link.ab| - 1] == SentPacket(n.link.a) && m.abLate[|m.abLate| - 1];
    var rest := DrainTells(m);
    more := [e] + rest;
    assert more[1..] == rest;
  }
}
