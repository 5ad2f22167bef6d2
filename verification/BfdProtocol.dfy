/** Two BFD sessions and the packets between them. */
module BfdProtocol {
  import opened BfdSessions

  function Rank(s: State): nat {
    match s
    case AdminDown => 0
    case Down => 1
    case Init => 2
    case Up => 3
  }

  /** `_send_loop` skips its turn while the peer has asked for no packets. */
  predicate MaySend(s: Session) {
    s.remoteMinRx != 0
  }

  function Deliver(s: Session, p: Packet): Session {
    if Accepts(s.localDiscr, p) then RecvSpec(s, p) else s
  }

  /** Only a packet that names it brings a session Up, one without discriminators or detection multiplier
      changes nothing, and one that names no session must come from a peer that is down. */
  lemma UpOnlyIfNamed(s: Session, p: Packet)
    ensures Deliver(s, p).state == Up && s.state != Up ==> p.yourDiscr == s.localDiscr && p.myDiscr != 0
    ensures p.myDiscr == 0 || p.detectMult == 0 ==> Deliver(s, p) == s
    ensures p.yourDiscr != s.localDiscr && (p.yourDiscr != 0 || p.state in {Init, Up}) ==> Deliver(s, p) == s
    ensures p.myDiscr != 0 && p.detectMult != 0 && p.yourDiscr == s.localDiscr != 0 ==> Deliver(s, p) == RecvSpec(s, p)
  {
    RecvMeans(s, p);
  }

  predicate IsFresh(s: Session) {
    && s == FreshSession(s.localDiscr, s.detectMult, s.cfgDesiredMinTx, s.requiredMinRx)
    && s.localDiscr != 0
  }

  // ----- lossless FIFO channels, no timeout -----

  datatype Link = Link(a: Session, b: Session, ab: seq<Packet>, ba: seq<Packet>)

  datatype Event = SendA | SendB | ReceiveA | ReceiveB

  function LinkStep(l: Link, e: Event): Link {
    match e
    case SendA => if MaySend(l.a) then l.(a := SendSpec(l.a), ab := l.ab + [SentPacket(l.a)]) else l
    case SendB => if MaySend(l.b) then l.(b := SendSpec(l.b), ba := l.ba + [SentPacket(l.b)]) else l
    case ReceiveA => if l.ba == [] then l else l.(a := Deliver(l.a, l.ba[0]), ba := l.ba[1..])
    case ReceiveB => if l.ab == [] then l else l.(b := Deliver(l.b, l.ab[0]), ab := l.ab[1..])
  }

  function LinkRun(l: Link, es: seq<Event>): Link
    decreases |es|
  {
    if es == [] then l else LinkRun(LinkStep(l, es[0]), es[1..])
  }

  /** What an endpoint may put on the wire: its own discriminators, never a state above Down before it
      has heard the peer. */
  ghost predicate WellSent(snd: Session, p: Packet, rcvDiscr: nat) {
    && p.myDiscr == snd.localDiscr && p.detectMult == snd.detectMult
    && p.state != AdminDown
    && (p.yourDiscr == 0 || p.yourDiscr == rcvDiscr)
    && (p.state != Down ==> p.yourDiscr == rcvDiscr)
  }

  ghost predicate EndpointOk(s: Session, peerDiscr: nat) {
    && s.localDiscr != 0
    && s.state != AdminDown
    && (s.remoteDiscr == 0 || s.remoteDiscr == peerDiscr)
    && (s.state != Down ==> s.remoteDiscr == peerDiscr)
    && s.desiredMinTx == if s.state == Up then s.cfgDesiredMinTx else SLOW_TX_INTERVAL
  }

  /** One direction: the queued states climb and end below the sender's own, and once the receiver is Up
      neither the queue nor the sender shows Down. */
  ghost predicate DirectionOk(snd: Session, ch: seq<Packet>, rcv: Session) {
    && (forall i :: 0 <= i < |ch| ==> WellSent(snd, ch[i], rcv.localDiscr) && Rank(ch[i].state) <= Rank(snd.state))
    && (forall i, j :: 0 <= i < j < |ch| ==> Rank(ch[i].state) <= Rank(ch[j].state))
    && (rcv.state == Up ==> snd.state != Down && forall i :: 0 <= i < |ch| ==> ch[i].state != Down)
  }

  ghost predicate LinkOk(l: Link) {
    && EndpointOk(l.a, l.b.localDiscr) && EndpointOk(l.b, l.a.localDiscr)
    && DirectionOk(l.a, l.ab, l.b) && DirectionOk(l.b, l.ba, l.a)
  }

  ghost predicate IsFreshLink(l: Link) {
    IsFresh(l.a) && IsFresh(l.b) && l.ab == [] && l.ba == []
  }

  /** Both sides only climb. */
  ghost predicate Climbs(l: Link, m: Link) {
    && Rank(l.a.state) <= Rank(m.a.state) && Rank(l.b.state) <= Rank(m.b.state)
    && l.a.localDiscr == m.a.localDiscr && l.b.localDiscr == m.b.localDiscr
  }

  /** Receiving the head of a climbing queue: the receiver climbs, and the rest of the queue suits it. */
  lemma ReceiveStep(snd: Session, ch: seq<Packet>, rcv: Session)
    requires EndpointOk(snd, rcv.localDiscr) && EndpointOk(rcv, snd.localDiscr) && DirectionOk(snd, ch, rcv) && ch != []
    ensures var rcv' := Deliver(rcv, ch[0]);
            && EndpointOk(rcv', snd.localDiscr) && DirectionOk(snd, ch[1..], rcv')
            && Rank(rcv.state) <= Rank(rcv'.state) && rcv'.localDiscr == rcv.localDiscr
            && (rcv'.state == Up ==> snd.state != Down)
            && rcv'.state == if snd.detectMult == 0 then rcv.state else RfcNext(rcv.state, ch[0].state)
  {
  }

  lemma SendStep(snd: Session, ch: seq<Packet>, rcv: Session)
    requires EndpointOk(snd, rcv.localDiscr) && DirectionOk(snd, ch, rcv)
    ensures EndpointOk(SendSpec(snd), rcv.localDiscr) && DirectionOk(SendSpec(snd), ch + [SentPacket(snd)], rcv)
  {
  }

  lemma LinkStepKeeps(l: Link, e: Event)
    requires LinkOk(l)
    ensures LinkOk(LinkStep(l, e)) && Climbs(l, LinkStep(l, e))
  {
    match e
    case SendA => SendStep(l.a, l.ab, l.b);
    case SendB => SendStep(l.b, l.ba, l.a);
    case ReceiveA => if l.ba != [] { ReceiveStep(l.b, l.ba, l.a); }
    case ReceiveB => if l.ab != [] { ReceiveStep(l.a, l.ab, l.b); }
  }

  lemma {:induction false} LinkRunKeeps(l: Link, es: seq<Event>)
    requires LinkOk(l)
    ensures LinkOk(LinkRun(l, es)) && Climbs(l, LinkRun(l, es))
    decreases |es|
  {
    if es != [] {
      LinkStepKeeps(l, es[0]);
      LinkRunKeeps(LinkStep(l, es[0]), es[1..]);
    }
  }

  /** In every run of a fresh pair, and from any of its moments on: states only climb, queues climb, and
      a side that is Up stays Up and never has a Down packet queued towards it. */
  lemma FreshPairOnlyClimbs(l: Link, es: seq<Event>, later: seq<Event>)
    requires IsFreshLink(l)
    ensures var m, n := LinkRun(l, es), LinkRun(LinkRun(l, es), later);
            && DirectionOk(m.a, m.ab, m.b) && DirectionOk(m.b, m.ba, m.a)
            && Climbs(m, n)
            && (m.a.state == Up ==> n.a.state == Up) && (m.b.state == Up ==> n.b.state == Up)
  {
    LinkRunKeeps(l, es);
    LinkRunKeeps(LinkRun(l, es), later);
  }

  // ----- no reachable state is stuck, unless a side asks for silence -----

  /** What a session is configured with so that its peer listens to it and goes on sending: it does not
      ask for silence, and its packets are not discarded for a zero detection multiplier. */
  predicate CanTalk(s: Session) {
    s.requiredMinRx != 0 && s.detectMult != 0
  }

  /** Neither side has asked the other to send nothing. */
  ghost predicate Talkative(l: Link) {
    && CanTalk(l.a) && CanTalk(l.b) && l.a.remoteMinRx != 0 && l.b.remoteMinRx != 0
    && (forall i :: 0 <= i < |l.ab| ==> l.ab[i].requiredMinRx != 0)
    && (forall i :: 0 <= i < |l.ba| ==> l.ba[i].requiredMinRx != 0)
  }

  lemma TalkativeStep(l: Link, e: Event)
    requires Talkative(l)
    ensures Talkative(LinkStep(l, e))
  {
  }

  lemma {:induction false} TalkativeRun(l: Link, es: seq<Event>)
    requires Talkative(l)
    ensures Talkative(LinkRun(l, es))
    decreases |es|
  {
    if es != [] {
      TalkativeStep(l, es[0]);
      TalkativeRun(LinkStep(l, es[0]), es[1..]);
    }
  }

  lemma {:induction false} LinkRunConcat(l: Link, xs: seq<Event>, ys: seq<Event>)
    ensures LinkRun(l, xs + ys) == LinkRun(LinkRun(l, xs), ys)
    decreases |xs|
  {
    if xs == [] {
      assert xs + ys == ys;
    } else {
      assert (xs + ys)[1..] == xs[1..] + ys;
      LinkRunConcat(LinkStep(l, xs[0]), xs[1..], ys);
    }
  }

  /** Receiving often enough empties both queues. */
  lemma {:induction false} Drain(l: Link) returns (es: seq<Event>)
    requires LinkOk(l)
    ensures LinkRun(l, es).ab == [] && LinkRun(l, es).ba == []
    decreases |l.ab| + |l.ba|
  {
    if l.ab == [] && l.ba == [] {
      es := [];
    } else {
      var e := if l.ab != [] then ReceiveB else ReceiveA;
      LinkStepKeeps(l, e);
      var rest := Drain(LinkStep(l, e));
      es := [e] + rest;
    }
  }

  const EXCHANGE := [SendA, SendB, ReceiveA, ReceiveB]

  function Exchange(l: Link): Link {
    LinkStep(LinkStep(LinkStep(LinkStep(l, SendA), SendB), ReceiveA), ReceiveB)
  }

  lemma ExchangeIsRun(l: Link)
    ensures LinkRun(l, EXCHANGE) == Exchange(l)
  {
  }

  lemma SendFacts(l: Link)
    ensures MaySend(l.a) ==>
              var m := LinkStep(l, SendA);
              && m.b == l.b && m.ba == l.ba && m.ab == l.ab + [SentPacket(l.a)]
              && SentPacket(l.a).state == m.a.state == l.a.state && m.a.detectMult == l.a.detectMult
    ensures MaySend(l.b) ==>
              var m := LinkStep(l, SendB);
              && m.a == l.a && m.ab == l.ab && m.ba == l.ba + [SentPacket(l.b)]
              && SentPacket(l.b).state == m.b.state == l.b.state && m.b.detectMult == l.b.detectMult
  {
  }

  lemma ReceiveFacts(l: Link)
    requires LinkOk(l)
    ensures l.ba != [] ==>
              var m := LinkStep(l, ReceiveA);
              && m.b == l.b && m.ab == l.ab && m.ba == l.ba[1..] && m.a.detectMult == l.a.detectMult
              && m.a.state == if l.b.detectMult == 0 then l.a.state else RfcNext(l.a.state, l.ba[0].state)
    ensures l.ab != [] ==>
              var m := LinkStep(l, ReceiveB);
              && m.a == l.a && m.ba == l.ba && m.ab == l.ab[1..] && m.b.detectMult == l.b.detectMult
              && m.b.state == if l.a.detectMult == 0 then l.b.state else RfcNext(l.b.state, l.ab[0].state)
  {
  }

  /** With empty queues one exchange tells each side the other's state. */
  lemma ExchangeStep(l: Link)
    requires LinkOk(l) && Talkative(l) && l.ab == [] && l.ba == []
    ensures var m := LinkRun(l, EXCHANGE);
            && LinkOk(m) && m.ab == [] && m.ba == []
            && m.a.state == RfcNext(l.a.state, l.b.state) && m.b.state == RfcNext(l.b.state, l.a.state)
  {
    ExchangeIsRun(l);
    hide LinkStep, LinkOk, RfcNext, SentPacket;
    var l1 := LinkStep(l, SendA);
    var l2 := LinkStep(l1, SendB);
    var l3 := LinkStep(l2, ReceiveA);
    LinkStepKeeps(l, SendA);
    LinkStepKeeps(l1, SendB);
    LinkStepKeeps(l2, ReceiveA);
    LinkStepKeeps(l3, ReceiveB);
    SendFacts(l);
    SendFacts(l1);
    ReceiveFacts(l2);
    ReceiveFacts(l3);
  }

  /** Whatever has happened, both sides can still come Up, unless one has asked for silence: empty the
      queues, then exchange twice. */
  lemma UpStaysReachable(l: Link, es: seq<Event>) returns (more: seq<Event>)
    requires IsFreshLink(l)
    requires l.a.requiredMinRx != 0 && l.a.detectMult != 0 && l.b.requiredMinRx != 0 && l.b.detectMult != 0
    ensures LinkRun(l, es + more).a.state == Up && LinkRun(l, es + more).b.state == Up
  {
    LinkRunKeeps(l, es);
    TalkativeRun(l, es);
    var m := LinkRun(l, es);
    var d := Drain(m);
    LinkRunKeeps(m, d);
    TalkativeRun(m, d);
    var n := LinkRun(m, d);
    ExchangeStep(n);
    TalkativeRun(n, EXCHANGE);
    ExchangeStep(LinkRun(n, EXCHANGE));
    more := d + (EXCHANGE + EXCHANGE);
    LinkRunConcat(n, EXCHANGE, EXCHANGE);
    LinkRunConcat(m, d, EXCHANGE + EXCHANGE);
    LinkRunConcat(l, es, more);
  }

  /** A side that asks for silence only ever hears Down: the peer falls silent before it has left Down. */
  ghost predicate Silenced(quiet: Session, toPeer: seq<Packet>, peer: Session, fromPeer: seq<Packet>) {
    && quiet.requiredMinRx == 0 && quiet.state in {Down, Init}
    && (forall i :: 0 <= i < |toPeer| ==> toPeer[i].requiredMinRx == 0)
    && (forall i :: 0 <= i < |fromPeer| ==> fromPeer[i].state == Down)
    && (peer.state == Down || peer.remoteMinRx == 0)
  }

  lemma SilencedStep(l: Link, e: Event)
    ensures Silenced(l.a, l.ab, l.b, l.ba) ==> var m := LinkStep(l, e); Silenced(m.a, m.ab, m.b, m.ba)
    ensures Silenced(l.b, l.ba, l.a, l.ab) ==> var m := LinkStep(l, e); Silenced(m.b, m.ba, m.a, m.ab)
  {
  }

  lemma {:induction false} SilencedRun(l: Link, es: seq<Event>)
    ensures Silenced(l.a, l.ab, l.b, l.ba) ==> var m := LinkRun(l, es); Silenced(m.a, m.ab, m.b, m.ba)
    ensures Silenced(l.b, l.ba, l.a, l.ab) ==> var m := LinkRun(l, es); Silenced(m.b, m.ba, m.a, m.ab)
    decreases |es|
  {
    if es != [] {
      SilencedStep(l, es[0]);
      SilencedRun(LinkStep(l, es[0]), es[1..]);
    }
  }

  /** A side with a zero detection multiplier is never heard, so its peer never leaves Down. */
  ghost predicate Unheard(mute: Session, toPeer: seq<Packet>, peer: Session) {
    mute.detectMult == 0 && peer.state == Down && forall i :: 0 <= i < |toPeer| ==> toPeer[i].detectMult == 0
  }

  lemma UnheardStep(l: Link, e: Event)
    ensures Unheard(l.a, l.ab, l.b) ==> var m := LinkStep(l, e); Unheard(m.a, m.ab, m.b)
    ensures Unheard(l.b, l.ba, l.a) ==> var m := LinkStep(l, e); Unheard(m.b, m.ba, m.a)
  {
  }

  lemma {:induction false} UnheardRun(l: Link, es: seq<Event>)
    ensures Unheard(l.a, l.ab, l.b) ==> var m := LinkRun(l, es); Unheard(m.a, m.ab, m.b)
    ensures Unheard(l.b, l.ba, l.a) ==> var m := LinkRun(l, es); Unheard(m.b, m.ba, m.a)
    decreases |es|
  {
    if es != [] {
      UnheardStep(l, es[0]);
      UnheardRun(LinkStep(l, es[0]), es[1..]);
    }
  }

  /** Whatever has happened before, a fresh pair can come Up on both sides if and only if neither asks for
      silence and neither has a zero detection multiplier. */
  lemma BothUpReachableIff(l: Link, es: seq<Event>)
    requires IsFreshLink(l)
    ensures (exists more :: LinkRun(l, es + more).a.state == Up && LinkRun(l, es + more).b.state == Up) <==>
            l.a.requiredMinRx != 0 && l.a.detectMult != 0 && l.b.requiredMinRx != 0 && l.b.detectMult != 0
  {
    if CanTalk(l.a) && CanTalk(l.b) {
      var more := UpStaysReachable(l, es);
      assert LinkRun(l, es + more).a.state == Up;
    } else {
      forall more
        ensures !(LinkRun(l, es + more).a.state == Up && LinkRun(l, es + more).b.state == Up)
      {
        SilencedRun(l, es + more);
        UnheardRun(l, es + more);
      }
    }
  }

  // ----- loss, duplication, reordering and timeouts -----

  /** The network may deliver any packet ever sent, at any time and any number of times. `aHeard` and
      `bHeard` record that the side has accepted a packet from its peer. */
  datatype Net = Net(a: Session, b: Session, sentA: set<Packet>, sentB: set<Packet>, aHeard: bool, bHeard: bool)

  datatype NetEvent =
    | TransmitA
    | TransmitB
    | HearA(p: Packet)
    | HearB(p: Packet)
    | TimeoutA
    | TimeoutB

  /** The detection timer only runs once a packet has started it. */
  function Expire(s: Session): Session {
    if s.detectTime != 0 then TimeoutSpec(s) else s
  }

  function NetStep(n: Net, e: NetEvent): Net {
    match e
    case TransmitA => if MaySend(n.a) then n.(a := SendSpec(n.a), sentA := n.sentA + {SentPacket(n.a)}) else n
    case TransmitB => if MaySend(n.b) then n.(b := SendSpec(n.b), sentB := n.sentB + {SentPacket(n.b)}) else n
    case HearA(p) => if p in n.sentB && Accepts(n.a.localDiscr, p) then n.(a := RecvSpec(n.a, p), aHeard := true) else n
    case HearB(p) => if p in n.sentA && Accepts(n.b.localDiscr, p) then n.(b := RecvSpec(n.b, p), bHeard := true) else n
    case TimeoutA => n.(a := Expire(n.a))
    case TimeoutB => n.(b := Expire(n.b))
  }

  function NetRun(n: Net, es: seq<NetEvent>): Net
    decreases |es|
  {
    if es == [] then n else NetRun(NetStep(n, es[0]), es[1..])
  }

  ghost predicate HalfOk(s: Session, sent: set<Packet>, heard: bool, peer: Session, peerHeard: bool) {
    && EndpointOk(s, peer.localDiscr)
    && (heard <==> s.remoteDiscr != 0)
    && (s.state == Up ==> peerHeard)
    && forall p :: p in sent ==> WellSent(s, p, peer.localDiscr) && (p.state != Down ==> heard)
  }

  ghost predicate NetOk(n: Net) {
    HalfOk(n.a, n.sentA, n.aHeard, n.b, n.bHeard) && HalfOk(n.b, n.sentB, n.bHeard, n.a, n.aHeard)
  }

  lemma TransmitStep(s: Session, sent: set<Packet>, heard: bool, peer: Session, peerSent: set<Packet>, peerHeard: bool)
    requires HalfOk(s, sent, heard, peer, peerHeard) && HalfOk(peer, peerSent, peerHeard, s, heard)
    ensures HalfOk(SendSpec(s), sent + {SentPacket(s)}, heard, peer, peerHeard)
            && HalfOk(peer, peerSent, peerHeard, SendSpec(s), heard)
  {
  }

  lemma HearStep(s: Session, sent: set<Packet>, heard: bool, peer: Session, peerSent: set<Packet>, peerHeard: bool,
                 p: Packet)
    requires HalfOk(s, sent, heard, peer, peerHeard) && HalfOk(peer, peerSent, peerHeard, s, heard)
    requires p in peerSent
    ensures HalfOk(RecvSpec(s, p), sent, true, peer, peerHeard)
            && HalfOk(peer, peerSent, peerHeard, RecvSpec(s, p), true)
  {
  }

  lemma ExpireStep(s: Session, sent: set<Packet>, heard: bool, peer: Session, peerSent: set<Packet>, peerHeard: bool)
    requires HalfOk(s, sent, heard, peer, peerHeard) && HalfOk(peer, peerSent, peerHeard, s, heard)
    ensures HalfOk(Expire(s), sent, heard, peer, peerHeard) && HalfOk(peer, peerSent, peerHeard, Expire(s), heard)
  {
  }

  lemma NetStepKeeps(n: Net, e: NetEvent)
    requires NetOk(n)
    ensures NetOk(NetStep(n, e))
  {
    hide HalfOk, RecvSpec, SendSpec, SentPacket, Expire;
    match e
    case TransmitA => TransmitStep(n.a, n.sentA, n.aHeard, n.b, n.sentB, n.bHeard);
    case TransmitB => TransmitStep(n.b, n.sentB, n.bHeard, n.a, n.sentA, n.aHeard);
    case HearA(p) => if p in n.sentB { HearStep(n.a, n.sentA, n.aHeard, n.b, n.sentB, n.bHeard, p); }
    case HearB(p) => if p in n.sentA { HearStep(n.b, n.sentB, n.bHeard, n.a, n.sentA, n.aHeard, p); }
    case TimeoutA => ExpireStep(n.a, n.sentA, n.aHeard, n.b, n.sentB, n.bHeard);
    case TimeoutB => ExpireStep(n.b, n.sentB, n.bHeard, n.a, n.sentA, n.aHeard);
  }

  lemma {:induction false} NetRunKeeps(n: Net, es: seq<NetEvent>)
    requires NetOk(n)
    ensures NetOk(NetRun(n, es))
    decreases |es|
  {
    if es != [] {
      NetStepKeeps(n, es[0]);
      NetRunKeeps(NetStep(n, es[0]), es[1..]);
    }
  }

  /** In every run of a fresh pair over the worst network: a side that is Up has heard its peer and been
      heard by it, a side that is not Up offers no more than one packet a second (section 6.8.3 of RFC
      5880), and every Init or Up packet ever sent passes the receiver's checks, unless it carries a
      zero detection multiplier. */
  lemma UpMeansThreeWay(n: Net, es: seq<NetEvent>)
    requires IsFresh(n.a) && IsFresh(n.b) && n.sentA == {} && n.sentB == {} && !n.aHeard && !n.bHeard
    ensures var m := NetRun(n, es);
            && (m.a.state == Up || m.b.state == Up ==> m.aHeard && m.bHeard)
            && m.a.desiredMinTx == (if m.a.state == Up then m.a.cfgDesiredMinTx else 1000000)
            && m.b.desiredMinTx == (if m.b.state == Up then m.b.cfgDesiredMinTx else 1000000)
            && (forall p :: p in m.sentA && p.state in {Init, Up} ==>
                (Accepts(m.b.localDiscr, p) <==> p.detectMult != 0))
            && (forall p :: p in m.sentB && p.state in {Init, Up} ==>
                (Accepts(m.a.localDiscr, p) <==> p.detectMult != 0))
  {
    NetRunKeeps(n, es);
  }
}
