/** One BFD session: packet reception, state changes, transmission and the detection timeout. */
module BfdSessions {
  datatype State = AdminDown | Down | Init | Up

  datatype Diag = NoDiag | DetectTimeExpired | NeighborSignaledDown

  /** The fields of a BFD control packet that decide anything here. */
  datatype Packet = Packet(state: State, myDiscr: nat, yourDiscr: nat, poll: bool, final: bool,
                           detectMult: nat, desiredMinTx: nat, requiredMinRx: nat)

  const SLOW_TX_INTERVAL := 1000000

  /** The values of a session's fields; `remoteMinRx` starts at -1, `detectTime` at 0, which means that
      the detection timer has not been started. */
  datatype Session = Session(state: State, localDiscr: nat, remoteDiscr: nat, diag: Diag,
                             isPolling: bool, pendingFinal: bool,
                             desiredMinTx: nat, cfgDesiredMinTx: nat, requiredMinRx: nat, remoteMinRx: int,
                             detectMult: nat, detectTime: nat)

  function FreshSession(localDiscr: nat, detectMult: nat, cfgDesiredMinTx: nat, requiredMinRx: nat): Session {
    Session(Down, localDiscr, 0, NoDiag, true, false,
            SLOW_TX_INTERVAL, cfgDesiredMinTx, requiredMinRx, -1, detectMult, 0)
  }

  /** The detection time a packet asks for (in microseconds). */
  function DetectTime(p: Packet): nat {
    p.desiredMinTx * p.detectMult
  }

  // ----- what the methods compute -----

  function SetStateSpec(s: Session, newState: State, diag: Diag): Session {
    match newState
    case Down => s.(state := Down, diag := if diag == NoDiag then s.diag else diag,
                    desiredMinTx := SLOW_TX_INTERVAL, isPolling := true)
    case Up => s.(state := Up, desiredMinTx := s.cfgDesiredMinTx, isPolling := true)
    case _ => s.(state := newState)
  }

  /** The session state machine of section 6.2 of RFC 5880: the state after hearing `remote`. */
  function RfcNext(local: State, remote: State): State {
    match (local, remote)
    case (AdminDown, _) => AdminDown
    case (_, AdminDown) => Down
    case (Down, Down) => Init
    case (Down, Init) => Up
    case (Down, Up) => Down
    case (Init, Down) => Init
    case (Init, _) => Up
    case (Up, Down) => Down
    case (Up, _) => Up
  }

  /** The state update on hearing `remote`. */
  function StateSpec(s: Session, remote: State): Session {
    var next := RfcNext(s.state, remote);
    if next == s.state then s else SetStateSpec(s, next, if next == Down then NeighborSignaledDown else NoDiag)
  }

  /** The session after an accepted packet: what it learns about the peer, its next state, and the
      timers and flags of section 6.8.6 of RFC 5880. */
  function RecvSpec(s: Session, p: Packet): Session {
    var s1 := s.(remoteDiscr := p.myDiscr, remoteMinRx := p.requiredMinRx, isPolling := s.isPolling && !p.final);
    if s.state == AdminDown then s1 else DetectionSpec(StateSpec(s1, p.state), p)
  }

  function DetectionSpec(s: Session, p: Packet): Session {
    s.(detectTime := if s.detectTime == 0 || p.poll then DetectTime(p) else s.detectTime,
       pendingFinal := s.pendingFinal || p.poll)
  }

  /** What an accepted packet does, case by case. */
  lemma RecvMeans(s: Session, p: Packet)
    ensures var r := RecvSpec(s, p);
            && r.state == RfcNext(s.state, p.state)
            && (r.state == AdminDown <==> s.state == AdminDown)
            && (p.state == AdminDown ==> r.state !in {Init, Up})
            && (s.state == Up && p.state in {AdminDown, Down} ==> r.state == Down)
            && (s.state == Up && p.state in {Init, Up} ==> r.state == Up)
            && (s.state != Up ==>
                  (r.state == Up <==> || (s.state == Init && p.state in {Init, Up})
                                      || (s.state == Down && p.state == Init)))
            && (s.state != Init ==> (r.state == Init <==> s.state == Down && p.state == Down))
            && (r.state == Down && s.state != Down ==>
                  r.diag == NeighborSignaledDown && r.desiredMinTx == SLOW_TX_INTERVAL)
            && (r.state == Up && s.state != Up ==> r.desiredMinTx == s.cfgDesiredMinTx)
            && (r.state == s.state || r.state == Init ==> r.diag == s.diag && r.desiredMinTx == s.desiredMinTx)
            && (r.isPolling <==> (r.state != s.state && r.state in {Down, Up}) || (s.isPolling && !p.final))
            && (s.state != AdminDown ==> (r.pendingFinal <==> s.pendingFinal || p.poll))
            && r.remoteDiscr == p.myDiscr && r.remoteMinRx == p.requiredMinRx
            && (s.state != AdminDown ==>
                  r.detectTime == if s.detectTime == 0 || p.poll then p.desiredMinTx * p.detectMult else s.detectTime)
  {
  }

  function TimeoutSpec(s: Session): Session {
    if s.state in {Down, AdminDown} then s else SetStateSpec(s, Down, DetectTimeExpired)
  }

  function SentPacket(s: Session): Packet {
    Packet(s.state, s.localDiscr, s.remoteDiscr, s.isPolling && !s.pendingFinal, s.pendingFinal,
           s.detectMult, s.desiredMinTx, s.requiredMinRx)
  }

  function SendSpec(s: Session): Session {
    if s.pendingFinal then s.(pendingFinal := false, isPolling := false) else s
  }

  /** `recv_bfd_pkt`: whether the packet reaches the session with this discriminator. A zero Your
      Discriminator is only tolerated while the sender is down. */
  predicate Accepts(localDiscr: nat, p: Packet) {
    && p.detectMult != 0
    && p.myDiscr != 0
    && (p.yourDiscr == 0 || p.yourDiscr == localDiscr)
    && (p.yourDiscr == 0 ==> p.state in {AdminDown, Down})
  }

  /** No packet carries both Poll and Final (section 6.5 of RFC 5880), an accepted Poll is answered by
      the next packet, and an accepted Final ends the poll sequence unless the state changes with it. */
  lemma PollAnswered(s: Session, p: Packet)
    requires s.state != AdminDown
    ensures !(SentPacket(s).poll && SentPacket(s).final)
    ensures p.poll ==> SentPacket(RecvSpec(s, p)).final
    ensures p.final && RecvSpec(s, p).state == s.state ==> !RecvSpec(s, p).isPolling && !SentPacket(RecvSpec(s, p)).poll
    ensures !SendSpec(s).pendingFinal && (s.pendingFinal ==> !SendSpec(s).isPolling)
  {
  }

  class BfdSession {
    const localDiscr: nat
    const detectMult: nat
    const cfgDesiredMinTx: nat
    const requiredMinRx: nat
    var sessionState: State
    var remoteDiscr: nat
    var localDiag: Diag
    var desiredMinTx: nat
    var remoteMinRx: int
    var isPolling: bool
    var pendingFinal: bool
    var detectTime: nat
    /** The state changes announced to observers. */
    var events: seq<(State, State)>

    ghost function Fields(): Session
      reads this
    {
      Session(sessionState, localDiscr, remoteDiscr, localDiag, isPolling, pendingFinal, desiredMinTx, cfgDesiredMinTx,
              requiredMinRx, remoteMinRx, detectMult, detectTime)
    }

    constructor (myDiscr: nat, detectMult: nat, desiredMinTx: nat, requiredMinRx: nat)
      ensures Fields() == FreshSession(myDiscr, detectMult, desiredMinTx, requiredMinRx) && events == []
    {
      localDiscr, this.detectMult := myDiscr, detectMult;
      cfgDesiredMinTx, this.requiredMinRx := desiredMinTx, requiredMinRx;
      sessionState, remoteDiscr, localDiag := Down, 0, NoDiag;
      this.desiredMinTx, remoteMinRx := SLOW_TX_INTERVAL, -1;
      isPolling, pendingFinal, detectTime, events := true, false, 0, [];
    }

    /** `_set_state`. */
    method SetState(newState: State, diag: Diag)
      modifies this
      ensures Fields() == SetStateSpec(old(Fields()), newState, diag)
      ensures events == old(events) + [(old(sessionState), newState)]
    {
      var oldState := sessionState;
      sessionState := newState;
      if newState == Down {
        if diag != NoDiag {
          localDiag := diag;
        }
        desiredMinTx := SLOW_TX_INTERVAL;
        isPolling := true;
      } else if newState == Up {
        desiredMinTx := cfgDesiredMinTx;
        isPolling := true;
      }
      events := events + [(oldState, newState)];
    }

    /** The state update inside `recv`, for a session that is not administratively down. */
    method UpdateState(remote: State)
      requires sessionState != AdminDown
      modifies this
      ensures sessionState == RfcNext(old(sessionState), remote)
      ensures Fields() == StateSpec(old(Fields()), remote)
      ensures events == old(events) +
                if sessionState == old(sessionState) then [] else [(old(sessionState), sessionState)]
    {
      if remote == AdminDown {
        if sessionState != Down {
          SetState(Down, NeighborSignaledDown);
        }
      } else {
        if sessionState == Down {
          if remote == Down {
            SetState(Init, NoDiag);
          } else if remote == Init {
            SetState(Up, NoDiag);
          }
        } else if sessionState == Init {
          if remote in {Init, Up} {
            SetState(Up, NoDiag);
          }
        } else {
          if remote == Down {
            SetState(Down, NeighborSignaledDown);
          }
        }
      }
    }

    /** The detection time and the pending Final inside `recv`. */
    method UpdateDetection(p: Packet)
      modifies this
      ensures Fields() == DetectionSpec(old(Fields()), p) && events == old(events)
      ensures sessionState == old(sessionState)
    {
      if detectTime == 0 {
        detectTime := DetectTime(p);
      }
      if p.poll {
        pendingFinal := true;
        detectTime := DetectTime(p);
      }
    }

    /** `recv`: the chain of tests meets the state machine of the RFC, and an event is announced exactly
        when the state changes. Hearing that the peer is administratively down takes the session down. */
    method Recv(p: Packet)
      modifies this
      ensures Fields() == RecvSpec(old(Fields()), p)
      ensures sessionState == RfcNext(old(sessionState), p.state)
      ensures p.state == AdminDown ==> sessionState !in {Init, Up}
      ensures old(sessionState) == Up && p.state in {AdminDown, Down} ==>
                sessionState == Down && localDiag == NeighborSignaledDown
      ensures events == old(events) +
                if sessionState == old(sessionState) then [] else [(old(sessionState), sessionState)]
    {
      RecvMeans(Fields(), p);
      hide RfcNext, StateSpec, DetectionSpec;
      remoteDiscr := p.myDiscr;
      if remoteMinRx != p.requiredMinRx {
        remoteMinRx := p.requiredMinRx;
      }
      if p.final && isPolling {
        isPolling := false;
      }
      if sessionState == AdminDown {
        return;
      }
      UpdateState(p.state);
      UpdateDetection(p);
    }

    /** The expiry branch of `_recv_timeout_loop`. */
    method Timeout()
      modifies this
      ensures Fields() == TimeoutSpec(old(Fields()))
      ensures if old(sessionState) in {Init, Up}
              then sessionState == Down && localDiag == DetectTimeExpired && desiredMinTx == SLOW_TX_INTERVAL
              else sessionState == old(sessionState)
      ensures events == old(events) + if old(sessionState) in {Down, AdminDown} then [] else [(old(sessionState), Down)]
    {
      if sessionState !in {Down, AdminDown} {
        SetState(Down, DetectTimeExpired);
      }
    }

    /** `_send`. */
    method Send() returns (p: Packet)
      modifies this
      ensures p == SentPacket(old(Fields())) && Fields() == SendSpec(old(Fields()))
      ensures p.state == sessionState == old(sessionState) && p.myDiscr == localDiscr && p.yourDiscr == remoteDiscr
      ensures p.detectMult == detectMult && p.desiredMinTx == desiredMinTx && p.requiredMinRx == requiredMinRx
      ensures events == old(events)
    {
      var final := pendingFinal;
      if pendingFinal {
        pendingFinal := false;
        isPolling := false;
      }
      p := Packet(sessionState, localDiscr, remoteDiscr, isPolling, final, detectMult, desiredMinTx, requiredMinRx);
    }
  }
}
