/**
 * The datapath backend as the source keeps it: shared maps that each call updates in place
 * (`Inner` in `crates/siphon-rtp-datapath/src/udp.rs`). Every method is proved against one step of
 * the state machine in `Datapath`, so the run theorems in `IcePath` and `LatchGate` are about it.
 */
module Backend {
  import opened Datapath
  import opened IcePath
  import opened LatchGate
  import opened Wrappers

  class Inner {
    var nextId: EndpointId
    var endpoints: set<EndpointId>
    var flows: map<EndpointId, FlowAction>
    var latched: map<EndpointId, SourceLatch>
    var ice: map<EndpointId, IceConfig>
    var iceNominated: map<EndpointId, nat>
    var iceForwardOnly: set<EndpointId>

    ghost function View(): State
      reads this
    {
      State(nextId, endpoints, flows, latched, ice, iceNominated, iceForwardOnly)
    }

    constructor ()
      ensures View() == INITIAL
    {
      nextId, endpoints, flows, latched := 0, {}, map[], map[];
      ice, iceNominated, iceForwardOnly := map[], map[], {};
    }

    method RegisterSocket() returns (id: EndpointId)
      modifies this
      ensures View() == Step(old(View()), Register).0 && id == old(nextId)
    {
      id := nextId;
      nextId := nextId + 1;
      endpoints := endpoints + {id};
    }

    /** The SSRC-consistent latch; reports whether the datagram is accepted. */
    method UpdateLatch(endpoint: EndpointId, source: SocketAddr, ssrc: Option<nat>) returns (accepted: bool)
      modifies `latched
      ensures accepted <==> !SourceLatchVerdict(Lookup(old(latched), endpoint), source, ssrc).Reject?
      ensures latched == (match SourceLatchVerdict(Lookup(old(latched), endpoint), source, ssrc)
                          case Learn(latch) => old(latched)[endpoint := latch]
                          case _ => old(latched))
    {
      var current := if endpoint in latched then Some(latched[endpoint]) else None;
      match SourceLatchVerdict(current, source, ssrc)
      case Keep => accepted := true;
      case Learn(latch) => latched := latched[endpoint := latch]; accepted := true;
      case Reject => accepted := false;
    }

    /** The layer-4 verdict both delivery paths consult. */
    method CheckIceGate(endpoint: EndpointId, source: SocketAddr) returns (verdict: IceGateVerdict)
      ensures verdict == IceGate(View(), endpoint, source)
    {
      if endpoint !in ice { return NotIce; }
      if endpoint in latched && latched[endpoint].source == source { return GateAccept; }
      return GateReject;
    }

    method DispatchForward(
        endpoint: EndpointId, source: SocketAddr, payload: seq<Byte>, rule: ForwardRule) returns (outcome: Outcome)
      requires Lookup(flows, endpoint) == Some(Forward(rule))
      modifies `latched
      ensures (View(), outcome) == Dispatch(old(View()), endpoint, source, payload)
    {
      hide SubnetContains;
      if Classify(payload) != Media { return Dropped; }
      var verdict := CheckIceGate(endpoint, source);
      if verdict == GateReject { return Dropped; }
      if verdict == NotIce {
        if !rule.acceptedSource.Accepts(source.ip) { return Dropped; }
        if rule.latch != Off {
          var accepted := UpdateLatch(endpoint, source, RtpMediaSsrc(payload));
          if !accepted { return Dropped; }
        }
      }
      if rule.rtcpToUserspace && IsRtcp(payload) { return Redirected; }
      var destination :=
        if rule.outEndpoint in latched then Some(latched[rule.outEndpoint].source) else rule.outDst;
      if destination.None? || rule.outEndpoint !in endpoints { return Dropped; }
      outcome := Forwarded(rule.outEndpoint, destination.value);
    }

    method DispatchDatagram(endpoint: EndpointId, source: SocketAddr, payload: seq<Byte>) returns (outcome: Outcome)
      modifies `latched
      ensures (View(), outcome) == Dispatch(old(View()), endpoint, source, payload)
    {
      if endpoint !in flows { return Dropped; }
      match flows[endpoint]
      case Forward(rule) =>
        outcome := DispatchForward(endpoint, source, payload, rule);
      case Redirect =>
        var verdict := CheckIceGate(endpoint, source);
        outcome := if verdict == GateReject then Dropped else Redirected;
      case Drop =>
        outcome := Dropped;
    }

    /** The ice-lite responder: answer a valid check, and select its source if it nominates and supersedes. */
    method AnswerCheck(
        endpoint: EndpointId, source: SocketAddr, datagram: Datagram, config: IceConfig) returns (outcome: Outcome)
      modifies `latched, `iceNominated
      ensures (View(), outcome) == HandleStun(old(View()), endpoint, source, datagram, config)
    {
      hide Authenticated;
      match RespondToStunCheck(datagram, config)
      case Ignore => return Dropped;
      case Respond(nomination) =>
        if nomination.Some? {
          var priority := nomination.value;
          var selects := true;
          if endpoint in iceNominated {
            selects := NominationSupersedes(Some(iceNominated[endpoint]), priority);
          }
          if selects {
            iceNominated := iceNominated[endpoint := priority];
            latched := latched[endpoint := SourceLatch(source, None)];
          }
        }
        return Answered;
    }

    method ReceiveDatagram(endpoint: EndpointId, source: SocketAddr, datagram: Datagram) returns (outcome: Outcome)
      modifies `latched, `iceNominated
      ensures (View(), outcome) == Step(old(View()), Receive(endpoint, source, datagram))
    {
      hide HandleStun;
      hide Dispatch;
      if Classify(datagram.bytes) == Stun {
        if endpoint in iceForwardOnly { return HandedToAgent; }
        if endpoint in ice {
          outcome := AnswerCheck(endpoint, source, datagram, ice[endpoint]);
          return;
        }
      }
      outcome := DispatchDatagram(endpoint, source, datagram.bytes);
    }

    method ForgetStale(endpoint: EndpointId, previous: Option<FlowAction>, rule: ForwardRule)
      modifies `latched
      ensures View() == ForgetStaleLatches(old(View()), endpoint, previous, rule)
    {
      hide SubnetContains;
      if endpoint !in ice {
        if endpoint in latched && !rule.acceptedSource.Accepts(latched[endpoint].source.ip) {
          latched := latched - {endpoint};
        }
      }
      if previous.Some? && previous.value.Forward? {
        var replaced := previous.value.rule;
        if replaced.outEndpoint == rule.outEndpoint && SignalledPeerMoved(replaced.outDst, rule.outDst)
           && rule.outEndpoint !in ice {
          latched := latched - {rule.outEndpoint};
        }
      }
    }

    method Install(endpoint: EndpointId, action: FlowAction) returns (known: bool)
      modifies `flows, `latched
      ensures known <==> endpoint in endpoints
      ensures View() == Step(old(View()), InstallFlow(endpoint, action)).0
    {
      hide ForgetStaleLatches;
      if endpoint !in endpoints { return false; }
      var previous := if endpoint in flows then Some(flows[endpoint]) else None;
      flows := flows[endpoint := action];
      if action.Forward? { ForgetStale(endpoint, previous, action.rule); }
      return true;
    }

    method DeleteFlow(endpoint: EndpointId)
      modifies `flows
      ensures View() == Step(old(View()), RemoveFlow(endpoint)).0
    {
      flows := flows - {endpoint};
    }

    method DeleteEndpoint(endpoint: EndpointId)
      modifies this
      ensures View() == Step(old(View()), RemoveEndpoint(endpoint)).0
    {
      endpoints := endpoints - {endpoint};
      flows := flows - {endpoint};
      latched := latched - {endpoint};
      ice := ice - {endpoint};
      iceNominated := iceNominated - {endpoint};
    }

    method ConfigureIce(endpoint: EndpointId, config: Option<IceConfig>)
      modifies `ice, `iceNominated, `iceForwardOnly
      ensures View() == Step(old(View()), SetIce(endpoint, config)).0
    {
      match config
      case Some(c) =>
        var restarted := endpoint in ice && ice[endpoint].localUfrag != c.localUfrag;
        if restarted { iceNominated := iceNominated - {endpoint}; }
        ice := ice[endpoint := c];
      case None =>
        ice := ice - {endpoint};
        iceNominated := iceNominated - {endpoint};
        iceForwardOnly := iceForwardOnly - {endpoint};
    }

    method ConfigureIceAgent(endpoint: EndpointId, config: IceConfig, mode: IceAgentMode)
      modifies `ice, `iceForwardOnly
      ensures View() == Step(old(View()), SetIceAgent(endpoint, config, mode)).0
    {
      ice := ice[endpoint := config];
      match mode
      case RespondAndForward => iceForwardOnly := iceForwardOnly - {endpoint};
      case ForwardOnly => iceForwardOnly := iceForwardOnly + {endpoint};
    }

    method Adopt(endpoint: EndpointId, source: SocketAddr)
      modifies `latched
      ensures View() == Step(old(View()), AdoptSource(endpoint, source)).0
    {
      latched := latched[endpoint := SourceLatch(source, None)];
    }

    /**
     * The calls above, driven by a sequence of events. A fresh object then keeps every latch its own rule
     * admits on endpoints that ICE never steers, and delivers from a guarded ICE endpoint only what came
     * from the source the latest adoption or superseding nomination set.
     */
    method RunEvents(events: seq<Event>) returns (outcomes: seq<Outcome>)
      modifies this
      ensures View() == Run(old(View()), events) && |outcomes| == |events|
      ensures forall i :: 0 <= i < |events| ==> outcomes[i] == OutcomeAt(old(View()), events, i)
      ensures old(View()) == INITIAL ==> forall e :: NeverSteered(events, e) ==> Admitted(View(), e)
      ensures old(View()) == INITIAL ==>
                forall e, g: nat, i: nat :: GuardedFrom(events, e, g) && g < i < |events| && events[i].Receive?
                    && events[i].endpoint == e && Delivered(outcomes[i])
                  ==> PathBetween(events, e, g, i) == Some(events[i].source)
    {
      hide Step;
      hide GuardedFrom;
      hide PathBetween;
      hide Admitted;
      outcomes := [];
      for i := 0 to |events|
        invariant View() == Run(old(View()), events[..i]) && |outcomes| == i
        invariant forall k :: 0 <= k < i ==> outcomes[k] == OutcomeAt(old(View()), events, k)
      {
        assert events[..i + 1][..i] == events[..i];
        var outcome := Apply(events[i]);
        outcomes := outcomes + [outcome];
      }
      assert events[..|events|] == events;
      if old(View()) == INITIAL {
        forall e | NeverSteered(events, e) ensures Admitted(View(), e) { LatchAlwaysAdmitted(events, e); }
        forall e, g: nat, i: nat | GuardedFrom(events, e, g) && g < i < |events| && events[i].Receive?
            && events[i].endpoint == e && Delivered(outcomes[i])
          ensures PathBetween(events, e, g, i) == Some(events[i].source)
        {
          GuardedRunIsSafe(events, e, g, i);
        }
      }
    }

    method Apply(event: Event) returns (outcome: Outcome)
      modifies this
      ensures (View(), outcome) == Step(old(View()), event)
    {
      hide ReceiveOn;
      hide Datapath.Install;
      outcome := Control;
      match event
      case Register => var _ := RegisterSocket();
      case Receive(e, source, datagram) => outcome := ReceiveDatagram(e, source, datagram);
      case InstallFlow(e, action) => var _ := Install(e, action);
      case RemoveFlow(e) => DeleteFlow(e);
      case RemoveEndpoint(e) => DeleteEndpoint(e);
      case SetIce(e, config) => ConfigureIce(e, config);
      case SetIceAgent(e, config, mode) => ConfigureIceAgent(e, config, mode);
      case AdoptSource(e, source) => Adopt(e, source);
    }
  }
}
