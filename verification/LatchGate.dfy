/**
 * The signalled-source gate over whole runs, on endpoints that never carry ICE credentials and are
 * never steered by `adopt_source`.
 */
module LatchGate {
  import opened Datapath
  import opened Wrappers

  predicate SteersByIce(event: Event, e: EndpointId) {
    || (event.SetIce? && event.endpoint == e && event.config.Some?)
    || (event.SetIceAgent? && event.endpoint == e)
    || (event.AdoptSource? && event.endpoint == e)
  }

  predicate NeverSteered(events: seq<Event>, e: EndpointId) {
    forall i :: 0 <= i < |events| ==> !SteersByIce(events[i], e)
  }

  /** The latched source passes the gate of the forwarding rule installed there. */
  ghost predicate Admitted(s: State, e: EndpointId) {
    && e !in s.ice
    && (e in s.flows && s.flows[e].Forward? && e in s.latched
        ==> s.flows[e].rule.acceptedSource.Accepts(s.latched[e].source.ip))
  }

  lemma AdmittedReceive(s: State, at: EndpointId, source: SocketAddr, datagram: Datagram, e: EndpointId)
    requires Admitted(s, e)
    ensures Admitted(ReceiveOn(s, at, source, datagram).0, e)
  {
    hide Authenticated;
    hide SubnetContains;
  }

  lemma AdmittedInstall(s: State, at: EndpointId, action: FlowAction, e: EndpointId)
    requires Admitted(s, e)
    ensures Admitted(Install(s, at, action), e)
  {
    hide SubnetContains;
  }

  lemma AdmittedStep(s: State, event: Event, e: EndpointId)
    requires Admitted(s, e) && !SteersByIce(event, e)
    ensures Admitted(Step(s, event).0, e)
  {
    hide ReceiveOn;
    hide Install;
    hide SubnetContains;
    match event
    case Receive(at, source, datagram) => AdmittedReceive(s, at, source, datagram, e);
    case InstallFlow(at, action) => AdmittedInstall(s, at, action, e);
    case _ =>
  }

  lemma {:induction false} AdmittedRun(s: State, events: seq<Event>, e: EndpointId)
    requires Admitted(s, e) && NeverSteered(events, e)
    ensures Admitted(Run(s, events), e)
  {
    hide Step;
    hide Admitted;
    if |events| != 0 {
      AdmittedRun(s, events[..|events| - 1], e);
      AdmittedStep(Run(s, events[..|events| - 1]), events[|events| - 1], e);
    }
  }

  /** In every reachable state the latched source is one the installed rule would accept. */
  lemma LatchAlwaysAdmitted(events: seq<Event>, e: EndpointId)
    requires NeverSteered(events, e)
    ensures Admitted(Run(INITIAL, events), e)
  {
    AdmittedRun(INITIAL, events, e);
  }

  // ---- Re-answer ---------------------------------------------------------------------------------

  predicate ReinstallsOrRemoves(event: Event, e: EndpointId) {
    (event.InstallFlow? || event.RemoveFlow? || event.RemoveEndpoint?) && event.endpoint == e
  }

  /** No control call touches the flows of `a` or `b`; datagrams and other endpoints are free. */
  predicate LeavesAlone(events: seq<Event>, a: EndpointId, b: EndpointId) {
    forall i :: 0 <= i < |events| ==> !ReinstallsOrRemoves(events[i], a) && !ReinstallsOrRemoves(events[i], b)
  }

  lemma FlowKeptByStep(s: State, event: Event, e: EndpointId)
    requires !ReinstallsOrRemoves(event, e)
    ensures Lookup(Step(s, event).0.flows, e) == Lookup(s.flows, e)
    ensures e in s.endpoints ==> e in Step(s, event).0.endpoints
  {
    hide Authenticated;
    hide SubnetContains;
  }

  lemma {:induction false} FlowKept(s: State, events: seq<Event>, e: EndpointId)
    requires forall i :: 0 <= i < |events| ==> !ReinstallsOrRemoves(events[i], e)
    ensures Lookup(Run(s, events).flows, e) == Lookup(s.flows, e)
    ensures e in s.endpoints ==> e in Run(s, events).endpoints
  {
    hide Step;
    if |events| != 0 {
      FlowKept(s, events[..|events| - 1], e);
      FlowKeptByStep(Run(s, events[..|events| - 1]), events[|events| - 1], e);
    }
  }

  lemma ForwardGoesToLatchOrSignalled(s: State, event: Event, rule: ForwardRule)
    requires event.Receive? && Lookup(s.flows, event.endpoint) == Some(Forward(rule))
    ensures var (t, outcome) := Step(s, event);
            outcome.Forwarded? ==>
              && outcome.via == rule.outEndpoint
              && (if rule.outEndpoint in t.latched then outcome.destination == t.latched[rule.outEndpoint].source
                  else Some(outcome.destination) == rule.outDst)
  {
    hide SubnetContains;
  }

  lemma InstallTakesEffect(s: State, e: EndpointId, action: FlowAction)
    requires e in s.endpoints
    ensures Lookup(Step(s, InstallFlow(e, action)).0.flows, e) == Some(action)
    ensures Step(s, InstallFlow(e, action)).0.endpoints == s.endpoints
    ensures forall other :: other != e
              ==> Lookup(Step(s, InstallFlow(e, action)).0.flows, other) == Lookup(s.flows, other)
  {
  }

  /** The state after the two calls of a re-answer, in the given order, with `between` in between. */
  ghost function ReAnswered(s: State, between: seq<Event>, callA: Event, callB: Event, gateFirst: bool): State {
    var first, second := if gateFirst then callA else callB, if gateFirst then callB else callA;
    Step(Run(Step(s, first).0, between), second).0
  }

  lemma BothInstalled(
      s: State, between: seq<Event>, a: EndpointId, b: EndpointId, ruleA: ForwardRule, ruleB: ForwardRule,
      gateFirst: bool)
    requires a != b && a in s.endpoints && b in s.endpoints && Admitted(s, a)
    requires LeavesAlone(between, a, b) && NeverSteered(between, a)
    ensures var t := ReAnswered(s, between, InstallFlow(a, Forward(ruleA)), InstallFlow(b, Forward(ruleB)), gateFirst);
            && Lookup(t.flows, a) == Some(Forward(ruleA)) && Lookup(t.flows, b) == Some(Forward(ruleB))
            && Admitted(t, a)
  {
    hide Step;
    hide Admitted;
    hide Run;
    var e1, e2 := if gateFirst then a else b, if gateFirst then b else a;
    var r1, r2 := if gateFirst then ruleA else ruleB, if gateFirst then ruleB else ruleA;
    var first, second := InstallFlow(e1, Forward(r1)), InstallFlow(e2, Forward(r2));
    var s1 := Step(s, first).0;
    InstallTakesEffect(s, e1, Forward(r1));
    AdmittedStep(s, first, a);
    var s2 := Run(s1, between);
    FlowKept(s1, between, a);
    FlowKept(s1, between, b);
    AdmittedRun(s1, between, a);
    InstallTakesEffect(s2, e2, Forward(r2));
    AdmittedStep(s2, second, a);
  }

  lemma ForwardAvoids(
      s: State, event: Event, a: EndpointId, ruleA: ForwardRule, ruleB: ForwardRule, replaced: SocketAddr)
    requires event.Receive? && event.endpoint != a && Admitted(s, a)
    requires Lookup(s.flows, a) == Some(Forward(ruleA)) && Lookup(s.flows, event.endpoint) == Some(Forward(ruleB))
    requires !ruleA.acceptedSource.Accepts(replaced.ip) && ruleB.outEndpoint == a && ruleB.outDst != Some(replaced)
    ensures Step(s, event).1 != Forwarded(a, replaced)
  {
    hide Step;
    hide SubnetContains;
    AdmittedStep(s, event, a);
    FlowKeptByStep(s, event, a);
    ForwardGoesToLatchOrSignalled(s, event, ruleB);
  }

  /**
   * A re-answer installs `gateA` on `a` and `towardA` on `b`, in either order, with any datagrams and
   * any control calls on other endpoints before, between and after. From the second call on, whatever
   * `b` forwards out of `a` goes to a source the new gate admits or to the newly signalled
   * destination, so a replaced peer that is neither gets nothing more.
   */
  lemma ReAnswerLeavesOldPeer(
      before: seq<Event>, between: seq<Event>, after: seq<Event>,
      a: EndpointId, b: EndpointId, gateA: ForwardRule, towardA: ForwardRule, gateFirst: bool,
      replaced: SocketAddr, i: nat)
    requires a != b && towardA.outEndpoint == a
    requires a in Run(INITIAL, before).endpoints && b in Run(INITIAL, before).endpoints
    requires LeavesAlone(between, a, b) && LeavesAlone(after, a, b)
    requires NeverSteered(before, a) && NeverSteered(between, a) && NeverSteered(after, a)
    requires !gateA.acceptedSource.Accepts(replaced.ip) && towardA.outDst != Some(replaced)
    requires i < |after| && after[i].Receive? && after[i].endpoint == b
    ensures var gate, toward := InstallFlow(a, Forward(gateA)), InstallFlow(b, Forward(towardA));
            var s := ReAnswered(Run(INITIAL, before), between, gate, toward, gateFirst);
            OutcomeAt(s, after, i) != Forwarded(a, replaced)
  {
    hide Step;
    hide Admitted;
    hide Run;
    hide SubnetContains;
    hide ReAnswered;
    var gate, toward := InstallFlow(a, Forward(gateA)), InstallFlow(b, Forward(towardA));
    var s := ReAnswered(Run(INITIAL, before), between, gate, toward, gateFirst);
    LatchAlwaysAdmitted(before, a);
    BothInstalled(Run(INITIAL, before), between, a, b, gateA, towardA, gateFirst);
    FlowKept(s, after[..i], a);
    FlowKept(s, after[..i], b);
    AdmittedRun(s, after[..i], a);
    ForwardAvoids(Run(s, after[..i]), after[i], a, gateA, towardA, replaced);
  }

  // ---- The SSRC key --------------------------------------------------------------------------------

  /** Events that may take a latch away: ICE steering, removal, a rule on `e` itself or one that points at it. */
  predicate MayResetLatch(event: Event, e: EndpointId) {
    || SteersByIce(event, e)
    || (event.RemoveEndpoint? && event.endpoint == e)
    || (event.InstallFlow? && event.action.Forward? && (event.endpoint == e || event.action.rule.outEndpoint == e))
  }

  ghost predicate KeyedBy(s: State, e: EndpointId, key: nat) {
    e !in s.ice && e in s.latched && s.latched[e].ssrc == Some(key)
  }

  lemma KeyKeptByStep(s: State, event: Event, e: EndpointId, key: nat)
    requires KeyedBy(s, e, key) && !MayResetLatch(event, e)
    ensures KeyedBy(Step(s, event).0, e, key)
    ensures Step(s, event).0.latched[e].source != s.latched[e].source
        ==> event.Receive? && event.endpoint == e && RtpMediaSsrc(event.datagram.bytes) == Some(key)
  {
    hide Authenticated;
    hide SubnetContains;
  }

  /** Once a stream is latched, only a datagram that carries its SSRC can move the latch, in any run. */
  lemma {:induction false} LatchMovesOnlyOnItsKey(s: State, events: seq<Event>, e: EndpointId, key: nat)
    requires KeyedBy(s, e, key)
    requires forall i :: 0 <= i < |events| ==> !MayResetLatch(events[i], e)
    ensures KeyedBy(Run(s, events), e, key)
    ensures Run(s, events).latched[e].source == s.latched[e].source
         || exists i :: && 0 <= i < |events| && events[i].Receive? && events[i].endpoint == e
                        && events[i].source == Run(s, events).latched[e].source
                        && RtpMediaSsrc(events[i].datagram.bytes) == Some(key)
  {
    hide Step;
    hide RtpMediaSsrc;
    if |events| != 0 {
      var prefix, last := events[..|events| - 1], events[|events| - 1];
      LatchMovesOnlyOnItsKey(s, prefix, e, key);
      KeyKeptByStep(Run(s, prefix), last, e, key);
      if last.Receive? { MovedToSource(Run(s, prefix), last, e); }
    }
  }

  lemma MovedToSource(s: State, event: Event, e: EndpointId)
    requires e in s.latched && e !in s.ice && event.Receive?
    ensures e in Step(s, event).0.latched
    ensures Step(s, event).0.latched[e].source != s.latched[e].source
        ==> event.endpoint == e && Step(s, event).0.latched[e].source == event.source
  {
    hide Authenticated;
    hide SubnetContains;
  }
}
