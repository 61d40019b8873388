/**
 * When a datagram is delivered, and where to, read off its raw bytes and the state a caller can see
 * (`crates/siphon-rtp-datapath/src/udp.rs`): both directions for one datagram, and a call that connects.
 */
module Delivery {
  import opened Datapath
  import opened Wrappers

  // ---- Raw bytes ----------------------------------------------------------------------------------------

  predicate IsMedia(bytes: seq<Byte>) {
    |bytes| > 0 && 128 <= bytes[0] <= 191
  }

  /** The payload types that RTCP occupies. */
  predicate IsControl(bytes: seq<Byte>) {
    |bytes| > 1 && 64 <= bytes[1] % 128 <= 95
  }

  /** A whole RTP header with this synchronization source in bytes 8 to 11. */
  predicate CarriesSsrc(bytes: seq<Byte>, ssrc: nat) {
    && |bytes| >= 12 && IsMedia(bytes) && !IsControl(bytes)
    && ssrc == bytes[8] as nat * 0x100_0000 + bytes[9] as nat * 0x1_0000 + bytes[10] as nat * 0x100 + bytes[11] as nat
  }

  lemma SsrcIff(bytes: seq<Byte>, ssrc: nat)
    ensures RtpMediaSsrc(bytes) == Some(ssrc) <==> CarriesSsrc(bytes, ssrc)
  {
  }

  // ---- One datagram ---------------------------------------------------------------------------------------

  /** The stored latch lets the datagram through: none yet, the same source, or the same stream. */
  predicate LatchAdmits(s: State, e: EndpointId, source: SocketAddr, bytes: seq<Byte>) {
    e in s.latched ==>
      || s.latched[e].source == source
      || (s.latched[e].ssrc.Some? && CarriesSsrc(bytes, s.latched[e].ssrc.value))
  }

  /** An ICE endpoint listens to its path only; any other to the signalled source and the latched stream. */
  predicate PassesGates(s: State, e: EndpointId, source: SocketAddr, bytes: seq<Byte>, rule: ForwardRule) {
    if e in s.ice then e in s.latched && s.latched[e].source == source
    else rule.acceptedSource.Accepts(source.ip) && (rule.latch == Off || LatchAdmits(s, e, source, bytes))
  }

  predicate KeptForUserspace(rule: ForwardRule, bytes: seq<Byte>) {
    rule.rtcpToUserspace && IsControl(bytes)
  }

  /** The latched source of the out endpoint, the sender itself where that is a loop, else the signalled one. */
  function Target(s: State, e: EndpointId, source: SocketAddr, rule: ForwardRule): Option<SocketAddr> {
    if rule.outEndpoint == e && e !in s.ice && rule.latch != Off then Some(source)
    else if rule.outEndpoint in s.latched then Some(s.latched[rule.outEndpoint].source)
    else rule.outDst
  }

  lemma AdmitIff(s: State, e: EndpointId, source: SocketAddr, bytes: seq<Byte>, rule: ForwardRule)
    requires IsMedia(bytes)
    ensures var admitted := Admit(s, e, source, RtpMediaSsrc(bytes), rule);
            && (admitted.Some? <==> PassesGates(s, e, source, bytes, rule))
            && (admitted.Some? ==> admitted.value == s.(latched := admitted.value.latched))
            && (admitted.Some? && (e in s.ice || rule.latch == Off) ==> admitted.value == s)
            && (admitted.Some? && e !in s.ice && rule.latch != Off ==>
                  && admitted.value.latched.Keys == s.latched.Keys + {e}
                  && (forall other :: other in s.latched && other != e
                        ==> admitted.value.latched[other] == s.latched[other])
                  && admitted.value.latched[e].source == source)
  {
    if e in s.latched && s.latched[e].ssrc.Some? { SsrcIff(bytes, s.latched[e].ssrc.value); }
    hide RtpMediaSsrc;
    hide CarriesSsrc;
  }

  /** A datagram under a Forward rule is sent on exactly under these conditions, and exactly there. */
  lemma ForwardedIff(
      s: State, e: EndpointId, source: SocketAddr, datagram: Datagram, rule: ForwardRule,
      via: EndpointId, destination: SocketAddr)
    requires Lookup(s.flows, e) == Some(Forward(rule))
    ensures Step(s, Receive(e, source, datagram)).1 == Forwarded(via, destination)
       <==> && IsMedia(datagram.bytes) && PassesGates(s, e, source, datagram.bytes, rule)
            && !KeptForUserspace(rule, datagram.bytes)
            && via == rule.outEndpoint && via in s.endpoints
            && Target(s, e, source, rule) == Some(destination)
  {
    if IsMedia(datagram.bytes) { AdmitIff(s, e, source, datagram.bytes, rule); }
    hide Admit;
    hide PassesGates;
    hide Authenticated;
  }

  /** What a redirecting flow lets through to userspace. */
  predicate ReachesUserspace(s: State, e: EndpointId, source: SocketAddr, bytes: seq<Byte>, action: FlowAction) {
    match action
    case Forward(rule) => IsMedia(bytes) && PassesGates(s, e, source, bytes, rule) && KeptForUserspace(rule, bytes)
    case Redirect => e in s.ice ==> e in s.latched && s.latched[e].source == source
    case Drop => false
  }

  /** A first byte that belongs to STUN, where credentials or an agent claim it. */
  predicate ClaimedByIce(s: State, e: EndpointId, bytes: seq<Byte>) {
    |bytes| > 0 && bytes[0] <= 3 && (e in s.ice || e in s.forwardOnly)
  }

  /** Userspace gets the RTCP a rule keeps for it, and everything on a redirected endpoint that ICE lets in. */
  lemma RedirectedIff(s: State, e: EndpointId, source: SocketAddr, datagram: Datagram)
    ensures Step(s, Receive(e, source, datagram)).1 == Redirected
       <==> && e in s.flows && !ClaimedByIce(s, e, datagram.bytes)
            && ReachesUserspace(s, e, source, datagram.bytes, s.flows[e])
  {
    if e in s.flows && s.flows[e].Forward? && IsMedia(datagram.bytes) {
      AdmitIff(s, e, source, datagram.bytes, s.flows[e].rule);
    }
    hide Admit;
    hide PassesGates;
    hide Authenticated;
  }

  /** The datagram opens a stream for the latch: there is none yet, it has moved, or its key was not known. */
  predicate OpensStream(s: State, e: EndpointId, source: SocketAddr) {
    e in s.latched ==> s.latched[e].source != source || s.latched[e].ssrc.None?
  }

  /** What an endpoint without ICE has latched after an admitted datagram: its source, and the stream's key. */
  lemma LatchAfter(s: State, e: EndpointId, source: SocketAddr, datagram: Datagram, rule: ForwardRule)
    requires Lookup(s.flows, e) == Some(Forward(rule)) && e !in s.ice && IsMedia(datagram.bytes)
    requires rule.latch != Off && PassesGates(s, e, source, datagram.bytes, rule)
    ensures var t := Step(s, Receive(e, source, datagram)).0;
            && e in t.latched && t.latched[e].source == source
            && (!OpensStream(s, e, source) ==> t.latched[e] == s.latched[e])
            && (OpensStream(s, e, source) ==>
                  forall ssrc: nat :: t.latched[e].ssrc == Some(ssrc) <==> CarriesSsrc(datagram.bytes, ssrc))
  {
    AdmitIff(s, e, source, datagram.bytes, rule);
    forall ssrc: nat ensures RtpMediaSsrc(datagram.bytes) == Some(ssrc) <==> CarriesSsrc(datagram.bytes, ssrc) {
      SsrcIff(datagram.bytes, ssrc);
    }
    hide RtpMediaSsrc;
    hide CarriesSsrc;
    hide LatchAdmits;
    hide Authenticated;
  }

  /** The new rule on `at` leaves no reason to keep the latch of `e`. */
  predicate Outdates(s: State, at: EndpointId, rule: ForwardRule, e: EndpointId)
    requires e in s.latched
  {
    || (at == e && !rule.acceptedSource.Accepts(s.latched[e].source.ip))
    || (rule.outEndpoint == e && at in s.flows && s.flows[at].Forward? && s.flows[at].rule.outEndpoint == e
        && s.flows[at].rule.outDst.Some? && rule.outDst.Some? && s.flows[at].rule.outDst != rule.outDst)
  }

  /** Installing a flow forgets a latch exactly when a new Forward rule outdates it, and changes no other. */
  lemma ForgottenIff(s: State, at: EndpointId, action: FlowAction, e: EndpointId)
    requires e in s.latched
    ensures var t := Step(s, InstallFlow(at, action)).0;
            && (e !in t.latched <==> at in s.endpoints && action.Forward? && e !in s.ice
                                     && Outdates(s, at, action.rule, e))
            && (e in t.latched ==> t.latched[e] == s.latched[e])
  {
    hide SubnetContains;
  }

  // ---- A call that connects ---------------------------------------------------------------------------------

  /** One leg of a call: the endpoint, its rule towards the other leg, and the peer that sends to it. */
  datatype Leg = Leg(endpoint: EndpointId, rule: ForwardRule, peer: SocketAddr)

  /** The leg is set up towards `other`, and its gate admits its own peer. */
  predicate LeadsTo(leg: Leg, other: Leg) {
    && leg.endpoint != other.endpoint && leg.rule.outEndpoint == other.endpoint && leg.rule.outDst.Some?
    && leg.rule.acceptedSource.Accepts(leg.peer.ip)
  }

  /** The leg's rule is in place, without ICE, and nobody but its peer has been heard on it. */
  ghost predicate LegUp(s: State, leg: Leg, heard: bool) {
    && leg.endpoint in s.endpoints && leg.endpoint !in s.ice
    && Lookup(s.flows, leg.endpoint) == Some(Forward(leg.rule))
    && (leg.endpoint in s.latched <==> heard && leg.rule.latch != Off)
    && (leg.endpoint in s.latched ==> s.latched[leg.endpoint].source == leg.peer)
  }

  predicate FromPeer(event: Event, leg: Leg) {
    && event.Receive? && event.endpoint == leg.endpoint && event.source == leg.peer
    && IsMedia(event.datagram.bytes)
  }

  /** Media of the two peers only, in any order. */
  predicate CallTraffic(media: seq<Event>, a: Leg, b: Leg) {
    forall i :: 0 <= i < |media| ==> FromPeer(media[i], a) || FromPeer(media[i], b)
  }

  predicate HeardFrom(media: seq<Event>, leg: Leg) {
    exists i :: 0 <= i < |media| && FromPeer(media[i], leg)
  }

  lemma LegHears(s: State, leg: Leg, heard: bool, event: Event)
    requires LegUp(s, leg, heard) && leg.rule.acceptedSource.Accepts(leg.peer.ip) && FromPeer(event, leg)
    ensures LegUp(Step(s, event).0, leg, true)
  {
    AdmitIff(s, leg.endpoint, event.source, event.datagram.bytes, leg.rule);
    hide Admit;
    hide Authenticated;
  }

  lemma LegIgnores(s: State, leg: Leg, heard: bool, event: Event)
    requires LegUp(s, leg, heard) && event.Receive? && event.endpoint != leg.endpoint
    ensures LegUp(Step(s, event).0, leg, heard)
  {
    hide Authenticated;
    hide CarriesSsrc;
  }

  lemma {:induction false} LegStaysUp(s: State, media: seq<Event>, leg: Leg, other: Leg)
    requires LegUp(s, leg, false) && LeadsTo(leg, other) && CallTraffic(media, leg, other)
    ensures LegUp(Run(s, media), leg, HeardFrom(media, leg))
  {
    hide Step;
    hide LegUp;
    hide IsMedia;
    if |media| != 0 {
      var prefix, last := media[..|media| - 1], media[|media| - 1];
      LegStaysUp(s, prefix, leg, other);
      assert FromPeer(last, leg) || FromPeer(last, other);
      HeardStep(media, leg);
      if FromPeer(last, leg) {
        LegHears(Run(s, prefix), leg, HeardFrom(prefix, leg), last);
      } else {
        LegIgnores(Run(s, prefix), leg, HeardFrom(prefix, leg), last);
      }
    }
  }

  lemma HeardStep(media: seq<Event>, leg: Leg)
    requires |media| != 0
    ensures HeardFrom(media, leg)
       <==> HeardFrom(media[..|media| - 1], leg) || FromPeer(media[|media| - 1], leg)
  {
    hide FromPeer;
    var prefix := media[..|media| - 1];
    if i :| 0 <= i < |prefix| && FromPeer(prefix[i], leg) {
      assert FromPeer(media[i], leg);
    }
    if i :| 0 <= i < |media| && FromPeer(media[i], leg) && i < |prefix| {
      assert FromPeer(prefix[i], leg);
    }
  }

  /** Where a leg sends: to the other peer once that has been heard and may be latched, else as signalled. */
  ghost function SendsTo(media: seq<Event>, leg: Leg, other: Leg): SocketAddr
    requires leg.rule.outDst.Some?
  {
    if HeardFrom(media, other) && other.rule.latch != Off then other.peer else leg.rule.outDst.value
  }

  /**
   * A call connects. However the media of the two peers interleave, and whatever streams they carry, every
   * datagram goes out of the other leg to the other side, except for RTCP that the rule keeps.
   */
  lemma MediaReachesOtherSide(s: State, media: seq<Event>, leg: Leg, other: Leg, i: nat)
    requires LegUp(s, leg, false) && LegUp(s, other, false) && LeadsTo(leg, other) && LeadsTo(other, leg)
    requires CallTraffic(media, leg, other) && i < |media| && FromPeer(media[i], leg)
    ensures OutcomeAt(s, media, i)
         == if KeptForUserspace(leg.rule, media[i].datagram.bytes) then Redirected
            else Forwarded(other.endpoint, SendsTo(media[..i], leg, other))
  {
    hide Step;
    hide Run;
    hide IsMedia;
    hide IsControl;
    hide HeardFrom;
    LegStaysUp(s, media[..i], leg, other);
    LegStaysUp(s, media[..i], other, leg);
    var t, source, datagram := Run(s, media[..i]), media[i].source, media[i].datagram;
    RedirectedIff(t, leg.endpoint, source, datagram);
    ForwardedIff(t, leg.endpoint, source, datagram, leg.rule, other.endpoint, SendsTo(media[..i], leg, other));
    MediaIsNotStun(datagram.bytes);
  }

  lemma MediaIsNotStun(bytes: seq<Byte>)
    requires IsMedia(bytes)
    ensures |bytes| > 0 && bytes[0] > 3
  {
  }

  /** The calls that set up two new endpoints facing each other. */
  function CallSetup(a: Leg, b: Leg): seq<Event> {
    [Register, Register, InstallFlow(a.endpoint, Forward(a.rule)), InstallFlow(b.endpoint, Forward(b.rule))]
  }

  lemma SetupIsUp(a: Leg, b: Leg)
    requires a.endpoint == 0 && b.endpoint == 1
    ensures LegUp(Run(INITIAL, CallSetup(a, b)), a, false) && LegUp(Run(INITIAL, CallSetup(a, b)), b, false)
  {
    var run := CallSetup(a, b);
    assert run[..3] == [run[0], run[1], run[2]] && run[..3][..2] == [run[0], run[1]] && run[..3][..2][..1] == [run[0]];
    var one := Step(INITIAL, run[0]).0;
    assert Run(INITIAL, [run[0]]) == one;
    var two := Step(one, run[1]).0;
    assert Run(INITIAL, [run[0], run[1]]) == two;
    var three := Step(two, run[2]).0;
    assert Run(INITIAL, [run[0], run[1], run[2]]) == three;
    assert Run(INITIAL, run) == Step(three, run[3]).0;
  }

  /** From a new datapath: two registrations, two rules, and the call is connected both ways. */
  lemma NewCallConnects(media: seq<Event>, a: Leg, b: Leg, i: nat)
    requires a.endpoint == 0 && b.endpoint == 1 && LeadsTo(a, b) && LeadsTo(b, a)
    requires CallTraffic(media, a, b) && i < |media|
    ensures var (from, to) := if FromPeer(media[i], a) then (a, b) else (b, a);
            OutcomeAt(Run(INITIAL, CallSetup(a, b)), media, i)
            == if KeptForUserspace(from.rule, media[i].datagram.bytes) then Redirected
               else Forwarded(to.endpoint, SendsTo(media[..i], from, to))
  {
    hide Run;
    hide Step;
    hide LegUp;
    hide IsMedia;
    SetupIsUp(a, b);
    var s := Run(INITIAL, CallSetup(a, b));
    if FromPeer(media[i], a) {
      MediaReachesOtherSide(s, media, a, b, i);
    } else {
      MediaReachesOtherSide(s, media, b, a, i);
    }
  }
}
