/**
 * The flow, latch and ICE decisions of the UDP datapath, as a state machine on values
 * (`crates/siphon-rtp-datapath/src/{lib,udp}.rs`, `crates/siphon-rtp-ebpf-common/src/rewrite.rs`).
 * One received datagram or one control call is one atomic step.
 */
module Datapath {
  import opened Arithmetic
  import opened PowersOfTwo
  import opened Wrappers

  type Byte = b: nat | b < 256
  type EndpointId = nat

  datatype IpAddr = V4(bits: nat) | V6(bits: nat)
  datatype SocketAddr = SocketAddr(ip: IpAddr, port: nat)

  // ---- Source gate ------------------------------------------------------------------------------

  datatype SourceFilter = Exact(address: IpAddr) | Subnet(network: IpAddr, prefix: nat) | Any {
    predicate Accepts(source: IpAddr) {
      match this
      case Any => true
      case Exact(address) => address == source
      case Subnet(network, prefix) => SubnetContains(network, prefix, source)
    }
  }

  /** Equal under the prefix mask: the address bits above the host part agree. */
  predicate SubnetContains(network: IpAddr, prefix: nat, source: IpAddr) {
    match (network, source)
    case (V4(n), V4(s)) => var p := if prefix < 32 then prefix else 32; p == 0 || n / Pow2(32 - p) == s / Pow2(32 - p)
    case (V6(n), V6(s)) =>
      var p := if prefix < 128 then prefix else 128;
      p == 0 || n / Pow2(128 - p) == s / Pow2(128 - p)
    case _ => false
  }

  /** The number of leading bits compared, clamped to the width of the address. */
  function PrefixBits(prefix: nat, width: nat): (bits: nat)
    ensures bits <= width
  {
    if prefix < width then prefix else width
  }

  /**
   * A subnet admits exactly the block of addresses that starts at the network with its host bits cleared:
   * every address for prefix 0, the network alone from the full width on.
   */
  lemma SubnetIsBlock(network: nat, prefix: nat, source: nat)
    requires network < Pow2(32) && source < Pow2(32)
    ensures var size := Pow2(32 - PrefixBits(prefix, 32));
            var base := network / size * size;
            SubnetContains(V4(network), prefix, V4(source)) <==> base <= source < base + size
  {
    BlockOf(network, source, Pow2(32 - PrefixBits(prefix, 32)));
    QuotientBetween(network, Pow2(32), 0, 1);
    QuotientBetween(source, Pow2(32), 0, 1);
  }

  lemma SubnetIsBlock6(network: nat, prefix: nat, source: nat)
    requires network < Pow2(128) && source < Pow2(128)
    ensures var size := Pow2(128 - PrefixBits(prefix, 128));
            var base := network / size * size;
            SubnetContains(V6(network), prefix, V6(source)) <==> base <= source < base + size
  {
    BlockOf(network, source, Pow2(128 - PrefixBits(prefix, 128)));
    QuotientBetween(network, Pow2(128), 0, 1);
    QuotientBetween(source, Pow2(128), 0, 1);
  }

  /** Addresses of different families never match. */
  lemma FamiliesApart(network: nat, prefix: nat, source: nat)
    ensures !SubnetContains(V4(network), prefix, V6(source)) && !SubnetContains(V6(network), prefix, V4(source))
  {
  }

  lemma BlockOf(n: nat, s: nat, size: nat)
    requires size > 0
    ensures n / size == s / size <==> n / size * size <= s < n / size * size + size
  {
    var q := n / size;
    assert n == q * size + n % size;
    assert s == s / size * size + s % size;
    if q * size <= s < q * size + size {
      QuotientAndRest(q, size, s - q * size);
    }
  }

  predicate SignalledPeerMoved(previous: Option<SocketAddr>, next: Option<SocketAddr>) {
    previous.Some? && next.Some? && previous.value != next.value
  }

  // ---- Latch ------------------------------------------------------------------------------------

  datatype SourceLatch = SourceLatch(source: SocketAddr, ssrc: Option<nat>)

  datatype LatchVerdict = Keep | Learn(latch: SourceLatch) | Reject

  function SourceLatchVerdict(current: Option<SourceLatch>, source: SocketAddr, ssrc: Option<nat>): LatchVerdict {
    var learn := Learn(SourceLatch(source, ssrc));
    match current
    case None => learn
    case Some(latched) =>
      if latched.source == source then
        if latched.ssrc.None? && ssrc.Some? then learn else Keep
      else if latched.ssrc.Some? && latched.ssrc == ssrc then learn
      else Reject
  }

  datatype LatchPolicy = Off | SignalledOnly | Symmetric

  datatype ForwardRule = ForwardRule(
    outEndpoint: EndpointId,
    outDst: Option<SocketAddr>,
    acceptedSource: SourceFilter,
    latch: LatchPolicy,
    rtcpToUserspace: bool)

  datatype FlowAction = Forward(rule: ForwardRule) | Redirect | Drop

  // ---- Datagrams --------------------------------------------------------------------------------

  /** What the STUN parser reads off a datagram; `keys` are the passwords its integrity verifies under. */
  datatype StunMessage = StunMessage(
    bindingRequest: bool,
    username: Option<string>,
    keys: set<string>,
    useCandidate: bool,
    priority: Option<nat>)

  datatype Datagram = Datagram(bytes: seq<Byte>, stun: Option<StunMessage>)

  datatype PacketClass = Stun | Dtls | Media | Other

  function Classify(bytes: seq<Byte>): PacketClass {
    if |bytes| == 0 then Other
    else if bytes[0] <= 3 then Stun
    else if 20 <= bytes[0] <= 63 then Dtls
    else if 128 <= bytes[0] <= 191 then Media
    else Other
  }

  predicate IsRtcp(bytes: seq<Byte>) {
    Classify(bytes) == Media && |bytes| > 1 && 64 <= bytes[1] % 128 <= 95
  }

  function RtpMediaSsrc(bytes: seq<Byte>): Option<nat> {
    if |bytes| < 12 || bytes[0] / 64 != 2 || 64 <= bytes[1] % 128 <= 95 then None
    else Some(BigEndian(bytes[8], bytes[9], bytes[10], bytes[11]))
  }

  function BigEndian(b0: nat, b1: nat, b2: nat, b3: nat): nat {
    ((b0 * 256 + b1) * 256 + b2) * 256 + b3
  }

  // ---- ICE --------------------------------------------------------------------------------------

  datatype IceConfig = IceConfig(localUfrag: string, localPwd: string)

  datatype IceAgentMode = RespondAndForward | ForwardOnly

  datatype CheckOutcome = Ignore | Respond(nomination: Option<nat>)

  function BeforeColon(s: string): string {
    if |s| == 0 || s[0] == ':' then "" else [s[0]] + BeforeColon(s[1..])
  }

  predicate Authenticated(datagram: Datagram, ice: IceConfig) {
    && datagram.stun.Some?
    && datagram.stun.value.bindingRequest
    && datagram.stun.value.username.Some?
    && BeforeColon(datagram.stun.value.username.value) == ice.localUfrag
    && ice.localPwd in datagram.stun.value.keys
  }

  function RespondToStunCheck(datagram: Datagram, ice: IceConfig): CheckOutcome {
    if !Authenticated(datagram, ice) then Ignore
    else if datagram.stun.value.useCandidate then
      Respond(Some(if datagram.stun.value.priority.Some? then datagram.stun.value.priority.value else 0))
    else Respond(None)
  }

  predicate NominationSupersedes(current: Option<nat>, candidate: nat) {
    current.Some? ==> candidate >= current.value
  }

  // ---- State and steps ----------------------------------------------------------------------------

  datatype State = State(
    nextId: EndpointId,
    endpoints: set<EndpointId>,
    flows: map<EndpointId, FlowAction>,
    latched: map<EndpointId, SourceLatch>,
    ice: map<EndpointId, IceConfig>,
    nominated: map<EndpointId, nat>,
    forwardOnly: set<EndpointId>)

  const INITIAL := State(0, {}, map[], map[], map[], map[], {})

  /** Where a received datagram went. */
  datatype Outcome =
    | Dropped
    | Forwarded(via: EndpointId, destination: SocketAddr)
    | Redirected
    | Answered
    | HandedToAgent
    | Control

  datatype Event =
    | Register
    | Receive(endpoint: EndpointId, source: SocketAddr, datagram: Datagram)
    | InstallFlow(endpoint: EndpointId, action: FlowAction)
    | RemoveFlow(endpoint: EndpointId)
    | RemoveEndpoint(endpoint: EndpointId)
    | SetIce(endpoint: EndpointId, config: Option<IceConfig>)
    | SetIceAgent(endpoint: EndpointId, agentConfig: IceConfig, mode: IceAgentMode)
    | AdoptSource(endpoint: EndpointId, source: SocketAddr)

  function Lookup<T>(m: map<EndpointId, T>, e: EndpointId): Option<T> {
    if e in m then Some(m[e]) else None
  }

  datatype IceGateVerdict = NotIce | GateAccept | GateReject

  function IceGate(s: State, e: EndpointId, source: SocketAddr): IceGateVerdict {
    if e !in s.ice then NotIce
    else if e in s.latched && s.latched[e].source == source then GateAccept
    else GateReject
  }

  /** Layers 2 to 4 for a media datagram on a forwarding endpoint: the new state if it is admitted. */
  function Admit(s: State, e: EndpointId, source: SocketAddr, ssrc: Option<nat>, rule: ForwardRule): Option<State> {
    match IceGate(s, e, source)
    case GateReject => None
    case GateAccept => Some(s)
    case NotIce =>
      if !rule.acceptedSource.Accepts(source.ip) then None
      else if rule.latch == Off then Some(s)
      else match SourceLatchVerdict(Lookup(s.latched, e), source, ssrc)
        case Keep => Some(s)
        case Learn(latch) => Some(s.(latched := s.latched[e := latch]))
        case Reject => None
  }

  /** Where an admitted datagram goes: the peer's latched source before its signalled destination. */
  function Relay(s: State, rule: ForwardRule, bytes: seq<Byte>): Outcome {
    if rule.rtcpToUserspace && IsRtcp(bytes) then Redirected
    else if rule.outEndpoint !in s.endpoints then Dropped
    else if rule.outEndpoint in s.latched then Forwarded(rule.outEndpoint, s.latched[rule.outEndpoint].source)
    else if rule.outDst.Some? then Forwarded(rule.outEndpoint, rule.outDst.value)
    else Dropped
  }

  function Dispatch(s: State, e: EndpointId, source: SocketAddr, bytes: seq<Byte>): (State, Outcome) {
    if e !in s.flows then (s, Dropped)
    else match s.flows[e]
      case Forward(rule) =>
        if Classify(bytes) != Media then (s, Dropped)
        else (match Admit(s, e, source, RtpMediaSsrc(bytes), rule)
              case None => (s, Dropped)
              case Some(s') => (s', Relay(s', rule, bytes)))
      case Redirect => (s, if IceGate(s, e, source) == GateReject then Dropped else Redirected)
      case Drop => (s, Dropped)
  }

  function HandleStun(
      s: State, e: EndpointId, source: SocketAddr, datagram: Datagram, ice: IceConfig): (State, Outcome) {
    match RespondToStunCheck(datagram, ice)
    case Ignore => (s, Dropped)
    case Respond(nomination) =>
      if nomination.Some? && NominationSupersedes(Lookup(s.nominated, e), nomination.value) then
        (s.(nominated := s.nominated[e := nomination.value],
            latched := s.latched[e := SourceLatch(source, None)]), Answered)
      else (s, Answered)
  }

  function ReceiveOn(s: State, e: EndpointId, source: SocketAddr, datagram: Datagram): (State, Outcome) {
    if Classify(datagram.bytes) == Stun && e in s.forwardOnly then (s, HandedToAgent)
    else if Classify(datagram.bytes) == Stun && e in s.ice then HandleStun(s, e, source, datagram, s.ice[e])
    else Dispatch(s, e, source, datagram.bytes)
  }

  function ForgetStaleLatches(s: State, e: EndpointId, previous: Option<FlowAction>, rule: ForwardRule): State {
    var own :=
      if e !in s.ice && e in s.latched && !rule.acceptedSource.Accepts(s.latched[e].source.ip)
      then s.(latched := s.latched - {e}) else s;
    if previous.Some? && previous.value.Forward? && previous.value.rule.outEndpoint == rule.outEndpoint
       && SignalledPeerMoved(previous.value.rule.outDst, rule.outDst) && rule.outEndpoint !in s.ice
    then own.(latched := own.latched - {rule.outEndpoint})
    else own
  }

  function Install(s: State, e: EndpointId, action: FlowAction): State {
    if e !in s.endpoints then s
    else
      var s' := s.(flows := s.flows[e := action]);
      if action.Forward? then ForgetStaleLatches(s', e, Lookup(s.flows, e), action.rule) else s'
  }

  function SetCredentials(s: State, e: EndpointId, config: Option<IceConfig>): State {
    match config
    case Some(c) =>
      var restarted := e in s.ice && s.ice[e].localUfrag != c.localUfrag;
      s.(nominated := if restarted then s.nominated - {e} else s.nominated, ice := s.ice[e := c])
    case None =>
      s.(ice := s.ice - {e}, nominated := s.nominated - {e}, forwardOnly := s.forwardOnly - {e})
  }

  function Step(s: State, event: Event): (State, Outcome) {
    match event
    case Register => (s.(nextId := s.nextId + 1, endpoints := s.endpoints + {s.nextId}), Control)
    case Receive(e, source, datagram) => ReceiveOn(s, e, source, datagram)
    case InstallFlow(e, action) => (Install(s, e, action), Control)
    case RemoveFlow(e) => (s.(flows := s.flows - {e}), Control)
    case RemoveEndpoint(e) =>
      (s.(endpoints := s.endpoints - {e}, flows := s.flows - {e}, latched := s.latched - {e},
          ice := s.ice - {e}, nominated := s.nominated - {e}), Control)
    case SetIce(e, config) => (SetCredentials(s, e, config), Control)
    case SetIceAgent(e, c, mode) =>
      (s.(ice := s.ice[e := c],
          forwardOnly := if mode == ForwardOnly then s.forwardOnly + {e} else s.forwardOnly - {e}), Control)
    case AdoptSource(e, source) => (s.(latched := s.latched[e := SourceLatch(source, None)]), Control)
  }

  function Run(s: State, events: seq<Event>): State {
    if |events| == 0 then s else Step(Run(s, events[..|events| - 1]), events[|events| - 1]).0
  }

  /** The outcome of event `i` of a run. */
  function OutcomeAt(s: State, events: seq<Event>, i: nat): Outcome
    requires i < |events|
  {
    Step(Run(s, events[..i]), events[i]).1
  }
}
