/**
 * ICE path safety over whole runs. A `Trail` is what the events of a run say about one endpoint,
 * without looking at the datapath's state; the theorems tie the stored latch and priority to it.
 */
module IcePath {
  import opened Datapath
  import opened Wrappers

  datatype Nomination = Nomination(priority: nat, source: SocketAddr)

  /** Credentials, answering mode, the session's nominations (oldest first) and the media path. */
  datatype Trail = Trail(
    credentials: Option<IceConfig>,
    forwardOnly: bool,
    nominations: seq<Nomination>,
    path: Option<SocketAddr>)

  // ---- What a run says about one endpoint, from its events alone ----------------------------------

  /** The nomination an event makes on `e`: an authenticated check with USE-CANDIDATE. */
  ghost function NominationOf(trail: Trail, event: Event, e: EndpointId): Option<Nomination> {
    if event.Receive? && event.endpoint == e && Classify(event.datagram.bytes) == Stun
       && !trail.forwardOnly && trail.credentials.Some? then
      match RespondToStunCheck(event.datagram, trail.credentials.value)
      case Respond(Some(priority)) => Some(Nomination(priority, event.source))
      case _ => None
    else None
  }

  /** New credentials with another ufrag, or none at all, end the ICE session. */
  predicate EndsSession(trail: Trail, event: Event, e: EndpointId) {
    match event
    case SetIce(at, config) =>
      && at == e
      && (config.None? || (trail.credentials.Some? && trail.credentials.value.localUfrag != config.value.localUfrag))
    case RemoveEndpoint(at) => at == e
    case _ => false
  }

  ghost predicate OutranksAll(nominations: seq<Nomination>, priority: nat) {
    forall k :: 0 <= k < |nominations| ==> priority >= nominations[k].priority
  }

  ghost function TrailStep(trail: Trail, event: Event, e: EndpointId): Trail {
    var nomination := NominationOf(trail, event, e);
    if nomination.Some? then
      trail.(nominations := trail.nominations + [nomination.value],
             path := if OutranksAll(trail.nominations, nomination.value.priority) then Some(nomination.value.source)
                     else trail.path)
    else
      var kept := if EndsSession(trail, event, e) then trail.(nominations := []) else trail;
      match event
      case SetIce(at, config) =>
        if at != e then kept
        else kept.(credentials := config, forwardOnly := config.Some? && kept.forwardOnly)
      case SetIceAgent(at, config, mode) =>
        if at != e then kept else kept.(credentials := Some(config), forwardOnly := mode == ForwardOnly)
      case RemoveEndpoint(at) => if at != e then kept else kept.(credentials := None, path := None)
      case AdoptSource(at, source) => if at != e then kept else kept.(path := Some(source))
      case _ => kept
  }

  ghost function TrailAfter(trail: Trail, events: seq<Event>, e: EndpointId): Trail {
    if |events| == 0 then trail
    else TrailStep(TrailAfter(trail, events[..|events| - 1], e), events[|events| - 1], e)
  }

  predicate DropsCredentials(event: Event, e: EndpointId) {
    || (event.SetIce? && event.endpoint == e && event.config.None?)
    || (event.RemoveEndpoint? && event.endpoint == e)
  }

  predicate KeepsCredentials(events: seq<Event>, e: EndpointId) {
    forall i :: 0 <= i < |events| ==> !DropsCredentials(events[i], e)
  }

  // ---- The stored state follows the events ---------------------------------------------------------

  ghost function LatchSource(s: State, e: EndpointId): Option<SocketAddr> {
    if e in s.latched then Some(s.latched[e].source) else None
  }

  /** `stored` is the maximum of the session's nominated priorities, absent when there are none. */
  ghost predicate IsHighest(stored: Option<nat>, nominations: seq<Nomination>) {
    && (stored.None? <==> |nominations| == 0)
    && (stored.Some? ==> OutranksAll(nominations, stored.value))
    && (stored.Some? ==> exists k :: 0 <= k < |nominations| && nominations[k].priority == stored.value)
  }

  ghost predicate Tracks(s: State, trail: Trail, e: EndpointId) {
    && e in s.ice
    && trail.credentials == Some(s.ice[e])
    && (e in s.forwardOnly <==> trail.forwardOnly)
    && IsHighest(Lookup(s.nominated, e), trail.nominations)
    && LatchSource(s, e) == trail.path
  }

  lemma HighestGrows(stored: Option<nat>, nominations: seq<Nomination>, next: Nomination)
    requires IsHighest(stored, nominations)
    ensures NominationSupersedes(stored, next.priority) <==> OutranksAll(nominations, next.priority)
    ensures IsHighest(Some(if NominationSupersedes(stored, next.priority) then next.priority else stored.value),
                      nominations + [next])
  {
    var all := nominations + [next];
    assert all[|nominations|] == next;
    if !NominationSupersedes(stored, next.priority) {
      var k :| 0 <= k < |nominations| && nominations[k].priority == stored.value;
      assert all[k].priority == stored.value;
    }
  }

  /** A datagram handed to the flows never touches the latch of an ICE endpoint. */
  lemma DispatchKeepsIceLatch(s: State, at: EndpointId, source: SocketAddr, bytes: seq<Byte>, e: EndpointId)
    requires e in s.ice
    ensures var t := Dispatch(s, at, source, bytes).0;
            && t.ice == s.ice && t.nominated == s.nominated && t.forwardOnly == s.forwardOnly
            && LatchSource(t, e) == LatchSource(s, e)
  {
  }

  /** Nor does installing a flow, on this endpoint or towards it. */
  lemma InstallKeepsIceLatch(s: State, at: EndpointId, action: FlowAction, e: EndpointId)
    requires e in s.ice
    ensures var t := Install(s, at, action);
            && t.ice == s.ice && t.nominated == s.nominated && t.forwardOnly == s.forwardOnly
            && LatchSource(t, e) == LatchSource(s, e)
  {
  }

  lemma TracksReceive(s: State, trail: Trail, event: Event, e: EndpointId)
    requires Tracks(s, trail, e) && event.Receive?
    ensures Tracks(Step(s, event).0, TrailStep(trail, event, e), e)
  {
    hide Dispatch;
    hide IsHighest;
    hide OutranksAll;
    hide Authenticated;
    DispatchKeepsIceLatch(s, event.endpoint, event.source, event.datagram.bytes, e);
    var nomination := NominationOf(trail, event, e);
    if nomination.Some? {
      HighestGrows(Lookup(s.nominated, e), trail.nominations, nomination.value);
    }
  }

  lemma TracksControl(s: State, trail: Trail, event: Event, e: EndpointId)
    requires Tracks(s, trail, e) && !event.Receive? && !DropsCredentials(event, e)
    ensures Tracks(Step(s, event).0, TrailStep(trail, event, e), e)
  {
    hide Install;
    hide OutranksAll;
    if event.InstallFlow? { InstallKeepsIceLatch(s, event.endpoint, event.action, e); }
  }

  /** Along every run that keeps the credentials, latch and priority are what the events say. */
  lemma {:induction false} RunTracks(s: State, trail: Trail, events: seq<Event>, e: EndpointId)
    requires Tracks(s, trail, e) && KeepsCredentials(events, e)
    ensures Tracks(Run(s, events), TrailAfter(trail, events, e), e)
  {
    hide Step;
    hide TrailStep;
    hide Tracks;
    if |events| != 0 {
      var prefix, last := events[..|events| - 1], events[|events| - 1];
      RunTracks(s, trail, prefix, e);
      assert !DropsCredentials(last, e);
      if last.Receive? {
        TracksReceive(Run(s, prefix), TrailAfter(trail, prefix, e), last, e);
      } else {
        TracksControl(Run(s, prefix), TrailAfter(trail, prefix, e), last, e);
      }
    }
  }

  // ---- Path safety -----------------------------------------------------------------------------------

  /** Priorities are stored only for endpoints that carry credentials, in every reachable state. */
  lemma {:induction false} PrioritiesNeedCredentials(events: seq<Event>)
    ensures Run(INITIAL, events).nominated.Keys <= Run(INITIAL, events).ice.Keys
  {
    if |events| != 0 {
      PrioritiesNeedCredentials(events[..|events| - 1]);
      StepKeepsPriorities(Run(INITIAL, events[..|events| - 1]), events[|events| - 1]);
    }
  }

  lemma StepKeepsPriorities(s: State, event: Event)
    requires s.nominated.Keys <= s.ice.Keys
    ensures Step(s, event).0.nominated.Keys <= Step(s, event).0.ice.Keys
  {
  }

  predicate GivesCredentials(event: Event, e: EndpointId) {
    || (event.SetIce? && event.endpoint == e && event.config.Some?)
    || (event.SetIceAgent? && event.endpoint == e)
  }

  /** The trail of an endpoint that has just been given credentials and has no path yet. */
  ghost function FreshTrail(s: State, e: EndpointId): Trail {
    Trail(Lookup(s.ice, e), e in s.forwardOnly, [], None)
  }

  lemma GateFollowsLatch(s: State, event: Event)
    requires event.Receive? && event.endpoint in s.ice
    ensures Step(s, event).1.Forwarded? || Step(s, event).1.Redirected?
        ==> LatchSource(s, event.endpoint) == Some(event.source)
  {
  }

  /**
   * Path safety. Take any run to a state where `e` carries no credentials and no latch, give it
   * credentials, and let any events follow that do not take them away. Every datagram that the
   * datapath forwards or redirects from `e` then came from the source of the latest adoption or
   * superseding nomination; before the first of these nothing is delivered.
   */
  lemma IcePathSafety(before: seq<Event>, give: Event, after: seq<Event>, e: EndpointId, i: nat)
    requires e !in Run(INITIAL, before).ice && e !in Run(INITIAL, before).latched
    requires GivesCredentials(give, e) && KeepsCredentials(after, e)
    requires i < |after| && after[i].Receive? && after[i].endpoint == e
    ensures var s := Step(Run(INITIAL, before), give).0;
            var path := TrailAfter(FreshTrail(s, e), after[..i], e).path;
            OutcomeAt(s, after, i).Forwarded? || OutcomeAt(s, after, i).Redirected? ==> path == Some(after[i].source)
  {
    hide Dispatch;
    hide Run;
    hide TrailAfter;
    var s := Step(Run(INITIAL, before), give).0;
    PrioritiesNeedCredentials(before);
    assert Tracks(s, FreshTrail(s, e), e);
    RunTracks(s, FreshTrail(s, e), after[..i], e);
    GateFollowsLatch(Run(s, after[..i]), after[i]);
  }

  /** Delivery without an adopted or nominated source: what the theorem above excludes. */
  ghost predicate Leaks(s: State, after: seq<Event>, e: EndpointId, i: nat) {
    && KeepsCredentials(after, e) && i < |after| && after[i].Receive? && after[i].endpoint == e
    && (OutcomeAt(s, after, i).Forwarded? || OutcomeAt(s, after, i).Redirected?)
    && TrailAfter(FreshTrail(s, e), after[..i], e).path != Some(after[i].source)
  }

  /** The condition is exact: on a registered endpoint, an earlier media latch lets its source through. */
  lemma EarlierLatchLeaks(s: State, give: Event, e: EndpointId)
    requires e in s.endpoints && e !in s.ice && GivesCredentials(give, e)
    requires e in s.latched
    ensures exists after: seq<Event>, i: nat :: Leaks(Step(s, give).0, after, e, i)
  {
    var t := Step(s, give).0;
    var dtls := Datagram([20], None);
    var install := InstallFlow(e, Redirect);
    var after := [install, Receive(e, s.latched[e].source, dtls)];
    assert after[..1] == [install] && [install][..0] == [];
    assert Run(t, [install]) == Step(t, install).0;
    assert TrailAfter(FreshTrail(t, e), [install], e) == TrailStep(FreshTrail(t, e), install, e);
    assert Leaks(t, after, e, 1);
  }

  /**
   * Path safety, exactly: in any reachable state, an endpoint that is given credentials delivers only over
   * its adopted or nominated path if and only if it had no latch.
   */
  lemma PathSafeIff(before: seq<Event>, give: Event, e: EndpointId)
    requires e in Run(INITIAL, before).endpoints && e !in Run(INITIAL, before).ice && GivesCredentials(give, e)
    ensures (forall after: seq<Event>, i: nat :: !Leaks(Step(Run(INITIAL, before), give).0, after, e, i))
       <==> e !in Run(INITIAL, before).latched
  {
    hide Step;
    hide TrailAfter;
    var s := Run(INITIAL, before);
    var t := Step(s, give).0;
    if e in s.latched {
      EarlierLatchLeaks(s, give, e);
    } else {
      forall after: seq<Event>, i: nat ensures !Leaks(t, after, e, i) {
        if KeepsCredentials(after, e) && i < |after| && after[i].Receive? && after[i].endpoint == e {
          IcePathSafety(before, give, after, e, i);
        }
      }
    }
  }

  const OPEN_RULE := ForwardRule(0, None, Any, Symmetric, false)

  /** A call set up with an open gate, and one media datagram. */
  function OpenCall(source: SocketAddr): seq<Event> {
    [Register, InstallFlow(0, Forward(OPEN_RULE)), Receive(0, source, Datagram([128], None))]
  }

  lemma OpenCallLatches(source: SocketAddr)
    ensures var s := Run(INITIAL, OpenCall(source));
            s.endpoints == {0} && s.ice == map[] && LatchSource(s, 0) == Some(source)
  {
    var run := OpenCall(source);
    assert run[..2] == [run[0], run[1]] && run[..2][..1] == [run[0]] && [run[0]][..0] == [];
    var first := Step(INITIAL, run[0]).0;
    assert Run(INITIAL, [run[0]]) == first;
    var second := Step(first, run[1]).0;
    assert Run(INITIAL, [run[0], run[1]]) == second;
  }

  /** Such a latch is easily had, and the condition is not idle: this run leaks once credentials arrive. */
  lemma EarlierLatchIsReached(source: SocketAddr, give: Event)
    requires GivesCredentials(give, 0)
    ensures exists after: seq<Event>, i: nat :: Leaks(Step(Run(INITIAL, OpenCall(source)), give).0, after, 0, i)
  {
    OpenCallLatches(source);
    EarlierLatchLeaks(Run(INITIAL, OpenCall(source)), give, 0);
  }

  // ---- Who opens the path ----------------------------------------------------------------------------

  /** The source an event makes the media path of `e`, if it does: an adoption or a superseding nomination. */
  ghost function PathSetBy(trail: Trail, event: Event, e: EndpointId): Option<SocketAddr> {
    var nomination := NominationOf(trail, event, e);
    if event.AdoptSource? && event.endpoint == e then Some(event.source)
    else if nomination.Some? && OutranksAll(trail.nominations, nomination.value.priority)
    then Some(nomination.value.source)
    else None
  }

  lemma PathStep(trail: Trail, event: Event, e: EndpointId)
    requires !DropsCredentials(event, e)
    ensures var setTo := PathSetBy(trail, event, e);
            TrailStep(trail, event, e).path == if setTo.Some? then setTo else trail.path
  {
    hide OutranksAll;
    hide RespondToStunCheck;
  }

  /** Event `j` set the path to `source` and no later event set it again. */
  ghost predicate LatestSetter(trail: Trail, events: seq<Event>, e: EndpointId, source: SocketAddr, j: nat) {
    && j < |events|
    && PathSetBy(TrailAfter(trail, events[..j], e), events[j], e) == Some(source)
    && forall k :: j < k < |events| ==> PathSetBy(TrailAfter(trail, events[..k], e), events[k], e).None?
  }

  lemma LatestSetterExtends(trail: Trail, events: seq<Event>, last: Event, e: EndpointId, source: SocketAddr, j: nat)
    requires LatestSetter(trail, events, e, source, j)
    requires PathSetBy(TrailAfter(trail, events, e), last, e).None?
    ensures LatestSetter(trail, events + [last], e, source, j)
  {
    hide PathSetBy;
    hide TrailAfter;
    var all := events + [last];
    assert forall k :: 0 <= k <= |events| ==> all[..k] == events[..k];
    assert events[..|events|] == events;
  }

  /** The path is always the work of the latest event that set one; without such an event there is none. */
  lemma {:induction false} PathHasLatestSetter(trail: Trail, events: seq<Event>, e: EndpointId)
    requires trail.path.None? && KeepsCredentials(events, e)
    ensures var path := TrailAfter(trail, events, e).path;
            path.Some? ==> exists j: nat :: LatestSetter(trail, events, e, path.value, j)
  {
    hide TrailStep;
    hide PathSetBy;
    hide LatestSetter;
    if |events| != 0 {
      var prefix, last := events[..|events| - 1], events[|events| - 1];
      assert events == prefix + [last];
      PathHasLatestSetter(trail, prefix, e);
      var before := TrailAfter(trail, prefix, e);
      PathStep(before, last, e);
      if PathSetBy(before, last, e).Some? {
        LastIsSetter(trail, prefix, last, e);
      } else if before.path.Some? {
        var j: nat :| LatestSetter(trail, prefix, e, before.path.value, j);
        LatestSetterExtends(trail, prefix, last, e, before.path.value, j);
      }
    }
  }

  lemma LastIsSetter(trail: Trail, events: seq<Event>, last: Event, e: EndpointId)
    requires PathSetBy(TrailAfter(trail, events, e), last, e).Some?
    ensures LatestSetter(trail, events + [last], e, PathSetBy(TrailAfter(trail, events, e), last, e).value, |events|)
  {
    hide PathSetBy;
    hide TrailAfter;
    assert (events + [last])[..|events|] == events;
  }

  predicate Adopts(event: Event, e: EndpointId) {
    event.AdoptSource? && event.endpoint == e
  }

  ghost function LastAdopted(events: seq<Event>, e: EndpointId): Option<SocketAddr> {
    if |events| == 0 then None
    else if Adopts(events[|events| - 1], e) then Some(events[|events| - 1].source)
    else LastAdopted(events[..|events| - 1], e)
  }

  predicate StartsResponder(event: Event, e: EndpointId) {
    event.SetIceAgent? && event.endpoint == e && event.mode == RespondAndForward
  }

  /** On a forward-only endpoint the engine's adoptions are the only thing that opens the path. */
  lemma {:induction false} ForwardOnlyOpensByAdoption(trail: Trail, events: seq<Event>, e: EndpointId)
    requires trail.forwardOnly && trail.path.None? && |trail.nominations| == 0
    requires KeepsCredentials(events, e)
    requires forall i :: 0 <= i < |events| ==> !StartsResponder(events[i], e)
    ensures var after := TrailAfter(trail, events, e);
            after.forwardOnly && |after.nominations| == 0 && after.path == LastAdopted(events, e)
  {
    hide RespondToStunCheck;
    if |events| != 0 {
      ForwardOnlyOpensByAdoption(trail, events[..|events| - 1], e);
      assert !DropsCredentials(events[|events| - 1], e) && !StartsResponder(events[|events| - 1], e);
    }
  }

  /**
   * Forward-only safety on what is delivered: give a fresh endpoint credentials in forward-only mode and
   * never turn the responder on. Whatever is then forwarded or redirected from it came from the source
   * of the latest `adopt_source`, so before the first one nothing is.
   */
  lemma ForwardOnlyDelivers(before: seq<Event>, config: IceConfig, after: seq<Event>, e: EndpointId, i: nat)
    requires e !in Run(INITIAL, before).ice && e !in Run(INITIAL, before).latched
    requires KeepsCredentials(after, e) && forall k :: 0 <= k < |after| ==> !StartsResponder(after[k], e)
    requires i < |after| && after[i].Receive? && after[i].endpoint == e
    ensures var s := Step(Run(INITIAL, before), SetIceAgent(e, config, ForwardOnly)).0;
            OutcomeAt(s, after, i).Forwarded? || OutcomeAt(s, after, i).Redirected?
            ==> LastAdopted(after[..i], e) == Some(after[i].source)
  {
    hide Run;
    var give := SetIceAgent(e, config, ForwardOnly);
    IcePathSafety(before, give, after, e, i);
    ForwardOnlyOpensByAdoption(FreshTrail(Step(Run(INITIAL, before), give).0, e), after[..i], e);
  }

  // ---- Whole runs, from the first event ------------------------------------------------------------------

  /** Event `g` of a run gives `e` credentials while it has neither credentials nor a latch, and it keeps them. */
  ghost predicate GuardedFrom(events: seq<Event>, e: EndpointId, g: nat) {
    && g < |events|
    && e !in Run(INITIAL, events[..g]).ice && e !in Run(INITIAL, events[..g]).latched
    && GivesCredentials(events[g], e) && KeepsCredentials(events[g + 1..], e)
  }

  /** The media path the events between `g` and `i` set, by nomination or adoption. */
  ghost function PathBetween(events: seq<Event>, e: EndpointId, g: nat, i: nat): Option<SocketAddr>
    requires g < i <= |events|
  {
    TrailAfter(FreshTrail(Run(INITIAL, events[..g + 1]), e), events[g + 1..i], e).path
  }

  predicate Delivered(outcome: Outcome) {
    outcome.Forwarded? || outcome.Redirected?
  }

  lemma {:induction false} RunSplits(s: State, events: seq<Event>, k: nat, i: nat)
    requires k <= i <= |events|
    ensures Run(s, events[..i]) == Run(Run(s, events[..k]), events[k..i])
    decreases i
  {
    hide Step;
    if i == k {
      assert events[k..i] == [];
    } else {
      RunSplits(s, events, k, i - 1);
      assert events[..i][..i - 1] == events[..i - 1] && events[k..i][..i - 1 - k] == events[k..i - 1];
    }
  }

  /** Path safety as one statement about a run from the initial state. */
  lemma GuardedRunIsSafe(events: seq<Event>, e: EndpointId, g: nat, i: nat)
    requires GuardedFrom(events, e, g) && g < i < |events|
    requires events[i].Receive? && events[i].endpoint == e && Delivered(OutcomeAt(INITIAL, events, i))
    ensures PathBetween(events, e, g, i) == Some(events[i].source)
  {
    hide Step;
    hide TrailAfter;
    hide FreshTrail;
    var before, after := events[..g], events[g + 1..];
    var k := i - g - 1;
    assert events[..g + 1][..g] == before;
    assert after[..k] == events[g + 1..i] && after[k] == events[i];
    RunSplits(INITIAL, events, g + 1, i);
    IcePathSafety(before, events[g], after, e, k);
  }

  // ---- Nomination order and restarts -------------------------------------------------------------------

  /** `path` is the source of the last nomination that attains the highest priority. */
  ghost predicate SelectedBy(nominations: seq<Nomination>, path: Option<SocketAddr>, k: nat) {
    && k < |nominations|
    && path == Some(nominations[k].source)
    && OutranksAll(nominations, nominations[k].priority)
    && forall j :: k < j < |nominations| ==> nominations[j].priority < nominations[k].priority
  }

  lemma SelectionGrows(
      nominations: seq<Nomination>, path: Option<SocketAddr>, next: Nomination, moved: Option<SocketAddr>)
    requires |nominations| > 0 ==> exists k: nat :: SelectedBy(nominations, path, k)
    requires moved == if OutranksAll(nominations, next.priority) then Some(next.source) else path
    ensures exists k: nat :: SelectedBy(nominations + [next], moved, k)
  {
    var n, all := |nominations|, nominations + [next];
    if OutranksAll(nominations, next.priority) {
      assert SelectedBy(all, moved, n);
    } else {
      var k: nat :| SelectedBy(nominations, path, k);
      assert SelectedBy(all, moved, k);
    }
  }

  lemma {:induction false} TrailSelectsHighest(trail: Trail, events: seq<Event>, e: EndpointId)
    requires |trail.nominations| == 0 && KeepsCredentials(events, e)
    requires forall i :: 0 <= i < |events| ==> !Adopts(events[i], e)
    ensures var after := TrailAfter(trail, events, e);
            |after.nominations| > 0 ==> exists k: nat :: SelectedBy(after.nominations, after.path, k)
  {
    hide OutranksAll;
    hide SelectedBy;
    hide RespondToStunCheck;
    if |events| != 0 {
      var prefix, last := events[..|events| - 1], events[|events| - 1];
      TrailSelectsHighest(trail, prefix, e);
      assert !DropsCredentials(last, e) && !Adopts(last, e);
      var before := TrailAfter(trail, prefix, e);
      var nomination := NominationOf(before, last, e);
      if nomination.Some? {
        SelectionGrows(before.nominations, before.path, nomination.value, TrailStep(before, last, e).path);
      }
    }
  }

  /**
   * Among the nominating checks of an ICE session the stored priority is the maximum and the media
   * path is the source of the last check that attains it, whatever else happens in the run.
   */
  lemma SessionSelectsHighest(s: State, events: seq<Event>, e: EndpointId)
    requires e in s.ice && e !in s.nominated && KeepsCredentials(events, e)
    requires forall i :: 0 <= i < |events| ==> !Adopts(events[i], e)
    ensures var t := Run(s, events);
            var nominations := TrailAfter(FreshTrail(s, e).(path := LatchSource(s, e)), events, e).nominations;
            && IsHighest(Lookup(t.nominated, e), nominations)
            && (|nominations| > 0 ==> exists k: nat :: SelectedBy(nominations, LatchSource(t, e), k))
  {
    hide Run;
    hide TrailAfter;
    hide SelectedBy;
    var trail := FreshTrail(s, e).(path := LatchSource(s, e));
    RunTracks(s, trail, events, e);
    TrailSelectsHighest(trail, events, e);
  }

  /** No adoption and no nomination at position `i` of the run. */
  ghost predicate Quiet(trail: Trail, events: seq<Event>, e: EndpointId, i: nat)
    requires i < |events|
  {
    !Adopts(events[i], e) && NominationOf(TrailAfter(trail, events[..i], e), events[i], e).None?
  }

  lemma {:induction false} PathWaitsForNomination(trail: Trail, events: seq<Event>, e: EndpointId)
    requires KeepsCredentials(events, e)
    requires forall i: nat :: i < |events| ==> Quiet(trail, events, e, i)
    ensures TrailAfter(trail, events, e).path == trail.path
  {
    hide RespondToStunCheck;
    if |events| != 0 {
      var prefix, last := events[..|events| - 1], events[|events| - 1];
      forall i: nat | i < |prefix| ensures Quiet(trail, prefix, e, i) {
        assert Quiet(trail, events, e, i) && prefix[..i] == events[..i];
      }
      PathWaitsForNomination(trail, prefix, e);
      assert Quiet(trail, events, e, |prefix|) && !DropsCredentials(last, e);
    }
  }

  /** A restart clears the priority at once and keeps the path until the new session nominates one. */
  lemma RestartKeepsPath(s: State, renewed: IceConfig, events: seq<Event>, e: EndpointId)
    requires e in s.ice && s.ice[e].localUfrag != renewed.localUfrag && KeepsCredentials(events, e)
    requires var t := Step(s, SetIce(e, Some(renewed))).0;
             forall i: nat :: i < |events| ==> Quiet(FreshTrail(t, e).(path := LatchSource(t, e)), events, e, i)
    ensures e !in Step(s, SetIce(e, Some(renewed))).0.nominated
    ensures LatchSource(Run(Step(s, SetIce(e, Some(renewed))).0, events), e) == LatchSource(s, e)
  {
    hide Run;
    hide TrailAfter;
    hide Quiet;
    var t := Step(s, SetIce(e, Some(renewed))).0;
    var trail := FreshTrail(t, e).(path := LatchSource(t, e));
    RunTracks(t, trail, events, e);
    PathWaitsForNomination(trail, events, e);
  }
}
