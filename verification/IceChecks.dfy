/**
 * What a peer has to show to take over the media path of an ICE endpoint, read off the raw fields of its
 * datagrams (`crates/siphon-rtp-datapath/src/lib.rs` and `udp.rs`): a STUN binding request that names the
 * endpoint's user fragment, is signed with its password and asks for the pair.
 */
module IceChecks {
  import opened Datapath
  import opened IcePath
  import opened Wrappers

  // ---- The raw fields ---------------------------------------------------------------------------------

  /** The part of a username before its first colon is `ufrag`. */
  predicate NamesUser(username: string, ufrag: string) {
    ':' !in ufrag && (username == ufrag || ufrag + ":" <= username)
  }

  /** A binding request for this user, signed with this password. */
  predicate ProvesCredentials(datagram: Datagram, ice: IceConfig) {
    && datagram.stun.Some?
    && datagram.stun.value.bindingRequest
    && datagram.stun.value.username.Some?
    && NamesUser(datagram.stun.value.username.value, ice.localUfrag)
    && ice.localPwd in datagram.stun.value.keys
  }

  predicate AsksForPair(datagram: Datagram, ice: IceConfig) {
    ProvesCredentials(datagram, ice) && datagram.stun.value.useCandidate
  }

  function ClaimedPriority(datagram: Datagram): nat
    requires datagram.stun.Some?
  {
    if datagram.stun.value.priority.Some? then datagram.stun.value.priority.value else 0
  }

  predicate LooksLikeStun(bytes: seq<Byte>) {
    |bytes| > 0 && bytes[0] <= 3
  }

  lemma FirstLetters(username: string, ufrag: string)
    requires NamesUser(username, ufrag)
    ensures |ufrag| > 0 ==> |username| > 0 && username[0] == ufrag[0] != ':'
    ensures |ufrag| == 0 ==> |username| == 0 || username[0] == ':'
  {
    if username != ufrag {
      assert username[0] == (ufrag + ":")[0];
    }
  }

  lemma {:induction false} BeforeColonIff(username: string, ufrag: string)
    ensures BeforeColon(username) == ufrag <==> NamesUser(username, ufrag)
  {
    if NamesUser(username, ufrag) { FirstLetters(username, ufrag); }
    if |username| > 0 && username[0] != ':' && |ufrag| > 0 {
      assert username == [username[0]] + username[1..] && ufrag == [ufrag[0]] + ufrag[1..];
      BeforeColonIff(username[1..], ufrag[1..]);
      NamesUserStep(username, ufrag);
    }
  }

  lemma NamesUserStep(username: string, ufrag: string)
    requires |username| > 0 && |ufrag| > 0 && username[0] != ':'
    ensures NamesUser(username, ufrag) <==> username[0] == ufrag[0] && NamesUser(username[1..], ufrag[1..])
  {
    var name, frag := username[1..], ufrag[1..];
    assert username == [username[0]] + name && ufrag == [ufrag[0]] + frag;
    assert ufrag + ":" == [ufrag[0]] + (frag + ":");
    if NamesUser(username, ufrag) && username != ufrag {
      assert (ufrag + ":")[1..] == frag + ":" && (ufrag + ":")[1..] <= username[1..];
    }
    if username[0] == ufrag[0] && frag + ":" <= name {
      assert ufrag + ":" <= username;
    }
  }

  // ---- One check --------------------------------------------------------------------------------------

  lemma AuthenticatedIff(datagram: Datagram, ice: IceConfig)
    ensures Authenticated(datagram, ice) <==> ProvesCredentials(datagram, ice)
  {
    if datagram.stun.Some? && datagram.stun.value.username.Some? {
      BeforeColonIff(datagram.stun.value.username.value, ice.localUfrag);
    }
  }

  /** The nomination a STUN datagram makes on an endpoint in a state, from its raw fields. */
  ghost predicate TakesPath(s: State, e: EndpointId, datagram: Datagram) {
    && LooksLikeStun(datagram.bytes) && e in s.ice && e !in s.forwardOnly
    && AsksForPair(datagram, s.ice[e])
    && (e in s.nominated ==> ClaimedPriority(datagram) >= s.nominated[e])
  }

  /**
   * A STUN datagram on an endpoint with credentials: answered exactly when it proves them, handed to the
   * agent where one is in charge, and the path moves exactly when the check asks for it with a priority no
   * lower than the stored one.
   */
  lemma CheckOnEndpoint(s: State, e: EndpointId, source: SocketAddr, datagram: Datagram)
    requires e in s.ice && LooksLikeStun(datagram.bytes)
    ensures var (t, outcome) := Step(s, Receive(e, source, datagram));
            && (e in s.forwardOnly ==> outcome == HandedToAgent)
            && (e !in s.forwardOnly ==> outcome == if ProvesCredentials(datagram, s.ice[e]) then Answered else Dropped)
            && t == if TakesPath(s, e, datagram)
                    then s.(nominated := s.nominated[e := ClaimedPriority(datagram)],
                            latched := s.latched[e := SourceLatch(source, None)])
                    else s
  {
    AuthenticatedIff(datagram, s.ice[e]);
    hide Authenticated;
    hide ProvesCredentials;
  }

  /**
   * In every run, a received datagram that moves the latch or the stored priority of an endpoint with
   * credentials arrived there, proved them and asked for the pair; it then leaves its own source and priority.
   */
  lemma OnlyProvenChecksMove(events: seq<Event>, e: EndpointId, i: nat)
    requires i < |events| && events[i].Receive? && e in Run(INITIAL, events[..i]).ice
    ensures var s, t := Run(INITIAL, events[..i]), Run(INITIAL, events[..i + 1]);
            var datagram := events[i].datagram;
            Lookup(s.latched, e) != Lookup(t.latched, e) || Lookup(s.nominated, e) != Lookup(t.nominated, e) ==>
              && events[i].endpoint == e && LooksLikeStun(datagram.bytes) && e !in s.forwardOnly
              && AsksForPair(datagram, s.ice[e])
              && Lookup(t.latched, e) == Some(SourceLatch(events[i].source, None))
              && Lookup(t.nominated, e) == Some(ClaimedPriority(datagram))
  {
    var s := Run(INITIAL, events[..i]);
    assert events[..i + 1][..i] == events[..i] && events[..i + 1][i] == events[i];
    hide Run;
    if LooksLikeStun(events[i].datagram.bytes) && events[i].endpoint in s.ice {
      CheckOnEndpoint(s, events[i].endpoint, events[i].source, events[i].datagram);
      hide Step;
    } else {
      OtherDatagramsKeep(s, events[i], e);
    }
  }

  lemma OtherDatagramsKeep(s: State, event: Event, e: EndpointId)
    requires event.Receive? && e in s.ice
    requires !(LooksLikeStun(event.datagram.bytes) && event.endpoint in s.ice)
    ensures var t := Step(s, event).0;
            Lookup(s.latched, e) == Lookup(t.latched, e) && Lookup(s.nominated, e) == Lookup(t.nominated, e)
  {
  }

  // ---- The path of a run --------------------------------------------------------------------------------

  /** The event makes `source` the media path of `e` in this state: an adoption, or a check that takes it. */
  ghost predicate SetsPath(s: State, event: Event, e: EndpointId, source: SocketAddr) {
    || event == AdoptSource(e, source)
    || (event.Receive? && event.endpoint == e && event.source == source && TakesPath(s, e, event.datagram))
  }

  lemma SetsPathIff(s: State, trail: Trail, event: Event, e: EndpointId, source: SocketAddr)
    requires Tracks(s, trail, e)
    ensures PathSetBy(trail, event, e) == Some(source) <==> SetsPath(s, event, e, source)
  {
    hide IsHighest;
    hide OutranksAll;
    hide Authenticated;
    hide ProvesCredentials;
    if event.Receive? {
      AuthenticatedIff(event.datagram, s.ice[e]);
      var nomination := NominationOf(trail, event, e);
      if nomination.Some? {
        HighestGrows(Lookup(s.nominated, e), trail.nominations, nomination.value);
      }
    }
  }

  /** Event `j` set the path to `source`, and no event from there to `i` set one again. */
  ghost predicate LastToSet(s: State, events: seq<Event>, e: EndpointId, source: SocketAddr, j: nat, i: nat) {
    && j < i <= |events|
    && SetsPath(Run(s, events[..j]), events[j], e, source)
    && forall k, other :: j < k < i ==> !SetsPath(Run(s, events[..k]), events[k], e, other)
  }

  /**
   * Path safety on raw datagrams. Give credentials to an endpoint without a latch, in any reachable state,
   * and let any events follow that do not take them away. Every datagram then delivered from the endpoint
   * comes from the source of the latest adoption or of the latest check that proved the credentials in
   * force, asked for the pair and did not lose on priority; without one nothing is delivered.
   */
  lemma DeliveredOverProvenPath(before: seq<Event>, give: Event, after: seq<Event>, e: EndpointId, i: nat)
    requires e !in Run(INITIAL, before).ice && e !in Run(INITIAL, before).latched
    requires GivesCredentials(give, e) && KeepsCredentials(after, e)
    requires i < |after| && after[i].Receive? && after[i].endpoint == e
    ensures var s := Step(Run(INITIAL, before), give).0;
            Delivered(OutcomeAt(s, after, i)) ==> exists j: nat :: LastToSet(s, after, e, after[i].source, j, i)
  {
    var s := Step(Run(INITIAL, before), give).0;
    var trail := FreshTrail(s, e);
    if Delivered(OutcomeAt(s, after, i)) {
      IcePathSafety(before, give, after, e, i);
      PathHasLatestSetter(trail, after[..i], e);
      var j: nat :| LatestSetter(trail, after[..i], e, after[i].source, j);
      PrioritiesNeedCredentials(before);
      FreshTracks(before, give, e);
      LatestIsLast(s, trail, after, e, after[i].source, j, i);
    }
  }

  lemma FreshTracks(before: seq<Event>, give: Event, e: EndpointId)
    requires e !in Run(INITIAL, before).ice && e !in Run(INITIAL, before).latched && GivesCredentials(give, e)
    ensures var s := Step(Run(INITIAL, before), give).0; Tracks(s, FreshTrail(s, e), e)
  {
    hide Run;
    PrioritiesNeedCredentials(before);
  }

  lemma LatestIsLast(
      s: State, trail: Trail, events: seq<Event>, e: EndpointId, source: SocketAddr, j: nat, i: nat)
    requires Tracks(s, trail, e) && KeepsCredentials(events, e) && i <= |events|
    requires LatestSetter(trail, events[..i], e, source, j)
    ensures LastToSet(s, events, e, source, j, i)
  {
    hide Tracks;
    hide PathSetBy;
    hide SetsPath;
    hide Run;
    hide TrailAfter;
    SetterAt(s, trail, events, e, source, j, i);
    forall k: nat, other | j < k < i ensures !SetsPath(Run(s, events[..k]), events[k], e, other) {
      SetterAt(s, trail, events, e, other, k, i);
    }
  }

  lemma SetterAt(s: State, trail: Trail, events: seq<Event>, e: EndpointId, source: SocketAddr, k: nat, i: nat)
    requires Tracks(s, trail, e) && KeepsCredentials(events, e) && k < i <= |events|
    ensures PathSetBy(TrailAfter(trail, events[..i][..k], e), events[..i][k], e) == Some(source)
       <==> SetsPath(Run(s, events[..k]), events[k], e, source)
  {
    hide Tracks;
    hide PathSetBy;
    hide SetsPath;
    hide Run;
    hide TrailAfter;
    assert events[..i][..k] == events[..k];
    RunTracks(s, trail, events[..k], e);
    SetsPathIff(Run(s, events[..k]), TrailAfter(trail, events[..k], e), events[k], e, source);
  }
}
