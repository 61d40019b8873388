/**
 * The endpoint pool under concurrency (`alloc_on`, `alloc_specific_on`, `bind_in_range`,
 * `remove_endpoint` in `crates/siphon-rtp-datapath/src/udp.rs`). Any number of operations run at
 * once; every atomic access to the slot counter, the port cursor, the reserved set or the endpoint
 * table, and every bind, is a step of its own, so a run is an arbitrary interleaving.
 */
module Allocator {
  import opened Wrappers

  type OpId = nat
  type EndpointId = nat

  /** The closed port window, `min <= max`. */
  datatype Range = Range(min: nat, max: nat)

  datatype Config = Config(maxEndpoints: nat, range: Option<Range>)

  function Span(r: Range): nat
    requires r.min <= r.max
  {
    r.max - r.min + 1
  }

  predicate ValidConfig(cfg: Config) {
    cfg.range.Some? ==> cfg.range.value.min <= cfg.range.value.max
  }

  /** What a failed bind goes on to do once its port is back in the pool. */
  datatype AfterRelease = TryAgain(attempt: nat) | GiveUp

  /** Where an operation stands: the atomic access it performs next. */
  datatype Pc =
    | OverLimit                                               // took a slot past the cap, returns it next
    | Scanning(attempt: nat, tried: nat)                      // draws the next candidate off the cursor
    | Inserting(attempt: nat, tried: nat, candidate: nat)     // tries to reserve the candidate
    | Claiming(wanted: nat)                                   // tries to reserve one given port
    | BindingAny                                              // no range: binds an ephemeral port
    | Binding(port: nat, retry: Option<nat>)                  // holds a port, binds it
    | Releasing(port: nat, next: AfterRelease)                // bind failed, returns the port
    | Registering(port: nat, local: nat)                      // bound, enters the endpoint table
    | Failing                                                 // returns the slot, then fails
    | Freeing(local: nat)                                     // left the table, returns the bound port
    | Closing                                                 // socket closed, returns the slot

  datatype State = State(
    live: int,
    cursor: nat,
    reserved: set<nat>,
    registered: map<EndpointId, nat>,
    nextId: EndpointId,
    ops: map<OpId, Pc>)

  const INITIAL := State(0, 0, {}, map[], 0, map[])

  datatype BindResult = Bound(ephemeral: nat) | AddrInUse | OtherError

  datatype Action =
    | Alloc(op: OpId)
    | AllocSpecific(op: OpId, port: nat)
    | Remove(op: OpId, id: EndpointId)
    | Advance(op: OpId, bind: BindResult)

  /** The slot check both allocation paths start with: count first, compare after. */
  function TakeSlot(cfg: Config, s: State, op: OpId, next: Pc): State {
    s.(live := s.live + 1, ops := s.ops[op := if s.live + 1 > cfg.maxEndpoints then OverLimit else next])
  }

  /** The port a bound socket reports: the requested one, unless that was the wildcard port 0. */
  function LocalPort(requested: nat, ephemeral: nat): nat {
    if requested == 0 then ephemeral else requested
  }

  function AdvanceOp(cfg: Config, s: State, op: OpId, bind: BindResult): State
    requires ValidConfig(cfg) && op in s.ops
  {
    match s.ops[op]
    case OverLimit => s.(live := s.live - 1, ops := s.ops - {op})
    case Failing => s.(live := s.live - 1, ops := s.ops - {op})
    case Closing => s.(live := s.live - 1, ops := s.ops - {op})
    case Scanning(attempt, tried) =>
      if cfg.range.None? || tried >= Span(cfg.range.value) then s.(ops := s.ops[op := Failing])
      else
        var candidate := cfg.range.value.min + s.cursor % Span(cfg.range.value);
        s.(cursor := s.cursor + 1, ops := s.ops[op := Inserting(attempt, tried, candidate)])
    case Inserting(attempt, tried, candidate) =>
      if candidate in s.reserved then s.(ops := s.ops[op := Scanning(attempt, tried + 1)])
      else s.(reserved := s.reserved + {candidate}, ops := s.ops[op := Binding(candidate, Some(attempt))])
    case Claiming(wanted) =>
      if cfg.range.None? then s.(ops := s.ops[op := BindingAny])
      else if wanted < cfg.range.value.min || wanted > cfg.range.value.max || wanted in s.reserved
      then s.(ops := s.ops[op := Failing])
      else s.(reserved := s.reserved + {wanted}, ops := s.ops[op := Binding(wanted, None)])
    case BindingAny =>
      s.(ops := s.ops[op := if bind.Bound? then Registering(bind.ephemeral, bind.ephemeral) else Failing])
    case Binding(port, retry) =>
      s.(ops := s.ops[op :=
        match bind
        case Bound(ephemeral) => Registering(port, LocalPort(port, ephemeral))
        case AddrInUse => Releasing(port, if retry.Some? then TryAgain(retry.value + 1) else GiveUp)
        case OtherError => Releasing(port, GiveUp)])
    case Releasing(port, next) =>
      s.(reserved := s.reserved - {port},
         ops := s.ops[op :=
           if next.TryAgain? && cfg.range.Some? && next.attempt < Span(cfg.range.value)
           then Scanning(next.attempt, 0) else Failing])
    case Registering(port, local) =>
      s.(nextId := s.nextId + 1, registered := s.registered[s.nextId := local], ops := s.ops - {op})
    case Freeing(local) =>
      s.(reserved := if cfg.range.Some? then s.reserved - {local} else s.reserved, ops := s.ops[op := Closing])
  }

  function Step(cfg: Config, s: State, action: Action): State
    requires ValidConfig(cfg)
  {
    match action
    case Alloc(op) =>
      if op in s.ops then s else TakeSlot(cfg, s, op, if cfg.range.Some? then Scanning(0, 0) else BindingAny)
    case AllocSpecific(op, port) =>
      if op in s.ops then s else TakeSlot(cfg, s, op, Claiming(port))
    case Remove(op, id) =>
      if op in s.ops || id !in s.registered then s
      else s.(registered := s.registered - {id}, ops := s.ops[op := Freeing(s.registered[id])])
    case Advance(op, bind) =>
      if op in s.ops then AdvanceOp(cfg, s, op, bind) else s
  }

  function Run(cfg: Config, actions: seq<Action>): State
    requires ValidConfig(cfg)
  {
    if |actions| == 0 then INITIAL else Step(cfg, Run(cfg, actions[..|actions| - 1]), actions[|actions| - 1])
  }

  // ---- Slots -------------------------------------------------------------------------------------

  /** The operations in flight that passed the slot check. */
  ghost function AdmittedOps(ops: map<OpId, Pc>): set<OpId> {
    set op | op in ops.Keys && ops[op] != OverLimit
  }

  /** The counter is the endpoints plus the operations; endpoints plus admitted operations fit the cap. */
  ghost predicate SlotsBalance(cfg: Config, s: State) {
    && s.live == |s.registered.Keys| + |s.ops.Keys|
    && |s.registered.Keys| + |AdmittedOps(s.ops)| <= cfg.maxEndpoints
    && forall id :: id in s.registered ==> id < s.nextId
  }

  lemma SubsetSize<T>(a: set<T>, b: set<T>)
    requires a <= b
    ensures |a| <= |b|
  {
    assert b == a + (b - a);
  }

  lemma MapPut<K, V>(m: map<K, V>, k: K, v: V)
    ensures |m[k := v].Keys| == |m.Keys| + if k in m then 0 else 1
  {
    assert m[k := v].Keys == m.Keys + {k};
  }

  lemma MapDrop<K, V>(m: map<K, V>, k: K)
    requires k in m
    ensures |(m - {k}).Keys| == |m.Keys| - 1
  {
    assert (m - {k}).Keys == m.Keys - {k};
  }

  lemma AdmittedPut(ops: map<OpId, Pc>, op: OpId, pc: Pc)
    ensures AdmittedOps(ops[op := pc]) == if pc == OverLimit then AdmittedOps(ops) - {op} else AdmittedOps(ops) + {op}
    ensures op in AdmittedOps(ops) <==> op in ops && ops[op] != OverLimit
  {
  }

  lemma AdmittedFew(ops: map<OpId, Pc>)
    ensures |AdmittedOps(ops)| <= |ops.Keys|
  {
    SubsetSize(AdmittedOps(ops), ops.Keys);
  }

  lemma AdmittedDrop(ops: map<OpId, Pc>, op: OpId)
    ensures AdmittedOps(ops - {op}) == AdmittedOps(ops) - {op}
    ensures op in AdmittedOps(ops) <==> op in ops && ops[op] != OverLimit
  {
  }

  lemma SlotsTake(cfg: Config, s: State, op: OpId, next: Pc)
    requires SlotsBalance(cfg, s) && op !in s.ops && next != OverLimit
    ensures SlotsBalance(cfg, TakeSlot(cfg, s, op, next))
  {
    hide AdmittedOps;
    var t := TakeSlot(cfg, s, op, next);
    MapPut(s.ops, op, t.ops[op]);
    AdmittedPut(s.ops, op, t.ops[op]);
    AdmittedFew(s.ops);
  }

  /** An operation that moves on without touching the counter keeps its slot. */
  lemma SlotsKeep(cfg: Config, s: State, t: State, op: OpId, pc: Pc)
    requires SlotsBalance(cfg, s) && op in s.ops && s.ops[op] != OverLimit && pc != OverLimit
    requires t.ops == s.ops[op := pc] && t.registered == s.registered && t.live == s.live && t.nextId == s.nextId
    ensures SlotsBalance(cfg, t)
  {
    hide AdmittedOps;
    MapPut(s.ops, op, pc);
    AdmittedPut(s.ops, op, pc);
  }

  lemma SlotsReturn(cfg: Config, s: State, op: OpId)
    requires SlotsBalance(cfg, s) && op in s.ops
    ensures SlotsBalance(cfg, s.(live := s.live - 1, ops := s.ops - {op}))
  {
    hide AdmittedOps;
    MapDrop(s.ops, op);
    AdmittedDrop(s.ops, op);
    SubsetSize(AdmittedOps(s.ops - {op}), AdmittedOps(s.ops));
  }

  lemma SlotsRegister(cfg: Config, s: State, op: OpId, local: nat)
    requires SlotsBalance(cfg, s) && op in s.ops && s.ops[op] != OverLimit
    ensures SlotsBalance(
              cfg, s.(nextId := s.nextId + 1, registered := s.registered[s.nextId := local], ops := s.ops - {op}))
  {
    hide AdmittedOps;
    MapDrop(s.ops, op);
    MapPut(s.registered, s.nextId, local);
    AdmittedDrop(s.ops, op);
  }

  lemma SlotsRemove(cfg: Config, s: State, op: OpId, id: EndpointId)
    requires SlotsBalance(cfg, s) && op !in s.ops && id in s.registered
    ensures SlotsBalance(cfg, s.(registered := s.registered - {id}, ops := s.ops[op := Freeing(s.registered[id])]))
  {
    hide AdmittedOps;
    MapPut(s.ops, op, Freeing(s.registered[id]));
    MapDrop(s.registered, id);
    AdmittedPut(s.ops, op, Freeing(s.registered[id]));
  }

  lemma SlotsAdvance(cfg: Config, s: State, op: OpId, bind: BindResult)
    requires ValidConfig(cfg) && SlotsBalance(cfg, s) && op in s.ops
    ensures SlotsBalance(cfg, AdvanceOp(cfg, s, op, bind))
  {
    hide SlotsBalance;
    hide LocalPort;
    hide Span;
    var t := AdvanceOp(cfg, s, op, bind);
    match s.ops[op]
    case OverLimit => SlotsReturn(cfg, s, op);
    case Failing => SlotsReturn(cfg, s, op);
    case Closing => SlotsReturn(cfg, s, op);
    case Registering(_, local) => SlotsRegister(cfg, s, op, local);
    case _ => SlotsKeep(cfg, s, t, op, t.ops[op]);
  }

  lemma SlotsStep(cfg: Config, s: State, action: Action)
    requires ValidConfig(cfg) && SlotsBalance(cfg, s)
    ensures SlotsBalance(cfg, Step(cfg, s, action))
  {
    hide SlotsBalance;
    hide TakeSlot;
    hide AdvanceOp;
    match action
    case Alloc(op) =>
      if op !in s.ops { SlotsTake(cfg, s, op, if cfg.range.Some? then Scanning(0, 0) else BindingAny); }
    case AllocSpecific(op, port) =>
      if op !in s.ops { SlotsTake(cfg, s, op, Claiming(port)); }
    case Remove(op, id) =>
      if op !in s.ops && id in s.registered { SlotsRemove(cfg, s, op, id); }
    case Advance(op, bind) =>
      if op in s.ops { SlotsAdvance(cfg, s, op, bind); }
  }

  /**
   * In every interleaving the counter equals the registered endpoints plus the operations in flight,
   * and the registered endpoints never exceed the cap.
   */
  lemma {:induction false} SlotsAlwaysBalance(cfg: Config, actions: seq<Action>)
    requires ValidConfig(cfg)
    ensures SlotsBalance(cfg, Run(cfg, actions))
    ensures |Run(cfg, actions).registered.Keys| <= cfg.maxEndpoints
  {
    hide Step;
    if |actions| == 0 {
      assert AdmittedOps(INITIAL.ops) == {};
    } else {
      SlotsAlwaysBalance(cfg, actions[..|actions| - 1]);
      SlotsStep(cfg, Run(cfg, actions[..|actions| - 1]), actions[|actions| - 1]);
    }
  }

  // ---- Ports -------------------------------------------------------------------------------------

  /** Whoever holds a port: a registered endpoint or an operation in flight. */
  datatype Holder = Endpoint(id: EndpointId) | Operation(op: OpId)

  ghost function HeldPort(s: State, h: Holder): Option<nat> {
    match h
    case Endpoint(id) => if id in s.registered then Some(s.registered[id]) else None
    case Operation(op) =>
      if op !in s.ops then None
      else match s.ops[op]
        case Binding(port, _) => Some(port)
        case Releasing(port, _) => Some(port)
        case Registering(port, _) => Some(port)
        case Freeing(local) => Some(local)
        case _ => None
  }

  predicate InRange(r: Range, port: nat) {
    r.min <= port <= r.max
  }

  /** The candidate of an operation lies in the window, and a bound socket sits on the port it holds. */
  ghost predicate OpSane(r: Range, pc: Pc) {
    match pc
    case Inserting(_, _, candidate) => InRange(r, candidate)
    case Registering(port, local) => port == local
    case BindingAny => false
    case _ => true
  }

  /** No port has two holders, every held port is reserved, and every reserved port is held. */
  ghost predicate PortsBalance(r: Range, s: State) {
    && (forall h, g :: HeldPort(s, h).Some? && HeldPort(s, h) == HeldPort(s, g) ==> h == g)
    && (forall h :: HeldPort(s, h).Some? ==> HeldPort(s, h).value in s.reserved && InRange(r, HeldPort(s, h).value))
    && (forall p :: p in s.reserved ==> exists h :: HeldPort(s, h) == Some(p))
    && (forall op :: op in s.ops ==> OpSane(r, s.ops[op]))
    && (forall id :: id in s.registered ==> id < s.nextId)
  }

  /** A step that leaves every holding as it was. */
  lemma PortsUnmoved(r: Range, s: State, t: State)
    requires PortsBalance(r, s) && t.reserved == s.reserved
    requires forall h :: HeldPort(t, h) == HeldPort(s, h)
    requires forall op :: op in t.ops ==> OpSane(r, t.ops[op])
    requires forall id :: id in t.registered ==> id < t.nextId
    ensures PortsBalance(r, t)
  {
    hide HeldPort;
    hide OpSane;
    forall p | p in t.reserved ensures exists h :: HeldPort(t, h) == Some(p) {
      var h :| HeldPort(s, h) == Some(p);
      assert HeldPort(t, h) == Some(p);
    }
  }

  /** A port passes from holder `a` to holder `b`. */
  lemma PortsPassed(r: Range, s: State, t: State, a: Holder, b: Holder)
    requires PortsBalance(r, s) && t.reserved == s.reserved && a != b
    requires HeldPort(s, b).None? && HeldPort(t, a).None? && HeldPort(t, b) == HeldPort(s, a)
    requires forall h :: h != a && h != b ==> HeldPort(t, h) == HeldPort(s, h)
    requires forall op :: op in t.ops ==> OpSane(r, t.ops[op])
    requires forall id :: id in t.registered ==> id < t.nextId
    ensures PortsBalance(r, t)
  {
    hide HeldPort;
    hide OpSane;
    forall p | p in t.reserved ensures exists h :: HeldPort(t, h) == Some(p) {
      var h :| HeldPort(s, h) == Some(p);
      assert HeldPort(t, if h == a then b else h) == Some(p);
    }
  }

  lemma PortsTaken(r: Range, s: State, t: State, a: Holder, port: nat)
    requires PortsBalance(r, s) && port !in s.reserved && InRange(r, port) && t.reserved == s.reserved + {port}
    requires HeldPort(s, a).None? && HeldPort(t, a) == Some(port)
    requires forall h :: h != a ==> HeldPort(t, h) == HeldPort(s, h)
    requires forall op :: op in t.ops ==> OpSane(r, t.ops[op])
    requires forall id :: id in t.registered ==> id < t.nextId
    ensures PortsBalance(r, t)
  {
    hide HeldPort;
    hide OpSane;
    forall p | p in t.reserved ensures exists h :: HeldPort(t, h) == Some(p) {
      if p != port {
        var h :| HeldPort(s, h) == Some(p);
        assert HeldPort(t, h) == Some(p);
      }
    }
  }

  lemma PortsReturned(r: Range, s: State, t: State, a: Holder, port: nat)
    requires PortsBalance(r, s) && t.reserved == s.reserved - {port}
    requires HeldPort(s, a) == Some(port) && HeldPort(t, a).None?
    requires forall h :: h != a ==> HeldPort(t, h) == HeldPort(s, h)
    requires forall op :: op in t.ops ==> OpSane(r, t.ops[op])
    requires forall id :: id in t.registered ==> id < t.nextId
    ensures PortsBalance(r, t)
  {
    hide HeldPort;
    hide OpSane;
    forall p | p in t.reserved ensures exists h :: HeldPort(t, h) == Some(p) {
      var h :| HeldPort(s, h) == Some(p);
      assert HeldPort(t, h) == Some(p);
    }
  }

  /** The steps that reserve a port: the scan's insert and the exact claim. */
  lemma PortsReserve(cfg: Config, s: State, op: OpId, bind: BindResult)
    requires ValidConfig(cfg) && cfg.range.Some? && op in s.ops && PortsBalance(cfg.range.value, s)
    requires s.ops[op].Inserting? || s.ops[op].Claiming?
    ensures PortsBalance(cfg.range.value, AdvanceOp(cfg, s, op, bind))
  {
    var r, t, me := cfg.range.value, AdvanceOp(cfg, s, op, bind), Operation(op);
    var port := if s.ops[op].Inserting? then s.ops[op].candidate else s.ops[op].wanted;
    assert OpSane(r, s.ops[op]);
    hide PortsBalance;
    if InRange(r, port) && port !in s.reserved { PortsTaken(r, s, t, me, port); } else { PortsUnmoved(r, s, t); }
  }

  /** The steps that give a port away: to the pool, or to the endpoint just registered. */
  lemma PortsHandOver(cfg: Config, s: State, op: OpId, bind: BindResult)
    requires ValidConfig(cfg) && cfg.range.Some? && op in s.ops && PortsBalance(cfg.range.value, s)
    requires s.ops[op].Releasing? || s.ops[op].Registering? || s.ops[op].Freeing?
    ensures PortsBalance(cfg.range.value, AdvanceOp(cfg, s, op, bind))
  {
    var r, t, me := cfg.range.value, AdvanceOp(cfg, s, op, bind), Operation(op);
    assert OpSane(r, s.ops[op]);
    assert HeldPort(s, Endpoint(s.nextId)).None?;
    hide PortsBalance;
    if s.ops[op].Registering? { PortsPassed(r, s, t, me, Endpoint(s.nextId)); }
    else { PortsReturned(r, s, t, me, HeldPort(s, me).value); }
  }

  lemma PortsAdvance(cfg: Config, s: State, op: OpId, bind: BindResult)
    requires ValidConfig(cfg) && cfg.range.Some? && cfg.range.value.min > 0
    requires op in s.ops && PortsBalance(cfg.range.value, s)
    ensures PortsBalance(cfg.range.value, AdvanceOp(cfg, s, op, bind))
  {
    var r, t, me := cfg.range.value, AdvanceOp(cfg, s, op, bind), Operation(op);
    assert OpSane(r, s.ops[op]);
    assert HeldPort(s, me).Some? ==> HeldPort(s, me).value > 0;
    hide PortsBalance;
    match s.ops[op]
    case Inserting(_, _, _) => PortsReserve(cfg, s, op, bind);
    case Claiming(_) => PortsReserve(cfg, s, op, bind);
    case Releasing(_, _) => PortsHandOver(cfg, s, op, bind);
    case Registering(_, _) => PortsHandOver(cfg, s, op, bind);
    case Freeing(_) => PortsHandOver(cfg, s, op, bind);
    case _ => PortsUnmoved(r, s, t);
  }

  lemma PortsStep(cfg: Config, s: State, action: Action)
    requires ValidConfig(cfg) && cfg.range.Some? && cfg.range.value.min > 0
    requires PortsBalance(cfg.range.value, s)
    ensures PortsBalance(cfg.range.value, Step(cfg, s, action))
  {
    hide AdvanceOp;
    var r, t := cfg.range.value, Step(cfg, s, action);
    match action
    case Remove(op, id) =>
      if op !in s.ops && id in s.registered { PortsPassed(r, s, t, Endpoint(id), Operation(op)); }
    case Advance(op, bind) =>
      if op in s.ops { PortsAdvance(cfg, s, op, bind); }
    case _ => PortsUnmoved(r, s, t);
  }

  /** In every interleaving no port has two holders, and the reserved ports are exactly the held ones. */
  lemma {:induction false} PortsAlwaysBalance(cfg: Config, actions: seq<Action>)
    requires ValidConfig(cfg) && cfg.range.Some? && cfg.range.value.min > 0
    ensures PortsBalance(cfg.range.value, Run(cfg, actions))
  {
    hide Step;
    if |actions| != 0 {
      PortsAlwaysBalance(cfg, actions[..|actions| - 1]);
      PortsStep(cfg, Run(cfg, actions[..|actions| - 1]), actions[|actions| - 1]);
    }
  }

  // ---- Nothing leaks -------------------------------------------------------------------------------

  /** With no operation in flight, slots and ports are exactly those of the registered endpoints. */
  ghost predicate Clean(s: State) {
    && s.live == |s.registered.Keys|
    && (forall p :: p in s.reserved <==> exists id :: id in s.registered && s.registered[id] == p)
    && (forall id, other :: id in s.registered && other in s.registered && s.registered[id] == s.registered[other]
                            ==> id == other)
  }

  lemma QuietIsClean(cfg: Config, actions: seq<Action>)
    requires ValidConfig(cfg) && cfg.range.Some? && cfg.range.value.min > 0
    requires Run(cfg, actions).ops == map[]
    ensures Clean(Run(cfg, actions))
  {
    var s := Run(cfg, actions);
    SlotsAlwaysBalance(cfg, actions);
    PortsAlwaysBalance(cfg, actions);
    hide Run;
    forall p | p in s.reserved ensures exists id :: id in s.registered && s.registered[id] == p {
      var h :| HeldPort(s, h) == Some(p);
      assert h.Endpoint? && h.id in s.registered && s.registered[h.id] == p;
    }
    forall id | id in s.registered ensures s.registered[id] in s.reserved {
      assert HeldPort(s, Endpoint(id)) == Some(s.registered[id]);
    }
    forall id, other | id in s.registered && other in s.registered && s.registered[id] == s.registered[other]
      ensures id == other
    {
      assert HeldPort(s, Endpoint(id)) == HeldPort(s, Endpoint(other));
    }
  }

  /** Allocate port 0, whose socket lands elsewhere, and remove that endpoint again. */
  ghost function WildcardRun(ephemeral: nat): seq<Action> {
    [AllocSpecific(0, 0), Advance(0, AddrInUse), Advance(0, Bound(ephemeral)), Advance(0, AddrInUse),
     Remove(1, 0), Advance(1, AddrInUse), Advance(1, AddrInUse)]
  }

  /** The reservation of port 0 outlives its endpoint: nothing is left but the port that cannot be used again. */
  lemma WildcardLeaks(cfg: Config, ephemeral: nat)
    requires ValidConfig(cfg) && cfg.range.Some? && cfg.range.value.min == 0 && cfg.maxEndpoints > 0 && ephemeral > 0
    ensures var s := Run(cfg, WildcardRun(ephemeral));
            s.ops == map[] && s.registered == map[] && s.live == 0 && s.reserved == {0} && !Clean(s)
  {
    var run := WildcardRun(ephemeral);
    WildcardAllocates(cfg, ephemeral);
    forall k | 4 <= k < 7 ensures Run(cfg, run[..k + 1]) == Step(cfg, Run(cfg, run[..k]), run[k]) {
      RunStep(cfg, run, k);
    }
    assert run[..7] == run;
    hide Run;
    var held := Run(cfg, run[..4]);
    assert Run(cfg, run[..5]) == held.(registered := map[], ops := map[1 := Freeing(ephemeral)]);
    assert Run(cfg, run[..6]) == held.(registered := map[], ops := map[1 := Closing]);
    assert 0 in Run(cfg, run).reserved;
  }

  lemma WildcardAllocates(cfg: Config, ephemeral: nat)
    requires ValidConfig(cfg) && cfg.range.Some? && cfg.range.value.min == 0 && cfg.maxEndpoints > 0
    ensures Run(cfg, WildcardRun(ephemeral)[..4]) == State(1, 0, {0}, map[0 := ephemeral], 1, map[])
  {
    var run := WildcardRun(ephemeral);
    forall k | 0 <= k < 4 ensures Run(cfg, run[..k + 1]) == Step(cfg, Run(cfg, run[..k]), run[k]) {
      RunStep(cfg, run, k);
    }
    assert Run(cfg, run[..0]) == INITIAL;
    hide Run;
    assert Run(cfg, run[..1]) == State(1, 0, {}, map[], 0, map[0 := Claiming(0)]);
    assert Run(cfg, run[..2]) == State(1, 0, {0}, map[], 0, map[0 := Binding(0, None)]);
    assert Run(cfg, run[..3]) == State(1, 0, {0}, map[], 0, map[0 := Registering(0, ephemeral)]);
  }

  lemma RunStep(cfg: Config, run: seq<Action>, k: nat)
    requires ValidConfig(cfg) && k < |run|
    ensures Run(cfg, run[..k + 1]) == Step(cfg, Run(cfg, run[..k]), run[k])
  {
    hide Step;
    assert run[..k + 1][..k] == run[..k];
  }

  /** With no slots at all, nothing is ever reserved or registered. */
  lemma {:induction false} NoSlotsNoPorts(cfg: Config, actions: seq<Action>)
    requires ValidConfig(cfg) && cfg.maxEndpoints == 0
    ensures var s := Run(cfg, actions);
            s.reserved == {} && s.registered == map[] && forall op :: op in s.ops ==> s.ops[op] == OverLimit
  {
    hide Step;
    SlotsAlwaysBalance(cfg, actions);
    NothingAdmitted(cfg, Run(cfg, actions));
    if |actions| != 0 {
      NoSlotsNoPorts(cfg, actions[..|actions| - 1]);
      OverLimitReservesNothing(cfg, Run(cfg, actions[..|actions| - 1]), actions[|actions| - 1]);
    }
  }

  lemma NothingAdmitted(cfg: Config, s: State)
    requires SlotsBalance(cfg, s) && cfg.maxEndpoints == 0
    ensures s.registered == map[] && forall op :: op in s.ops ==> s.ops[op] == OverLimit
  {
    assert s.registered.Keys == {};
    assert forall op :: op in s.ops && s.ops[op] != OverLimit ==> op in AdmittedOps(s.ops);
  }

  lemma OverLimitReservesNothing(cfg: Config, s: State, action: Action)
    requires ValidConfig(cfg) && s.reserved == {} && forall op :: op in s.ops ==> s.ops[op] == OverLimit
    ensures Step(cfg, s, action).reserved == {}
  {
  }

  /** The exact condition: no run leaves a slot or a port behind unless the window contains port 0. */
  lemma NeverLeaksIff(cfg: Config)
    requires ValidConfig(cfg) && cfg.range.Some?
    ensures (forall actions :: Run(cfg, actions).ops == map[] ==> Clean(Run(cfg, actions)))
       <==> cfg.range.value.min > 0 || cfg.maxEndpoints == 0
  {
    hide Run;
    hide Clean;
    if cfg.range.value.min > 0 {
      forall actions | Run(cfg, actions).ops == map[] ensures Clean(Run(cfg, actions)) { QuietIsClean(cfg, actions); }
    } else if cfg.maxEndpoints == 0 {
      forall actions | Run(cfg, actions).ops == map[] ensures Clean(Run(cfg, actions)) { QuietEmpty(cfg, actions); }
    } else {
      WildcardLeaks(cfg, 1);
    }
  }

  lemma QuietEmpty(cfg: Config, actions: seq<Action>)
    requires ValidConfig(cfg) && cfg.maxEndpoints == 0 && Run(cfg, actions).ops == map[]
    ensures Clean(Run(cfg, actions))
  {
    NoSlotsNoPorts(cfg, actions);
    SlotsAlwaysBalance(cfg, actions);
  }
}
