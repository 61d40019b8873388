/**
 * What one operation of the endpoint pool achieves when nothing interferes with it
 * (`crates/siphon-rtp-datapath/src/udp.rs`), in any state that others may have left: an allocation succeeds
 * exactly when there is a slot and a free port, and a removal gives both back.
 */
module Allocation {
  import opened Allocator
  import opened Wrappers
  import PortPool

  /** `n` steps of one operation, with every bind succeeding. */
  function Solo(cfg: Config, s: State, op: OpId, ephemeral: nat, n: nat): State
    requires ValidConfig(cfg)
  {
    if n == 0 then s else Step(cfg, Solo(cfg, s, op, ephemeral, n - 1), Advance(op, Bound(ephemeral)))
  }

  lemma {:induction false} SoloAdd(cfg: Config, s: State, op: OpId, ephemeral: nat, k: nat, n: nat)
    requires ValidConfig(cfg)
    ensures Solo(cfg, Solo(cfg, s, op, ephemeral, k), op, ephemeral, n) == Solo(cfg, s, op, ephemeral, k + n)
  {
    hide Step;
    if n > 0 { SoloAdd(cfg, s, op, ephemeral, k, n - 1); }
  }

  predicate InWindow(cfg: Config, port: nat) {
    cfg.range.Some? && cfg.range.value.min <= port <= cfg.range.value.max
  }

  /** Some port of the window is free. */
  ghost predicate HasFreePort(cfg: Config, s: State) {
    exists port: nat :: InWindow(cfg, port) && port !in s.reserved
  }

  /** The port that cursor value `c` stands for. */
  function PortAt(cfg: Config, c: nat): (port: nat)
    requires ValidConfig(cfg) && cfg.range.Some?
    ensures InWindow(cfg, port)
  {
    cfg.range.value.min + c % Span(cfg.range.value)
  }

  /** One candidate: taken if it is free, passed over if it is reserved. */
  lemma ScanOnce(cfg: Config, s: State, op: OpId, ephemeral: nat, attempt: nat, tried: nat)
    requires ValidConfig(cfg) && cfg.range.Some? && op in s.ops && s.ops[op] == Scanning(attempt, tried)
    requires tried < Span(cfg.range.value)
    ensures var port := PortAt(cfg, s.cursor);
            Solo(cfg, s, op, ephemeral, 2)
            == if port in s.reserved then s.(cursor := s.cursor + 1, ops := s.ops[op := Scanning(attempt, tried + 1)])
               else s.(cursor := s.cursor + 1, reserved := s.reserved + {port},
                       ops := s.ops[op := Binding(port, Some(attempt))])
  {
    var port := PortAt(cfg, s.cursor);
    var drawn := s.(cursor := s.cursor + 1, ops := s.ops[op := Inserting(attempt, tried, port)]);
    assert Solo(cfg, s, op, ephemeral, 1) == drawn by { assert Solo(cfg, s, op, ephemeral, 0) == s; }
    assert drawn.ops[op := Scanning(attempt, tried + 1)] == s.ops[op := Scanning(attempt, tried + 1)];
    assert drawn.ops[op := Binding(port, Some(attempt))] == s.ops[op := Binding(port, Some(attempt))];
  }

  /** From a bound port to the table. */
  lemma BindAndRegister(cfg: Config, s: State, op: OpId, ephemeral: nat, port: nat, retry: Option<nat>)
    requires ValidConfig(cfg) && op in s.ops && s.ops[op] == Binding(port, retry)
    ensures Solo(cfg, s, op, ephemeral, 2)
         == s.(nextId := s.nextId + 1, registered := s.registered[s.nextId := LocalPort(port, ephemeral)],
               ops := s.ops - {op})
  {
    var bound := s.(ops := s.ops[op := Registering(port, LocalPort(port, ephemeral))]);
    assert Solo(cfg, s, op, ephemeral, 1) == bound by { assert Solo(cfg, s, op, ephemeral, 0) == s; }
    assert bound.ops - {op} == s.ops - {op};
  }

  /** The allocation has put `port` into the table and left everything else as it was. */
  ghost predicate Allocated(s: State, t: State, op: OpId, port: nat, ephemeral: nat) {
    t == s.(cursor := t.cursor, reserved := s.reserved + {port}, nextId := s.nextId + 1,
            registered := s.registered[s.nextId := LocalPort(port, ephemeral)], ops := s.ops - {op})
  }

  /** A scan that meets a free port within its budget allocates it. */
  lemma {:induction false} ScanFinds(
      cfg: Config, s: State, op: OpId, ephemeral: nat, attempt: nat, tried: nat, ahead: nat) returns (n: nat, port: nat)
    requires ValidConfig(cfg) && cfg.range.Some? && op in s.ops && s.ops[op] == Scanning(attempt, tried)
    requires tried + ahead < Span(cfg.range.value) && PortAt(cfg, s.cursor + ahead) !in s.reserved
    ensures InWindow(cfg, port) && port !in s.reserved
    ensures Allocated(s, Solo(cfg, s, op, ephemeral, n), op, port, ephemeral)
    decreases ahead
  {
    hide Step;
    ScanOnce(cfg, s, op, ephemeral, attempt, tried);
    port := PortAt(cfg, s.cursor);
    var next := Solo(cfg, s, op, ephemeral, 2);
    if port in s.reserved {
      var m;
      m, port := ScanFinds(cfg, next, op, ephemeral, attempt, tried + 1, ahead - 1);
      n := 2 + m;
      SoloAdd(cfg, s, op, ephemeral, 2, m);
      assert next.ops - {op} == s.ops - {op};
    } else {
      n := 4;
      BindAndRegister(cfg, next, op, ephemeral, port, Some(attempt));
      SoloAdd(cfg, s, op, ephemeral, 2, 2);
      assert next.ops - {op} == s.ops - {op};
    }
  }

  /** A scan over reserved ports only gives up and returns its slot. */
  lemma {:induction false} ScanFails(
      cfg: Config, s: State, op: OpId, ephemeral: nat, attempt: nat, tried: nat) returns (n: nat)
    requires ValidConfig(cfg) && cfg.range.Some? && op in s.ops && s.ops[op] == Scanning(attempt, tried)
    requires tried <= Span(cfg.range.value) && !HasFreePort(cfg, s)
    ensures var t := Solo(cfg, s, op, ephemeral, n);
            t == s.(cursor := t.cursor, live := s.live - 1, ops := s.ops - {op})
    decreases Span(cfg.range.value) - tried
  {
    if tried == Span(cfg.range.value) {
      n := 2;
      var failing := s.(ops := s.ops[op := Failing]);
      assert Solo(cfg, s, op, ephemeral, 1) == failing by { assert Solo(cfg, s, op, ephemeral, 0) == s; }
      assert failing.ops - {op} == s.ops - {op};
    } else {
      hide Step;
      ScanOnce(cfg, s, op, ephemeral, attempt, tried);
      assert InWindow(cfg, PortAt(cfg, s.cursor));
      var next := Solo(cfg, s, op, ephemeral, 2);
      var m := ScanFails(cfg, next, op, ephemeral, attempt, tried + 1);
      n := 2 + m;
      SoloAdd(cfg, s, op, ephemeral, 2, m);
      assert next.ops - {op} == s.ops - {op};
    }
  }

  /** A slot below the cap. */
  predicate HasSlot(cfg: Config, s: State) {
    s.live < cfg.maxEndpoints
  }

  lemma TookSlot(cfg: Config, s: State, op: OpId)
    requires ValidConfig(cfg) && cfg.range.Some? && op !in s.ops && HasSlot(cfg, s)
    ensures Step(cfg, s, Alloc(op)) == s.(live := s.live + 1, ops := s.ops[op := Scanning(0, 0)])
  {
  }

  lemma OverTheCap(cfg: Config, s: State, action: Action, op: OpId, ephemeral: nat)
    requires ValidConfig(cfg) && op !in s.ops && !HasSlot(cfg, s)
    requires action == Alloc(op) || exists port :: action == AllocSpecific(op, port)
    ensures Solo(cfg, Step(cfg, s, action), op, ephemeral, 1) == s
  {
    var over := s.(live := s.live + 1, ops := s.ops[op := OverLimit]);
    assert Step(cfg, s, action) == over;
    assert Solo(cfg, over, op, ephemeral, 0) == over;
    assert over.ops - {op} == s.ops;
  }

  /**
   * An allocation from the range, in any state of the pool: with a slot and a free port it registers a port
   * of the window that nobody had reserved; otherwise it fails and leaves nothing behind but the cursor.
   */
  lemma AllocationAlone(cfg: Config, s: State, op: OpId, ephemeral: nat) returns (n: nat, port: nat)
    requires ValidConfig(cfg) && cfg.range.Some? && op !in s.ops
    ensures var t := Solo(cfg, Step(cfg, s, Alloc(op)), op, ephemeral, n);
            if HasSlot(cfg, s) && HasFreePort(cfg, s)
            then InWindow(cfg, port) && port !in s.reserved && Allocated(s.(live := s.live + 1), t, op, port, ephemeral)
            else t == s.(cursor := t.cursor)
  {
    n, port := 1, 0;
    if !HasSlot(cfg, s) {
      OverTheCap(cfg, s, Alloc(op), op, ephemeral);
    } else {
      TookSlot(cfg, s, op);
      hide Step;
      var begun := Step(cfg, s, Alloc(op));
      assert begun.ops - {op} == s.ops == s.ops - {op};
      if HasFreePort(cfg, s) {
        var free: nat :| InWindow(cfg, free) && free !in s.reserved;
        var ahead := PortPool.OffsetsCovered(s.cursor, Span(cfg.range.value), free - cfg.range.value.min);
        n, port := ScanFinds(cfg, begun, op, ephemeral, 0, 0, ahead);
      } else {
        n := ScanFails(cfg, begun, op, ephemeral, 0, 0);
      }
    }
  }

  /** An allocation of one given port succeeds exactly when there is a slot and that port of the window is free. */
  lemma SpecificAllocationAlone(cfg: Config, s: State, op: OpId, wanted: nat, ephemeral: nat) returns (n: nat)
    requires ValidConfig(cfg) && cfg.range.Some? && op !in s.ops
    ensures var t := Solo(cfg, Step(cfg, s, AllocSpecific(op, wanted)), op, ephemeral, n);
            if HasSlot(cfg, s) && InWindow(cfg, wanted) && wanted !in s.reserved
            then Allocated(s.(live := s.live + 1), t, op, wanted, ephemeral)
            else t == s
  {
    if !HasSlot(cfg, s) {
      n := 1;
      OverTheCap(cfg, s, AllocSpecific(op, wanted), op, ephemeral);
    } else {
      var begun := s.(live := s.live + 1, ops := s.ops[op := Claiming(wanted)]);
      assert Step(cfg, s, AllocSpecific(op, wanted)) == begun;
      assert Solo(cfg, begun, op, ephemeral, 0) == begun;
      var claimed := Solo(cfg, begun, op, ephemeral, 1);
      if InWindow(cfg, wanted) && wanted !in s.reserved {
        n := 3;
        assert claimed == begun.(reserved := s.reserved + {wanted}, ops := begun.ops[op := Binding(wanted, None)]);
        BindAndRegister(cfg, claimed, op, ephemeral, wanted, None);
        SoloAdd(cfg, begun, op, ephemeral, 1, 2);
        assert claimed.ops - {op} == s.ops == s.ops - {op};
      } else {
        n := 2;
        assert claimed == begun.(ops := begun.ops[op := Failing]);
        assert claimed.ops - {op} == s.ops;
      }
    }
  }

  /** A removal takes the endpoint out of the table and returns its port and its slot. */
  lemma RemovalAlone(cfg: Config, s: State, op: OpId, id: EndpointId, ephemeral: nat)
    requires ValidConfig(cfg) && cfg.range.Some? && op !in s.ops && id in s.registered
    ensures Solo(cfg, Step(cfg, s, Remove(op, id)), op, ephemeral, 2)
         == s.(registered := s.registered - {id}, reserved := s.reserved - {s.registered[id]}, live := s.live - 1)
  {
    var port := s.registered[id];
    var begun := s.(registered := s.registered - {id}, ops := s.ops[op := Freeing(port)]);
    assert Step(cfg, s, Remove(op, id)) == begun;
    assert Solo(cfg, begun, op, ephemeral, 0) == begun;
    var freed := begun.(reserved := s.reserved - {port}, ops := begun.ops[op := Closing]);
    assert Solo(cfg, begun, op, ephemeral, 1) == freed;
    assert freed.ops - {op} == s.ops;
  }
}
