/**
 * The media-port pool for one caller at a time (`PortAllocator` and `bind_in_range` in
 * `crates/siphon-rtp-datapath/src/udp.rs`): the round-robin cursor, and why a report of exhaustion
 * is never wrong.
 */
module PortPool {
  import opened Arithmetic
  import opened Wrappers

  /** What binding a port would return; the operating system's answers do not change during a call. */
  datatype BindAnswer = Ok | AddrInUse | OtherError

  datatype BindOutcome = BoundTo(port: nat) | PoolExhausted(limit: nat) | BindFailed(port: nat)

  lemma OffsetsCovered(base: nat, span: nat, offset: nat) returns (k: nat)
    requires offset < span
    ensures k < span && (base + k) % span == offset
  {
    var r := base % span;
    k := if offset >= r then offset - r else offset + span - r;
    var q := base / span;
    assert base == q * span + r;
    if offset >= r {
      assert base + k == q * span + offset;
      QuotientAndRest(q, span, offset);
    } else {
      assert base + k == (q + 1) * span + offset;
      QuotientAndRest(q + 1, span, offset);
    }
  }

  class PortAllocator {
    const min: nat
    const max: nat
    var cursor: nat
    var reserved: set<nat>

    constructor (low: nat, high: nat)
      ensures min == low && max == high && cursor == 0 && reserved == {}
    {
      min, max, cursor, reserved := low, high, 0, {};
    }

    function Span(): (n: nat)
      requires min <= max
      ensures n > 0
    {
      max - min + 1
    }

    /** The port the cursor value `c` stands for. */
    function PortAt(c: nat): nat
      requires min <= max
    {
      min + c % Span()
    }

    /** Cursor values over a whole span name every port of the window. */
    lemma SpanCoversWindow(from: nat, port: nat) returns (c: nat)
      requires min <= port <= max
      ensures from <= c < from + Span() && PortAt(c) == port
    {
      var k := OffsetsCovered(from, Span(), port - min);
      c := from + k;
    }

    /** The next unreserved port in cursor order, or None only if the whole window is reserved. */
    method ReserveNext() returns (r: Option<nat>)
      requires min <= max
      modifies this
      ensures r.None? ==> forall port :: min <= port <= max ==> port in old(reserved)
      ensures r.None? ==> reserved == old(reserved)
      ensures r.Some? ==> min <= r.value <= max && r.value !in old(reserved) && reserved == old(reserved) + {r.value}
      ensures r.Some? ==> cursor > old(cursor) && PortAt(cursor - 1) == r.value
      ensures r.Some? ==> forall c :: old(cursor) <= c < cursor - 1 ==> PortAt(c) in old(reserved)
    {
      var span := Span();
      for i := 0 to span
        invariant cursor == old(cursor) + i && reserved == old(reserved)
        invariant forall c :: old(cursor) <= c < cursor ==> PortAt(c) in reserved
      {
        var offset := cursor % span;
        cursor := cursor + 1;
        var candidate := min + offset;
        if candidate !in reserved {
          reserved := reserved + {candidate};
          return Some(candidate);
        }
      }
      forall port | min <= port <= max ensures port in old(reserved) {
        var c := SpanCoversWindow(old(cursor), port);
      }
      return None;
    }

    method ReserveExact(port: nat) returns (ok: bool)
      modifies `reserved
      ensures ok <==> min <= port <= max && port !in old(reserved)
      ensures reserved == if ok then old(reserved) + {port} else old(reserved)
    {
      if port < min || port > max || port in reserved { return false; }
      reserved := reserved + {port};
      return true;
    }

    method Release(port: nat)
      modifies `reserved
      ensures reserved == old(reserved) - {port}
    {
      reserved := reserved - {port};
    }

    /**
     * Bind on the next free port. Exhaustion is reported only if no port is both unreserved and
     * bindable; every failure leaves the reserved set as it was; a bind error other than "address in
     * use" is passed on as it is.
     */
    method BindInRange(answers: map<nat, BindAnswer>) returns (r: BindOutcome)
      requires min <= max && forall port :: min <= port <= max ==> port in answers
      modifies this
      ensures r.BoundTo? ==> min <= r.port <= max && r.port !in old(reserved) && answers[r.port] == Ok
                             && reserved == old(reserved) + {r.port}
      ensures !r.BoundTo? ==> reserved == old(reserved)
      ensures r.BindFailed? ==> min <= r.port <= max && r.port !in old(reserved) && answers[r.port] == OtherError
      ensures r.PoolExhausted? ==>
                forall port :: min <= port <= max && port !in old(reserved) ==> answers[port] == AddrInUse
    {
      var span := Span();
      for i := 0 to span
        invariant reserved == old(reserved) && cursor >= old(cursor) + i
        invariant forall c :: old(cursor) <= c < cursor ==> PortAt(c) in reserved || answers[PortAt(c)] == AddrInUse
      {
        var next := ReserveNext();
        if next.None? { return PoolExhausted(span); }
        var port := next.value;
        match answers[port]
        case Ok => return BoundTo(port);
        case AddrInUse => Release(port);
        case OtherError => Release(port); return BindFailed(port);
      }
      forall port | min <= port <= max && port !in old(reserved) ensures answers[port] == AddrInUse {
        var c := SpanCoversWindow(old(cursor), port);
      }
      return PoolExhausted(span);
    }
  }

  /** When the only failures are taken ports, the call succeeds exactly if some free port can be bound. */
  method BindIffPossible(pool: PortAllocator, answers: map<nat, BindAnswer>) returns (r: BindOutcome)
    requires pool.min <= pool.max
    requires forall port :: pool.min <= port <= pool.max ==> port in answers && answers[port] != OtherError
    modifies pool
    ensures r.BoundTo? <==>
              exists port :: pool.min <= port <= pool.max && port !in old(pool.reserved) && answers[port] == Ok
    ensures !r.BindFailed?
  {
    r := pool.BindInRange(answers);
  }
}
