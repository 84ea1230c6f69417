/** The per-domain connection pool of connpool.go as a state machine over its
    three maps. The one-slot channel of a domain is the `Option` stored in
    `connRecvrs`: full (`Some`) while the connection is checked in, empty
    (`None`) while a caller holds it. A receive from an empty slot or a send
    into a full one would block; the model asks for the slot to be in the
    state that lets the call go through. The pool lock only matters between
    threads, so each method is one atomic step, and the clock is a parameter. */
module ConnPool {
  import opened Protocol

  /** The connection states: CONN_CLOSED = 0, CONN_USED = 1, CONN_OPEN = 2. */
  datatype ConnPoolStatus = ConnClosed | ConnUsed | ConnOpen {
    function Code(): (c: int)
      ensures 0 <= c <= 2
      ensures c == 0 <==> this == ConnClosed
      ensures c == 1 <==> this == ConnUsed
    {
      match this
      case ConnClosed => 0
      case ConnUsed => 1
      case ConnOpen => 2
    }
  }

  /** Seconds of idleness after which the reaper closes a connection. */
  const ReapIdleSeconds: int := 10

  /** The error `ReleaseConnection` returns for a domain the pool does not know. */
  const NoSuchDomain: string := "No such domain in pool -- did you return this to the wrong pool?"

  /** An opaque transport handle (the gRPC client connection). */
  type Transport = nat

  /** The outcome of dialling a domain. */
  datatype DialResult = Dialed(t: Transport) | DialFailed(err: string)

  /** A pooled connection; its state and last-use time are updated in place. */
  class OpenConnection {
    const conn: Transport
    const domain: string
    var state: ConnPoolStatus
    var lastUsed: int

    /** `makeNewOpenConnection`, with `now` for the current Unix time. */
    constructor (conn: Transport, domain: string, now: int)
      ensures this.conn == conn && this.domain == domain
      ensures state == ConnOpen && lastUsed == now
    {
      this.conn := conn;
      this.domain := domain;
      state := ConnOpen;
      lastUsed := now;
    }
  }

  /** The outcome of `GetConnection`. `Hang` is a receive from the nil
      channel of a domain that is marked as existing but has no receiver (left
      behind by an earlier dial failure): the call never returns. */
  datatype Checkout = Got(oc: OpenConnection) | CheckoutFailed(err: string) | Hang

  class ConnectionPool {
    var connExists: map<string, bool>
    var connPtrs: map<string, OpenConnection>
    var connRecvrs: map<string, Option<OpenConnection>>
    const reapFreq: int

    /** The bookkeeping invariant: pointers and receivers cover the same
        domains, each of them marked as existing; each record belongs to its
        own domain and is in state CONN_USED; a full slot holds the domain's
        own record. A domain may be marked as existing with no record: that
        is what a failed dial leaves. */
    ghost predicate Valid()
      reads this, connPtrs.Values
    {
      && connPtrs.Keys == connRecvrs.Keys
      && (forall d :: d in connPtrs ==> d in connExists && connExists[d])
      && (forall d :: d in connPtrs ==> connPtrs[d].domain == d && connPtrs[d].state == ConnUsed)
      && (forall d :: d in connRecvrs && connRecvrs[d].Some? ==> connRecvrs[d].value == connPtrs[d])
    }

    /** The `ok && b` test of `GetConnection`: the domain is marked as existing. */
    predicate Tracked(domain: string)
      reads this
    {
      domain in connExists && connExists[domain]
    }

    /** The domain's connection is in its slot, free to be taken. */
    predicate CheckedIn(domain: string)
      reads this
    {
      domain in connRecvrs && connRecvrs[domain].Some?
    }

    /** The domains whose records were last used `ReapIdleSeconds` or more before `now`. */
    function IdleDomains(now: int): (r: set<string>)
      reads this, connPtrs.Values
      ensures forall d :: d in r <==> d in connPtrs && now - connPtrs[d].lastUsed >= ReapIdleSeconds
    {
      set d | d in connPtrs && now - connPtrs[d].lastUsed >= ReapIdleSeconds
    }

    /** `NewConnectionPool`: a fresh pool tracks no domain. */
    constructor (reapF: int)
      ensures Valid()
      ensures connExists == map[] && connPtrs == map[] && connRecvrs == map[]
      ensures reapFreq == reapF
    {
      connExists := map[];
      connPtrs := map[];
      connRecvrs := map[];
      reapFreq := reapF;
    }

    /** `GetConnection` at Unix time `now`, `dial` being what dialling the
        domain would give. An untracked domain is marked as existing first;
        if the dial then succeeds, a new record is registered with a full slot.
        The record is then taken from the slot and stamped with `now`. A
        tracked domain whose slot is empty blocks until the holder releases
        it, so the model requires the slot to be full. */
    method GetConnection(domain: string, now: int, dial: DialResult) returns (r: Checkout)
      requires Valid()
      requires domain in connRecvrs ==> connRecvrs[domain].Some?
      modifies this, if domain in connPtrs then {connPtrs[domain]} else {}
      ensures Valid()
      ensures r.Got? <==> domain in old(connRecvrs) || (!old(Tracked(domain)) && dial.Dialed?)
      ensures r.CheckoutFailed? <==> !old(Tracked(domain)) && dial.DialFailed?
      ensures r.Got? ==>
        && r.oc.domain == domain && r.oc.state == ConnUsed && r.oc.lastUsed == now
        && connExists == old(connExists)[domain := true]
        && connPtrs == old(connPtrs)[domain := r.oc]
        && connRecvrs == old(connRecvrs)[domain := None]
      ensures r.Got? && !old(Tracked(domain)) ==> fresh(r.oc) && r.oc.conn == dial.t
      ensures r.Got? && old(Tracked(domain)) ==> r.oc == old(connPtrs[domain])
      ensures r.CheckoutFailed? ==>
        && r.err == dial.err
        && connExists == old(connExists)[domain := true]
        && connPtrs == old(connPtrs) && connRecvrs == old(connRecvrs)
      ensures r.Hang? ==>
        connExists == old(connExists) && connPtrs == old(connPtrs) && connRecvrs == old(connRecvrs)
    {
      if !(domain in connExists && connExists[domain]) {
        connExists := connExists[domain := true];
        match dial
        case DialFailed(err) =>
          return CheckoutFailed(err);
        case Dialed(cc) =>
          var oc := Register(domain, cc, now);
      }
      if domain !in connRecvrs {
        return Hang;
      }
      var x := TakeFromSlot(domain, now);
      return Got(x);
    }

    /** The registration of a freshly dialled domain: a new record in state
        CONN_USED, pointed to by `connPtrs` and sent into a new one-slot receiver. */
    method Register(domain: string, cc: Transport, now: int) returns (oc: OpenConnection)
      requires Valid() && Tracked(domain) && domain !in connPtrs
      modifies this
      ensures Valid() && fresh(oc)
      ensures oc.conn == cc && oc.domain == domain && oc.state == ConnUsed && oc.lastUsed == now
      ensures connPtrs == old(connPtrs)[domain := oc] && connRecvrs == old(connRecvrs)[domain := Some(oc)]
      ensures connExists == old(connExists)
    {
      oc := new OpenConnection(cc, domain, now);
      connPtrs := connPtrs[domain := oc];
      oc.state := ConnUsed;
      connRecvrs := connRecvrs[domain := Some(oc)];
    }

    /** The receive `x := <-ch` followed by `x.lastUsed = now`. */
    method TakeFromSlot(domain: string, now: int) returns (x: OpenConnection)
      requires Valid() && CheckedIn(domain)
      modifies this, connPtrs[domain]
      ensures Valid()
      ensures x == old(connPtrs[domain]) && x.lastUsed == now && x.state == old(x.state)
      ensures connRecvrs == old(connRecvrs)[domain := None]
      ensures connExists == old(connExists) && connPtrs == old(connPtrs)
    {
      x := connRecvrs[domain].value;
      connRecvrs := connRecvrs[domain := None];
      x.lastUsed := now;
    }

    /** `ReleaseConnection`: puts the record back into its domain's slot, or
        reports that the domain is unknown and changes nothing. Sending into a
        full slot would block, and a record handed back to a known domain is
        that domain's own, so both are required. */
    method ReleaseConnection(conn: OpenConnection) returns (err: Option<string>)
      requires Valid()
      requires conn.domain in connRecvrs ==> connRecvrs[conn.domain].None? && connPtrs[conn.domain] == conn
      modifies this
      ensures Valid()
      ensures err.None? <==> conn.domain in old(connRecvrs)
      ensures err.None? ==> connRecvrs == old(connRecvrs)[conn.domain := Some(conn)]
      ensures err.Some? ==> err.value == NoSuchDomain && connRecvrs == old(connRecvrs)
      ensures connExists == old(connExists) && connPtrs == old(connPtrs)
      ensures conn.state == old(conn.state) && conn.lastUsed == old(conn.lastUsed)
    {
      if conn.domain in connRecvrs {
        connRecvrs := connRecvrs[conn.domain := Some(conn)];
        return None;
      } else {
        return Some(NoSuchDomain);
      }
    }

    /** `ReapConnectionNotThreadSafe`: takes the record out of the slot, marks
        the domain as not existing, forgets its receiver and pointer, and marks
        the record closed. The receive waits for a checked-out record to come
        back, so the slot must be full; for a domain with no receiver the
        receive is on a nil channel and never returns (`completed` false). */
    method ReapConnectionNotThreadSafe(domain: string) returns (completed: bool)
      requires Valid()
      requires domain in connRecvrs ==> connRecvrs[domain].Some?
      modifies this, if domain in connPtrs then {connPtrs[domain]} else {}
      ensures Valid()
      ensures completed <==> domain in old(connRecvrs)
      ensures completed ==>
        && connPtrs == old(connPtrs) - {domain} && connRecvrs == old(connRecvrs) - {domain}
        && connExists == old(connExists)[domain := false]
        && old(connPtrs[domain]).state == ConnClosed
        && old(connPtrs[domain]).lastUsed == old(connPtrs[domain].lastUsed)
      ensures !completed ==>
        connPtrs == old(connPtrs) && connRecvrs == old(connRecvrs) && connExists == old(connExists)
    {
      if domain !in connRecvrs {
        return false;
      }
      var c := connRecvrs[domain].value;
      connExists := connExists[domain := false];
      connRecvrs := connRecvrs - {domain};
      connPtrs := connPtrs - {domain};
      c.state := ConnClosed;
      return true;
    }

    /** One turn of the reaper's loop: reaps `dom` exactly when its record
        is idle at `now`. */
    method ReapIfIdle(dom: string, now: int) returns (reaped: bool)
      requires Valid() && dom in connPtrs
      requires now - connPtrs[dom].lastUsed >= ReapIdleSeconds ==> CheckedIn(dom)
      modifies this, connPtrs[dom]
      ensures Valid()
      ensures reaped <==> now - old(connPtrs[dom].lastUsed) >= ReapIdleSeconds
      ensures reaped ==>
        && connPtrs == old(connPtrs) - {dom} && connRecvrs == old(connRecvrs) - {dom}
        && connExists == old(connExists)[dom := false]
        && old(connPtrs[dom]).state == ConnClosed
      ensures !reaped ==>
        && connPtrs == old(connPtrs) && connRecvrs == old(connRecvrs) && connExists == old(connExists)
        && old(connPtrs[dom]).state == ConnUsed
      ensures old(connPtrs[dom]).lastUsed == old(connPtrs[dom].lastUsed)
    {
      var oc := connPtrs[dom];
      if now - oc.lastUsed >= ReapIdleSeconds {
        var _ := ReapConnectionNotThreadSafe(dom);
        return true;
      }
      return false;
    }

    /** `ReapNotThreadSafe` at Unix time `now`: reaps exactly the domains
        idle for `ReapIdleSeconds` or more and leaves every other domain as it
        was. Each idle record must be checked in (the reaper would otherwise
        wait for it while holding the pool lock). */
    method ReapNotThreadSafe(now: int)
      requires Valid()
      requires forall d :: d in IdleDomains(now) ==> CheckedIn(d)
      modifies this, connPtrs.Values
      ensures Valid()
      ensures connPtrs == old(connPtrs) - old(IdleDomains(now))
      ensures connRecvrs == old(connRecvrs) - old(IdleDomains(now))
      ensures connExists == Closed(old(connExists), old(IdleDomains(now)))
      ensures forall d :: d in old(connPtrs) ==>
        && old(connPtrs[d]).lastUsed == old(connPtrs[d].lastUsed)
        && old(connPtrs[d]).state == if d in old(IdleDomains(now)) then ConnClosed else ConnUsed
    {
      ghost var idle := IdleDomains(now);
      ghost var ptrs0 := connPtrs;
      var todo := connPtrs.Keys;
      while todo != {}
        invariant Valid()
        invariant todo <= ptrs0.Keys
        invariant connPtrs == ptrs0 - (idle - todo)
        invariant connRecvrs == old(connRecvrs) - (idle - todo)
        invariant connExists == Closed(old(connExists), idle - todo)
        invariant forall d :: d in ptrs0 ==> ptrs0[d].domain == d
        invariant forall d :: d in ptrs0 ==>
          && ptrs0[d].lastUsed == old(ptrs0[d].lastUsed)
          && ptrs0[d].state == if d in idle - todo then ConnClosed else ConnUsed
        decreases todo
      {
        var dom :| dom in todo;
        ghost var ptrs, recvrs, flags := connPtrs, connRecvrs, connExists;
        ghost var oc := ptrs0[dom];
        assert connPtrs[dom] == oc;
        var reaped := ReapIfIdle(dom, now);
        assert reaped <==> dom in idle;
        assert oc.state == if reaped then ConnClosed else ConnUsed;
        RemoveStep(ptrs0, ptrs, idle, todo, dom);
        RemoveStep(old(connRecvrs), recvrs, idle, todo, dom);
        ClosedStep(old(connExists), flags, idle, todo, dom);
        todo := todo - {dom};
      }
      assert idle - todo == idle;
    }
  }

  /** The existence flags after reaping the domains in `gone`: cleared for
      those, as they were for every other domain. */
  function Closed(e: map<string, bool>, gone: set<string>): (r: map<string, bool>)
    ensures r.Keys == e.Keys
    ensures forall d :: d in r ==> r[d] == (d !in gone && e[d])
  {
    map d | d in e :: d !in gone && e[d]
  }

  /** One turn of the reaper on a map that has lost the idle domains already
      visited: the visited domain goes too exactly when it is idle. */
  lemma RemoveStep<V>(m: map<string, V>, cur: map<string, V>, idle: set<string>, todo: set<string>, dom: string)
    requires cur == m - (idle - todo) && dom in todo
    ensures (if dom in idle then cur - {dom} else cur) == m - (idle - (todo - {dom}))
  {
  }

  /** One turn of the reaper on the existence flags. */
  lemma ClosedStep(e: map<string, bool>, cur: map<string, bool>, idle: set<string>, todo: set<string>, dom: string)
    requires cur == Closed(e, idle - todo) && dom in todo && (dom in idle ==> dom in e)
    ensures (if dom in idle then cur[dom := false] else cur) == Closed(e, idle - (todo - {dom}))
  {
  }

  /** Exclusive hand-off, as in the release test: from a domain whose record
      is checked in, or an untracked one whose dial succeeds, the first
      checkout leaves the slot empty (`held`), so a second caller waits;
      once the holder releases the record, the next checkout gets the same
      record back, stamped with the new time. */
  method CheckoutReleaseCheckout(p: ConnectionPool, domain: string, t1: int, t2: int, dial: DialResult)
      returns (first: Checkout, held: Option<OpenConnection>, second: Checkout)
    requires p.Valid() && (p.CheckedIn(domain) || (!p.Tracked(domain) && dial.Dialed?))
    modifies p, p.connPtrs.Values
    ensures first.Got? && held == None
    ensures old(p.CheckedIn(domain)) ==> first.oc == old(p.connPtrs[domain])
    ensures second.Got? && second.oc == first.oc
    ensures second.oc.lastUsed == t2 && second.oc.state == ConnUsed
    ensures domain in p.connRecvrs && p.connRecvrs[domain] == None
  {
    first := p.GetConnection(domain, t1, dial);
    held := p.connRecvrs[domain];
    var err := p.ReleaseConnection(first.oc);
    second := p.GetConnection(domain, t2, dial);
  }

  /** After a domain is reaped, the next checkout creates a fresh record
      rather than reusing the closed one. */
  method ReconnectAfterReap(p: ConnectionPool, domain: string, now: int, dial: DialResult)
      returns (closed: OpenConnection, r: Checkout)
    requires p.Valid() && p.CheckedIn(domain) && dial.Dialed?
    modifies p, p.connPtrs.Values
    ensures closed.state == ConnClosed
    ensures r.Got? && fresh(r.oc) && r.oc != closed && r.oc.domain == domain
  {
    closed := p.connPtrs[domain];
    var completed := p.ReapConnectionNotThreadSafe(domain);
    r := p.GetConnection(domain, now, dial);
  }
}
