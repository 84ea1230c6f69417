/** The client facade of client.go: each operation checks out the pool
    connection for one domain, makes one remote call and hands the connection
    back. The remote calls are function parameters; `now` and `dial` are what
    the clock and dialling give to the pool for the checkout. */
module Client {
  import opened Protocol
  import opened ConnPool
  import KeyStore

  /** What a remote call returns: the reply, or a transport error. */
  datatype RpcResult<T> = Reply(value: T) | RpcError(err: string)

  /** How a client operation ends: a value, a returned error, a panic (which
      ends the process), or a call that never returns. */
  datatype Outcome<T> = Ok(value: T) | Err(err: string) | Panic | Hang

  class GSDPClient {
    const user: LocalUser
    const identities: KeyStore.InMemoryIdentStore
    const connPool: ConnectionPool

    /** `NewClient`: a client for the local user over the shared pool and directory. */
    constructor (lident: LocalUser, identities: KeyStore.InMemoryIdentStore, connPool: ConnectionPool)
      ensures user == lident && this.identities == identities && this.connPool == connPool
    {
      user := lident;
      this.identities := identities;
      this.connPool := connPool;
    }

    /** The pool precondition of every operation: the target domain's
        connection, if it has one, is checked in. */
    predicate Ready(domain: string)
      reads this, connPool
    {
      domain in connPool.connRecvrs ==> connPool.connRecvrs[domain].Some?
    }

    /** The checkout for `domain` hands out a connection: the domain's record
        is in its slot, or the domain is untracked and dialling it succeeds. */
    predicate Gets(domain: string, dial: DialResult)
      reads this, connPool
    {
      domain in connPool.connRecvrs || (!connPool.Tracked(domain) && dial.Dialed?)
    }

    /** The pool after checking out `domain` and handing the record back:
        the domain is marked as existing, and its record (the one the pool
        had for a tracked domain, a freshly dialled one otherwise) is back in
        its slot, stamped `now`; every other domain is as it was. */
    twostate predicate UsedAndReturned(domain: string, now: int, dial: DialResult)
      reads this, connPool, connPool.connPtrs.Values
    {
      && domain in connPool.connPtrs
      && connPool.connExists == old(connPool.connExists)[domain := true]
      && connPool.connPtrs == old(connPool.connPtrs)[domain := connPool.connPtrs[domain]]
      && connPool.connRecvrs == old(connPool.connRecvrs)[domain := Some(connPool.connPtrs[domain])]
      && connPool.connPtrs[domain].lastUsed == now
      && (old(connPool.Tracked(domain)) ==> connPool.connPtrs == old(connPool.connPtrs))
      && (!old(connPool.Tracked(domain)) ==>
            dial.Dialed? && fresh(connPool.connPtrs[domain]) && connPool.connPtrs[domain].conn == dial.t)
    }

    /** The pool after a checkout of `domain` that handed out nothing: a
        failed dial of an untracked domain leaves it marked as existing, a
        hang on a tracked domain changes nothing, and no record or slot of
        any domain changes. */
    twostate predicate NotCheckedOut(domain: string)
      reads this, connPool
    {
      && connPool.connPtrs == old(connPool.connPtrs) && connPool.connRecvrs == old(connPool.connRecvrs)
      && connPool.connExists == if old(connPool.Tracked(domain)) then old(connPool.connExists)
                                else old(connPool.connExists)[domain := true]
    }

    /** `getConnectionByDomain`: the pool's checkout for `domain`. */
    method getConnectionByDomain(domain: string, now: int, dial: DialResult) returns (r: Checkout)
      requires connPool.Valid() && Ready(domain)
      modifies connPool, if domain in connPool.connPtrs then {connPool.connPtrs[domain]} else {}
      ensures connPool.Valid()
      ensures r.Got? <==> old(Gets(domain, dial))
      ensures r.CheckoutFailed? <==> !old(connPool.Tracked(domain)) && dial.DialFailed?
      ensures r.CheckoutFailed? ==> dial.DialFailed? && r.err == dial.err
      ensures r.Got? ==>
        && r.oc.domain == domain && r.oc.lastUsed == now
        && connPool.connExists == old(connPool.connExists)[domain := true]
        && connPool.connPtrs == old(connPool.connPtrs)[domain := r.oc]
        && connPool.connRecvrs == old(connPool.connRecvrs)[domain := None]
      ensures r.Got? && old(connPool.Tracked(domain)) ==> r.oc == old(connPool.connPtrs[domain])
      ensures r.Got? && !old(connPool.Tracked(domain)) ==> dial.Dialed? && fresh(r.oc) && r.oc.conn == dial.t
      ensures !r.Got? ==> NotCheckedOut(domain)
    {
      r := connPool.GetConnection(domain, now, dial);
    }

    /** `getConnection`: the checkout for the domain of an identity. */
    method getConnection(id: Identity, now: int, dial: DialResult) returns (r: Checkout)
      requires connPool.Valid() && Ready(id.domain)
      modifies connPool, if id.domain in connPool.connPtrs then {connPool.connPtrs[id.domain]} else {}
      ensures connPool.Valid()
      ensures r.Got? <==> old(Gets(id.domain, dial))
      ensures r.CheckoutFailed? <==> !old(connPool.Tracked(id.domain)) && dial.DialFailed?
      ensures r.CheckoutFailed? ==> dial.DialFailed? && r.err == dial.err
      ensures r.Got? ==>
        && r.oc.domain == id.domain && r.oc.lastUsed == now
        && connPool.connExists == old(connPool.connExists)[id.domain := true]
        && connPool.connPtrs == old(connPool.connPtrs)[id.domain := r.oc]
        && connPool.connRecvrs == old(connPool.connRecvrs)[id.domain := None]
      ensures r.Got? && old(connPool.Tracked(id.domain)) ==> r.oc == old(connPool.connPtrs[id.domain])
      ensures r.Got? && !old(connPool.Tracked(id.domain)) ==> dial.Dialed? && fresh(r.oc) && r.oc.conn == dial.t
      ensures !r.Got? ==> NotCheckedOut(id.domain)
    {
      r := getConnectionByDomain(id.domain, now, dial);
    }

    /** The deferred `ReleaseConnection(oconn)` after a successful checkout:
        the record goes back into its slot. */
    method releaseChecked(oc: OpenConnection)
      requires connPool.Valid()
      requires oc.domain in connPool.connRecvrs && connPool.connRecvrs[oc.domain].None?
      requires connPool.connPtrs[oc.domain] == oc
      modifies connPool
      ensures connPool.Valid()
      ensures connPool.connRecvrs == old(connPool.connRecvrs)[oc.domain := Some(oc)]
      ensures connPool.connPtrs == old(connPool.connPtrs) && connPool.connExists == old(connPool.connExists)
    {
      var _ := connPool.ReleaseConnection(oc);
    }

    /** `GetMine`: fetches the local user's pending messages from the user's
        own domain, with `SinceUtc` 0 and the caller's purge flag, copying
        them one by one. A checkout error is returned before the release is
        deferred; a failed remote call panics after the deferred release. */
    method GetMine(purge: bool, now: int, dial: DialResult, rpc: GetRequest -> RpcResult<PendingData>)
        returns (r: Outcome<seq<RawMessage>>)
      requires connPool.Valid() && Ready(user.identity.domain)
      modifies connPool, if user.identity.domain in connPool.connPtrs
                         then {connPool.connPtrs[user.identity.domain]} else {}
      ensures connPool.Valid()
      ensures var d, req := user.identity.domain, GetRequest(user.identity, 0, purge);
        && (r.Err? <==> !old(connPool.Tracked(d)) && dial.DialFailed?)
        && (r.Err? ==> r.err == dial.err)
        && (r.Ok? <==> old(Gets(d, dial)) && rpc(req).Reply?)
        && (r.Panic? <==> old(Gets(d, dial)) && rpc(req).RpcError?)
        && (r.Ok? ==> r.value == rpc(req).value.messages)
      ensures old(Gets(user.identity.domain, dial)) ==> UsedAndReturned(user.identity.domain, now, dial)
      ensures !old(Gets(user.identity.domain, dial)) ==> NotCheckedOut(user.identity.domain)
    {
      var oconn := getConnection(user.identity, now, dial);
      match oconn
      case CheckoutFailed(e) => return Err(e);
      case Hang => return Outcome.Hang;
      case Got(oc) =>
        var getReq := GetRequest(user.identity, 0, purge);
        var pending := rpc(getReq);
        if pending.RpcError? {
          releaseChecked(oc);
          return Panic;
        }
        var msgs := pending.value.messages;
        var lst: seq<RawMessage> := [];
        var i := 0;
        while i < |msgs|
          invariant 0 <= i <= |msgs|
          invariant lst == msgs[..i]
        {
          lst := lst + [msgs[i]];
          i := i + 1;
        }
        releaseChecked(oc);
        return Ok(lst);
    }

    /** `Say`: checks out only the connection for the first recipient's
        domain and forwards the message, ignoring the server's acknowledgement.
        An empty recipient list panics on `ToIdent[0]`; the release is deferred
        before the error check, so a checkout error panics in the release of
        the nil connection instead of being returned. */
    method Say(msg: RawMessage, now: int, dial: DialResult, rpc: RawMessage -> RpcResult<MessageAck>)
        returns (r: Outcome<()>)
      requires connPool.Valid()
      requires |msg.toIdent| > 0 ==> Ready(msg.toIdent[0].domain)
      modifies connPool, if |msg.toIdent| > 0 && msg.toIdent[0].domain in connPool.connPtrs
                         then {connPool.connPtrs[msg.toIdent[0].domain]} else {}
      ensures connPool.Valid()
      ensures !r.Err?
      ensures |msg.toIdent| == 0 ==>
        && r == Panic
        && connPool.connExists == old(connPool.connExists)
        && connPool.connPtrs == old(connPool.connPtrs) && connPool.connRecvrs == old(connPool.connRecvrs)
      ensures |msg.toIdent| > 0 ==>
        var d := msg.toIdent[0].domain;
        && (r.Ok? <==> old(Gets(d, dial)))
        && (r.Panic? <==> !old(connPool.Tracked(d)) && dial.DialFailed?)
        && (old(Gets(d, dial)) ==> UsedAndReturned(d, now, dial))
        && (!old(Gets(d, dial)) ==> NotCheckedOut(d))
    {
      if |msg.toIdent| == 0 {
        return Panic;
      }
      var oconn := getConnection(msg.toIdent[0], now, dial);
      match oconn
      case CheckoutFailed(_) => return Panic;
      case Hang => return Outcome.Hang;
      case Got(oc) =>
        var _ := rpc(msg);
        releaseChecked(oc);
        return Ok(());
    }

    /** `Name`: asks the server of `req.RequestDomain`, returning its reply or
        its transport error; a checkout error panics in the deferred release
        of the nil connection. */
    method Name(req: NameInquiry, now: int, dial: DialResult, rpc: NameInquiry -> RpcResult<NameResponse>)
        returns (r: Outcome<NameResponse>)
      requires connPool.Valid() && Ready(req.requestDomain)
      modifies connPool, if req.requestDomain in connPool.connPtrs
                         then {connPool.connPtrs[req.requestDomain]} else {}
      ensures connPool.Valid()
      ensures r.Panic? <==> !old(connPool.Tracked(req.requestDomain)) && dial.DialFailed?
      ensures old(Gets(req.requestDomain, dial)) ==>
        && (r == match rpc(req) case Reply(v) => Ok(v) case RpcError(e) => Err(e))
        && UsedAndReturned(req.requestDomain, now, dial)
      ensures !old(Gets(req.requestDomain, dial)) ==> NotCheckedOut(req.requestDomain)
    {
      var oconn := getConnectionByDomain(req.requestDomain, now, dial);
      match oconn
      case CheckoutFailed(_) => return Panic;
      case Hang => return Outcome.Hang;
      case Got(oc) =>
        var reply := rpc(req);
        releaseChecked(oc);
        match reply
        case Reply(v) => return Ok(v);
        case RpcError(e) => return Err(e);
    }

    /** `SendK`: sends the approval of `perms` to the server of
        `perms.Ident.Domain` and returns nil whatever it answers; a checkout
        error panics in the deferred release of the nil connection. */
    method SendK(perms: UserPermissions, now: int, dial: DialResult,
                 rpc: (Identity, UserPermissions) -> RpcResult<UserPermissions>)
        returns (r: Outcome<()>)
      requires connPool.Valid() && Ready(perms.ident.domain)
      modifies connPool, if perms.ident.domain in connPool.connPtrs
                         then {connPool.connPtrs[perms.ident.domain]} else {}
      ensures connPool.Valid()
      ensures r.Ok? <==> old(Gets(perms.ident.domain, dial))
      ensures r.Panic? <==> !old(connPool.Tracked(perms.ident.domain)) && dial.DialFailed?
      ensures old(Gets(perms.ident.domain, dial)) ==> UsedAndReturned(perms.ident.domain, now, dial)
      ensures !old(Gets(perms.ident.domain, dial)) ==> NotCheckedOut(perms.ident.domain)
    {
      var oconn := getConnection(perms.ident, now, dial);
      match oconn
      case CheckoutFailed(_) => return Panic;
      case Hang => return Outcome.Hang;
      case Got(oc) =>
        var _ := rpc(user.identity, perms);
        releaseChecked(oc);
        return Ok(());
    }
  }
}
