/** The store-and-forward broker of server.go: per-recipient mailboxes keyed
    by the base64 of the recipient's identity hash, a cache of local users
    and the directory lookup of `Name`. Each mutex section is one atomic step. */
module Server {
  import opened Protocol
  import opened KeyStore
  import opened ConnPool
  import Client
  import Cryptography

  /** The `updateBuffer` map: mailbox key to queued envelopes. */
  type Buffer = map<string, seq<RawMessage>>

  /** The mailbox under `k`, empty when there is none. */
  function Mailbox(buf: Buffer, k: string): seq<RawMessage> {
    if k in buf then buf[k] else []
  }

  /** The buffer after `deliverTo`: `m` appended to the mailbox under `k`,
      which is created if absent; every other mailbox as it was. */
  function Deliver(buf: Buffer, k: string, m: RawMessage): (r: Buffer)
    ensures r.Keys == buf.Keys + {k}
    ensures Mailbox(r, k) == Mailbox(buf, k) + [m]
    ensures forall k' :: k' in buf && k' != k ==> r[k'] == buf[k']
  {
    buf[k := Mailbox(buf, k) + [m]]
  }

  /** `n` copies of `m`. */
  function Repeat(m: RawMessage, n: nat): (r: seq<RawMessage>)
    ensures |r| == n && forall i :: 0 <= i < n ==> r[i] == m
  {
    if n == 0 then [] else Repeat(m, n - 1) + [m]
  }

  /** The directory's answer for each recipient, in order: the first entry
      matching its handle and domain, or nil. */
  function Answers(store: seq<Identity>, to: seq<Identity>): (a: seq<Option<Identity>>)
    ensures |a| == |to|
    ensures forall j :: 0 <= j < |to| ==> a[j] == Lookup(store, to[j].handle, to[j].domain)
  {
    seq(|to|, j requires 0 <= j < |to| => Lookup(store, to[j].handle, to[j].domain))
  }

  /** Index of the first recipient the directory cannot resolve, or |a|. */
  function FirstMissing(a: seq<Option<Identity>>): (n: nat)
    ensures n <= |a|
    ensures forall j :: 0 <= j < n ==> a[j].Some?
    ensures n < |a| ==> a[n].None?
    decreases |a|
  {
    if a == [] || a[0].None? then 0 else 1 + FirstMissing(a[1..])
  }

  /** The mailbox keys of the identities of the first `n` answers. */
  function RecipientKeys(a: seq<Option<Identity>>, n: nat): (ks: set<string>)
    requires n <= |a|
    requires forall j :: 0 <= j < n ==> a[j].Some?
    decreases n
  {
    if n == 0 then {} else RecipientKeys(a, n - 1) + {Cryptography.IdentToString(a[n - 1].value.ident)}
  }

  /** The buffer after delivering `m` to the identities of the first `n`
      answers, in order, each under the key of the identity found. */
  function Fanout(a: seq<Option<Identity>>, n: nat, buf: Buffer, m: RawMessage): Buffer
    requires n <= |a|
    requires forall j :: 0 <= j < n ==> a[j].Some?
    decreases n
  {
    if n == 0 then buf
    else Deliver(Fanout(a, n - 1, buf, m), Cryptography.IdentToString(a[n - 1].value.ident), m)
  }

  /** The buffer after `Say`, given the directory's answers: the message
      delivered to every recipient before the first unresolved one. */
  function SayBuffer(a: seq<Option<Identity>>, buf: Buffer, m: RawMessage): (r: Buffer)
    ensures forall k :: k in r <==> k in buf || k in RecipientKeys(a, FirstMissing(a))
    ensures forall k :: k in buf ==> buf[k] <= r[k]
  {
    FanoutKeys(a, FirstMissing(a), buf, m);
    FanoutGrows(a, FirstMissing(a), buf, m);
    Fanout(a, FirstMissing(a), buf, m)
  }

  /** Delivering to the first `n` answers only appends: every mailbox keeps
      what it held as a prefix. */
  lemma {:induction false} FanoutGrows(a: seq<Option<Identity>>, n: nat, buf: Buffer, m: RawMessage)
    requires n <= |a|
    requires forall j :: 0 <= j < n ==> a[j].Some?
    ensures forall k :: k in buf ==> k in Fanout(a, n, buf, m) && buf[k] <= Fanout(a, n, buf, m)[k]
    decreases n
  {
    if n > 0 {
      FanoutGrows(a, n - 1, buf, m);
    }
  }

  /** Delivering to the first `n` answers creates mailboxes only under the
      keys of the identities found. */
  lemma {:induction false} FanoutKeys(a: seq<Option<Identity>>, n: nat, buf: Buffer, m: RawMessage)
    requires n <= |a|
    requires forall j :: 0 <= j < n ==> a[j].Some?
    ensures forall k :: k in Fanout(a, n, buf, m) <==> k in buf || k in RecipientKeys(a, n)
    decreases n
  {
    if n > 0 {
      FanoutKeys(a, n - 1, buf, m);
    }
  }

  /** The acknowledgement of `Say`: an error exactly when some recipient is unresolved. */
  function SayAck(a: seq<Option<Identity>>): (ack: MessageAck)
    ensures ack.isError <==> exists j :: 0 <= j < |a| && a[j].None?
    ensures ack == MessageAck(true, "could not resolve user") || ack == MessageAck(false, "OK")
  {
    if FirstMissing(a) < |a| then MessageAck(true, "could not resolve user")
    else MessageAck(false, "OK")
  }

  /** Number of the first `n` answers that are the identity hash `h`. */
  function ResolvedTo(a: seq<Option<Identity>>, n: nat, h: Bytes): nat
    requires n <= |a|
    requires forall j :: 0 <= j < n ==> a[j].Some?
    decreases n
  {
    if n == 0 then 0
    else ResolvedTo(a, n - 1, h) + (if a[n - 1].value.ident == h then 1 else 0)
  }

  /** Number of the first `n` answers whose identity is keyed `k`. */
  function KeyedTo(a: seq<Option<Identity>>, n: nat, k: string): nat
    requires n <= |a|
    requires forall j :: 0 <= j < n ==> a[j].Some?
    decreases n
  {
    if n == 0 then 0
    else KeyedTo(a, n - 1, k) + (if Cryptography.IdentToString(a[n - 1].value.ident) == k then 1 else 0)
  }

  /** Delivering to the first `n` answers adds to the mailbox under `k` one
      copy of `m` per answer keyed `k`, after what it held. */
  lemma {:induction false} FanoutKeyed(a: seq<Option<Identity>>, n: nat, buf: Buffer, m: RawMessage, k: string)
    requires n <= |a|
    requires forall j :: 0 <= j < n ==> a[j].Some?
    ensures Mailbox(Fanout(a, n, buf, m), k) == Mailbox(buf, k) + Repeat(m, KeyedTo(a, n, k))
    decreases n
  {
    if n > 0 {
      FanoutKeyed(a, n - 1, buf, m, k);
      if Cryptography.IdentToString(a[n - 1].value.ident) == k {
        assert Repeat(m, KeyedTo(a, n, k)) == Repeat(m, KeyedTo(a, n - 1, k)) + [m];
      }
    }
  }

  /** Base64 is injective, so the answers keyed by the key of `h` are exactly
      the answers with hash `h`. */
  lemma {:induction false} KeyedToHash(a: seq<Option<Identity>>, n: nat, h: Bytes)
    requires n <= |a|
    requires forall j :: 0 <= j < n ==> a[j].Some?
    ensures KeyedTo(a, n, Cryptography.IdentToString(h)) == ResolvedTo(a, n, h)
    decreases n
  {
    if n > 0 {
      KeyedToHash(a, n - 1, h);
      Cryptography.IdentToStringInjective(a[n - 1].value.ident, h);
    }
  }

  /** Delivering to the first `n` answers adds to the mailbox of identity `h`
      one copy of `m` per answer with hash `h`, after what it held: no other
      recipient's copy lands there. */
  lemma FanoutMailbox(a: seq<Option<Identity>>, n: nat, buf: Buffer, m: RawMessage, h: Bytes)
    requires n <= |a|
    requires forall j :: 0 <= j < n ==> a[j].Some?
    ensures Mailbox(Fanout(a, n, buf, m), Cryptography.IdentToString(h))
      == Mailbox(buf, Cryptography.IdentToString(h)) + Repeat(m, ResolvedTo(a, n, h))
  {
    FanoutKeyed(a, n, buf, m, Cryptography.IdentToString(h));
    KeyedToHash(a, n, h);
  }

  /** The fan-out of `Say`: the mailbox of identity `h` receives one copy of
      the message, after its earlier contents, for every recipient before the
      first unresolved one that resolves to `h` (twice for a duplicate); a
      mailbox no such recipient resolves to is untouched. */
  lemma SayMailbox(a: seq<Option<Identity>>, buf: Buffer, m: RawMessage, h: Bytes)
    ensures Mailbox(SayBuffer(a, buf, m), Cryptography.IdentToString(h))
      == Mailbox(buf, Cryptography.IdentToString(h)) + Repeat(m, ResolvedTo(a, FirstMissing(a), h))
  {
    FanoutMailbox(a, FirstMissing(a), buf, m, h);
  }

  /** Once an answer with hash `h` is among the first `n`, the count is positive. */
  lemma {:induction false} ResolvedToPositive(a: seq<Option<Identity>>, n: nat, i: nat, h: Bytes)
    requires i < n <= |a|
    requires forall j :: 0 <= j < n ==> a[j].Some?
    requires a[i].value.ident == h
    ensures ResolvedTo(a, n, h) > 0
    decreases n
  {
    if i < n - 1 {
      ResolvedToPositive(a, n - 1, i, h);
    }
  }

  /** With every recipient resolved, `Say` acknowledges "OK" and the mailbox
      of each recipient's identity gains a copy. */
  lemma SayAllResolved(a: seq<Option<Identity>>, buf: Buffer, m: RawMessage, i: nat)
    requires forall j :: 0 <= j < |a| ==> a[j].Some?
    requires i < |a|
    ensures SayAck(a) == MessageAck(false, "OK")
    ensures var k := Cryptography.IdentToString(a[i].value.ident);
      |Mailbox(SayBuffer(a, buf, m), k)| > |Mailbox(buf, k)|
  {
    ResolvedToPositive(a, |a|, i, a[i].value.ident);
    SayMailbox(a, buf, m, a[i].value.ident);
  }

  /** `Say` is not atomic: when the first recipient resolves but a later one
      does not, the error is acknowledged and the first copy stays delivered. */
  lemma SayNotAtomic(a: seq<Option<Identity>>, buf: Buffer, m: RawMessage)
    requires 0 < FirstMissing(a) < |a|
    ensures SayAck(a) == MessageAck(true, "could not resolve user")
    ensures var k := Cryptography.IdentToString(a[0].value.ident);
      |Mailbox(SayBuffer(a, buf, m), k)| > |Mailbox(buf, k)|
  {
    ResolvedToPositive(a, FirstMissing(a), 0, a[0].value.ident);
    SayMailbox(a, buf, m, a[0].value.ident);
  }

  /** Every local user is stored under the key of its own identity hash. */
  ghost predicate KeyedByIdent(lu: map<string, LocalUser>) {
    forall k :: k in lu ==> k == Cryptography.IdentToString(lu[k].identity.ident)
  }

  /** The local users after `GetMine` from `from`: an unknown requester is
      added, under its key, only when the key store has a key for it. */
  function Registered(lu: map<string, LocalUser>, store: PrivateKeyStore, from: Identity): (r: map<string, LocalUser>)
    ensures forall k :: k in lu ==> k in r && r[k] == lu[k]
    ensures var id := Cryptography.IdentToString(from.ident);
      && r.Keys <= lu.Keys + {id}
      && (id !in lu ==> (id in r <==> KeyFor(store, from.ident).Some?))
      && (id in r && id !in lu ==> r[id] == LocalUser(from, KeyFor(store, from.ident).value))
  {
    var id := Cryptography.IdentToString(from.ident);
    if id in lu then lu
    else match KeyFor(store, from.ident)
      case Some(pk) => lu[id := LocalUser(from, pk)]
      case None => lu
  }

  lemma RegisteredKeyedByIdent(lu: map<string, LocalUser>, store: PrivateKeyStore, from: Identity)
    requires KeyedByIdent(lu)
    ensures KeyedByIdent(Registered(lu, store, from))
  {
  }

  /** The buffer after `GetMine` for key `id`: with `purge`, an existing
      mailbox is replaced by an empty one; otherwise nothing changes. */
  function AfterFetch(buf: Buffer, id: string, purge: bool): (r: Buffer)
    ensures r.Keys == buf.Keys
    ensures purge ==> Mailbox(r, id) == []
    ensures !purge ==> r == buf
    ensures forall k :: k in buf && k != id ==> r[k] == buf[k]
  {
    if purge && id in buf then buf[id := []] else buf
  }

  /** A purging fetch followed by another fetch returns nothing the second
      time; a later delivery starts the mailbox afresh. */
  lemma PurgeThenFetch(buf: Buffer, id: string, m: RawMessage)
    ensures Mailbox(AfterFetch(AfterFetch(buf, id, true), id, false), id) == []
    ensures Mailbox(Deliver(AfterFetch(buf, id, true), id, m), id) == [m]
  {
  }

  /** The reply of `Name`: a local user whose key equals the raw handle, else
      the directory's first match, else an error with no identity. */
  function NameResult(lu: map<string, LocalUser>, store: seq<Identity>, req: NameInquiry): (r: NameResponse)
    ensures r.profileUrl == ""
    ensures r.isError <==> req.requestHandle !in lu && Lookup(store, req.requestHandle, req.requestDomain).None?
    ensures r.isError <==> r.identity.None?
    ensures req.requestHandle in lu ==> r.identity == Some(lu[req.requestHandle].identity)
    ensures req.requestHandle !in lu ==> r.identity == Lookup(store, req.requestHandle, req.requestDomain)
  {
    if req.requestHandle in lu then NameResponse(false, Some(lu[req.requestHandle].identity), "")
    else
      var theid := Lookup(store, req.requestHandle, req.requestDomain);
      if theid.Some? then NameResponse(false, theid, "") else NameResponse(true, None, "")
  }

  /** Local users are keyed by the base64 of their hash, so a handle whose
      length is not a multiple of 4 (any ordinary handle such as "@alice")
      never hits the local branch: only the directory can answer it. */
  lemma NamePlainHandle(lu: map<string, LocalUser>, store: seq<Identity>, req: NameInquiry)
    requires KeyedByIdent(lu)
    requires |req.requestHandle| % 4 != 0
    ensures NameResult(lu, store, req).identity == Lookup(store, req.requestHandle, req.requestDomain)
  {
    if req.requestHandle in lu {
      KeyLength(lu[req.requestHandle].identity.ident);
    }
  }

  /** Every mailbox and local-user key has a length that is a multiple of 4. */
  lemma KeyLength(bs: Bytes)
    ensures |Cryptography.IdentToString(bs)| % 4 == 0
  {
    Cryptography.IdentToStringLength(bs);
  }

  /** What `getClient` gives back: the cached client or nil, or a panic on
      the write into the never-created `clients` map. */
  datatype ClientLookup = Found(client: Option<Client.GSDPClient>) | NilMapWrite

  class GSDPServer {
    var localUsers: map<string, LocalUser>
    const knownUsers: InMemoryIdentStore
    var updateBuffer: Buffer
    /** None stands for the nil map: nothing ever creates it. */
    var clients: Option<map<string, Client.GSDPClient>>
    const privateKeyStore: PrivateKeyStore
    const connectionPool: ConnectionPool

    ghost predicate Valid()
      reads this
    {
      KeyedByIdent(localUsers)
    }

    /** `Initialize` on a zero server: empty local users and mailboxes, the
        given stores and pool, and `clients` still nil. */
    constructor Initialize(pks: PrivateKeyStore, idStore: InMemoryIdentStore, connPool: ConnectionPool)
      ensures Valid()
      ensures localUsers == map[] && updateBuffer == map[] && clients == None
      ensures knownUsers == idStore && privateKeyStore == pks && connectionPool == connPool
    {
      localUsers := map[];
      knownUsers := idStore;
      updateBuffer := map[];
      clients := None;
      connectionPool := connPool;
      privateKeyStore := pks;
    }

    /** `getClient`: the cached client for the identity, creating and caching
        one for a local user not cached yet. */
    method getClient(ident: Bytes) returns (r: ClientLookup)
      modifies this
      ensures localUsers == old(localUsers) && updateBuffer == old(updateBuffer)
      ensures old(clients).None? ==> clients == None
      ensures var key := Cryptography.IdentToString(ident);
        var cached := old(clients).Some? && key in old(clients).value;
        && (cached ==> r == Found(Some(old(clients).value[key])) && clients == old(clients))
        && (!cached && key !in localUsers ==> r == Found(None) && clients == old(clients))
        && (!cached && key in localUsers && old(clients).None? ==> r == NilMapWrite)
        && (!cached && key in localUsers && old(clients).Some? ==>
              && r.Found? && r.client.Some? && fresh(r.client.value)
              && r.client.value.user == localUsers[key]
              && r.client.value.identities == knownUsers
              && r.client.value.connPool == connectionPool
              && clients == Some(old(clients).value[key := r.client.value]))
    {
      var key := Cryptography.IdentToString(ident);
      if !(clients.Some? && key in clients.value) {
        if key in localUsers {
          var lu := localUsers[key];
          var c := new Client.GSDPClient(lu, knownUsers, connectionPool);
          if clients.None? {
            return NilMapWrite;
          }
          clients := Some(clients.value[key := c]);
        }
      }
      if clients.Some? && key in clients.value {
        return Found(Some(clients.value[key]));
      }
      return Found(None);
    }

    /** `GetMine`: registers an unknown requester when the key store knows
        it, then returns the requester's mailbox (empty if none), purging it
        when asked, and echoes `FromIdent` and `SinceUtc`. */
    method GetMine(req: GetRequest) returns (r: PendingData)
      requires Valid()
      modifies this
      ensures Valid()
      ensures var id := Cryptography.IdentToString(req.fromIdent.ident);
        && r == PendingData(req.fromIdent, req.sinceUtc, Mailbox(old(updateBuffer), id))
        && updateBuffer == AfterFetch(old(updateBuffer), id, req.purge)
        && localUsers == Registered(old(localUsers), privateKeyStore, req.fromIdent)
      ensures clients == old(clients)
    {
      var id := Cryptography.IdentToString(req.fromIdent.ident);
      if id !in localUsers {
        var pk := GetKeyFor(privateKeyStore, req.fromIdent.ident);
        if pk.Some? {
          localUsers := localUsers[id := LocalUser(req.fromIdent, pk.value)];
        }
      }
      RegisteredKeyedByIdent(old(localUsers), privateKeyStore, req.fromIdent);
      var msgs: seq<RawMessage> := [];
      if id in updateBuffer {
        msgs := updateBuffer[id];
        if req.purge {
          updateBuffer := updateBuffer[id := []];
        }
      }
      return PendingData(req.fromIdent, req.sinceUtc, msgs);
    }

    /** `deliverTo`: appends to the mailbox keyed by the identity's hash. */
    method deliverTo(id: Identity, req: RawMessage) returns (ack: MessageAck)
      modifies this
      ensures updateBuffer == Deliver(old(updateBuffer), Cryptography.IdentToString(id.ident), req)
      ensures ack == MessageAck(false, "")
      ensures localUsers == old(localUsers) && clients == old(clients)
    {
      var idk := Cryptography.IdentToString(id.ident);
      if idk in updateBuffer {
        updateBuffer := updateBuffer[idk := updateBuffer[idk] + [req]];
      } else {
        assert Mailbox(updateBuffer, idk) + [req] == [req];
        updateBuffer := updateBuffer[idk := [req]];
      }
      return MessageAck(false, "");
    }

    /** `Say`: delivers to each recipient in order and stops at the first one
        the directory cannot resolve, keeping the deliveries made before it. */
    method Say(req: RawMessage) returns (ack: MessageAck)
      modifies this
      ensures var a := Answers(knownUsers.Idents, req.toIdent);
        updateBuffer == SayBuffer(a, old(updateBuffer), req) && ack == SayAck(a)
      ensures localUsers == old(localUsers) && clients == old(clients)
    {
      ghost var a := Answers(knownUsers.Idents, req.toIdent);
      var i := 0;
      while i < |req.toIdent|
        invariant i <= FirstMissing(a)
        invariant updateBuffer == Fanout(a, i, old(updateBuffer), req)
        invariant localUsers == old(localUsers) && clients == old(clients)
        invariant a == Answers(knownUsers.Idents, req.toIdent)
        invariant |a| == |req.toIdent|
      {
        FirstMissingAt(a, i);
        var delivered := sayTo(req.toIdent[i], req);
        if !delivered {
          assert FirstMissing(a) == i;
          return MessageAck(true, "could not resolve user");
        }
        i := i + 1;
      }
      assert FirstMissing(a) == |a|;
      return MessageAck(false, "OK");
    }

    /** One turn of the `Say` loop: resolves the recipient in the directory
        and, when found, delivers to the identity found. */
    method sayTo(r: Identity, req: RawMessage) returns (delivered: bool)
      modifies this
      ensures var toid := Lookup(knownUsers.Idents, r.handle, r.domain);
        && (delivered <==> toid.Some?)
        && (delivered ==> updateBuffer == Deliver(old(updateBuffer), Cryptography.IdentToString(toid.value.ident), req))
      ensures !delivered ==> updateBuffer == old(updateBuffer)
      ensures localUsers == old(localUsers) && clients == old(clients)
    {
      var toid := knownUsers.GetIdentityForHandleDomain(r.handle, r.domain);
      if toid.None? {
        return false;
      }
      var _ := deliverTo(toid.value, req);
      return true;
    }

    /** `Name`: the local users first, then the directory, else not found. */
    method Name(req: NameInquiry) returns (r: NameResponse)
      ensures r == NameResult(localUsers, knownUsers.Idents, req)
    {
      if req.requestHandle in localUsers {
        return NameResponse(false, Some(localUsers[req.requestHandle].identity), "");
      }
      var theid := knownUsers.GetIdentityForHandleDomain(req.requestHandle, req.requestDomain);
      if theid.Some? {
        return NameResponse(false, theid, "");
      }
      return NameResponse(true, None, "");
    }
  }

  /** Up to the first unresolved answer, an answer is resolved exactly when
      it lies before it. */
  lemma FirstMissingAt(a: seq<Option<Identity>>, i: nat)
    requires i < |a| && i <= FirstMissing(a)
    ensures a[i].Some? <==> i < FirstMissing(a)
  {
  }

  /** A local user registered by `GetMine` on a freshly initialised server
      cannot get a client: `getClient` writes into the nil `clients` map. */
  method LocalUserClientPanics(pks: PrivateKeyStore, idStore: InMemoryIdentStore, cp: ConnectionPool, from: Identity)
      returns (r: ClientLookup)
    requires KeyFor(pks, from.ident).Some?
    ensures r == NilMapWrite
  {
    var s := new GSDPServer.Initialize(pks, idStore, cp);
    var _ := s.GetMine(GetRequest(from, 0, false));
    r := s.getClient(from.ident);
  }
}
