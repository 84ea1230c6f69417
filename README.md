# gsdp core in Dafny

gsdp is a store-and-forward messaging system. Each server is a broker. It keeps
one mailbox per recipient, keyed by the base64 of the recipient's identity
hash. It looks recipients up in an identity directory and reaches other
servers through a pool that holds one connection per domain. This project
models the core of the Go code and proves properties of the model:

- `connpool.dfy` (module `ConnPool`): the connection pool of `connpool.go`.
  - The pool is a class with the three maps `connExists`, `connPtrs` and `connRecvrs`.
  - A pooled connection is a class whose `state` and `lastUsed` change in place.
  - The one-slot channel of a domain is an `Option` in `connRecvrs`.
  - Checkout, release, reaping one domain and the reaper loop are methods.
- `keystore.dfy` (module `KeyStore`):
  - the prefix test `SameBytes`;
  - the identity directory `InMemoryIdentStore`: append, and a first-match lookup with a case-insensitive domain;
  - the two private key stores behind `GetKeyFor`.
- `base64.dfy` and `cryptography.dfy` (modules `Base64`, `Cryptography`):
  - `IdentToString`, which is standard padded base64 from section 4 of RFC 4648, with a decoder used to prove that it is injective;
  - identity creation;
  - the hybrid AES-GCM/RSA envelope encryption and decryption.
  RSA, AES-GCM, SHA-256 and the random source are uninterpreted functions in a `Primitives` value. Random draws are parameters.
- `server.dfy` (module `Server`): the broker of `server.go`. It is a class
  holding the local users, the mailboxes (`updateBuffer`), the directory, the
  key store, the pool and the client cache. The model covers `Initialize`,
  `getClient`, `GetMine`, `deliverTo`, `Say` and `Name`.
- `client.dfy` (module `Client`): the client facade of `client.go`. Each
  operation checks out the pool connection for one domain, makes one remote
  call and releases the connection. The remote calls are function parameters,
  and so are the clock and the dial outcome that the pool sees.
- `cli.dfy` (module `Cli`): `longestString` and the grid printer. The printer
  is modelled by the text it writes.
- `protocol.dfy` (module `Protocol`): the protobuf records exchanged on the wire.

Outcomes are values. Go's `panic`, a receive from a nil channel (which never
returns) and an error return are results of their own: `Outcome`, `Checkout`,
`Sealing`, `Opening` and `ClientLookup`.

Behaviour of the code worth knowing, which the model keeps:

- `Say` on the server is not all-or-nothing. It delivers to the recipients
  before the first unresolved one, keeps those deliveries and then reports
  the error (`Server.SayNotAtomic`).
- A pooled record is set to CONN_USED on creation and is never set back to
  CONN_OPEN. The only other state it reaches is CONN_CLOSED, set by the reaper.
- The client's `Say` checks out only the first recipient's domain, and
  panics on an empty recipient list.
- `getClient` panics when it has to cache a client, because `Initialize`
  never creates the `clients` map (`Server.LocalUserClientPanics`).

## Model

| member | source | states |
|---|---|---|
| Base64.Char | cryptography.go:109-111 | each 6-bit value has a character of the standard alphabet, never the pad '=' |
| Base64.Index | cryptography.go:109-111 | an alphabet character's value is 6-bit and `Char` maps it back to the character |
| Base64.EncodeLength | cryptography.go:109-111 | the encoding has four characters per started group of three bytes |
| Base64.EncodeShape | cryptography.go:109-111 | the encoding is alphabet characters followed by exactly 0, 2 or 1 '=' for a length of 0, 1 or 2 mod 3 |
| Base64.Encode | cryptography.go:109-111 | standard padded base64: each full group of three bytes becomes four alphabet characters, and a final group of one or two bytes becomes "xx==" or "xxx=". It has no contract of its own; its length, shape and inverse are the next three rows |
| Base64.DecodeEncode | cryptography.go:109-111 | decoding an encoding gives back the bytes |
| Base64.EncodeInjective | cryptography.go:109-111 | equal encodings come from equal byte strings |
| Cryptography.IdentToString | cryptography.go:109-111 | the key of an identity hash is `Base64.Encode` of it; no contract of its own, its properties are the next three rows |
| Cryptography.IdentToStringLength | cryptography.go:109-111 | a key has four characters per started group of three hash bytes |
| Cryptography.IdentToStringAlphabet | cryptography.go:109-111 | every key character is a base64 alphabet character except the trailing padding |
| Cryptography.IdentToStringInjective | cryptography.go:109-111 | two hashes have the same key if and only if they are equal |
| Cryptography.BytesToIdentHash | cryptography.go:201-204 | the identity hash is the SHA-256 digest of the serialized public key, 32 bytes by its type; no contract of its own |
| Cryptography.DigestKeyShape | cryptography.go:201-204 | the key of a 32-byte digest has 44 characters, the last one '=' and no other |
| Cryptography.NewIdentity | cryptography.go:206-219 | nil, nil exactly when key generation fails; otherwise the identity carries the given name, handle, domain and URL, the generated public key, and the SHA-256 of that key as its hash, and the private key is returned beside it |
| Cryptography.NewIdentityKey | cryptography.go:206-219 | every new identity is keyed by 44 characters, the last one '=' and no other |
| Cryptography.DoRawMessageEncryption | cryptography.go:140-168 | sealing succeeds exactly when both random reads, the AES and GCM set-up and the RSA wrap succeed. On success, content is the GCM seal of the plaintext under the drawn key and nonce, nonce is the 12 drawn bytes, symKey is the RSA wrap of the key, and no other field changes. On a panic the header fields and symKey are unchanged |
| Cryptography.DoRawMessageDecryption | cryptography.go:113-138 | every failing step is an error naming that step and gives no plaintext: the random read, the session-key unwrap, the AES set-up, the GCM set-up, and the GCM open of a tampered or foreign message. It panics exactly when the set-up succeeds and the nonce is not 12 bytes long. Once the set-up succeeds and the nonce has 12 bytes, the plaintext is what GCM opens |
| Cryptography.EncryptThenDecrypt | cryptography.go:113-168 | under the cipher axioms, a message sealed for a recipient opens with the matching private key to the original plaintext, whatever the random pre-fill |
| Cryptography.NewIdentityRoundTrip | cryptography_test.go:59-81 | a new identity decrypts a message sealed for it with its own private key |
| KeyStore.SameBytes | keystore.go:68-75 | true exactly when `x` is a prefix of `y` |
| KeyStore.PrefixFacts | keystore.go:68-75 | the empty slice matches everything and every slice matches itself; a match is one-directional (`[1]` matches `[1,2]` but not the reverse); a match both ways means equality |
| KeyStore.ToLower | keystore.go:128 | same length, upper-case ASCII letters lowered, every other character kept |
| KeyStore.ToLowerIdempotent | keystore.go:128 | lowering twice is lowering once |
| KeyStore.FirstMatch | keystore.go:125-135 | the index of the first entry with the handle and the case-insensitive domain; entries before it do not match |
| KeyStore.Lookup | keystore.go:125-135 | nil exactly when no entry matches; a match otherwise |
| KeyStore.LookupAfterAppend | keystore.go:103-110 | after an append, an earlier match still wins, else the appended identity is found if it matches, else nil |
| KeyStore.AddedIdentityIsFound | keystore.go:103-110 | an appended identity is found by its own handle and domain |
| KeyStore.InMemoryIdentStore.constructor | keystore.go:100 | the store holds the given identities and path |
| KeyStore.InMemoryIdentStore.AddIdentity | keystore.go:103-110 | appends, keeping the earlier entries in order, and the new identity is then found |
| KeyStore.InMemoryIdentStore.GetIdentityForHandleDomain | keystore.go:125-135 | returns the first matching entry of the directory, or nil when none matches |
| KeyStore.FirstKeyMatch | keystore.go:112-123 | the index of the first local user whose hash is a prefix of the request; none before it is |
| KeyStore.KeyFor | keystore.go:77-123 | single store: its key exactly when its hash is a prefix of the request. File store: nil exactly when no user's hash is a prefix, else the key of the first such user |
| KeyStore.GetKeyFor | keystore.go:77-123 | the loops return `KeyFor` |
| KeyStore.EmptyIdentMatchesAll | keystore.go:77-84 | a single store with an empty hash gives its key to every request |
| ConnPool.ConnPoolStatus.Code | connpool.go:27-31 | CONN_CLOSED, CONN_USED and CONN_OPEN are 0, 1 and 2 |
| ConnPool.OpenConnection.constructor | connpool.go:71-73 | a new record is CONN_OPEN with the given transport and domain, last used now |
| ConnPool.ConnectionPool.constructor | connpool.go:50-57 | a new pool tracks no domain and keeps the reap frequency |
| ConnPool.ConnectionPool.GetConnection | connpool.go:75-98 | the checkout succeeds exactly when the domain has a receiver or is untracked and dials. It fails with the dial error exactly when it is untracked and the dial fails, and that marks the domain as existing. On success the domain's record (a fresh one when untracked, the tracked one otherwise) leaves its slot, stamped with `now`. A tracked domain with no receiver hangs with nothing changed |
| ConnPool.ConnectionPool.Register | connpool.go:84-89 | a fresh record in CONN_USED is pointed to and put into a new full slot |
| ConnPool.ConnectionPool.TakeFromSlot | connpool.go:95-96 | the record leaves its slot and is stamped with `now`; nothing else changes |
| ConnPool.ConnectionPool.ReleaseConnection | connpool.go:100-107 | a known domain's slot is refilled with the record; an unknown domain gives the error text and changes nothing |
| ConnPool.ConnectionPool.ReapConnectionNotThreadSafe | connpool.go:119-130 | a domain with a receiver loses its pointer and receiver, is marked as not existing, and its record becomes CONN_CLOSED; a domain with no receiver hangs with nothing changed |
| ConnPool.ConnectionPool.ReapIfIdle | connpool.go:110-114 | one turn of the reaper: the domain is reaped exactly when its record was last used 10 or more seconds before `now` |
| ConnPool.ConnectionPool.ReapNotThreadSafe | connpool.go:109-117 | exactly the domains idle for 10 seconds or more lose their pointer and receiver and are marked as not existing; their records become CONN_CLOSED; every other record stays CONN_USED; no `lastUsed` changes |
| ConnPool.CheckoutReleaseCheckout | connpool_test.go:56-88 | from a checked-in record or an untracked domain that dials, the first checkout gets a record (the pooled one when there was one) and leaves the slot empty (`held`), so another caller would wait. After the release, the next checkout gets the same record back, stamped with the new time |
| ConnPool.ReconnectAfterReap | connpool.go:77-90 | after a reap, the next checkout creates a fresh record for the domain and does not reuse the closed one |
| Client.GSDPClient.constructor | client.go:49-51 | the client holds the given user, directory and pool |
| Client.GSDPClient.getConnectionByDomain | client.go:57-63 | the pool checkout for the domain. It hands out a record exactly when the slot is full or the untracked domain dials. That record is the pooled one for a tracked domain and a fresh one with the dialled transport otherwise, and it leaves the slot stamped `now`. The domain is then marked as existing. Without a record, no pointer or slot changes: a dial failure only marks the domain as existing, and a hang changes nothing. No other domain's record is touched |
| Client.GSDPClient.getConnection | client.go:65-68 | the checkout of `getConnectionByDomain` for the identity's domain, with the same promises |
| Client.GSDPClient.releaseChecked | client.go:76 | the deferred release refills the domain's slot |
| Client.GSDPClient.GetMine | client.go:70-88 | asks the user's own domain with `SinceUtc` 0 and the caller's purge flag. A dial failure on an untracked domain is returned as an error. A failed call panics. Otherwise the server's messages come back unchanged and in order. After a checkout the pool is `UsedAndReturned`: the domain's record (reused when tracked, fresh when dialled) is back in its slot stamped `now`, and every other domain is as it was. Without a checkout it is `NotCheckedOut` |
| Client.GSDPClient.Say | client.go:107-117 | an empty recipient list panics with the pool unchanged. Otherwise only the first recipient's domain is checked out and handed back, and the pool after it is `UsedAndReturned` for that domain only, so no other domain is checked out. The result is nil once a connection is obtained, whatever the server acknowledges, and a panic on a checkout error. Never an error return |
| Client.GSDPClient.Name | client.go:123-136 | asks the server of `RequestDomain` and returns its reply or its error; a checkout error panics; the pool after it is `UsedAndReturned` or `NotCheckedOut` for that domain |
| Client.GSDPClient.SendK | client.go:94-105 | sends to the server of `perms.Ident.Domain` and returns nil whatever it answers; a checkout error panics; the pool after it is `UsedAndReturned` or `NotCheckedOut` for that domain |
| Server.Deliver | server.go:120-131 | the mailbox under the key gains the message at its end, created if absent; every other mailbox is unchanged |
| Server.Answers | server.go:134-135 | the directory's answer for each recipient, in order |
| Server.FirstMissing | server.go:134-142 | the index of the first unresolved recipient: all before it resolve |
| Server.SayAck | server.go:133-146 | the acknowledgement is "could not resolve user" with the error flag exactly when some recipient is unresolved, and "OK" otherwise |
| Server.Fanout | server.go:134-144 | the buffer after delivering to the identities of the first `n` answers in order. It has no contract of its own; what it does to each mailbox is stated by `FanoutKeyed`, `FanoutKeys` and `FanoutGrows` |
| Server.FanoutKeys | server.go:134-144 | the fan-out creates mailboxes only under the keys of the recipients it resolved |
| Server.FanoutGrows | server.go:134-144 | the fan-out only appends: every mailbox keeps its earlier contents as a prefix |
| Server.SayBuffer | server.go:133-146 | the buffer after `Say`: every mailbox keeps its earlier contents as a prefix, and a key gains a mailbox only if some recipient before the first unresolved one is keyed there |
| Server.FanoutKeyed | server.go:134-144 | delivering to the resolved prefix appends to the mailbox under a key one copy per recipient keyed there, after its earlier contents |
| Server.KeyedToHash | server.go:121 | the recipients keyed by the key of a hash are exactly those with that hash |
| Server.FanoutMailbox | server.go:133-146 | delivering to the resolved prefix appends to the mailbox of an identity one copy per recipient resolving to it |
| Server.SayMailbox | server.go:133-146 | after `Say`, each mailbox holds its earlier contents followed by one copy per recipient before the first unresolved one that resolves to it (so a duplicate recipient gets two); no other mailbox changes |
| Server.SayAllResolved | server.go:133-146 | with every recipient resolved, "OK" and every recipient's mailbox grows |
| Server.SayNotAtomic | server.go:137-143 | a resolved first recipient followed by an unresolved one: the error is reported and the first copy stays delivered |
| Server.Registered | server.go:80-89 | only an unknown requester can be added, under its own key, and exactly when the key store has a key for it; known local users are kept |
| Server.RegisteredKeyedByIdent | server.go:80-89 | registration keeps every local user under the key of its own hash |
| Server.AfterFetch | server.go:90-98 | a purging fetch empties an existing mailbox; otherwise nothing changes; other mailboxes are unchanged |
| Server.PurgeThenFetch | server.go:92-96 | a fetch after a purging fetch returns nothing, and a later delivery starts the mailbox afresh |
| Server.NameResult | server.go:148-157 | a local user whose key equals the handle first, else the directory's first match, else the error flag with no identity; the profile URL is always empty |
| Server.NamePlainHandle | server.go:150 | a handle whose length is not a multiple of 4 never hits the local-user branch, so only the directory answers it |
| Server.GSDPServer.Initialize | server.go:159-167 | empty local users and mailboxes, the given stores and pool, and `clients` still nil |
| Server.GSDPServer.getClient | server.go:68-77 | the cached client, or nil if the identity is not a local user. For a local user not cached yet, a new client for that user over the server's directory and pool is cached, or the write into the nil `clients` map panics |
| Server.GSDPServer.GetMine | server.go:79-100 | returns the requester's identity, `SinceUtc` and mailbox (empty if none), purges it when asked, and registers an unknown requester whose key is in the store |
| Server.GSDPServer.deliverTo | server.go:120-131 | the identity's mailbox gains the message at its end; the acknowledgement is no error and an empty detail |
| Server.GSDPServer.Say | server.go:133-146 | the mailboxes after delivering to every recipient before the first unresolved one, and the acknowledgement of `SayAck` |
| Server.GSDPServer.sayTo | server.go:134-143 | delivers to the directory's first match for the recipient exactly when there is one |
| Server.GSDPServer.Name | server.go:148-157 | returns `NameResult` of the local users and the directory |
| Server.LocalUserClientPanics | server.go:68-77 | on a freshly initialised server, a user registered by `GetMine` cannot get a client: `getClient` panics |
| Cli.LongestString | cli/cli.go:7-19 | the scan of `Longest`, and 0 for an empty matrix or an empty first row whatever later rows hold |
| Cli.RowMaxBounds | cli/cli.go:13-17 | the row scan ends at least at its start and at every cell's length |
| Cli.RowMaxAttained | cli/cli.go:13-17 | the row scan ends at its start or at some cell's length |
| Cli.GridMaxBounds | cli/cli.go:12-18 | the grid scan bounds every cell of every row |
| Cli.GridMaxAttained | cli/cli.go:12-18 | the grid scan ends at its start or at some cell's length |
| Cli.LongestBounds | cli/cli.go:7-19 | with a non-empty first row, the result is at least the length of every cell |
| Cli.LongestAttained | cli/cli.go:7-19 | with a non-empty first row, the result is the length of some cell |
| Cli.Padding | cli/cli.go:23-27 | the number of spaces after the cell makes `max(len(s), lm)` characters with the cell, and is positive exactly when the cell is shorter than `lm` |
| Cli.Pad | cli/cli.go:22-27 | the cell unchanged and then spaces only, `max(len(s), lm)` characters in all |
| Cli.PrintPaddedStr | cli/cli.go:22-27 | writes the cell followed by `max(0, lm - len(s))` spaces |
| Cli.ColumnWidth | cli/cli.go:34 | the column width is at least 4, and with a non-empty first row it is at least 4 more than every cell's length |
| Cli.PrintRow | cli/cli.go:37-39 | the row's cells in order, each padded to the width |
| Cli.PrintGrid | cli/cli.go:32-42 | each row is two spaces, its cells padded to `longestString + 4` and a newline, in row order |
| Cli.CellGap | cli/cli.go:34-38 | with a non-empty first row, every cell is followed by at least 4 spaces and fills exactly the column width |
| Cli.RowTextLength | cli/cli.go:37-39 | with cells no wider than the width, a row's text has the width's number of characters per cell |
| Cli.GridAligned | cli/cli.go:32-42 | with a non-empty first row, cell k of any row starts after exactly k column widths and fills one: the columns line up |
| Cli.EmptyFirstRowWidth | cli/cli.go:8-10 | with an empty first row the width is 4, so a later cell of 4 or more characters is written with no gap |

## Left out

- Networking: `grpc.Dial`, `Serve`, `net.Listen` and the generated RPC clients are left out. The dial outcome and each remote call's reply are parameters.
- Concurrency: the mutexes, the goroutines, `Start`/`ReapForPool` and its sleeping loop are left out. Each method is one atomic step, and blocking on a channel is a precondition (see the pool members below).
- Closing transports: `c.conn.Close()` and `close(ch)` have no observable effect in the model.
- Logging and printing (`log.Printf`, the `fmt.Printf` calls of `GetMine` and `Name`) are left out.
- File I/O is left out: the file-loading constructors of the stores, `LoadBytes`, `LoadIdentity`, `LoadPublicIdentity`, and the `SaveIdentity` call inside `AddIdentity`.
- Placeholder RPCs that return constants or do nothing are left out: `Sup`, `K`, `Btw`, `StartBlock`, `LeaveBlock`, `tryGetPermissions`, `RequestPermissionsFrom`, `GetPendingPermissions`.
- cli/driver.go is not part of this model. It holds flag parsing, configuration, environment variables and file loading.
- The `ongoingBlocks` field of the server is never read or written by the modelled operations.
- Key serialization is left out: `BytesToPrivKey`, `BytesToPubKey`, `PubKeyToBytes` and `PrivKeyToBytes` are folded into the primitives. A key that fails to parse is not modelled.
- Cryptography.DoRawMessageEncryption: `rsa.EncryptPKCS1v15` draws random padding from the random source. The model's `rsaEncrypt` is a function of the public key and the session key alone, so two wraps of the same key are equal in the model; no property relies on this.
- RSA, AES-GCM and SHA-256 are uninterpreted. Their correctness is the assumption `CipherAxioms`. Tamper detection by GCM is not stated.
- Cryptography.DoRawMessageEncryption: modelled on values. It returns the updated envelope instead of writing through the pointer.
- KeyStore.ToLower: lowers ASCII letters only. `strings.ToLower` also folds non-ASCII letters.
- Cli.PrintPaddedStr: counts length in characters, where Go's `len` counts UTF-8 bytes. It writes the cell as text, where `fmt.Printf(s)` would interpret `%` directives in it.
- Cli.LongestString: counts cell lengths in characters, where Go's `len` counts UTF-8 bytes; the same holds for Cli.PrintGrid, Cli.CellGap, Cli.ColumnWidth and Cli.Padding, which rest on those lengths.
- ConnPool.ConnectionPool.GetConnection: requires a tracked domain's slot to be full. In the code a receive from an empty slot blocks until another holder releases the record, and blocking is not modelled.
- ConnPool.ConnectionPool.GetConnection: on a dial failure the code returns with the pool lock still held, so every later `GetConnection` for any domain, and the reaper, would block at `Lock()`. The model does not track the lock and lets later calls for other domains proceed.
- ConnPool.ConnectionPool.ReleaseConnection: requires a known domain's slot to be empty and the record to be that domain's own. A send into a full slot blocks. Handing in a foreign record would break the pool invariant, and the model does not follow it.
- ConnPool.ConnectionPool.ReapConnectionNotThreadSafe: requires the domain's slot to be full when it has a receiver, because the receive waits for the holder.
- ConnPool.ConnectionPool.ReapNotThreadSafe: requires every idle record to be checked in, because the reaper would otherwise wait while holding the pool lock.
- Client.GSDPClient.GetMine: requires the target domain's slot to be full (`Ready`), for the reason given under `GetConnection`. The same holds for Client.GSDPClient.Say, Client.GSDPClient.Name and Client.GSDPClient.SendK.
- Client.GSDPClient.GetMine: the trailing `GetRequest` fields (a zero and an empty byte slice) are not part of the modelled request.
- Timestamps are unbounded integers: `int64` overflow of `time.Now().Unix()` is not modelled.
