/** Wire records of the store-and-forward protocol (the generated protocol
    package), reduced to the fields the core reads or writes, plus the small
    value types shared by every other module. */
module Protocol {

  /** One octet. */
  type byte = b: int | 0 <= b < 256

  type Bytes = seq<byte>

  /** A Go pointer that may be nil, or a lookup that may miss. */
  datatype Option<+T> = None | Some(value: T)

  /** A public identity: `Ident` is the SHA-256 hash of `PubKey`. */
  datatype Identity = Identity(
    ident: Bytes,
    handle: string,
    name: string,
    domain: string,
    pubKey: Bytes,
    profileUrl: string)

  /** An identity together with its private key, held by the owning process. */
  datatype LocalUser = LocalUser(identity: Identity, privKey: Bytes)

  datatype MessageType = Plain

  /** The sealed envelope. `aux1`, `aux2` and `aux3` are the byte fields the
      core never reads or writes (reserved for signatures and metadata). */
  datatype RawMessage = RawMessage(
    fromIdent: Identity,
    toIdent: seq<Identity>,
    symKey: Bytes,
    msgType: MessageType,
    messageContent: Bytes,
    nonce: Bytes,
    aux1: Bytes,
    timestamp: int,
    aux2: Bytes,
    aux3: Bytes)

  /** Acknowledgement of `Say` and of `deliverTo`. */
  datatype MessageAck = MessageAck(isError: bool, detail: string)

  datatype GetRequest = GetRequest(fromIdent: Identity, sinceUtc: int, purge: bool)

  datatype PendingData = PendingData(fromIdent: Identity, sinceUtc: int, messages: seq<RawMessage>)

  datatype NameInquiry = NameInquiry(fromIdent: Identity, requestHandle: string, requestDomain: string)

  /** `identity` is nil (None) exactly when the server did not find the user. */
  datatype NameResponse = NameResponse(isError: bool, identity: Option<Identity>, profileUrl: string)

  /** A permission grant: the identity it concerns, a level tag, a rank and
      six capability flags. */
  datatype UserPermissions = UserPermissions(
    ident: Identity,
    level: string,
    rank: int,
    flags: seq<bool>)
}
