/** The identity directory and the private key stores of keystore.go: the
    prefix test `SameBytes`, the first-match lookups and the in-memory append. */
module KeyStore {
  import opened Protocol

  /** `x` is a prefix of `y` (the reference definition `SameBytes` is held to). */
  predicate IsPrefix(x: Bytes, y: Bytes) {
    |x| <= |y| && forall i :: 0 <= i < |x| ==> x[i] == y[i]
  }

  /** `SameBytes`: walks the indices of `x` and fails at the first one that is
      past the end of `y` or holds a different byte. */
  method SameBytes(x: Bytes, y: Bytes) returns (same: bool)
    ensures same <==> IsPrefix(x, y)
  {
    var i := 0;
    while i < |x|
      invariant 0 <= i <= |x|
      invariant i <= |y| && forall j :: 0 <= j < i ==> x[j] == y[j]
    {
      if i >= |y| || x[i] != y[i] {
        return false;
      }
      i := i + 1;
    }
    return true;
  }

  /** The empty slice matches everything, every slice matches itself, and a
      match says nothing about the other direction. */
  lemma PrefixFacts(x: Bytes, y: Bytes)
    ensures IsPrefix([], y)
    ensures IsPrefix(x, x)
    ensures IsPrefix([1], [1, 2]) && !IsPrefix([1, 2], [1])
    ensures IsPrefix(x, y) && IsPrefix(y, x) ==> x == y
  {
    if IsPrefix(x, y) && IsPrefix(y, x) {
      assert |x| == |y|;
    }
  }

  /** ASCII lower-casing, standing for `strings.ToLower`. */
  function ToLower(s: string): (r: string)
    ensures |r| == |s|
    ensures forall i :: 0 <= i < |s| ==> r[i] == if 'A' <= s[i] <= 'Z' then (s[i] as int + 32) as char else s[i]
  {
    if s == [] then [] else
      var c := s[0];
      [if 'A' <= c <= 'Z' then (c as int + 32) as char else c] + ToLower(s[1..])
  }

  lemma ToLowerIdempotent(s: string)
    ensures ToLower(ToLower(s)) == ToLower(s)
  {
  }

  /** The match condition of `GetIdentityForHandleDomain`: the same handle,
      the same domain up to case. */
  predicate Matches(v: Identity, handle: string, domain: string) {
    v.handle == handle && ToLower(v.domain) == ToLower(domain)
  }

  /** Index of the first entry of `s` matching (handle, domain), or |s|. */
  function FirstMatch(s: seq<Identity>, handle: string, domain: string): (k: nat)
    ensures k <= |s|
    ensures forall j :: 0 <= j < k ==> !Matches(s[j], handle, domain)
    ensures k < |s| ==> Matches(s[k], handle, domain)
    decreases |s|
  {
    if s == [] then 0
    else if Matches(s[0], handle, domain) then 0
    else 1 + FirstMatch(s[1..], handle, domain)
  }

  /** The directory lookup as a value: the first matching entry, or nil. */
  function Lookup(s: seq<Identity>, handle: string, domain: string): (r: Option<Identity>)
    ensures r.None? <==> forall j :: 0 <= j < |s| ==> !Matches(s[j], handle, domain)
    ensures r.Some? ==> Matches(r.value, handle, domain)
  {
    var k := FirstMatch(s, handle, domain);
    if k < |s| then Some(s[k]) else None
  }

  /** Appending never changes which earlier entry wins, and an appended
      identity is found by its own handle and domain. */
  lemma {:induction false} LookupAfterAppend(s: seq<Identity>, id: Identity, handle: string, domain: string)
    ensures Lookup(s + [id], handle, domain) ==
      if Lookup(s, handle, domain).Some? then Lookup(s, handle, domain)
      else if Matches(id, handle, domain) then Some(id) else None
  {
    var t := s + [id];
    var k := FirstMatch(s, handle, domain);
    var k' := FirstMatch(t, handle, domain);
    assert forall j :: 0 <= j < |s| ==> t[j] == s[j];
    if k < |s| {
      assert k' == k;
    } else {
      assert k' >= |s|;
      assert t[|s|] == id;
    }
  }

  lemma AddedIdentityIsFound(s: seq<Identity>, id: Identity)
    ensures Lookup(s + [id], id.handle, id.domain).Some?
  {
    LookupAfterAppend(s, id, id.handle, id.domain);
  }

  /** `InMemoryIdentStore`: the identity directory the broker consults. The
      mutex is not modelled: each method is one atomic step. */
  class InMemoryIdentStore {
    var Idents: seq<Identity>
    const SrcPath: string

    constructor (ids: seq<Identity>, path: string)
      ensures Idents == ids && SrcPath == path
    {
      Idents := ids;
      SrcPath := path;
    }

    /** `AddIdentity`: appends, keeping earlier entries and their order, with
        no deduplication. */
    method AddIdentity(id: Identity)
      modifies this
      ensures Idents == old(Idents) + [id]
      ensures Lookup(Idents, id.handle, id.domain).Some?
    {
      AddedIdentityIsFound(Idents, id);
      Idents := Idents + [id];
    }

    /** `GetIdentityForHandleDomain`: linear search, first match wins. */
    method GetIdentityForHandleDomain(handle: string, domain: string) returns (r: Option<Identity>)
      ensures r == Lookup(Idents, handle, domain)
      ensures r.Some? ==> exists k :: 0 <= k < |Idents| && Idents[k] == r.value && Matches(Idents[k], handle, domain) &&
                                      forall j :: 0 <= j < k ==> !Matches(Idents[j], handle, domain)
    {
      var i := 0;
      while i < |Idents|
        invariant 0 <= i <= |Idents|
        invariant forall j :: 0 <= j < i ==> !Matches(Idents[j], handle, domain)
      {
        var v := Idents[i];
        if v.handle == handle && ToLower(v.domain) == ToLower(domain) {
          assert FirstMatch(Idents, handle, domain) == i;
          return Some(v);
        }
        i := i + 1;
      }
      return None;
    }
  }

  /** The private key stores behind the `PrivateKeyStore` interface. */
  datatype PrivateKeyStore =
    | SingleKeyStore(ident: Bytes, privateKey: Bytes)
    | FilePrivateKeyStore(idents: seq<LocalUser>)

  /** Index of the first local user whose identity hash is a prefix of `bs`, or |s|. */
  function FirstKeyMatch(s: seq<LocalUser>, bs: Bytes): (k: nat)
    ensures k <= |s|
    ensures forall j :: 0 <= j < k ==> !IsPrefix(s[j].identity.ident, bs)
    ensures k < |s| ==> IsPrefix(s[k].identity.ident, bs)
    decreases |s|
  {
    if s == [] then 0
    else if IsPrefix(s[0].identity.ident, bs) then 0
    else 1 + FirstKeyMatch(s[1..], bs)
  }

  /** The key a store returns for `bs`, or nil. */
  function KeyFor(store: PrivateKeyStore, bs: Bytes): (r: Option<Bytes>)
    ensures store.SingleKeyStore? ==>
      r == if IsPrefix(store.ident, bs) then Some(store.privateKey) else None
    ensures store.FilePrivateKeyStore? ==>
      (r.None? <==> forall j :: 0 <= j < |store.idents| ==> !IsPrefix(store.idents[j].identity.ident, bs))
    ensures store.FilePrivateKeyStore? && r.Some? ==>
      exists k :: 0 <= k < |store.idents| && r.value == store.idents[k].privKey
        && IsPrefix(store.idents[k].identity.ident, bs)
        && forall j :: 0 <= j < k ==> !IsPrefix(store.idents[j].identity.ident, bs)
  {
    match store
    case SingleKeyStore(ident, pk) => if IsPrefix(ident, bs) then Some(pk) else None
    case FilePrivateKeyStore(ids) =>
      var k := FirstKeyMatch(ids, bs);
      if k < |ids| then Some(ids[k].privKey) else None
  }

  /** `GetKeyFor` of either store. */
  method GetKeyFor(store: PrivateKeyStore, bs: Bytes) returns (r: Option<Bytes>)
    ensures r == KeyFor(store, bs)
  {
    match store
    case SingleKeyStore(ident, pk) =>
      var same := SameBytes(ident, bs);
      if same {
        r := Some(pk);
      } else {
        r := None;
      }
    case FilePrivateKeyStore(ids) =>
      var i := 0;
      while i < |ids|
        invariant 0 <= i <= |ids|
        invariant forall j :: 0 <= j < i ==> !IsPrefix(ids[j].identity.ident, bs)
      {
        var v := ids[i];
        var same := SameBytes(v.identity.ident, bs);
        if same {
          assert FirstKeyMatch(ids, bs) == i;
          return Some(v.privKey);
        }
        i := i + 1;
      }
      return None;
  }

  /** An empty identity hash in a key store matches every request: the store
      hands its key to any caller. */
  lemma EmptyIdentMatchesAll(pk: Bytes, bs: Bytes)
    ensures KeyFor(SingleKeyStore([], pk), bs) == Some(pk)
  {
  }
}
