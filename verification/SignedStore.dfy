/**
 Signed, time-limited query tokens over the vector store.

 Hashing, certificates and signatures are parameters. An embedding is a sequence of raw 32-bit words,
 as it is hashed, and is decoded to real numbers for the search.
 */
module SignedMemory {
  import opened Bytes
  import opened VectorMemory
  import opened Wrappers

  type Word = n: nat | n < 0x1_0000_0000

  const INT64_MIN: int := -0x8000_0000_0000_0000
  const INT64_MAX: int := 0x7FFF_FFFF_FFFF_FFFF

  type Int64 = n: int | INT64_MIN <= n <= INT64_MAX

  /** What is signed. */
  datatype Claims = Claims(nodeId: seq<byte>, issuedAt: Int64, topK: Int64, embedding: seq<Word>)

  datatype QueryToken = QueryToken(claims: Claims, signature: seq<byte>)

  datatype SignedQueryRequest = SignedQueryRequest(token: QueryToken, certDer: seq<byte>)

  datatype AuthError = TokenExpired | CertUnreadable | UnknownNode | BadKey | TokenInvalid

  datatype SignError = NoCertificate | KeyNotEcdsa

  /** Nanoseconds. */
  const TOKEN_TTL: int := 30_000_000_000

  // ---------------------------------------------------------- what is hashed

  /** Go's conversion of an int64 to a uint64. */
  function Unsigned(n: Int64): (u: nat)
    ensures u < 0x1_0000_0000_0000_0000
  {
    if n < 0 then n + 0x1_0000_0000_0000_0000 else n
  }

  function WordBytes(ws: seq<Word>): (s: seq<byte>)
    ensures |s| == 4 * |ws|
  {
    if ws == [] then [] else WordBytes(ws[..|ws| - 1]) + BigEndian(ws[|ws| - 1], 4)
  }

  /** Length-prefixed node ID, both numbers, then the embedding. */
  function TokenBytes(c: Claims): seq<byte> {
    BigEndian(|c.nodeId|, 8) + (c.nodeId + (BigEndian(Unsigned(c.issuedAt), 8)
    + (BigEndian(Unsigned(c.topK), 8) + WordBytes(c.embedding))))
  }

  /** `binary.BigEndian.PutUint64` */
  method PutUint64(buf: array<byte>, v: nat)
    requires buf.Length == 8 && v < 0x1_0000_0000_0000_0000
    modifies buf
    ensures buf[..] == BigEndian(v, 8)
  {
    var bytes := BigEndian(v, 8);
    forall i | 0 <= i < 8 { buf[i] := bytes[i]; }
  }

  /** `binary.BigEndian.PutUint32` at an offset. */
  method PutUint32(buf: array<byte>, at: nat, v: Word)
    requires at + 4 <= buf.Length
    modifies buf
    ensures buf[..] == old(buf[..at]) + BigEndian(v, 4) + old(buf[at + 4..])
  {
    var bytes := BigEndian(v, 4);
    forall i | 0 <= i < 4 { buf[at + i] := bytes[i]; }
  }

  /** The bytes that `tokenDigest` feeds to the hash, written through its buffers. */
  method TokenDigestInput(c: Claims) returns (written: seq<byte>)
    requires |c.nodeId| <= INT64_MAX
    ensures written == TokenBytes(c)
  {
    var lenBuf := new byte[8];
    PutUint64(lenBuf, |c.nodeId|);
    written := lenBuf[..];
    written := written + c.nodeId;
    PutUint64(lenBuf, Unsigned(c.issuedAt));
    var issued := lenBuf[..];
    written := written + issued;
    PutUint64(lenBuf, Unsigned(c.topK));
    var topK := lenBuf[..];
    written := written + topK;
    var buf := new byte[4 * |c.embedding|];
    for i := 0 to |c.embedding|
      invariant buf[..4 * i] == WordBytes(c.embedding[..i])
    {
      PutUint32(buf, 4 * i, c.embedding[i]);
      assert c.embedding[..i + 1][..i] == c.embedding[..i];
      assert buf[..4 * (i + 1)] == buf[..4 * i] + BigEndian(c.embedding[i], 4);
    }
    assert c.embedding[..|c.embedding|] == c.embedding && buf[..4 * |c.embedding|] == buf[..];
    written := written + buf[..];
    TokenBytesFlat(c);
  }

  lemma TokenBytesFlat(c: Claims)
    ensures TokenBytes(c) == BigEndian(|c.nodeId|, 8) + c.nodeId + BigEndian(Unsigned(c.issuedAt), 8)
                             + BigEndian(Unsigned(c.topK), 8) + WordBytes(c.embedding)
  {
  }

  lemma {:induction false} WordAt(ws: seq<Word>, i: nat)
    requires i < |ws|
    ensures WordBytes(ws)[4 * i..4 * i + 4] == BigEndian(ws[i], 4)
  {
    var n := |ws| - 1;
    if i < n {
      WordAt(ws[..n], i);
      assert WordBytes(ws)[..4 * n] == WordBytes(ws[..n]);
      SliceOfPrefix(WordBytes(ws), 4 * n, 4 * i, 4 * i + 4);
    }
  }

  lemma SliceOfPrefix(s: seq<byte>, m: nat, i: nat, j: nat)
    requires i <= j <= m <= |s|
    ensures s[..m][i..j] == s[i..j]
  {
  }

  /** What is hashed, part by part: big-endian length, node ID, issue time and topK in two's complement, the words. */
  lemma TokenLayout(c: Claims)
    ensures var s, n := TokenBytes(c), |c.nodeId|;
            && |s| == 24 + n + 4 * |c.embedding|
            && s[..8] == BigEndian(n, 8)
            && s[8..8 + n] == c.nodeId
            && s[8 + n..16 + n] == BigEndian(c.issuedAt % 0x1_0000_0000_0000_0000, 8)
            && s[16 + n..24 + n] == BigEndian(c.topK % 0x1_0000_0000_0000_0000, 8)
            && forall i :: 0 <= i < |c.embedding| ==>
                 s[24 + n + 4 * i..24 + n + 4 * i + 4] == BigEndian(c.embedding[i], 4)
  {
    hide BigEndian, WordBytes;
    var s, n := TokenBytes(c), |c.nodeId|;
    TokenBytesFlat(c);
    assert s[24 + n..] == WordBytes(c.embedding);
    forall i | 0 <= i < |c.embedding|
      ensures s[24 + n + 4 * i..24 + n + 4 * i + 4] == BigEndian(c.embedding[i], 4)
    {
      WordAt(c.embedding, i);
      assert s[24 + n..][4 * i..4 * i + 4] == s[24 + n + 4 * i..24 + n + 4 * i + 4];
    }
  }

  lemma {:induction false} WordBytesInjective(a: seq<Word>, b: seq<Word>)
    requires WordBytes(a) == WordBytes(b)
    ensures a == b
  {
    if a != [] {
      var n := |a| - 1;
      var s := WordBytes(a);
      assert s[..4 * n] == WordBytes(a[..n]) && s[4 * n..] == BigEndian(a[n], 4);
      assert s[..4 * n] == WordBytes(b[..n]) && s[4 * n..] == BigEndian(b[n], 4);
      WordBytesInjective(a[..n], b[..n]);
      Capacities();
      BigEndianInjective(a[n], b[n], 4);
      assert a == a[..n] + [a[n]] && b == b[..n] + [b[n]];
    }
  }

  lemma SplitFront(p: seq<byte>, s: seq<byte>, q: seq<byte>, t: seq<byte>)
    requires p + s == q + t && |p| == |q|
    ensures p == q && s == t
  {
    assert (p + s)[..|p|] == p && (q + t)[..|p|] == q;
    assert (p + s)[|p|..] == s && (q + t)[|p|..] == t;
  }

  /** Two variable-length parts notwithstanding, the hashed bytes determine every field of the claims. */
  lemma TokenBytesInjective(a: Claims, b: Claims)
    requires |a.nodeId| <= INT64_MAX && |b.nodeId| <= INT64_MAX
    requires TokenBytes(a) == TokenBytes(b)
    ensures a == b
  {
    hide BigEndian, WordBytes;
    Capacities();
    var a3 := BigEndian(Unsigned(a.topK), 8) + WordBytes(a.embedding);
    var b3 := BigEndian(Unsigned(b.topK), 8) + WordBytes(b.embedding);
    var a2, b2 := BigEndian(Unsigned(a.issuedAt), 8) + a3, BigEndian(Unsigned(b.issuedAt), 8) + b3;
    SplitFront(BigEndian(|a.nodeId|, 8), a.nodeId + a2, BigEndian(|b.nodeId|, 8), b.nodeId + b2);
    BigEndianInjective(|a.nodeId|, |b.nodeId|, 8);
    SplitFront(a.nodeId, a2, b.nodeId, b2);
    SplitFront(BigEndian(Unsigned(a.issuedAt), 8), a3, BigEndian(Unsigned(b.issuedAt), 8), b3);
    BigEndianInjective(Unsigned(a.issuedAt), Unsigned(b.issuedAt), 8);
    SplitFront(BigEndian(Unsigned(a.topK), 8), WordBytes(a.embedding),
               BigEndian(Unsigned(b.topK), 8), WordBytes(b.embedding));
    BigEndianInjective(Unsigned(a.topK), Unsigned(b.topK), 8);
    WordBytesInjective(a.embedding, b.embedding);
  }

  // ------------------------------------------------------------ cryptography

  type Cert = nat
  type PublicKey = nat
  type PrivateKey = nat

  datatype Crypto = Crypto(
    hash: seq<byte> -> seq<byte>,
    parse: seq<byte> -> Option<Cert>,
    /** Signed by the mesh CA, for client authentication. */
    trusted: Cert -> bool,
    /** The ECDSA key of a certificate, if that is what it has. */
    ecdsaKey: Cert -> Option<PublicKey>,
    publicOf: PrivateKey -> PublicKey,
    /** Signatures are randomised. */
    sign: (PrivateKey, seq<byte>, nat) -> seq<byte>,
    verify: (PublicKey, seq<byte>, seq<byte>) -> bool)

  /** What a key has signed verifies under its public half. */
  ghost predicate SignaturesVerify(k: Crypto) {
    forall key, digest, r :: k.verify(k.publicOf(key), digest, k.sign(key, digest, r))
  }

  /** The checks of `AuthorisedQuery`, in their order; `None` lets the query through. */
  function Admission(k: Crypto, req: SignedQueryRequest, now: int): Option<AuthError> {
    var c := req.token.claims;
    if now - c.issuedAt > TOKEN_TTL then Some(TokenExpired)
    else
      match k.parse(req.certDer)
      case None => Some(CertUnreadable)
      case Some(cert) =>
        if !k.trusted(cert) then Some(UnknownNode)
        else
          match k.ecdsaKey(cert)
          case None => Some(BadKey)
          case Some(pub) =>
            if k.verify(pub, k.hash(TokenBytes(c)), req.token.signature) then None else Some(TokenInvalid)
  }

  /** A certificate chain and its private key, if that is an ECDSA key. */
  datatype TlsCertificate = TlsCertificate(leafDer: seq<byte>, ecdsaPrivateKey: Option<PrivateKey>)

  /** `SignQuery` */
  method SignQuery(
    k: Crypto, certificates: seq<TlsCertificate>, embedding: seq<Word>, topK: Int64, nodeId: seq<byte>,
    now: Int64, random: nat)
    returns (r: Result<SignedQueryRequest, SignError>)
    requires |nodeId| <= INT64_MAX
    ensures r ==
      if certificates == [] then Err(NoCertificate)
      else if certificates[0].ecdsaPrivateKey.None? then Err(KeyNotEcdsa)
      else
        var c := Claims(nodeId, now, topK, embedding);
        var sig := k.sign(certificates[0].ecdsaPrivateKey.value, k.hash(TokenBytes(c)), random);
        Ok(SignedQueryRequest(QueryToken(c, sig), certificates[0].leafDer))
  {
    hide TokenBytes;
    if certificates == [] { return Err(NoCertificate); }
    var cert := certificates[0];
    if cert.ecdsaPrivateKey.None? { return Err(KeyNotEcdsa); }
    var claims := Claims(nodeId, now, topK, embedding);
    var input := TokenDigestInput(claims);
    var sig := k.sign(cert.ecdsaPrivateKey.value, k.hash(input), random);
    r := Ok(SignedQueryRequest(QueryToken(claims, sig), cert.leafDer));
  }

  /** The certificate belongs to the signing key and is trusted. */
  predicate TrustedLeaf(k: Crypto, cert: TlsCertificate) {
    && cert.ecdsaPrivateKey.Some?
    && k.parse(cert.leafDer).Some?
    && k.trusted(k.parse(cert.leafDer).value)
    && k.ecdsaKey(k.parse(cert.leafDer).value) == Some(k.publicOf(cert.ecdsaPrivateKey.value))
  }

  /**
   A token signed with a trusted leaf is let through until thirty seconds after its issue time and not a
   moment longer. A token dated in the future is let through from now on, so for longer than that.
   */
  lemma SignedTokenIsAdmitted(k: Crypto, cert: TlsCertificate, c: Claims, random: nat, now: int)
    requires SignaturesVerify(k) && TrustedLeaf(k, cert)
    ensures var sig := k.sign(cert.ecdsaPrivateKey.value, k.hash(TokenBytes(c)), random);
            Admission(k, SignedQueryRequest(QueryToken(c, sig), cert.leafDer), now)
              == if now - c.issuedAt <= TOKEN_TTL then None else Some(TokenExpired)
  {
    hide TokenBytes;
    var key, digest := cert.ecdsaPrivateKey.value, k.hash(TokenBytes(c));
    assert k.verify(k.publicOf(key), digest, k.sign(key, digest, random));
  }

  /** Only digests of issued claims verify under this key. */
  ghost predicate SignsOnly(k: Crypto, pub: PublicKey, issued: set<Claims>) {
    forall digest, sig :: k.verify(pub, digest, sig) ==> exists c :: c in issued && digest == k.hash(TokenBytes(c))
  }

  /**
   No mix-up: if a key signs only the claims in `issued`, a request admitted under that key carries
   claims that were issued, every field alike, unless two different byte strings share a hash.
   */
  lemma AdmittedClaimsWereIssued(k: Crypto, req: SignedQueryRequest, now: int, issued: set<Claims>)
    returns (c: Claims)
    requires Admission(k, req, now).None?
    requires SignsOnly(k, k.ecdsaKey(k.parse(req.certDer).value).value, issued)
    requires |req.token.claims.nodeId| <= INT64_MAX
    requires forall i <- issued :: |i.nodeId| <= INT64_MAX
    ensures c in issued && k.hash(TokenBytes(c)) == k.hash(TokenBytes(req.token.claims))
    ensures c == req.token.claims || TokenBytes(c) != TokenBytes(req.token.claims)
  {
    hide TokenBytes;
    c :| c in issued && k.hash(TokenBytes(req.token.claims)) == k.hash(TokenBytes(c));
    if TokenBytes(c) == TokenBytes(req.token.claims) {
      TokenBytesInjective(c, req.token.claims);
    }
  }

  // ------------------------------------------------------------------ the store

  function Decoded(ws: seq<Word>, float: Word -> real): (xs: seq<real>)
    ensures |xs| == |ws| && forall i :: 0 <= i < |ws| ==> xs[i] == float(ws[i])
  {
    seq(|ws|, i requires 0 <= i < |ws| => float(ws[i]))
  }

  class SignedMemoryStore {
    const store: VectorStore
    const crypto: Crypto
    /** `math.Float32frombits` */
    const float: Word -> real

    constructor (store: VectorStore, crypto: Crypto, float: Word -> real)
      ensures this.store == store && this.crypto == crypto && this.float == float
    {
      this.store, this.crypto, this.float := store, crypto, float;
    }

    predicate Fresh(req: SignedQueryRequest, now: int) {
      now - req.token.claims.issuedAt <= 30_000_000_000
    }

    predicate FromTrustedNode(req: SignedQueryRequest) {
      crypto.parse(req.certDer).Some? && crypto.trusted(crypto.parse(req.certDer).value)
    }

    predicate HasEcdsaKey(req: SignedQueryRequest) {
      crypto.parse(req.certDer).Some? && crypto.ecdsaKey(crypto.parse(req.certDer).value).Some?
    }

    predicate SignedByItsKey(req: SignedQueryRequest) {
      && HasEcdsaKey(req)
      && crypto.verify(crypto.ecdsaKey(crypto.parse(req.certDer).value).value,
                       crypto.hash(TokenBytes(req.token.claims)), req.token.signature)
    }

    /**
     Verifies the token and then answers exactly as the plain store would: if the token is at most thirty
     seconds old, its certificate is readable, trusted and has an ECDSA key, and the signature verifies under
     that key. Otherwise the first of these that fails is reported.
     */
    method AuthorisedQuery(req: SignedQueryRequest, now: int) returns (r: Result<seq<MemoryResult>, AuthError>)
      requires store.Valid() && |req.token.claims.nodeId| <= INT64_MAX
      ensures match Admission(crypto, req, now)
              case Some(e) => r == Err(e)
              case None =>
                r.Ok? && IsTopK(store.Now(), Decoded(req.token.claims.embedding, float),
                                req.token.claims.topK, store.sqrt, r.value)
      ensures r.Ok? <==> Fresh(req, now) && FromTrustedNode(req) && HasEcdsaKey(req) && SignedByItsKey(req)
      ensures r == Err(TokenExpired) <==> !Fresh(req, now)
      ensures r == Err(CertUnreadable) <==> Fresh(req, now) && crypto.parse(req.certDer).None?
      ensures r == Err(UnknownNode) <==> Fresh(req, now) && crypto.parse(req.certDer).Some? && !FromTrustedNode(req)
      ensures r == Err(BadKey) <==> Fresh(req, now) && FromTrustedNode(req) && !HasEcdsaKey(req)
      ensures r == Err(TokenInvalid) <==>
                Fresh(req, now) && FromTrustedNode(req) && HasEcdsaKey(req) && !SignedByItsKey(req)
    {
      hide TokenBytes, IsTopK;
      var token := req.token;
      if now - token.claims.issuedAt > TOKEN_TTL { return Err(TokenExpired); }
      var cert := crypto.parse(req.certDer);
      if cert.None? { return Err(CertUnreadable); }
      if !crypto.trusted(cert.value) { return Err(UnknownNode); }
      var ecPub := crypto.ecdsaKey(cert.value);
      if ecPub.None? { return Err(BadKey); }
      var input := TokenDigestInput(token.claims);
      if !crypto.verify(ecPub.value, crypto.hash(input), token.signature) { return Err(TokenInvalid); }
      ghost var view := store.Now();
      var q := Decoded(token.claims.embedding, float);
      var embedding := new real[|q|](i requires 0 <= i < |q| => q[i]);
      assert embedding[..] == q;
      var rs := store.Query(embedding, token.claims.topK);
      assert store.Now() == view;
      r := Ok(rs);
    }

    /**
     One node signs a query and this one answers it: for thirty seconds after the signing the answer is one
     that the plain store gives to the same query, and after that the token has expired.
     */
    method SignThenQuery(
      cert: TlsCertificate, embedding: seq<Word>, topK: Int64, nodeId: seq<byte>, signedAt: Int64, random: nat,
      now: int)
      returns (r: Result<seq<MemoryResult>, AuthError>)
      requires store.Valid() && |nodeId| <= INT64_MAX
      requires SignaturesVerify(crypto) && TrustedLeaf(crypto, cert)
      ensures now - signedAt > TOKEN_TTL ==> r == Err(TokenExpired)
      ensures now - signedAt <= TOKEN_TTL ==>
                r.Ok? && IsTopK(store.Now(), Decoded(embedding, float), topK, store.sqrt, r.value)
    {
      hide TokenBytes, IsTopK, Admission, SignaturesVerify;
      var signed := SignQuery(crypto, [cert], embedding, topK, nodeId, signedAt, random);
      SignedTokenIsAdmitted(crypto, cert, Claims(nodeId, signedAt, topK, embedding), random, now);
      r := AuthorisedQuery(signed.value, now);
    }
  }
}
