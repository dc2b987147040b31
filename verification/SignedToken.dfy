/** Capability tokens: the bytes their signature covers (hal/hal-direct/src/ed25519.rs)
    and the check every direct access makes (hal/hal-direct/src/lib.rs). Ed25519 itself
    is a predicate on messages and signatures. */
module SignedToken {
  import opened Bits
  import opened Options
  import opened LittleEndian

  type U32 = n: nat | n < 0x1_0000_0000

  const MAX_SIGNATURE_BYTES: nat := 64
  const SIGNATURE_SIZE: nat := 64

  datatype CapabilityScope =
    | MmioRegion(physBase: U64, size: U64)
    | PerformanceCounter(counterId: U32)
    | ThreadAffinity(coreId: U32)
    | NumaPolicy

  datatype TokenRecord = TokenRecord(subject: U64, scope: CapabilityScope, expiresAtNs: U64,
                                     signature: seq<Byte>, signatureLen: Byte)
  type Token = t: TokenRecord | |t.signature| == MAX_SIGNATURE_BYTES
    witness TokenRecord(0, NumaPolicy, 0, Zeros(MAX_SIGNATURE_BYTES), 0)

  datatype Answer = Ok | InvalidCapabilityToken

  function Zeros(n: nat): (z: seq<Byte>)
    ensures |z| == n && forall k | 0 <= k < n :: z[k] == 0
  {
    seq(n, _ => 0)
  }

  // ---------------------------------------------------------------------------
  // The signed bytes
  // ---------------------------------------------------------------------------

  /** "SimurghHalDirect". */
  function DomainTag(): (d: seq<Byte>)
    ensures |d| == 16
  {
    [83, 105, 109, 117, 114, 103, 104, 72, 97, 108, 68, 105, 114, 101, 99, 116]
  }

  function ScopeTag(s: CapabilityScope): Byte {
    match s
    case MmioRegion(_, _) => 0
    case PerformanceCounter(_) => 1
    case ThreadAffinity(_) => 2
    case NumaPolicy => 3
  }

  function Payload(s: CapabilityScope): (b: seq<Byte>)
    ensures |b| == 16
  {
    match s
    case MmioRegion(base, size) => LeBytes(base, 8) + LeBytes(size, 8)
    case PerformanceCounter(id) => LeBytes(id, 4) + Zeros(12)
    case ThreadAffinity(id) => LeBytes(id, 4) + Zeros(12)
    case NumaPolicy => Zeros(16)
  }

  const ENCODED_LEN: nat := 49

  function SignedFields(t: Token): (b: seq<Byte>)
    ensures |b| == ENCODED_LEN
  {
    DomainTag() + LeBytes(t.subject, 8) + [ScopeTag(t.scope)] + Payload(t.scope) + LeBytes(t.expiresAtNs, 8)
  }

  /** What a buffer of `n` bytes holds once its front is written. */
  function Filled(done: seq<Byte>, n: nat): seq<Byte>
    requires |done| <= n
  {
    done + Zeros(n - |done|)
  }

  /** Copies `bytes` to `at`, the end of what has been written. */
  method CopyInto(out: array<Byte>, at: nat, bytes: seq<Byte>, ghost done: seq<Byte>)
    requires |done| == at && at + |bytes| <= out.Length && out[..] == Filled(done, out.Length)
    modifies out
    ensures out[..] == Filled(done + bytes, out.Length)
  {
    for i := 0 to |bytes|
      invariant out[..] == Filled(done + bytes[..i], out.Length)
    {
      out[at + i] := bytes[i];
    }
    assert bytes[..|bytes|] == bytes;
  }

  /** `encode_signed_fields`: the buffer is filled from the front, and the slot of the
      scope's own numbers keeps its zeros where a scope has fewer of them. */
  method EncodeSignedFields(token: Token) returns (out: array<Byte>)
    ensures fresh(out) && out[..] == SignedFields(token)
  {
    hide LeBytes, DomainTag, ScopeTag, Filled;
    out := new Byte[ENCODED_LEN](_ => 0);
    var pos := 0;
    ghost var done: seq<Byte> := [];
    EmptyFilled(out[..]);
    CopyInto(out, pos, DomainTag(), done);
    done, pos := done + DomainTag(), pos + 16;
    CopyInto(out, pos, LeBytes(token.subject, 8), done);
    done, pos := done + LeBytes(token.subject, 8), pos + 8;
    CopyInto(out, pos, [ScopeTag(token.scope)], done);
    done, pos := done + [ScopeTag(token.scope)], pos + 1;
    match token.scope {
      case MmioRegion(base, size) =>
        CopyInto(out, pos, LeBytes(base, 8), done);
        CopyInto(out, pos + 8, LeBytes(size, 8), done + LeBytes(base, 8));
        Joined(done, LeBytes(base, 8), LeBytes(size, 8));
      case PerformanceCounter(id) =>
        CopyInto(out, pos, LeBytes(id, 4), done);
        Padded(done, LeBytes(id, 4), 12, out.Length);
      case ThreadAffinity(id) =>
        CopyInto(out, pos, LeBytes(id, 4), done);
        Padded(done, LeBytes(id, 4), 12, out.Length);
      case NumaPolicy =>
        Padded(done, [], 16, out.Length);
        Joined(done, [], Zeros(16));
    }
    done, pos := done + Payload(token.scope), pos + 16;
    CopyInto(out, pos, LeBytes(token.expiresAtNs, 8), done);
    AllFilled(done + LeBytes(token.expiresAtNs, 8), token);
  }

  lemma EmptyFilled(s: seq<Byte>)
    requires forall k | 0 <= k < |s| :: s[k] == 0
    ensures s == Filled([], |s|)
  {
  }

  lemma Joined(done: seq<Byte>, a: seq<Byte>, b: seq<Byte>)
    ensures done + a + b == done + (a + b)
    ensures a == [] ==> done + a == done && a + b == b
  {
  }

  lemma Padded(done: seq<Byte>, a: seq<Byte>, zeros: nat, n: nat)
    requires |done| + |a| + zeros <= n
    ensures Filled(done + a, n) == Filled(done + (a + Zeros(zeros)), n)
    ensures a == [] ==> Filled(done, n) == Filled(done + a, n)
  {
    assert a == [] ==> done + a == done;
  }

  lemma AllFilled(done: seq<Byte>, t: Token)
    requires done == [] + DomainTag() + LeBytes(t.subject, 8) + [ScopeTag(t.scope)] + Payload(t.scope) + LeBytes(t.expiresAtNs, 8)
    ensures |done| == ENCODED_LEN && Filled(done, ENCODED_LEN) == SignedFields(t)
  {
    hide LeBytes, DomainTag, ScopeTag, Payload;
    assert [] + DomainTag() == DomainTag();
    assert done == SignedFields(t);
  }

  predicate SameClaims(a: Token, b: Token) {
    a.subject == b.subject && a.scope == b.scope && a.expiresAtNs == b.expiresAtNs
  }

  lemma LeBytesInjective(v: nat, w: nat, n: nat)
    requires v < Pow256(n) && w < Pow256(n) && LeBytes(v, n) == LeBytes(w, n)
    ensures v == w
  {
    ReadLeBytes(v, n);
    ReadLeBytes(w, n);
  }

  lemma Widths()
    ensures Pow256(4) == 0x1_0000_0000 && Pow256(8) == TWO64
  {
    assert Pow256(8) == 256 * 256 * 256 * 256 * Pow256(4);
  }

  /** Where each field of the signed bytes stands. */
  lemma FieldsStandApart(t: Token)
    ensures SignedFields(t)[16..24] == LeBytes(t.subject, 8)
    ensures SignedFields(t)[24] == ScopeTag(t.scope)
    ensures SignedFields(t)[25..41] == Payload(t.scope)
    ensures SignedFields(t)[41..49] == LeBytes(t.expiresAtNs, 8)
  {
    hide LeBytes, DomainTag, Payload;
  }

  /** The scope's part of the signed bytes, read back: its tag, its numbers, zeros. */
  predicate ScopeAt(b: seq<Byte>, s: CapabilityScope)
    requires |b| == 49
  {
    match s
    case MmioRegion(base, size) => b[24] == 0 && Read(b, 25, 8) == base && Read(b, 33, 8) == size
    case PerformanceCounter(id) => b[24] == 1 && Read(b, 25, 4) == id && forall k | 29 <= k < 41 :: b[k] == 0
    case ThreadAffinity(id) => b[24] == 2 && Read(b, 25, 4) == id && forall k | 29 <= k < 41 :: b[k] == 0
    case NumaPolicy => b[24] == 3 && forall k | 25 <= k < 41 :: b[k] == 0
  }

  /** The 49 signed bytes by offset: the domain's name, the subject, the scope, the expiry. */
  lemma SignedFieldsReadBack(t: Token)
    ensures var b := SignedFields(t);
      && |b| == 49
      && (forall k | 0 <= k < 16 :: b[k] == "SimurghHalDirect"[k] as int)
      && Read(b, 16, 8) == t.subject && ScopeAt(b, t.scope) && Read(b, 41, 8) == t.expiresAtNs
  {
    hide LeBytes, Read, DomainTag, Payload, Pow256;
    var b := SignedFields(t);
    Widths();
    FieldsStandApart(t);
    NumberAt(b, 16, 8, t.subject);
    NumberAt(b, 41, 8, t.expiresAtNs);
    ScopeReads(b, t.scope);
    DomainReads(t);
  }

  lemma NumberAt(b: seq<Byte>, at: nat, n: nat, v: nat)
    requires at + n <= |b| && b[at..at + n] == LeBytes(v, n) && v < Pow256(n)
    ensures Read(b, at, n) == v
  {
    ReadIn(b, at, n, LeBytes(v, n));
    ReadLeBytes(v, n);
  }

  lemma DomainReads(t: Token)
    ensures forall k | 0 <= k < 16 :: SignedFields(t)[k] == "SimurghHalDirect"[k] as int
  {
    hide LeBytes, Payload;
    assert forall k | 0 <= k < 16 :: SignedFields(t)[k] == DomainTag()[k];
  }

  lemma ScopeReads(b: seq<Byte>, s: CapabilityScope)
    requires |b| == 49 && b[24] == ScopeTag(s) && b[25..41] == Payload(s)
    ensures ScopeAt(b, s)
  {
    hide LeBytes, Read, Pow256;
    Widths();
    var p := b[25..41];
    assert forall k | 25 <= k < 41 :: b[k] == p[k - 25];
    match s
    case MmioRegion(base, size) =>
      assert b[25..25 + 8] == p[..8] && b[33..33 + 8] == p[8..];
      NumberAt(b, 25, 8, base);
      NumberAt(b, 33, 8, size);
    case PerformanceCounter(id) =>
      assert b[25..25 + 4] == p[..4];
      NumberAt(b, 25, 4, id);
    case ThreadAffinity(id) =>
      assert b[25..25 + 4] == p[..4];
      NumberAt(b, 25, 4, id);
    case NumaPolicy =>
  }

  lemma PayloadInjective(s: CapabilityScope, t: CapabilityScope)
    requires ScopeTag(s) == ScopeTag(t) && Payload(s) == Payload(t)
    ensures s == t
  {
    hide LeBytes, Pow256;
    Widths();
    match s
    case MmioRegion(base, size) =>
      assert Payload(s)[..8] == LeBytes(base, 8) && Payload(s)[8..] == LeBytes(size, 8);
      assert Payload(t)[..8] == LeBytes(t.physBase, 8) && Payload(t)[8..] == LeBytes(t.size, 8);
      LeBytesInjective(base, t.physBase, 8);
      LeBytesInjective(size, t.size, 8);
    case PerformanceCounter(id) =>
      assert Payload(s)[..4] == LeBytes(id, 4) && Payload(t)[..4] == LeBytes(t.counterId, 4);
      LeBytesInjective(id, t.counterId, 4);
    case ThreadAffinity(id) =>
      assert Payload(s)[..4] == LeBytes(id, 4) && Payload(t)[..4] == LeBytes(t.coreId, 4);
      LeBytesInjective(id, t.coreId, 4);
    case NumaPolicy =>
  }

  /** Two tokens have the same signed bytes exactly when they make the same claims. */
  lemma SignedFieldsInjective(a: Token, b: Token)
    ensures SignedFields(a) == SignedFields(b) <==> SameClaims(a, b)
  {
    if SignedFields(a) == SignedFields(b) {
      hide LeBytes, DomainTag, Payload, SignedFields, Pow256;
      FieldsStandApart(a);
      FieldsStandApart(b);
      Widths();
      LeBytesInjective(a.subject, b.subject, 8);
      LeBytesInjective(a.expiresAtNs, b.expiresAtNs, 8);
      PayloadInjective(a.scope, b.scope);
    }
  }

  // ---------------------------------------------------------------------------
  // Verification
  // ---------------------------------------------------------------------------

  /** `verify_strict` under one key: which signatures it accepts for which message. */
  type Verifier = (seq<Byte>, seq<Byte>) -> bool

  function NewToken(subject: U64, scope: CapabilityScope, expiresAtNs: U64): Token {
    TokenRecord(subject, scope, expiresAtNs, Zeros(MAX_SIGNATURE_BYTES), 0)
  }

  /** None is the panic on a signature that does not fit. */
  function WithSignature(t: Token, signature: seq<Byte>): Option<Token> {
    if |signature| > MAX_SIGNATURE_BYTES then None
    else
      var signed: Token := t.(signature := signature + t.signature[|signature|..], signatureLen := |signature|);
      Some(signed)
  }

  function SignatureBytes(t: Token): seq<Byte>
    requires t.signatureLen as nat <= MAX_SIGNATURE_BYTES
  {
    t.signature[..t.signatureLen]
  }

  predicate Covers(t: Token, requested: CapabilityScope) {
    t.scope == requested
  }

  predicate IsExpired(t: Token, nowNs: U64) {
    nowNs >= t.expiresAtNs
  }

  function VerifySignature(verifier: Verifier, t: Token): Answer {
    if t.signatureLen != SIGNATURE_SIZE then InvalidCapabilityToken
    else if verifier(SignedFields(t), SignatureBytes(t)) then Ok
    else InvalidCapabilityToken
  }

  function VerifyToken(verifier: Verifier, t: Token, required: CapabilityScope, nowNs: U64): Answer {
    if !Covers(t, required) then InvalidCapabilityToken
    else if IsExpired(t, nowNs) then InvalidCapabilityToken
    else VerifySignature(verifier, t)
  }

  /** The signature just set is the one read back, whatever bytes an earlier one left. */
  lemma SignatureReadsBack(t: Token, signature: seq<Byte>)
    ensures WithSignature(t, signature).Some? <==> |signature| <= 64
    ensures |signature| <= 64 ==>
      && SameClaims(WithSignature(t, signature).value, t)
      && SignatureBytes(WithSignature(t, signature).value) == signature
  {
  }

  /** Exactly when a freshly signed token is accepted: its claims, signed for with 64
      bytes, cover the scope asked for and have not run out. */
  lemma AcceptedExactly(verifier: Verifier, subject: U64, scope: CapabilityScope, expiresAtNs: U64, signature: seq<Byte>,
                        required: CapabilityScope, nowNs: U64)
    requires |signature| <= MAX_SIGNATURE_BYTES
    ensures var blank := NewToken(subject, scope, expiresAtNs);
      VerifyToken(verifier, WithSignature(blank, signature).value, required, nowNs) == Ok <==>
      required == scope && nowNs < expiresAtNs && |signature| == 64 && verifier(SignedFields(blank), signature)
  {
    hide SignedFields;
    var blank := NewToken(subject, scope, expiresAtNs);
    SignatureReadsBack(blank, signature);
    SignedFieldsInjective(blank, WithSignature(blank, signature).value);
  }

  /** The answer depends on the signed bytes and the signature alone, at every time, for
      every scope and verifier. */
  lemma SameBytesSameAnswer(verifier: Verifier, a: Token, b: Token, required: CapabilityScope, nowNs: U64)
    requires SignedFields(a) == SignedFields(b)
    requires a.signatureLen == b.signatureLen
    requires a.signatureLen as nat <= MAX_SIGNATURE_BYTES ==> SignatureBytes(a) == SignatureBytes(b)
    ensures VerifyToken(verifier, a, required, nowNs) == VerifyToken(verifier, b, required, nowNs)
  {
    hide SignedFields, SignatureBytes;
    SignedFieldsInjective(a, b);
  }

  /** A verifier that accepts only what was signed for some issued token. */
  ghost predicate OnlyIssued(verifier: Verifier, issued: set<Token>) {
    forall message, signature | verifier(message, signature) :: exists t | t in issued :: SignedFields(t) == message
  }

  /** Under such a verifier an accepted token claims exactly what an issued one does: the
      same subject and expiry, the scope asked for, and a time before that expiry. */
  lemma AcceptedWasIssued(verifier: Verifier, issued: set<Token>, t: Token, required: CapabilityScope, nowNs: U64)
    requires OnlyIssued(verifier, issued) && VerifyToken(verifier, t, required, nowNs) == Ok
    ensures exists i | i in issued :: SameClaims(i, t) && i.scope == required && nowNs < i.expiresAtNs
  {
    hide SignedFields;
    var i :| i in issued && SignedFields(i) == SignedFields(t);
    SignedFieldsInjective(i, t);
  }
}
