/**
 * Action Pills: a signed capsule bound by hash to an encrypted active substance, their 480-byte
 * memory image, the canonical hash pre-images and the authorisation checks.
 */
module Pills {
  import opened Bytes

  type B2 = s: seq<byte> | |s| == 2 witness Zeros(2)
  type B12 = s: seq<byte> | |s| == 12 witness Zeros(12)
  type B16 = s: seq<byte> | |s| == 16 witness Zeros(16)
  type B96 = s: seq<byte> | |s| == 96 witness Zeros(96)
  type B256 = s: seq<byte> | |s| == 256 witness Zeros(256)

  const PILL_LEN: nat := 480
  const CAPSULE_VERSION: byte := 3
  const SIGNATURE_MAX: nat := 96
  const ACTIVE_VERSION: byte := 2
  const CIPHERTEXT_MAX: nat := 256
  const ECDSA_SHA256_DER: byte := 1

  datatype Capsule = Capsule(
    version: byte, flags: byte, actionClass: byte, reserved0: byte,
    issuedMs: u32, expiresMs: u32,
    networkId: B16, nonce: B16, activeHash: Id, issuerKeyId: B16,
    signatureAlg: byte, signatureLen: byte, reserved1: B2, signature: B96)

  datatype Active = Active(version: byte, cipher: byte, ciphertextLen: u16, nonce: B12, tag: B16, ciphertext: B256)

  datatype Pill = Pill(capsule: Capsule, active: Active)

  /** SHA-256, ECDSA verification and AEAD opening, left uninterpreted. */
  datatype Crypto = Crypto(
    sha256: seq<byte> -> Id,
    verify: (seq<byte>, Id, seq<byte>) -> bool,
    open: (Active, Id, u32) -> Result<seq<byte>>)

  // ---- Memory image ----

  function SignedBytes(c: Capsule): (s: seq<byte>)
    ensures |s| == 93
  {
    [c.version, c.flags, c.actionClass, c.reserved0] + U32Le(c.issuedMs) + U32Le(c.expiresMs)
    + c.networkId + c.nonce + c.activeHash + c.issuerKeyId + [c.signatureAlg]
  }

  function CapsuleBytes(c: Capsule): (s: seq<byte>)
    ensures |s| == 192
  {
    SignedBytes(c) + [c.signatureLen] + c.reserved1 + c.signature
  }

  function ActiveBytes(a: Active): (s: seq<byte>)
    ensures |s| == 288
  {
    [a.version, a.cipher] + U16Le(a.ciphertextLen) + a.nonce + a.tag + a.ciphertext
  }

  function PillBytes(p: Pill): (s: seq<byte>)
    ensures |s| == PILL_LEN
  {
    CapsuleBytes(p.capsule) + ActiveBytes(p.active)
  }

  function ReadCapsule(s: seq<byte>): Capsule
    requires |s| == 192
  {
    Capsule(s[0], s[1], s[2], s[3], ReadU32Le(s[4..8]), ReadU32Le(s[8..12]), s[12..28], s[28..44], s[44..76],
            s[76..92], s[92], s[93], s[94..96], s[96..])
  }

  function ReadActive(s: seq<byte>): Active
    requires |s| == 288
  {
    Active(s[0], s[1], ReadU16Le(s[2..4]), s[4..16], s[16..32], s[32..])
  }

  function ReadPill(s: seq<byte>): Pill
    requires |s| == PILL_LEN
  {
    Pill(ReadCapsule(s[..192]), ReadActive(s[192..]))
  }

  lemma CapsuleImage(c: Capsule)
    ensures ReadCapsule(CapsuleBytes(c)) == c
  {
    var s := CapsuleBytes(c);
    assert s[4..8] == U32Le(c.issuedMs) && s[8..12] == U32Le(c.expiresMs);
    assert s[12..28] == c.networkId && s[28..44] == c.nonce && s[44..76] == c.activeHash && s[76..92] == c.issuerKeyId;
    assert s[94..96] == c.reserved1 && s[96..] == c.signature;
    WordRoundTrip(0, c.issuedMs);
    WordRoundTrip(0, c.expiresMs);
  }

  lemma ActiveImage(a: Active)
    ensures ReadActive(ActiveBytes(a)) == a
  {
    var s := ActiveBytes(a);
    assert s[2..4] == U16Le(a.ciphertextLen) && s[4..16] == a.nonce && s[16..32] == a.tag && s[32..] == a.ciphertext;
    WordRoundTrip(a.ciphertextLen, 0);
  }

  /** Reading a pill back from the bytes it was sent as gives the same pill. */
  lemma PillImage(p: Pill)
    ensures ReadPill(PillBytes(p)) == p
  {
    var s := PillBytes(p);
    assert s[..192] == CapsuleBytes(p.capsule) && s[192..] == ActiveBytes(p.active);
    CapsuleImage(p.capsule);
    ActiveImage(p.active);
  }

  /** A received image is the image of the pill read from it, so a relay resends the same bytes. */
  lemma ImageOfRead(s: seq<byte>)
    requires |s| == PILL_LEN
    ensures PillBytes(ReadPill(s)) == s
  {
    var c, a := s[..192], s[192..];
    assert SignedBytes(ReadCapsule(c)) == c[..93] by {
      assert c[..93] == [c[0], c[1], c[2], c[3]] + c[4..8] + c[8..12] + c[12..28] + c[28..44] + c[44..76]
                        + c[76..92] + [c[92]];
    }
    assert c == c[..93] + [c[93]] + c[94..96] + c[96..];
    assert a == [a[0], a[1]] + a[2..4] + a[4..16] + a[16..32] + a[32..];
    assert s == c + a;
  }

  /** Where each field of a pill lies in its image. */
  lemma PillLayout(p: Pill)
    ensures var s, c, a := PillBytes(p), p.capsule, p.active;
            && s[0] == c.version && s[1] == c.flags && s[2] == c.actionClass && s[3] == c.reserved0
            && s[4..8] == U32Le(c.issuedMs) && s[8..12] == U32Le(c.expiresMs)
            && s[12..28] == c.networkId && s[28..44] == c.nonce && s[44..76] == c.activeHash
            && s[76..92] == c.issuerKeyId && s[92] == c.signatureAlg && s[93] == c.signatureLen
            && s[94..96] == c.reserved1 && s[96..192] == c.signature
            && s[192] == a.version && s[193] == a.cipher && s[194..196] == U16Le(a.ciphertextLen)
            && s[196..208] == a.nonce && s[208..224] == a.tag && s[224..480] == a.ciphertext
  {
    hide U16Le, U32Le;
    var s, c, a := PillBytes(p), CapsuleBytes(p.capsule), ActiveBytes(p.active);
    assert s[..192] == c && s[192..] == a;
    CapsuleLayout(p.capsule);
    assert forall i, j :: 0 <= i <= j <= 192 ==> s[i..j] == c[i..j];
    assert forall i, j :: 0 <= i <= j <= 288 ==> s[192 + i..192 + j] == a[i..j];
    assert a[2..4] == U16Le(p.active.ciphertextLen) && a[4..16] == p.active.nonce && a[16..32] == p.active.tag;
    assert a[32..288] == p.active.ciphertext;
  }

  lemma CapsuleLayout(c: Capsule)
    ensures var s := CapsuleBytes(c);
            && s[4..8] == U32Le(c.issuedMs) && s[8..12] == U32Le(c.expiresMs)
            && s[12..28] == c.networkId && s[28..44] == c.nonce && s[44..76] == c.activeHash
            && s[76..92] == c.issuerKeyId && s[94..96] == c.reserved1 && s[96..192] == c.signature
  {
  }

  // ---- Hash pre-images ----

  /** The bytes a signature of the stated length covers when it is read from the pill's memory. */
  function SignatureBytes(p: Pill): (s: seq<byte>)
    ensures |s| == p.capsule.signatureLen
  {
    (p.capsule.signature + ActiveBytes(p.active))[..p.capsule.signatureLen]
  }

  function DigestPreimage(p: Pill): seq<byte> {
    SignedBytes(p.capsule) + [p.capsule.signatureLen] + SignatureBytes(p)
  }

  function ActivePreimage(a: Active): seq<byte>
    requires a.ciphertextLen <= CIPHERTEXT_MAX
  {
    [a.version, a.cipher] + U16Le(a.ciphertextLen) + a.nonce + a.tag + a.ciphertext[..a.ciphertextLen]
  }

  /** The capsule digest; it is also the message id under which the pill travels. */
  function InnerId(k: Crypto, p: Pill): Id { k.sha256(DigestPreimage(p)) }

  predicate SameSigned(c: Capsule, d: Capsule) {
    d == c.(signatureLen := d.signatureLen, reserved1 := d.reserved1, signature := d.signature)
  }

  predicate SameUsed(a: Active, b: Active) {
    && a.ciphertextLen == b.ciphertextLen <= CIPHERTEXT_MAX
    && a.ciphertext[..a.ciphertextLen] == b.ciphertext[..a.ciphertextLen]
    && b == a.(ciphertext := b.ciphertext)
  }

  /** The signing pre-image determines every signed field. */
  lemma SignedInjective(c: Capsule, d: Capsule)
    requires SignedBytes(c) == SignedBytes(d)
    ensures SameSigned(c, d)
  {
    var d' := d.(signatureLen := c.signatureLen, reserved1 := c.reserved1, signature := c.signature);
    assert CapsuleBytes(c) == CapsuleBytes(d');
    CapsuleImage(c);
    CapsuleImage(d');
  }

  /** The digest pre-image also determines the signature, for every length a valid capsule can state. */
  lemma DigestInjective(p: Pill, q: Pill)
    requires DigestPreimage(p) == DigestPreimage(q) && p.capsule.signatureLen <= SIGNATURE_MAX
    ensures SameSigned(p.capsule, q.capsule)
    ensures p.capsule.signatureLen == q.capsule.signatureLen
    ensures p.capsule.signature[..p.capsule.signatureLen] == q.capsule.signature[..q.capsule.signatureLen]
  {
    var s, t := DigestPreimage(p), DigestPreimage(q);
    assert s[..93] == SignedBytes(p.capsule) && t[..93] == SignedBytes(q.capsule);
    SignedInjective(p.capsule, q.capsule);
    assert s[93] == p.capsule.signatureLen && t[93] == q.capsule.signatureLen;
    assert s[94..] == SignatureBytes(p) && t[94..] == SignatureBytes(q);
    var n := p.capsule.signatureLen;
    assert SignatureBytes(p) == p.capsule.signature[..n] && SignatureBytes(q) == q.capsule.signature[..n];
  }

  lemma ActiveInjective(a: Active, b: Active)
    requires a.ciphertextLen <= CIPHERTEXT_MAX && b.ciphertextLen <= CIPHERTEXT_MAX
    requires ActivePreimage(a) == ActivePreimage(b)
    ensures SameUsed(a, b)
  {
    var s, t := ActivePreimage(a), ActivePreimage(b);
    assert s[2..4] == U16Le(a.ciphertextLen) && t[2..4] == U16Le(b.ciphertextLen);
    WordRoundTrip(a.ciphertextLen, 0);
    WordRoundTrip(b.ciphertextLen, 0);
    assert s[0] == a.version && t[0] == b.version && s[1] == a.cipher && t[1] == b.cipher;
    assert s[4..16] == a.nonce && t[4..16] == b.nonce && s[16..32] == a.tag && t[16..32] == b.tag;
    assert s[32..] == a.ciphertext[..a.ciphertextLen] && t[32..] == b.ciphertext[..b.ciphertextLen];
  }

  // ---- Validation ----

  function ValidateEnvelope(a: Active): Result<()> {
    if a.version != ACTIVE_VERSION then Err(InvalidVersion)
    else if a.cipher != 1 && a.cipher != 2 && a.cipher != 3 then Err(NotSupported)
    else if a.ciphertextLen == 0 || a.ciphertextLen > CIPHERTEXT_MAX then Err(InvalidSize)
    else Ok(())
  }

  function ValidateBasic(c: Capsule, nowMs: u32): Result<()> {
    if c.version != CAPSULE_VERSION then Err(InvalidVersion)
    else if c.actionClass == 0 then Err(InvalidArg)
    else if c.reserved0 != 0 || !AllZero(c.reserved1) then Err(InvalidArg)
    else if c.issuedMs == 0 || c.expiresMs <= c.issuedMs then Err(InvalidArg)
    else if nowMs != 0 && nowMs > c.expiresMs then Err(Timeout)
    else if AllZero(c.nonce) || AllZero(c.issuerKeyId) || AllZero(c.activeHash) then Err(InvalidArg)
    else if c.signatureAlg != ECDSA_SHA256_DER then Err(NotSupported)
    else if c.signatureLen == 0 || c.signatureLen > SIGNATURE_MAX then Err(InvalidSize)
    else if AllZero(c.signature[..c.signatureLen]) then Err(InvalidArg)
    else Ok(())
  }

  predicate MatchesActive(k: Crypto, p: Pill) {
    ValidateEnvelope(p.active).Ok? && k.sha256(ActivePreimage(p.active)) == p.capsule.activeHash
  }

  predicate VerifySignature(k: Crypto, p: Pill, key: seq<byte>) {
    && key != []
    && ValidateBasic(p.capsule, 0).Ok?
    && k.verify(key, k.sha256(SignedBytes(p.capsule)), p.capsule.signature[..p.capsule.signatureLen])
  }

  /** `validate_authorized_with_trace`: envelope, capsule and freshness, issuer, hash, signature. */
  function Authorize(k: Crypto, p: Pill, nowMs: u32, issuer: B16, key: seq<byte>): Result<()> {
    if ValidateEnvelope(p.active).Err? then ValidateEnvelope(p.active)
    else if ValidateBasic(p.capsule, nowMs).Err? then ValidateBasic(p.capsule, nowMs)
    else if p.capsule.issuerKeyId != issuer then Err(InvalidState)
    else if !MatchesActive(k, p) then Err(InvalidCrc)
    else if !VerifySignature(k, p, key) then Err(InvalidState)
    else Ok(())
  }

  /** Both parts are of a known version and kind, with nothing in the reserved fields and nothing left empty. */
  predicate WellMade(p: Pill) {
    var c, a := p.capsule, p.active;
    && a.version == ACTIVE_VERSION && a.cipher in {1, 2, 3} && 0 < a.ciphertextLen <= CIPHERTEXT_MAX
    && c.version == CAPSULE_VERSION && c.actionClass != 0 && c.reserved0 == 0 && AllZero(c.reserved1)
    && !AllZero(c.nonce) && !AllZero(c.issuerKeyId) && !AllZero(c.activeHash)
    && c.signatureAlg == ECDSA_SHA256_DER && 0 < c.signatureLen <= SIGNATURE_MAX
    && !AllZero(c.signature[..c.signatureLen])
  }

  /** What the issuer vouches for: a pill still in its period, under its key, for this very ciphertext. */
  predicate Vouched(k: Crypto, p: Pill, nowMs: u32, issuer: B16, key: seq<byte>) {
    var c, a := p.capsule, p.active;
    && WellMade(p) && key != []
    && 0 < c.issuedMs < c.expiresMs && (nowMs == 0 || nowMs <= c.expiresMs)
    && c.issuerKeyId == issuer
    && c.activeHash == k.sha256(ActivePreimage(a))
    && k.verify(key, k.sha256(SignedBytes(c)), c.signature[..c.signatureLen])
  }

  lemma AuthorizedIffVouched(k: Crypto, p: Pill, nowMs: u32, issuer: B16, key: seq<byte>)
    ensures Authorize(k, p, nowMs, issuer, key).Ok? <==> Vouched(k, p, nowMs, issuer, key)
  {
  }

  /** The capsule of a vouched pill, but for who vouches and until when. */
  predicate InPeriod(c: Capsule, nowMs: u32) { 0 < c.issuedMs < c.expiresMs && (nowMs == 0 || nowMs <= c.expiresMs) }

  /**
   * What an unvouched pill is refused for, when it is well made: having run out, another issuer, a
   * ciphertext that is not the one hashed, or a signature that does not verify.
   */
  lemma RefusedFor(k: Crypto, p: Pill, nowMs: u32, issuer: B16, key: seq<byte>)
    requires WellMade(p) && 0 < p.capsule.issuedMs < p.capsule.expiresMs
    requires !Vouched(k, p, nowMs, issuer, key)
    ensures Authorize(k, p, nowMs, issuer, key) == Err(
              if !InPeriod(p.capsule, nowMs) then Timeout
              else if p.capsule.issuerKeyId != issuer then InvalidState
              else if p.capsule.activeHash != k.sha256(ActivePreimage(p.active)) then InvalidCrc
              else InvalidState)
  {
  }

  /** What is looked at before the signature algorithm: version, class, reserved bytes, period and the three ids. */
  predicate Dated(c: Capsule, nowMs: u32) {
    && c.version == 3 && c.actionClass != 0 && c.reserved0 == 0 && AllZero(c.reserved1) && InPeriod(c, nowMs)
    && !AllZero(c.nonce) && !AllZero(c.issuerKeyId) && !AllZero(c.activeHash)
  }

  /**
   * What a badly made pill is refused for: first its active substance, by version, cipher and size;
   * then its capsule, by version, content, signature algorithm and signature length.
   */
  lemma MalformedFor(k: Crypto, p: Pill, nowMs: u32, issuer: B16, key: seq<byte>)
    ensures var c, a, r := p.capsule, p.active, Authorize(k, p, nowMs, issuer, key);
            if a.version != 2 then r == Err(InvalidVersion)
            else if a.cipher !in {1, 2, 3} then r == Err(NotSupported)
            else if !(1 <= a.ciphertextLen <= 256) then r == Err(InvalidSize)
            else if c.version != 3 then r == Err(InvalidVersion)
            else if !Dated(c, nowMs) then
              r == Err(InvalidArg)
              || (r == Err(Timeout) && 0 < c.issuedMs < c.expiresMs && nowMs > c.expiresMs && c.actionClass != 0)
            else if c.signatureAlg != 1 then r == Err(NotSupported)
            else if !(1 <= c.signatureLen <= 96) then r == Err(InvalidSize)
            else AllZero(c.signature[..c.signatureLen]) ==> r == Err(InvalidArg)
  {
  }

  /** Two different inputs with one hash. */
  ghost predicate Collision(k: Crypto, x: seq<byte>, y: seq<byte>) { x != y && k.sha256(x) == k.sha256(y) }

  /**
   * Two authorised pills travelling under one message id agree on every signed field, on the
   * signature and on the used ciphertext, unless they exhibit a SHA-256 collision.
   */
  lemma SameIdSamePill(k: Crypto, p: Pill, q: Pill, now1: u32, now2: u32, issuer: B16, key: seq<byte>)
    requires Authorize(k, p, now1, issuer, key).Ok? && Authorize(k, q, now2, issuer, key).Ok?
    requires InnerId(k, p) == InnerId(k, q)
    ensures || Collision(k, DigestPreimage(p), DigestPreimage(q))
            || Collision(k, ActivePreimage(p.active), ActivePreimage(q.active))
            || (&& SameSigned(p.capsule, q.capsule) && SameUsed(p.active, q.active)
                && p.capsule.signatureLen == q.capsule.signatureLen
                && p.capsule.signature[..p.capsule.signatureLen] == q.capsule.signature[..q.capsule.signatureLen])
  {
    if DigestPreimage(p) == DigestPreimage(q) {
      DigestInjective(p, q);
      if ActivePreimage(p.active) == ActivePreimage(q.active) {
        ActiveInjective(p.active, q.active);
      }
    }
  }
}
