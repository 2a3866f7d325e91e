/** Authenticity of a document, by public key alone. */
module Verify {
  import opened Wrappers
  import opened Wire
  import opened Document
  import opened IssuerIdentity
  import opened ScopeRules
  import Revocation

  /** SHA-256 is idealized: a digest is the text it was taken of. */
  function ComputeLineageHash(parent: Option<Uuid>, agent: Uuid): string {
    match parent
    case Some(p) => p + ":" + agent
    case None => "GENESIS:" + agent
  }

  datatype VaidVerdict =
    | Valid
    | UnsupportedSigVersion
    | MalformedTrustDomain
    | IssuerMismatch
    | LineageInconsistent
    | Inauthentic
    | Expired
    | UnknownScopeKind
    | Revoked
    | Indeterminate

  predicate VerifyLineageHash(v: Vaid) {
    ComputeLineageHash(v.Parent(), v.agentId.uuid) == v.lineageHash
  }

  function AuthenticityVerdict(key: Key, v: Vaid): VaidVerdict {
    if v.sigVersion != VAID_SIG_VERSION_V4 then UnsupportedSigVersion
    else if !IsValidTrustDomain(v.trustDomain) then MalformedTrustDomain
    else if v.thumbprint != ThumbprintOf(key) then IssuerMismatch
    else if !VerifyLineageHash(v) then LineageInconsistent
    else if !Verifies(key, SigningMessage(v), v.kernelSignature) then Inauthentic
    else Valid
  }

  predicate VerifyVaidAuthenticity(key: Key, v: Vaid) {
    AuthenticityVerdict(key, v) == Valid
  }

  /** The text whose digest a document's lineage hash is. */
  function LineageText(v: Vaid): string {
    if v.Parent().Some? then v.Parent().value + ":" + v.agentId.uuid else "GENESIS:" + v.agentId.uuid
  }

  /** The object signed: every member written, the signature's own nulled. */
  predicate IsSignedBy(key: Key, v: Vaid) {
    v.kernelSignature == Signature(key, VaidMessage(ToObject(v)[KernelSignature := Null]))
  }

  /** Authentic iff all five facts hold, and otherwise the fault is the first of them that does not. */
  lemma AuthenticityIsExact(key: Key, v: Vaid)
    ensures AuthenticityVerdict(key, v)
            == if v.sigVersion != 4 then UnsupportedSigVersion
               else if !IsValidTrustDomain(v.trustDomain) then MalformedTrustDomain
               else if v.thumbprint != "urn:ietf:params:oauth:jwk-thumbprint:sha-256:" + key then IssuerMismatch
               else if v.lineageHash != LineageText(v) then LineageInconsistent
               else if !IsSignedBy(key, v) then Inauthentic
               else Valid
    ensures VerifyVaidAuthenticity(key, v)
            <==> && v.sigVersion == 4 && IsValidTrustDomain(v.trustDomain)
                 && v.thumbprint == "urn:ietf:params:oauth:jwk-thumbprint:sha-256:" + key
                 && v.lineageHash == LineageText(v)
                 && IsSignedBy(key, v)
  {
  }

  /** Authenticity, then expiry, then what can be read, then what the caller learned of revocation. */
  function StandingVerdict(key: Key, v: Vaid, status: Revocation.RevocationStatus, now: Instant): VaidVerdict {
    if AuthenticityVerdict(key, v) != Valid then AuthenticityVerdict(key, v)
    else if v.IsExpiredAt(now) then Expired
    else if !BoundaryIsEvaluable(v.scopeBoundary) then VaidVerdict.UnknownScopeKind
    else match status
      case NotRevoked => Valid
      case Revoked => Revoked
      case Unavailable => Indeterminate
  }

  /** Standing iff authentic, live, readable and not revoked, and otherwise for the first of these that fails. */
  lemma StandingVerdictIsExact(key: Key, v: Vaid, status: Revocation.RevocationStatus, now: Instant)
    ensures StandingVerdict(key, v, status, now)
            == if AuthenticityVerdict(key, v) != Valid then AuthenticityVerdict(key, v)
               else if !IsLive(v, now) then Expired
               else if !HoldsOnlyPrefixes(v.scopeBoundary) then VaidVerdict.UnknownScopeKind
               else if status == Revocation.Revoked then Revoked
               else if status == Revocation.Unavailable then Indeterminate
               else Valid
  {
    hide AuthenticityVerdict, HoldsOnlyPrefixes, BoundaryIsEvaluable;
    ReadableIsExact(v.scopeBoundary);
  }

  /** A signature belongs to one document and one key: nothing else authenticates under it. */
  lemma SignatureFixesDocument(j: Key, v: Vaid, k: Key, w: Vaid, parse: UuidParser)
    requires IsParsed(v, parse) && IsParsed(w, parse)
    requires VerifyVaidAuthenticity(j, v) && VerifyVaidAuthenticity(k, w)
    ensures v.kernelSignature == w.kernelSignature <==> j == k && v == w
  {
    if v.kernelSignature == w.kernelSignature {
      EqualDigestsMeanEqualDocuments(v, w, parse);
    }
  }
}
