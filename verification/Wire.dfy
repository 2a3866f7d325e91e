/**
 The values documents and signatures are made of.

 Ed25519, SHA-256 and RFC 8785 canonicalization are idealized: a signature is the
 pair of the key that made it and the message it covers, and a digest stands for
 the value it was taken of. So a signature verifies exactly when that key signed
 that message, and distinct messages never share one.
 */
module Wire {
  import opened Wrappers

  /** A UUID, named by its canonical lowercase hyphenated spelling. */
  type Uuid = string

  /** The raw bytes of an Ed25519 public key. */
  type Key = string

  /** Nanoseconds since the Unix epoch, as `DateTime<Utc>` counts them. */
  type Instant = int

  const SECOND: int := 1_000_000_000

  /** The whole second an instant falls in (`trunc_subsecs(0)`). */
  function WholeSecond(t: Instant): Instant {
    t / SECOND * SECOND
  }

  /**
   A string in a timestamp position: in the E.6 profile, in UTC with a fraction as
   chrono writes one, in another RFC 3339 spelling, or none of these.
   */
  datatype Timestamp =
    | E6(second: int)
    | Fractional(instant: Instant)
    | Rfc3339(instant: Instant, spelling: string)
    | Unreadable(text: string)

  function FormatE6(t: Instant): Timestamp {
    E6(t / SECOND)
  }

  function ParseRfc3339(t: Timestamp): Option<Instant> {
    match t
    case E6(second) => Some(second * SECOND)
    case Fractional(instant) => Some(instant)
    case Rfc3339(instant, _) => Some(instant)
    case Unreadable(_) => None
  }

  /** An instant written out again from a `DateTime<Utc>`. */
  function Rendered(t: Instant): Timestamp {
    if t % SECOND == 0 then E6(t / SECOND) else Fractional(t)
  }

  /**
   A JSON value. Strings in a timestamp position are `Time`, and arrays of octets
   in a key or signature position are `Bytes`.
   */
  datatype Json =
    | Null
    | Bool(b: bool)
    | Int(n: int)
    | Fraction(text: string)
    | Str(s: string)
    | Time(t: Timestamp)
    | Bytes(octets: Octets)
    | Arr(items: seq<Json>)
    | Obj(members: map<string, Json>)

  /** The members a document's type names, and every other member (`Extension`). */
  datatype MemberName =
    | SigVersion | VaidId | AgentId | AgentClass | Version | TenantId | IssuedAt | ExpiresAt
    | PublicKeyDer | KernelSignature | ParentVaid | ScopeBoundary | LineageHash | CapabilitySet
    | TrustDomain | KernelKeyThumbprint
    | Extension(name: string)

  /** A document as presented: its top-level JSON object. */
  type Object = map<MemberName, Json>

  datatype Octets = Raw(bytes: string) | Signature(signer: Key, over: Message)

  /** What is hashed and signed. Each kind of object has member names the others lack. */
  datatype Message =
    | VaidMessage(presented: Object)
    | AttestationMessage(consent: ConsentObject)
    | PopMessage(payload: PopPayload)

  predicate Verifies(key: Key, message: Message, signature: Octets) {
    signature == Signature(key, message)
  }

  datatype ScopeEntry = ScopeEntry(kind: string, value: Json)

  type Scope = seq<ScopeEntry>

  /** A consent attestation as presented, without its signature: every named member, and every other. */
  datatype ConsentObject = ConsentObject(
    attVersion: int,
    parentVaid: string,
    childVaid: string,
    childTrustDomain: string,
    childTenantId: string,
    issuedAt: Timestamp,
    expiresAt: Timestamp,
    scopeBoundary: Scope,
    capabilitySet: seq<string>,
    trustDomain: string,
    thumbprint: string,
    others: map<string, Json>)

  /** What is kept of it once it is read into the attestation type. */
  datatype Terms = Terms(
    attVersion: int,
    parentVaid: Uuid,
    childVaid: Uuid,
    childTrustDomain: string,
    childTenantId: string,
    issuedAt: Instant,
    expiresAt: Instant,
    scopeBoundary: Scope,
    capabilitySet: seq<string>,
    trustDomain: string,
    thumbprint: string)

  datatype PopPayload = PopPayload(
    publicKeyDer: Octets,
    tenantId: string,
    agentClass: string,
    version: string,
    parentVaid: Option<Uuid>,
    scopeBoundary: Scope,
    capabilitySet: seq<string>,
    nonce: string,
    issuedAt: Instant)
}
