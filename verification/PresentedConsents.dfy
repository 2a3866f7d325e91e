/** Consent attestations as they are presented, and what each verifier's signature check is then about. */
module PresentedConsents {
  import opened Wrappers
  import opened Wire
  import opened Document
  import opened IssuerIdentity
  import opened Attestation

  datatype PresentedConsent = PresentedConsent(body: ConsentObject, signature: Octets)

  /** Does it parse as an attestation? Members the type does not name are no obstacle. */
  predicate IsConsentObject(p: PresentedConsent, parse: UuidParser) {
    && 0 <= p.body.attVersion < 256
    && parse(p.body.parentVaid).Some? && parse(p.body.childVaid).Some?
    && ParseRfc3339(p.body.issuedAt).Some? && ParseRfc3339(p.body.expiresAt).Some?
    && forall k | 0 <= k < |p.body.scopeBoundary| :: IsValidEntry(p.body.scopeBoundary[k])
  }

  /** Read into the attestation type: ids and times by what they denote, other members dropped. */
  function ReadConsent(p: PresentedConsent, parse: UuidParser): ConsentAttestation
    requires IsConsentObject(p, parse)
  {
    var b := p.body;
    ConsentAttestation(
      Terms(b.attVersion, parse(b.parentVaid).value, parse(b.childVaid).value, b.childTrustDomain, b.childTenantId,
            ParseRfc3339(b.issuedAt).value, ParseRfc3339(b.expiresAt).value, b.scopeBoundary, b.capabilitySet,
            b.trustDomain, b.thumbprint),
      p.signature)
  }

  /** Spelled just as the attestation type writes it. */
  predicate IsAsRendered(p: PresentedConsent, parse: UuidParser)
    requires IsConsentObject(p, parse)
  {
    && parse(p.body.parentVaid) == Some(p.body.parentVaid) && parse(p.body.childVaid) == Some(p.body.childVaid)
    && p.body.issuedAt == Rendered(ParseRfc3339(p.body.issuedAt).value)
    && p.body.expiresAt == Rendered(ParseRfc3339(p.body.expiresAt).value)
    && p.body.others == map[]
  }

  /** The presented consent survives reading exactly when it is spelled that way. */
  lemma ConsentRoundTrip(p: PresentedConsent, parse: UuidParser)
    requires IsConsentObject(p, parse)
    ensures ObjectOf(ReadConsent(p, parse).terms) == p.body <==> IsAsRendered(p, parse)
  {
  }

  /** The Python check: over the object presented, whatever its spelling and whatever else it holds. */
  predicate AuthenticAsPresented(key: Key, p: PresentedConsent) {
    && p.body.attVersion == ATTESTATION_VERSION
    && IsValidTrustDomain(p.body.trustDomain)
    && p.body.thumbprint == ThumbprintOf(key)
    && Verifies(key, AttestationMessage(p.body), p.signature)
  }

  predicate AuthenticAsRead(key: Key, p: PresentedConsent, parse: UuidParser)
    requires IsConsentObject(p, parse)
  {
    VerifyAttestationAuthenticity(key, ReadConsent(p, parse))
  }

  /**
   The Rust verdict is about the object presented exactly when that is spelled as
   rendered: then it is the Python verdict, and otherwise no signature satisfies both.
   */
  lemma AuthenticityCompared(key: Key, p: PresentedConsent, parse: UuidParser)
    requires IsConsentObject(p, parse)
    ensures IsAsRendered(p, parse) ==> AuthenticAsRead(key, p, parse) == AuthenticAsPresented(key, p)
    ensures AuthenticAsRead(key, p, parse) ==> (AuthenticAsPresented(key, p) <==> IsAsRendered(p, parse))
    ensures AuthenticAsPresented(key, p) ==> (AuthenticAsRead(key, p, parse) <==> IsAsRendered(p, parse))
  {
    hide IsAsRendered;
    ConsentRoundTrip(p, parse);
  }

  /**
   A member the type does not name can be added to any consent: the Rust verdict never changes,
   the Python one is lost.
   */
  lemma AddedMemberIsUnseen(key: Key, p: PresentedConsent, parse: UuidParser, name: string, value: Json)
    requires IsConsentObject(p, parse) && name !in p.body.others
    ensures var more := p.(body := p.body.(others := p.body.others[name := value]));
            && IsConsentObject(more, parse)
            && AuthenticAsRead(key, more, parse) == AuthenticAsRead(key, p, parse)
            && (AuthenticAsPresented(key, p) ==> !AuthenticAsPresented(key, more))
  {
    assert name in p.body.others[name := value];
  }
}
