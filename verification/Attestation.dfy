/** Consent attestations: a parent issuer's signed consent to one delegation. */
module Attestation {
  import opened Wire
  import opened IssuerIdentity

  const ATTESTATION_VERSION := 1
  const MINT_POP_FRESHNESS_SECS := 300

  datatype ConsentAttestation = ConsentAttestation(terms: Terms, signature: Octets) {
    function Hop(): (Uuid, Uuid) {
      (terms.parentVaid, terms.childVaid)
    }

    predicate IsCurrent(now: Instant) {
      if terms.expiresAt <= terms.issuedAt then false
      else if now > terms.expiresAt then false
      else now >= terms.issuedAt - MINT_POP_FRESHNESS_SECS * SECOND
    }
  }

  /** The terms written out again: what the attestation type serializes to, and so what is signed. */
  function ObjectOf(t: Terms): ConsentObject {
    ConsentObject(t.attVersion, t.parentVaid, t.childVaid, t.childTrustDomain, t.childTenantId,
                  Rendered(t.issuedAt), Rendered(t.expiresAt), t.scopeBoundary, t.capabilitySet,
                  t.trustDomain, t.thumbprint, map[])
  }

  predicate VerifyAttestationAuthenticity(key: Key, a: ConsentAttestation) {
    && a.terms.attVersion == ATTESTATION_VERSION
    && IsValidTrustDomain(a.terms.trustDomain)
    && a.terms.thumbprint == ThumbprintOf(key)
    && Verifies(key, AttestationMessage(ObjectOf(a.terms)), a.signature)
  }

  type AttestationBundle = map<(Uuid, Uuid), ConsentAttestation>

  /** Filed by the hop each names; a later one for the same hop replaces the earlier. */
  function BundleAttestations(presented: seq<ConsentAttestation>): (bundle: AttestationBundle)
    ensures forall hop | hop in bundle :: bundle[hop].Hop() == hop && bundle[hop] in presented
  {
    if presented == [] then map[]
    else
      var last := presented[|presented| - 1];
      BundleAttestations(presented[..|presented| - 1])[last.Hop() := last]
  }
}
