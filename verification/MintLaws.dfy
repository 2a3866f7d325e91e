/** What a mint asks and what it stamps, written out: when a proof, a delegation, a document are as they should be. */
module MintLaws {
  import opened Wrappers
  import opened Wire
  import opened ScopeRules
  import opened Document
  import opened IssuerIdentity
  import opened Revocation
  import opened Mint
  import Verify

  // ------------------------------------------------------------------
  // Proof of possession
  // ------------------------------------------------------------------

  /** The key's holder signed this very seed, with this nonce, at this time. */
  predicate SignsSeed(seed: Seed, key: Octets, proof: MintPop) {
    && key.Raw?
    && proof.signature == Signature(key.bytes, PopMessage(PopPayload(
         key, seed.tenantId, seed.agentClass, seed.version, seed.parentVaid,
         seed.scopeBoundary, seed.capabilitySet, proof.nonce, proof.issuedAt)))
  }

  predicate IsWithinSkew(proof: MintPop, now: Instant) {
    -301 * SECOND < now - proof.issuedAt < 301 * SECOND
  }

  /** There, less than 301 s off the clock, not used before, and signed by the key it registers. */
  predicate HasProof(nonces: set<string>, seed: Seed, key: Octets, pop: Option<MintPop>, now: Instant) {
    && pop.Some?
    && IsWithinSkew(pop.value, now)
    && pop.value.nonce !in nonces
    && SignsSeed(seed, key, pop.value)
  }

  /** A proof passes iff it is all of that, and otherwise the fault is the first that fails. */
  lemma ProofIsExact(nonces: set<string>, seed: Seed, key: Octets, pop: Option<MintPop>, now: Instant)
    ensures PopOutcome(nonces, seed, key, pop, now) == None <==> HasProof(nonces, seed, key, pop, now)
    ensures PopOutcome(nonces, seed, key, pop, now)
            == if pop.None? then Some(PopRequired)
               else if !IsWithinSkew(pop.value, now) then Some(Stale)
               else if pop.value.nonce in nonces then Some(Replayed)
               else if !SignsSeed(seed, key, pop.value) then Some(BadSignature)
               else None
  {
    if pop.Some? {
      FreshnessWindow(pop.value, now);
    }
  }

  // ------------------------------------------------------------------
  // Delegation
  // ------------------------------------------------------------------

  /** What a delegation needs: a live parent of known ancestry, not too long, that holds all the child asks for. */
  ghost predicate MayDelegate(limit: nat, assembly: LineageAssembly, seed: Seed, parent: Vaid, now: Instant) {
    && assembly.Complete? && |assembly.ids| <= limit
    && seed.tenantId == parent.tenantId
    && seed.parentVaid == Some(parent.Id())
    && IsNarrower(parent.scopeBoundary, seed.scopeBoundary)
    && IsSubset(seed.capabilitySet, parent.capabilitySet)
    && IsLive(parent, now)
  }

  /** A delegation is refused exactly when it lacks one of these, and for the first that it lacks. */
  lemma DelegationIsExact(cfg: Config, assembly: LineageAssembly, seed: Seed, parent: Vaid, now: Instant)
    ensures ChildDenial(cfg, assembly, seed, parent, now) == None
            <==> MayDelegate(cfg.maxDelegationDepth, assembly, seed, parent, now)
    ensures ChildDenial(cfg, assembly, seed, parent, now)
            == if assembly.Incomplete? then Some(DepthUndetermined)
               else if |assembly.ids| > cfg.maxDelegationDepth then Some(TooDeep)
               else if seed.tenantId != parent.tenantId then Some(CrossTenant)
               else if seed.parentVaid != Some(parent.Id()) then Some(ParentMismatch)
               else if !IsNarrower(parent.scopeBoundary, seed.scopeBoundary) then Some(ScopeExceeded)
               else if !IsSubset(seed.capabilitySet, parent.capabilitySet) then Some(CapabilitiesExceeded)
               else if !IsLive(parent, now) then Some(ParentExpired)
               else None
  {
    hide IsNarrower, ScopeAttenuates, CapsAttenuate;
    NarrowerIsExact(parent.scopeBoundary, seed.scopeBoundary);
    CapsAttenuateIsExact(parent.capabilitySet, seed.capabilitySet);
  }

  // ------------------------------------------------------------------
  // The document
  // ------------------------------------------------------------------

  /** Every member but the expiry and the signature: the seed's, the issuer's and the new id's. */
  predicate CarriesSeed(cfg: Config, seed: Seed, key: Octets, id: Uuid, v: Vaid) {
    && v.sigVersion == 4
    && v.vaidId == PresentedUuid(id, id) && v.agentId == PresentedUuid(id, id)
    && v.agentClass == seed.agentClass && v.version == seed.version && v.tenantId == seed.tenantId
    && v.publicKeyDer == key
    && v.parentVaid.Some? && v.Parent() == seed.parentVaid
    && v.scopeBoundary == seed.scopeBoundary && v.capabilitySet == seed.capabilitySet
    && v.lineageHash == (if seed.parentVaid.Some? then seed.parentVaid.value + ":" + id else "GENESIS:" + id)
    && v.trustDomain == cfg.trustDomain
    && v.thumbprint == "urn:ietf:params:oauth:jwk-thumbprint:sha-256:" + cfg.kernelKey
    && v.unknownFields == map[]
  }

  /** The whole second in which it ends: after the issuer's hours, or with the ceiling if that is sooner. */
  function EndsAt(cfg: Config, issuedAt: Instant, ceiling: Option<Instant>): int {
    var hours := issuedAt + cfg.ttlHours * 3600 * SECOND;
    if ceiling.Some? && ceiling.value < hours then ceiling.value / SECOND else hours / SECOND
  }

  /** Signed under the kernel key over every other member, and of that life. */
  predicate IsStamped(
    cfg: Config, seed: Seed, key: Octets, id: Uuid, issuedAt: Instant, ceiling: Option<Instant>, v: Vaid) {
    && CarriesSeed(cfg, seed, key, id, v)
    && v.issuedAt == E6(issuedAt / SECOND)
    && v.expiresAt == E6(EndsAt(cfg, issuedAt, ceiling))
    && Verify.IsSignedBy(cfg.kernelKey, v)
  }

  /** The audit entry of a mint says of the document what the document says of itself, and of the parent likewise. */
  predicate Describes(entry: AuditEntry, v: Vaid, parent: Option<Vaid>, hasProof: bool) {
    && entry.agentClass == v.agentClass && entry.version == v.version && entry.parentVaid == v.Parent()
    && entry.scopeBoundary == v.scopeBoundary && entry.capabilityCount == |v.capabilitySet|
    && (entry.RootMinted? <==> parent.None?)
    && (entry.RootMinted? ==> entry.tenantId == v.tenantId && entry.byoKey == hasProof)
    && (entry.ChildMinted? ==>
          && entry.parentTenant == parent.value.tenantId && entry.parentExpiresAt == parent.value.expiresAt
          && entry.expiresAt == v.expiresAt
          && (entry.expiryBoundedByParent <==> v.expiresAt == parent.value.expiresAt))
  }

  lemma AuditDescribes(cfg: Config, seed: Seed, key: Octets, id: Uuid, v: Vaid, parent: Option<Vaid>)
    requires CarriesSeed(cfg, seed, key, id, v)
    ensures Describes(AuditOf(seed, v, parent), v, parent, seed.publicKeyDer.Some?)
  {
  }

  function CeilingOf(notAfter: Option<Timestamp>): Option<Instant> {
    if notAfter.Some? then ParseRfc3339(notAfter.value) else None
  }

  lemma StampedExpiryIsExact(cfg: Config, issuedAt: Instant, notAfter: Option<Timestamp>)
    ensures StampedExpiry(cfg, issuedAt, notAfter)
            == if notAfter.Some? && ParseRfc3339(notAfter.value).None? then None
               else Some(E6(EndsAt(cfg, issuedAt, CeilingOf(notAfter))))
  {
    var hours := issuedAt + cfg.ttlHours * 3600 * SECOND;
    assert (WholeSecond(issuedAt) + cfg.ttlHours * HOUR) / SECOND == hours / SECOND;
    assert WholeSecond(issuedAt) + cfg.ttlHours * HOUR == hours / SECOND * SECOND;
  }

  /** What the issuer signs is stamped so, and it signs nothing under a ceiling it cannot read. */
  lemma IssuedIsExact(
    cfg: Config, id: Uuid, seed: Seed, key: Octets, issuedAt: Instant, notAfter: Option<Timestamp>)
    ensures StampedExpiry(cfg, issuedAt, notAfter) == None
            <==> notAfter.Some? && ParseRfc3339(notAfter.value) == None
    ensures var expiry := StampedExpiry(cfg, issuedAt, notAfter);
            expiry.Some? ==>
              IsStamped(cfg, seed, key, id, issuedAt, CeilingOf(notAfter),
                        IssuedVaid(cfg, id, seed, key, issuedAt, expiry.value))
  {
    StampedExpiryIsExact(cfg, issuedAt, notAfter);
    var expiry := StampedExpiry(cfg, issuedAt, notAfter);
    if expiry.Some? {
      IssuedCarriesSeed(cfg, id, seed, key, issuedAt, expiry.value);
      IssuedIsSigned(cfg, id, seed, key, issuedAt, expiry.value);
    }
  }

  lemma IssuedCarriesSeed(cfg: Config, id: Uuid, seed: Seed, key: Octets, issuedAt: Instant, expiresAt: Timestamp)
    ensures var v := IssuedVaid(cfg, id, seed, key, issuedAt, expiresAt);
            && CarriesSeed(cfg, seed, key, id, v)
            && v.issuedAt == E6(issuedAt / SECOND) && v.expiresAt == expiresAt
  {
  }

  lemma IssuedIsSigned(cfg: Config, id: Uuid, seed: Seed, key: Octets, issuedAt: Instant, expiresAt: Timestamp)
    ensures Verify.IsSignedBy(cfg.kernelKey, IssuedVaid(cfg, id, seed, key, issuedAt, expiresAt))
  {
    var u := Unsigned(cfg, id, seed, key, issuedAt, expiresAt);
    SignatureCoversEverythingElse(u, Signature(cfg.kernelKey, SigningMessage(u)));
  }
}
