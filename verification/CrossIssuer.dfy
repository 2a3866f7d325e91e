/** Consent made by one issuer, checked at a hop into another's key: what passes, and when. */
module CrossIssuer {
  import opened Wrappers
  import opened Wire
  import opened ScopeRules
  import opened Document
  import opened IssuerIdentity
  import opened Attestation
  import opened Mint
  import opened Interleaving
  import opened ChainTheorems
  import opened Revocation
  import opened MintRuns
  import opened RootSeeds
  import Chain

  /** The child a consent is asked for, and the most it may hold, until when. */
  datatype Consent = Consent(
    childVaid: Uuid,
    childTrustDomain: string,
    childTenantId: string,
    expiresAt: Instant,
    scopeBoundary: Scope,
    capabilitySet: seq<string>)

  /** The domain and key are the issuer's own; both times are whole seconds. */
  function AttestDelegation(cfg: Config, parent: Uuid, consent: Consent, now: Instant): ConsentAttestation {
    var terms := Terms(ATTESTATION_VERSION, parent, consent.childVaid, consent.childTrustDomain, consent.childTenantId,
                       WholeSecond(now), WholeSecond(consent.expiresAt), consent.scopeBoundary, consent.capabilitySet,
                       cfg.trustDomain, ThumbprintOf(cfg.kernelKey));
    ConsentAttestation(terms, Signature(cfg.kernelKey, AttestationMessage(ObjectOf(terms))))
  }

  lemma AttestedIsAuthentic(cfg: Config, keys: Chain.KeyResolver, parent: Uuid, consent: Consent, now: Instant)
    requires IsConfig(cfg) && keys(ThumbprintOf(cfg.kernelKey)) == Some(cfg.kernelKey)
    ensures Chain.AuthenticConsent(keys, AttestDelegation(cfg, parent, consent, now))
  {
  }

  /** Consent to this very child, wide enough for it and no wider than the parent. */
  predicate Covers(consent: Consent, parent: Vaid, child: Vaid) {
    && consent.childTrustDomain == child.trustDomain && consent.childTenantId == child.tenantId
    && ScopeAttenuates(consent.scopeBoundary, child.scopeBoundary)
    && CapsAttenuate(consent.capabilitySet, child.capabilitySet)
    && ScopeAttenuates(parent.scopeBoundary, consent.scopeBoundary)
    && CapsAttenuate(parent.capabilitySet, consent.capabilitySet)
  }

  /**
   A hop into another issuer's key, under consent its parent's issuer made for that
   pair, passes exactly when the child is contained, the consent covers it, and the
   instant is between 300 s before the consent was made and its end.
   */
  lemma AttestedHopPasses(
    cfg: Config, keys: Chain.KeyResolver, parent: Vaid, child: Vaid, consent: Consent, attestedAt: Instant,
    others: seq<ConsentAttestation>, now: Instant)
    requires IsConfig(cfg) && keys(ThumbprintOf(cfg.kernelKey)) == Some(cfg.kernelKey)
    requires OfIssuer(cfg, parent) && child.thumbprint != parent.thumbprint
    requires consent.childVaid == child.Id()
    ensures var a := AttestDelegation(cfg, parent.Id(), consent, attestedAt);
            var made, ends := WholeSecond(attestedAt), WholeSecond(consent.expiresAt);
            Chain.HopVerdict(keys, BundleAttestations(others + [a]), now, parent, child) == Chain.Attenuated
            <==> && IsContained(parent, child)
                 && Covers(consent, parent, child)
                 && made < ends && made - 300 * SECOND <= now <= ends
  {
    hide IsContained, ScopeAttenuates, CapsAttenuate, Chain.AuthenticConsent, Chain.HopVerdict, OfIssuer;
    var a := AttestDelegation(cfg, parent.Id(), consent, attestedAt);
    IssuerIsNamed(cfg, parent);
    AttestedIsAuthentic(cfg, keys, parent.Id(), consent, attestedAt);
    assert (others + [a])[..|others|] == others;
    var attestations := BundleAttestations(others + [a]);
    assert attestations[(parent.Id(), child.Id())] == a;
    HopMeaning(keys, attestations, now, parent, child);
  }

  lemma KnownIssuerIsTrusted(cfg: Config, keys: Chain.KeyResolver, v: Vaid)
    requires keys(ThumbprintOf(cfg.kernelKey)) == Some(cfg.kernelKey) && OfIssuer(cfg, v)
    ensures Chain.Authentic(keys, v)
  {
  }

  /**
   End to end across two issuers. Issuer `theirs` issues a document naming the leaf of
   a chain of issuer `ours`; verified under both keys with the consent `ours` made for
   that pair, it is attenuated exactly when there is room below the leaf, the leaf is
   live, the document is contained in it and covered by the consent, and the consent
   is current.
   */
  lemma AttestedChainPasses(
    ours: Config, theirs: Config, keys: Chain.KeyResolver, c: seq<Vaid>, id: Uuid, seed: Seed, key: Octets,
    issuedAt: Instant, consent: Consent, attestedAt: Instant, others: seq<ConsentAttestation>, now: Instant)
    requires IsConfig(ours) && IsConfig(theirs) && ours.kernelKey != theirs.kernelKey
    requires keys(ThumbprintOf(ours.kernelKey)) == Some(ours.kernelKey)
    requires keys(ThumbprintOf(theirs.kernelKey)) == Some(theirs.kernelKey)
    requires IsLinkedChain(c) && AllOfIssuer(ours, c) && IsContainedChain(c)
    requires seed.parentVaid == Some(Last(c).Id()) && consent.childVaid == id
    requires forall k | 0 <= k < |c| :: c[k].Id() != id
    ensures var v := RootDocument(theirs, id, seed, key, issuedAt);
            var a := AttestDelegation(ours, Last(c).Id(), consent, attestedAt);
            var made, ends := WholeSecond(attestedAt), WholeSecond(consent.expiresAt);
            VerdictUnder(keys, c + [v], BundleAttestations(others + [a]), now) == Chain.Attenuated
            <==> && |c| < MAX_LINEAGE_DEPTH && !Last(c).IsExpiredAt(now)
                 && IsContained(Last(c), v)
                 && Covers(consent, Last(c), v)
                 && made < ends && made - 300 * SECOND <= now <= ends
  {
    hide OfIssuer, RootDocument, IsContained, IsContainedChain, NeverCrossesKeys, Covers, AttestDelegation;
    hide Chain.Authentic, Chain.HopVerdict, VerdictUnder;
    var v := RootDocument(theirs, id, seed, key, issuedAt);
    var attestations := BundleAttestations(others + [AttestDelegation(ours, Last(c).Id(), consent, attestedAt)]);
    assert OfIssuer(ours, c[|c| - 1]);
    RootDocumentIsOfIssuer(theirs, id, seed, key, issuedAt);
    RootDocumentCarriesItsSeed(theirs, id, seed, key, issuedAt);
    KnownIssuerIsTrusted(theirs, keys, v);
    forall k | 0 <= k < |c| ensures Chain.Authentic(keys, c[k]) {
      KnownIssuerIsTrusted(ours, keys, c[k]);
    }
    OneIssuerNeverCrossesKeys(ours, c);
    IssuerIsNamed(ours, Last(c));
    if ThumbprintOf(ours.kernelKey) == ThumbprintOf(theirs.kernelKey) {
      ThumbprintIsInjective(ours.kernelKey, theirs.kernelKey);
    }
    ExtendedChainVerdict(keys, c, v, attestations, now);
    AttestedHopPasses(ours, keys, Last(c), v, consent, attestedAt, others, now);
  }
}
