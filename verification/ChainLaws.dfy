/** What a chain verdict rests on, written out down to the signed bytes, and which fault is named when it fails. */
module ChainLaws {
  import opened Wrappers
  import opened Wire
  import opened ScopeRules
  import opened Document
  import opened IssuerIdentity
  import opened Revocation
  import opened Attestation
  import opened Chain
  import opened ChainTheorems
  import Verify

  // ------------------------------------------------------------------
  // One document
  // ------------------------------------------------------------------

  /** Under an accepted key: of the current scheme, well named, of its lineage, and signed over all it presents. */
  predicate IsGenuine(keys: KeyResolver, v: Vaid) {
    && keys(v.thumbprint).Some?
    && var key := keys(v.thumbprint).value;
       && v.sigVersion == 4 && IsValidTrustDomain(v.trustDomain)
       && v.thumbprint == "urn:ietf:params:oauth:jwk-thumbprint:sha-256:" + key
       && v.lineageHash == Verify.LineageText(v)
       && Verify.IsSignedBy(key, v)
  }

  lemma AuthenticIsExact(keys: KeyResolver, v: Vaid)
    ensures Authentic(keys, v) <==> IsGenuine(keys, v)
  {
    hide ToObject;
    if keys(v.thumbprint).Some? {
      Verify.AuthenticityIsExact(keys(v.thumbprint).value, v);
    }
  }

  // ------------------------------------------------------------------
  // One hop
  // ------------------------------------------------------------------

  /** The child stays inside its parent: under one key its domain and tenant, and always its authority and its life. */
  ghost predicate IsInside(parent: Vaid, child: Vaid) {
    && (parent.thumbprint == child.thumbprint ==>
          parent.trustDomain == child.trustDomain && parent.tenantId == child.tenantId)
    && IsNarrower(parent.scopeBoundary, child.scopeBoundary)
    && IsSubset(child.capabilitySet, parent.capabilitySet)
    && parent.Expiry().Some? && child.Expiry().Some? && child.Expiry().value <= parent.Expiry().value
  }

  /** The parent's issuer signed these very terms. */
  predicate IsGenuineConsent(keys: KeyResolver, a: ConsentAttestation) {
    var t := a.terms;
    && keys(t.thumbprint).Some?
    && var key := keys(t.thumbprint).value;
       && t.attVersion == 1 && IsValidTrustDomain(t.trustDomain)
       && t.thumbprint == "urn:ietf:params:oauth:jwk-thumbprint:sha-256:" + key
       && a.signature == Signature(key, AttestationMessage(ConsentObject(
            1, t.parentVaid, t.childVaid, t.childTrustDomain, t.childTenantId,
            Rendered(t.issuedAt), Rendered(t.expiresAt), t.scopeBoundary, t.capabilitySet,
            t.trustDomain, t.thumbprint, map[])))
  }

  /** Authority passes through the terms: the child's inside them, and they inside the parent's. */
  ghost predicate CoversHop(t: Terms, parent: Vaid, child: Vaid) {
    && IsNarrower(t.scopeBoundary, child.scopeBoundary) && IsSubset(child.capabilitySet, t.capabilitySet)
    && IsNarrower(parent.scopeBoundary, t.scopeBoundary) && IsSubset(t.capabilitySet, parent.capabilitySet)
  }

  /** What is wrong with the consent to a hop, the first thing first. */
  ghost function ConsentFault(keys: KeyResolver, a: ConsentAttestation, now: Instant, parent: Vaid, child: Vaid)
    : ChainVerification
  {
    var t := a.terms;
    if t.thumbprint != parent.thumbprint || t.trustDomain != parent.trustDomain then Inauthentic
    else if t.childTrustDomain != child.trustDomain || t.childTenantId != child.tenantId then NotAttenuated
    else if !IsGenuineConsent(keys, a) then Inauthentic
    else if !(t.issuedAt < t.expiresAt && t.issuedAt - 300 * SECOND <= now <= t.expiresAt) then ConsentExpired
    else if !CoversHop(t, parent, child) then NotAttenuated
    else Attenuated
  }

  lemma ContainmentIsExact(parent: Vaid, child: Vaid)
    ensures IsContained(parent, child) <==> IsInside(parent, child)
  {
    hide ScopeAttenuates, IsNarrower, CapsAttenuate, IsSubset;
    NarrowerIsExact(parent.scopeBoundary, child.scopeBoundary);
    CapsAttenuateIsExact(parent.capabilitySet, child.capabilitySet);
  }

  lemma ConsentIsExact(keys: KeyResolver, a: ConsentAttestation, now: Instant, parent: Vaid, child: Vaid)
    ensures FirstFault(ConsentFindings(keys, a, now, parent, child)) == ConsentFault(keys, a, now, parent, child)
  {
    hide ScopeAttenuates, IsNarrower, CapsAttenuate, IsSubset, IsValidTrustDomain;
    var t, findings := a.terms, ConsentFindings(keys, a, now, parent, child);
    NarrowerIsExact(t.scopeBoundary, child.scopeBoundary);
    NarrowerIsExact(parent.scopeBoundary, t.scopeBoundary);
    CapsAttenuateIsExact(t.capabilitySet, child.capabilitySet);
    CapsAttenuateIsExact(parent.capabilitySet, t.capabilitySet);
    var n := if !findings[0].holds then 0 else if !findings[1].holds then 1 else if !findings[2].holds then 2
      else if !findings[3].holds then 3 else if !findings[4].holds then 4 else if !findings[5].holds then 5 else 6;
    FirstFaultAt(findings, n);
  }

  /**
   The verdict on a hop: the child must be inside its parent; then one key settles it,
   and two keys need a consent to that very hop, at fault as it is at fault.
   */
  lemma HopVerdictIsExact(keys: KeyResolver, attestations: AttestationBundle, now: Instant, parent: Vaid, child: Vaid)
    ensures HopVerdict(keys, attestations, now, parent, child)
            == if !IsInside(parent, child) then NotAttenuated
               else if parent.thumbprint == child.thumbprint then Attenuated
               else if (parent.Id(), child.Id()) !in attestations then Inauthentic
               else ConsentFault(keys, attestations[(parent.Id(), child.Id())], now, parent, child)
  {
    hide ScopeAttenuates, CapsAttenuate, ConsentFindings, ConsentFault, IsInside;
    ContainmentIsExact(parent, child);
    var findings := HopFindings(keys, attestations, now, parent, child);
    if IsContained(parent, child) {
      FirstFaultSkips(findings, 4);
      assert findings[4..]
          == if SameKey(parent, child) then [] else CrossKeyFindings(keys, attestations, now, parent, child);
      if !SameKey(parent, child) && (parent.Id(), child.Id()) in attestations {
        ConsentIsExact(keys, attestations[(parent.Id(), child.Id())], now, parent, child);
      }
    } else {
      var n := if !findings[0].holds then 0 else if !findings[1].holds then 1 else if !findings[2].holds then 2 else 3;
      FirstFaultAt(findings, n);
    }
  }

  // ------------------------------------------------------------------
  // The whole presentation
  // ------------------------------------------------------------------

  predicate AllGenuine(keys: KeyResolver, leaf: Vaid, bundle: Bundle) {
    IsGenuine(keys, leaf) && forall id | id in bundle :: IsGenuine(keys, bundle[id])
  }

  lemma AllAuthenticIsExact(keys: KeyResolver, leaf: Vaid, bundle: Bundle)
    ensures AllAuthentic(keys, leaf, bundle) <==> AllGenuine(keys, leaf, bundle)
  {
    hide Authentic, IsGenuine;
    AuthenticIsExact(keys, leaf);
    forall id | id in bundle ensures Authentic(keys, bundle[id]) <==> IsGenuine(keys, bundle[id]) {
      AuthenticIsExact(keys, bundle[id]);
    }
  }

  lemma {:induction false} HopsNeverExpire(
    keys: KeyResolver, attestations: AttestationBundle, now: Instant, docs: seq<Vaid>)
    ensures HopsVerdict(keys, attestations, now, docs) != Expired
    ensures HopsVerdict(keys, attestations, now, docs) != Unverifiable
  {
    hide HopVerdict, ConsentFault, IsInside;
    if |docs| >= 2 {
      HopVerdictIsExact(keys, attestations, now, docs[0], docs[1]);
      ConsentFaults(keys, attestations, now, docs[0], docs[1]);
      HopsNeverExpire(keys, attestations, now, docs[1..]);
    }
  }

  lemma ConsentFaults(keys: KeyResolver, attestations: AttestationBundle, now: Instant, parent: Vaid, child: Vaid)
    ensures (parent.Id(), child.Id()) in attestations ==>
              ConsentFault(keys, attestations[(parent.Id(), child.Id())], now, parent, child)
              !in {Expired, Unverifiable}
  {
    hide IsGenuineConsent, CoversHop;
  }

  /**
   Every verdict on a presentation: a document not genuine comes before a missing
   chain, that before a dead ancestor, that before the first hop to fail.
   */
  lemma VerdictIsExact(keys: KeyResolver, leaf: Vaid, bundle: Bundle, attestations: AttestationBundle, now: Instant)
    requires IsBundle(bundle)
    ensures !AllGenuine(keys, leaf, bundle) ==> Verdict(keys, leaf, bundle, attestations, now) == Inauthentic
    ensures Verdict(keys, leaf, bundle, attestations, now) == Unverifiable
            <==> AllGenuine(keys, leaf, bundle) && !exists docs :: IsPresentedChain(leaf, bundle, docs)
    ensures forall docs | AllGenuine(keys, leaf, bundle) && IsPresentedChain(leaf, bundle, docs) ::
              && (Verdict(keys, leaf, bundle, attestations, now) == Expired <==> !AncestorsLive(docs, now))
              && (AncestorsLive(docs, now) ==>
                    Verdict(keys, leaf, bundle, attestations, now) == HopsVerdict(keys, attestations, now, docs))
  {
    hide AllAuthentic, AllGenuine, PresentedChain, IsPresentedChain, HopsVerdict, AncestorLapsed, AncestorsLive;
    AllAuthenticIsExact(keys, leaf, bundle);
    if PresentedChain(leaf, bundle).Some? {
      var docs := PresentedChain(leaf, bundle).value;
      PresentedChainIsExact(leaf, bundle, docs);
      HopsNeverExpire(keys, attestations, now, docs);
      LapsedMeans(docs, now);
    }
    forall docs | IsPresentedChain(leaf, bundle, docs) ensures PresentedChain(leaf, bundle) == Some(docs) {
      PresentedChainIsExact(leaf, bundle, docs);
    }
  }
}
