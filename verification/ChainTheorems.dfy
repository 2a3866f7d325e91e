/** What a chain verdict means, for every presentation and at every instant. */
module ChainTheorems {
  import opened Wrappers
  import opened Wire
  import opened ScopeRules
  import opened Document
  import opened Revocation
  import opened Attestation
  import opened Chain

  // ------------------------------------------------------------------
  // The assembled chain
  // ------------------------------------------------------------------

  predicate LinksUp(docs: seq<Vaid>, k: nat)
    requires k < |docs|
  {
    docs[k].Parent() == if k == 0 then None else Some(docs[k - 1].Id())
  }

  predicate IsPresented(bundle: Bundle, v: Vaid) {
    v.Id() in bundle && bundle[v.Id()] == v
  }

  /** From a document naming no parent down to the leaf, every ancestor presented, within the bound. */
  predicate IsPresentedChain(leaf: Vaid, bundle: Bundle, docs: seq<Vaid>) {
    && 0 < |docs| <= MAX_LINEAGE_DEPTH
    && docs[|docs| - 1] == leaf
    && (forall k {:trigger LinksUp(docs, k)} | 0 <= k < |docs| :: LinksUp(docs, k))
    && (forall k | 0 <= k < |docs| - 1 :: IsPresented(bundle, docs[k]))
    && (forall i, j | 0 <= i < j < |docs| :: docs[i].Id() != docs[j].Id())
  }

  function Ids(docs: seq<Vaid>): (ids: seq<Uuid>)
    ensures |ids| == |docs| && forall k | 0 <= k < |docs| :: ids[k] == docs[k].Id()
  {
    seq(|docs|, k requires 0 <= k < |docs| => docs[k].Id())
  }

  lemma LineageIsPresented(leaf: Vaid, bundle: Bundle, ids: seq<Uuid>)
    requires IsBundle(bundle) && IsLineage(ids, leaf.Id(), leaf.Parent(), BundleResolver(bundle))
    ensures ChainDocuments(leaf, bundle, ids).Some?
    ensures var docs := ChainDocuments(leaf, bundle, ids).value;
            Ids(docs) == ids && IsPresentedChain(leaf, bundle, docs)
  {
    var n := |ids|;
    forall k | 0 <= k < n - 1 ensures ids[k] in bundle && ids[k] != leaf.Id() {
      assert Agrees(BundleParent(bundle, ids[k]), Above(ids, k));
      assert ids[k] != ids[n - 1];
    }
    var docs := ChainDocuments(leaf, bundle, ids).value;
    forall k | 0 <= k < n ensures LinksUp(docs, k) {
      if k < n - 1 {
        assert Agrees(BundleParent(bundle, ids[k]), Above(ids, k));
      }
    }
  }

  lemma PresentedIsLineage(leaf: Vaid, bundle: Bundle, docs: seq<Vaid>)
    requires IsPresentedChain(leaf, bundle, docs)
    ensures IsLineage(Ids(docs), leaf.Id(), leaf.Parent(), BundleResolver(bundle))
    ensures ChainDocuments(leaf, bundle, Ids(docs)) == Some(docs)
  {
    var ids, n := Ids(docs), |docs|;
    assert LinksUp(docs, n - 1);
    forall k {:trigger Above(ids, k)} | 0 <= k < n - 1 ensures Agrees(BundleParent(bundle, ids[k]), Above(ids, k)) {
      assert LinksUp(docs, k) && IsPresented(bundle, docs[k]);
    }
    forall k | 0 <= k < n ensures DocumentOf(leaf, bundle, ids[k]) == Some(docs[k]) {
      assert k < n - 1 ==> IsPresented(bundle, docs[k]) && docs[k].Id() != docs[n - 1].Id();
    }
    assert ChainDocuments(leaf, bundle, ids).value == docs;
  }

  /** The verifier's chain is exactly the presented one, and no id on it ever lacks its document. */
  lemma PresentedChainIsExact(leaf: Vaid, bundle: Bundle, docs: seq<Vaid>)
    requires IsBundle(bundle)
    ensures PresentedChain(leaf, bundle) == Some(docs) <==> IsPresentedChain(leaf, bundle, docs)
    ensures PresentedChain(leaf, bundle) == None
            <==> Assembled(leaf.Id(), leaf.Parent(), BundleResolver(bundle)) == Incomplete
  {
    var assembly := Assembled(leaf.Id(), leaf.Parent(), BundleResolver(bundle));
    if assembly.Complete? {
      AssemblyIsExact(assembly.ids, leaf.Id(), leaf.Parent(), BundleResolver(bundle));
      LineageIsPresented(leaf, bundle, assembly.ids);
    }
    if IsPresentedChain(leaf, bundle, docs) {
      PresentedIsLineage(leaf, bundle, docs);
      AssemblyIsExact(Ids(docs), leaf.Id(), leaf.Parent(), BundleResolver(bundle));
    }
  }

  // ------------------------------------------------------------------
  // Hops
  // ------------------------------------------------------------------

  predicate IsContained(parent: Vaid, child: Vaid) {
    && (SameKey(parent, child) ==> SameTenant(parent, child))
    && ScopeAttenuates(parent.scopeBoundary, child.scopeBoundary)
    && CapsAttenuate(parent.capabilitySet, child.capabilitySet)
    && ExpiryAttenuates(parent.expiresAt, child.expiresAt)
  }

  /** Everything a consent must be, save current. */
  predicate IsConsent(keys: KeyResolver, a: ConsentAttestation, parent: Vaid, child: Vaid) {
    && NamesParentIssuer(a.terms, parent)
    && NamesChildIdentity(a.terms, child)
    && AuthenticConsent(keys, a)
    && ScopeAttenuates(a.terms.scopeBoundary, child.scopeBoundary)
    && CapsAttenuate(a.terms.capabilitySet, child.capabilitySet)
    && ScopeAttenuates(parent.scopeBoundary, a.terms.scopeBoundary)
    && CapsAttenuate(parent.capabilitySet, a.terms.capabilitySet)
  }

  predicate HasConsent(keys: KeyResolver, attestations: AttestationBundle, parent: Vaid, child: Vaid) {
    && (parent.Id(), child.Id()) in attestations
    && IsConsent(keys, attestations[(parent.Id(), child.Id())], parent, child)
  }

  lemma {:induction false} FaultFree(findings: seq<Finding>)
    requires forall k | 0 <= k < |findings| :: findings[k].otherwise != Attenuated
    ensures FirstFault(findings) == Attenuated <==> forall k | 0 <= k < |findings| :: findings[k].holds
  {
    if findings != [] {
      FaultFree(findings[1..]);
      assert findings == [findings[0]] + findings[1..];
    }
  }

  lemma HopMeaning(keys: KeyResolver, attestations: AttestationBundle, now: Instant, parent: Vaid, child: Vaid)
    ensures HopVerdict(keys, attestations, now, parent, child) == Attenuated
            <==> && IsContained(parent, child)
                 && (!SameKey(parent, child) ==>
                       && HasConsent(keys, attestations, parent, child)
                       && attestations[(parent.Id(), child.Id())].IsCurrent(now))
  {
    var shared := ContainmentFindings(parent, child);
    var findings := HopFindings(keys, attestations, now, parent, child);
    var consent := findings[4..];
    assert findings == shared + consent;
    FaultFree(findings);
    assert (forall k | 0 <= k < |findings| :: findings[k].holds)
           <==> (forall k | 0 <= k < |shared| :: shared[k].holds)
                && (forall k | 0 <= k < |consent| :: consent[k].holds);
    assert (forall k | 0 <= k < |shared| :: shared[k].holds) <==> IsContained(parent, child) by {
      assert shared[0].holds && shared[1].holds && shared[2].holds && shared[3].holds <==> IsContained(parent, child);
    }
    if !SameKey(parent, child) && (parent.Id(), child.Id()) in attestations {
      ConsentMeaning(keys, attestations[(parent.Id(), child.Id())], now, parent, child);
      assert consent == ConsentFindings(keys, attestations[(parent.Id(), child.Id())], now, parent, child);
    }
    if !SameKey(parent, child) && (parent.Id(), child.Id()) !in attestations {
      assert !consent[0].holds;
    }
  }

  lemma ConsentMeaning(keys: KeyResolver, a: ConsentAttestation, now: Instant, parent: Vaid, child: Vaid)
    ensures var findings := ConsentFindings(keys, a, now, parent, child);
            (forall k | 0 <= k < |findings| :: findings[k].holds)
            <==> IsConsent(keys, a, parent, child) && a.IsCurrent(now)
  {
    var f := ConsentFindings(keys, a, now, parent, child);
    assert f[0].holds && f[1].holds && f[2].holds && f[3].holds && f[4].holds && f[5].holds
           <==> IsConsent(keys, a, parent, child) && a.IsCurrent(now);
  }

  predicate HopPasses(keys: KeyResolver, attestations: AttestationBundle, now: Instant, docs: seq<Vaid>, k: nat)
    requires k + 1 < |docs|
  {
    HopVerdict(keys, attestations, now, docs[k], docs[k + 1]) == Attenuated
  }

  predicate FailsFirst(keys: KeyResolver, attestations: AttestationBundle, now: Instant, docs: seq<Vaid>, k: nat)
    requires k + 1 < |docs|
  {
    && !HopPasses(keys, attestations, now, docs, k)
    && forall j | 0 <= j < k :: HopPasses(keys, attestations, now, docs, j)
  }

  /** The hops give the verdict of the first that fails, root first. */
  lemma {:induction false} FirstFailingHop(
    keys: KeyResolver, attestations: AttestationBundle, now: Instant, docs: seq<Vaid>, k: nat)
    requires k + 1 < |docs| && FailsFirst(keys, attestations, now, docs, k)
    ensures HopsVerdict(keys, attestations, now, docs) == HopVerdict(keys, attestations, now, docs[k], docs[k + 1])
  {
    if k > 0 {
      assert HopPasses(keys, attestations, now, docs, 0);
      assert forall j | 0 <= j < k - 1 ::
          HopPasses(keys, attestations, now, docs[1..], j) == HopPasses(keys, attestations, now, docs, j + 1);
      FirstFailingHop(keys, attestations, now, docs[1..], k - 1);
    }
  }

  predicate AllPass(keys: KeyResolver, attestations: AttestationBundle, now: Instant, docs: seq<Vaid>) {
    forall k | 0 <= k < |docs| - 1 :: HopPasses(keys, attestations, now, docs, k)
  }

  lemma {:induction false} AllHopsPass(
    keys: KeyResolver, attestations: AttestationBundle, now: Instant, docs: seq<Vaid>)
    ensures HopsVerdict(keys, attestations, now, docs) == Attenuated <==> AllPass(keys, attestations, now, docs)
  {
    if |docs| >= 2 {
      var tail := docs[1..];
      AllHopsPass(keys, attestations, now, tail);
      if AllPass(keys, attestations, now, docs) {
        forall j | 0 <= j < |tail| - 1 ensures HopPasses(keys, attestations, now, tail, j) {
          assert HopPasses(keys, attestations, now, docs, j + 1);
        }
      }
      if AllPass(keys, attestations, now, tail) && HopPasses(keys, attestations, now, docs, 0) {
        forall k | 0 <= k < |docs| - 1 ensures HopPasses(keys, attestations, now, docs, k) {
          assert k > 0 ==> HopPasses(keys, attestations, now, tail, k - 1);
        }
      }
    }
  }

  // ------------------------------------------------------------------
  // The window in which a presentation is attenuated
  // ------------------------------------------------------------------

  function HopOf(docs: seq<Vaid>, k: nat): (Uuid, Uuid)
    requires k + 1 < |docs|
  {
    (docs[k].Id(), docs[k + 1].Id())
  }

  predicate ContainedAt(docs: seq<Vaid>, k: nat)
    requires k + 1 < |docs|
  {
    IsContained(docs[k], docs[k + 1])
  }

  predicate CrossesKeys(docs: seq<Vaid>, k: nat)
    requires k + 1 < |docs|
  {
    !SameKey(docs[k], docs[k + 1])
  }

  predicate ConsentedAt(keys: KeyResolver, attestations: AttestationBundle, docs: seq<Vaid>, k: nat)
    requires k + 1 < |docs|
  {
    CrossesKeys(docs, k) ==> HasConsent(keys, attestations, docs[k], docs[k + 1])
  }

  predicate IsContainedChain(docs: seq<Vaid>) {
    forall k | 0 <= k < |docs| - 1 :: ContainedAt(docs, k)
  }

  predicate IsConsentedChain(keys: KeyResolver, attestations: AttestationBundle, docs: seq<Vaid>) {
    forall k | 0 <= k < |docs| - 1 :: ConsentedAt(keys, attestations, docs, k)
  }

  /** Everything the verdict needs that no clock decides. */
  predicate IsDelegation(
    keys: KeyResolver, leaf: Vaid, bundle: Bundle, attestations: AttestationBundle, docs: seq<Vaid>) {
    && AllAuthentic(keys, leaf, bundle)
    && IsPresentedChain(leaf, bundle, docs)
    && IsContainedChain(docs)
    && IsConsentedChain(keys, attestations, docs)
  }

  predicate LiveAt(docs: seq<Vaid>, k: nat, now: Instant)
    requires k < |docs|
  {
    docs[k].Expiry().Some? && now <= docs[k].Expiry().value
  }

  /** `now` is at or before every ancestor's expiry. */
  predicate AncestorsLive(docs: seq<Vaid>, now: Instant) {
    forall k | 0 <= k < |docs| - 1 :: LiveAt(docs, k, now)
  }

  predicate CurrentAt(attestations: AttestationBundle, docs: seq<Vaid>, k: nat, now: Instant)
    requires k + 1 < |docs|
  {
    CrossesKeys(docs, k) && HopOf(docs, k) in attestations ==>
      var t := attestations[HopOf(docs, k)].terms;
      t.issuedAt < t.expiresAt && t.issuedAt - 300 * SECOND <= now <= t.expiresAt
  }

  /** Every consent used was issued no more than 300 s after `now`, and has not lapsed. */
  predicate ConsentsCurrent(attestations: AttestationBundle, docs: seq<Vaid>, now: Instant) {
    forall k | 0 <= k < |docs| - 1 :: CurrentAt(attestations, docs, k, now)
  }

  lemma HopPassesWhen(keys: KeyResolver, attestations: AttestationBundle, now: Instant, docs: seq<Vaid>, k: nat)
    requires k + 1 < |docs|
    ensures HopPasses(keys, attestations, now, docs, k)
            <==> && ContainedAt(docs, k)
                 && ConsentedAt(keys, attestations, docs, k)
                 && CurrentAt(attestations, docs, k, now)
  {
    HopMeaning(keys, attestations, now, docs[k], docs[k + 1]);
  }

  lemma LapsedMeans(docs: seq<Vaid>, now: Instant)
    ensures AncestorLapsed(docs, now) <==> !AncestorsLive(docs, now)
  {
    if !AncestorsLive(docs, now) {
      var k :| 0 <= k < |docs| - 1 && !LiveAt(docs, k, now);
      assert docs[k].IsExpiredAt(now);
    }
    if AncestorLapsed(docs, now) {
      var k :| 0 <= k < |docs| - 1 && docs[k].IsExpiredAt(now);
      assert !LiveAt(docs, k, now);
    }
  }

  lemma HopsPassWhen(keys: KeyResolver, attestations: AttestationBundle, now: Instant, docs: seq<Vaid>)
    ensures HopsVerdict(keys, attestations, now, docs) == Attenuated
            <==> && IsContainedChain(docs)
                 && IsConsentedChain(keys, attestations, docs)
                 && ConsentsCurrent(attestations, docs, now)
  {
    AllHopsPass(keys, attestations, now, docs);
    forall k | 0 <= k < |docs| - 1
      ensures HopPasses(keys, attestations, now, docs, k)
              <==> && ContainedAt(docs, k)
                   && ConsentedAt(keys, attestations, docs, k)
                   && CurrentAt(attestations, docs, k, now)
    {
      HopPassesWhen(keys, attestations, now, docs, k);
    }
  }

  /** The verdict is `Attenuated` exactly when the delegation stands and `now` is inside every bound. */
  lemma AttenuatedInstants(
    keys: KeyResolver, leaf: Vaid, bundle: Bundle, attestations: AttestationBundle, docs: seq<Vaid>, now: Instant)
    requires IsBundle(bundle) && PresentedChain(leaf, bundle) == Some(docs)
    ensures Verdict(keys, leaf, bundle, attestations, now) == Attenuated
            <==> && IsDelegation(keys, leaf, bundle, attestations, docs)
                 && AncestorsLive(docs, now)
                 && ConsentsCurrent(attestations, docs, now)
  {
    PresentedChainIsExact(leaf, bundle, docs);
    LapsedMeans(docs, now);
    HopsPassWhen(keys, attestations, now, docs);
  }

  lemma AttenuatedMeans(keys: KeyResolver, leaf: Vaid, bundle: Bundle, attestations: AttestationBundle, now: Instant)
    returns (docs: seq<Vaid>)
    requires IsBundle(bundle) && Verdict(keys, leaf, bundle, attestations, now) == Attenuated
    ensures PresentedChain(leaf, bundle) == Some(docs)
    ensures IsDelegation(keys, leaf, bundle, attestations, docs) && AncestorsLive(docs, now)
    ensures ConsentsCurrent(attestations, docs, now)
  {
    docs := PresentedChain(leaf, bundle).value;
    AttenuatedInstants(keys, leaf, bundle, attestations, docs, now);
  }

  predicate NeverCrossesKeys(docs: seq<Vaid>) {
    forall k | 0 <= k < |docs| - 1 :: !CrossesKeys(docs, k)
  }

  /** Those instants are one interval, closed downwards when no hop crosses a key. */
  lemma AttenuatedIsAnInterval(
    keys: KeyResolver, leaf: Vaid, bundle: Bundle, attestations: AttestationBundle, early: Instant, now: Instant,
    late: Instant)
    requires IsBundle(bundle) && early <= now <= late
    requires Verdict(keys, leaf, bundle, attestations, late) == Attenuated
    requires Verdict(keys, leaf, bundle, attestations, early) == Attenuated
             || NeverCrossesKeys(PresentedChain(leaf, bundle).value)
    ensures Verdict(keys, leaf, bundle, attestations, now) == Attenuated
  {
    var docs := AttenuatedMeans(keys, leaf, bundle, attestations, late);
    forall k | 0 <= k < |docs| - 1 ensures LiveAt(docs, k, now) {
      assert LiveAt(docs, k, late);
    }
    if !NeverCrossesKeys(docs) {
      AttenuatedInstants(keys, leaf, bundle, attestations, docs, early);
    }
    forall k | 0 <= k < |docs| - 1 ensures CurrentAt(attestations, docs, k, now) {
      assert CurrentAt(attestations, docs, k, late);
      assert NeverCrossesKeys(docs) || CurrentAt(attestations, docs, k, early);
    }
    AttenuatedInstants(keys, leaf, bundle, attestations, docs, now);
  }

  // ------------------------------------------------------------------
  // Soundness
  // ------------------------------------------------------------------

  /** What the descendant may do and when, the ancestor may too. */
  ghost predicate Holds(ancestor: Vaid, descendant: Vaid) {
    && Within(ancestor.scopeBoundary, descendant.scopeBoundary)
    && (forall c | c in descendant.capabilitySet :: c in ancestor.capabilitySet)
    && ancestor.Expiry().Some? && descendant.Expiry().Some?
    && descendant.Expiry().value <= ancestor.Expiry().value
  }

  lemma ContainedHolds(parent: Vaid, child: Vaid)
    requires IsContained(parent, child)
    ensures Holds(parent, child)
  {
    AttenuatedIsWithin(parent.scopeBoundary, child.scopeBoundary);
    forall c | c in child.capabilitySet ensures c in parent.capabilitySet {
      var k :| 0 <= k < |child.capabilitySet| && child.capabilitySet[k] == c;
      assert CapsContain(parent.capabilitySet, c);
    }
  }

  lemma {:induction false} ContainmentComposes(docs: seq<Vaid>, i: nat, j: nat)
    requires i < j < |docs|
    requires IsContainedChain(docs)
    ensures Holds(docs[i], docs[j])
    decreases j - i
  {
    assert ContainedAt(docs, j - 1);
    ContainedHolds(docs[j - 1], docs[j]);
    if i < j - 1 {
      ContainmentComposes(docs, i, j - 1);
    }
  }

  /** On an attenuated chain authority only shrinks, from any ancestor to any descendant. */
  lemma EndToEndSoundness(
    keys: KeyResolver, leaf: Vaid, bundle: Bundle, attestations: AttestationBundle, now: Instant, docs: seq<Vaid>,
    i: nat, j: nat)
    requires IsBundle(bundle) && Verdict(keys, leaf, bundle, attestations, now) == Attenuated
    requires PresentedChain(leaf, bundle) == Some(docs) && i < j < |docs|
    ensures Holds(docs[i], docs[j])
  {
    AttenuatedInstants(keys, leaf, bundle, attestations, docs, now);
    ContainmentComposes(docs, i, j);
  }

  lemma LifeOnlyShrinks(docs: seq<Vaid>, t: Instant)
    requires docs != [] && IsContainedChain(docs) && !docs[|docs| - 1].IsExpiredAt(t)
    ensures forall k | 0 <= k < |docs| :: !docs[k].IsExpiredAt(t)
  {
    forall k | 0 <= k < |docs| ensures !docs[k].IsExpiredAt(t) {
      if k < |docs| - 1 {
        ContainmentComposes(docs, k, |docs| - 1);
      }
    }
  }

  /** While the leaf is live every document above it is. */
  lemma LiveLeafMeansLiveChain(
    keys: KeyResolver, leaf: Vaid, bundle: Bundle, attestations: AttestationBundle, now: Instant, docs: seq<Vaid>,
    t: Instant)
    requires IsBundle(bundle) && Verdict(keys, leaf, bundle, attestations, now) == Attenuated
    requires PresentedChain(leaf, bundle) == Some(docs) && !leaf.IsExpiredAt(t)
    ensures forall k | 0 <= k < |docs| :: !docs[k].IsExpiredAt(t)
  {
    AttenuatedInstants(keys, leaf, bundle, attestations, docs, now);
    LifeOnlyShrinks(docs, t);
  }

  /** With every hop contained, the lapse test over all ancestors is the test on the leaf's parent. */
  lemma LapseIsDecidedByTheParent(docs: seq<Vaid>, now: Instant)
    requires |docs| >= 2
    requires IsContainedChain(docs)
    ensures AncestorLapsed(docs, now) <==> docs[|docs| - 2].IsExpiredAt(now)
  {
    var p := |docs| - 2;
    forall k | 0 <= k < p ensures Holds(docs[k], docs[p]) {
      ContainmentComposes(docs, k, p);
    }
  }

  // ------------------------------------------------------------------
  // Crossing keys
  // ------------------------------------------------------------------

  /** What crossing from parent to child rests on. */
  ghost predicate IsCrossing(keys: KeyResolver, a: ConsentAttestation, parent: Vaid, child: Vaid, now: Instant) {
    && a.Hop() == (parent.Id(), child.Id())
    && a.IsCurrent(now)
    && a.terms.thumbprint == parent.thumbprint
    && AuthenticConsent(keys, a)
    && a.terms.childTrustDomain == child.trustDomain
    && a.terms.childTenantId == child.tenantId
    && Within(parent.scopeBoundary, a.terms.scopeBoundary)
    && Within(a.terms.scopeBoundary, child.scopeBoundary)
    && (forall c | c in child.capabilitySet :: c in a.terms.capabilitySet && c in parent.capabilitySet)
  }

  lemma ConsentIsCrossing(keys: KeyResolver, a: ConsentAttestation, parent: Vaid, child: Vaid, now: Instant)
    requires a.Hop() == (parent.Id(), child.Id())
    requires IsConsent(keys, a, parent, child) && a.IsCurrent(now)
    ensures IsCrossing(keys, a, parent, child, now)
  {
    AttenuatedIsWithin(parent.scopeBoundary, a.terms.scopeBoundary);
    AttenuatedIsWithin(a.terms.scopeBoundary, child.scopeBoundary);
    forall c | c in child.capabilitySet ensures c in a.terms.capabilitySet && c in parent.capabilitySet {
      var k :| 0 <= k < |child.capabilitySet| && child.capabilitySet[k] == c;
      assert CapsContain(a.terms.capabilitySet, c);
      var m :| 0 <= m < |a.terms.capabilitySet| && a.terms.capabilitySet[m] == c;
      assert CapsContain(parent.capabilitySet, c);
    }
  }

  /** Every cross-key hop has current consent for exactly that pair, signed by the parent's issuer. */
  lemma CrossKeyHopsAreConsented(
    keys: KeyResolver, leaf: Vaid, bundle: Bundle, presented: seq<ConsentAttestation>, now: Instant, docs: seq<Vaid>,
    k: nat)
    returns (a: ConsentAttestation)
    requires IsBundle(bundle) && Verdict(keys, leaf, bundle, BundleAttestations(presented), now) == Attenuated
    requires PresentedChain(leaf, bundle) == Some(docs) && k + 1 < |docs| && CrossesKeys(docs, k)
    ensures a in presented && IsCrossing(keys, a, docs[k], docs[k + 1], now)
  {
    var attestations := BundleAttestations(presented);
    AttenuatedInstants(keys, leaf, bundle, attestations, docs, now);
    assert ConsentedAt(keys, attestations, docs, k) && CurrentAt(attestations, docs, k, now);
    a := attestations[HopOf(docs, k)];
    ConsentIsCrossing(keys, a, docs[k], docs[k + 1], now);
  }

  lemma {:induction false} TenantIsKept(docs: seq<Vaid>, i: nat, j: nat)
    requires IsContainedChain(docs) && i <= j < |docs|
    requires forall k | i <= k < j :: !CrossesKeys(docs, k)
    ensures SameTenant(docs[i], docs[j]) && docs[i].thumbprint == docs[j].thumbprint
    decreases j - i
  {
    if i < j {
      TenantIsKept(docs, i, j - 1);
      assert ContainedAt(docs, j - 1) && !CrossesKeys(docs, j - 1);
    }
  }

  /** Trust domain and tenant stay put along any stretch of the chain under one key. */
  lemma TenantConstantUnderOneKey(
    keys: KeyResolver, leaf: Vaid, bundle: Bundle, attestations: AttestationBundle, now: Instant, docs: seq<Vaid>,
    i: nat, j: nat)
    requires IsBundle(bundle) && Verdict(keys, leaf, bundle, attestations, now) == Attenuated
    requires PresentedChain(leaf, bundle) == Some(docs) && i <= j < |docs|
    requires forall k | i <= k < j :: !CrossesKeys(docs, k)
    ensures SameTenant(docs[i], docs[j]) && docs[i].thumbprint == docs[j].thumbprint
  {
    AttenuatedInstants(keys, leaf, bundle, attestations, docs, now);
    TenantIsKept(docs, i, j);
  }

  predicate SameConsent(a: AttestationBundle, b: AttestationBundle, hop: (Uuid, Uuid)) {
    (hop in a <==> hop in b) && (hop in a ==> a[hop] == b[hop])
  }

  lemma {:induction false} HopsVerdictLocal(
    keys: KeyResolver, a: AttestationBundle, b: AttestationBundle, now: Instant, docs: seq<Vaid>)
    requires forall k | 0 <= k < |docs| - 1 :: SameConsent(a, b, HopOf(docs, k))
    ensures HopsVerdict(keys, a, now, docs) == HopsVerdict(keys, b, now, docs)
  {
    if |docs| >= 2 {
      assert SameConsent(a, b, HopOf(docs, 0));
      forall k | 0 <= k < |docs| - 2 ensures SameConsent(a, b, HopOf(docs[1..], k)) {
        assert HopOf(docs[1..], k) == HopOf(docs, k + 1);
      }
      HopsVerdictLocal(keys, a, b, now, docs[1..]);
    }
  }

  /** An attestation for a pair that is not a hop of the chain never changes the verdict. */
  lemma OffChainAttestationIsInert(
    keys: KeyResolver, leaf: Vaid, bundle: Bundle, attestations: AttestationBundle, now: Instant,
    extra: ConsentAttestation)
    requires IsBundle(bundle)
    requires PresentedChain(leaf, bundle).Some? ==>
               var docs := PresentedChain(leaf, bundle).value;
               forall k | 0 <= k < |docs| - 1 :: HopOf(docs, k) != extra.Hop()
    ensures Verdict(keys, leaf, bundle, attestations[extra.Hop() := extra], now)
            == Verdict(keys, leaf, bundle, attestations, now)
  {
    if PresentedChain(leaf, bundle).Some? {
      HopsVerdictLocal(keys, attestations[extra.Hop() := extra], attestations, now, PresentedChain(leaf, bundle).value);
    }
  }

  // ------------------------------------------------------------------
  // What else is presented
  // ------------------------------------------------------------------

  lemma {:induction false} PresentedBundleLookup(documents: seq<Vaid>, k: nat)
    requires k < |documents|
    requires forall i, j | 0 <= i < j < |documents| :: documents[i].Id() != documents[j].Id()
    ensures var b := PresentedBundle(documents); documents[k].Id() in b && b[documents[k].Id()] == documents[k]
  {
    if k < |documents| - 1 {
      PresentedBundleLookup(documents[..|documents| - 1], k);
    }
  }

  /** Documents with distinct ids may be presented in any order. */
  lemma PresentationOrderIsIrrelevant(
    keys: KeyResolver, leaf: Vaid, one: seq<Vaid>, other: seq<Vaid>, attestations: AttestationBundle, now: Instant)
    requires forall i, j | 0 <= i < j < |one| :: one[i].Id() != one[j].Id()
    requires forall i, j | 0 <= i < j < |other| :: other[i].Id() != other[j].Id()
    requires forall v :: v in one <==> v in other
    ensures Verdict(keys, leaf, PresentedBundle(one), attestations, now)
            == Verdict(keys, leaf, PresentedBundle(other), attestations, now)
  {
    var b, c := PresentedBundle(one), PresentedBundle(other);
    forall id | id in b ensures id in c && c[id] == b[id] {
      assert b[id] in b.Values && b[id] in one && b[id] in other;
      var k :| 0 <= k < |other| && other[k] == b[id];
      PresentedBundleLookup(other, k);
    }
    forall id | id in c ensures id in b {
      assert c[id] in c.Values && c[id] in other && c[id] in one;
    }
    assert b == c;
  }

  /** An authentic document under a new id matters only to a presentation that was incomplete. */
  lemma ExtraDocumentIsInert(
    keys: KeyResolver, leaf: Vaid, bundle: Bundle, attestations: AttestationBundle, now: Instant, extra: Vaid)
    requires IsBundle(bundle) && extra.Id() !in bundle && Authentic(keys, extra)
    ensures || Verdict(keys, leaf, bundle, attestations, now) == Unverifiable
            || Verdict(keys, leaf, bundle[extra.Id() := extra], attestations, now)
               == Verdict(keys, leaf, bundle, attestations, now)
  {
    var more := bundle[extra.Id() := extra];
    assert AllAuthentic(keys, leaf, more) <==> AllAuthentic(keys, leaf, bundle) by {
      assert forall id | id in bundle :: id in more && more[id] == bundle[id];
    }
    if PresentedChain(leaf, bundle).Some? {
      StillPresented(leaf, bundle, more, PresentedChain(leaf, bundle).value);
    }
  }

  lemma StillPresented(leaf: Vaid, bundle: Bundle, more: Bundle, docs: seq<Vaid>)
    requires IsBundle(bundle) && IsBundle(more) && PresentedChain(leaf, bundle) == Some(docs)
    requires forall id | id in bundle :: id in more && more[id] == bundle[id]
    ensures PresentedChain(leaf, more) == Some(docs)
  {
    PresentedChainIsExact(leaf, bundle, docs);
    PresentedChainIsExact(leaf, more, docs);
  }
}
