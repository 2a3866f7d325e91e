/** End-to-end verification of a presented identity: a leaf and its ancestors, under a trust configuration. */
module Presentation {
  import opened Wrappers
  import opened Wire
  import opened ScopeRules
  import opened Document
  import opened Revocation
  import opened ChainTheorems
  import opened Trust
  import Chain
  import Verify

  datatype Presented = Presented(leaf: Vaid, chain: seq<Vaid>)

  /** Asked about an ancestry, root first. */
  type RevocationCheck = seq<Uuid> -> RevocationStatus

  function StoreCheck(state: RevokedState): RevocationCheck {
    ids => CheckedLineage(state, ids)
  }

  // ------------------------------------------------------------------
  // The steps every consumer takes
  // ------------------------------------------------------------------

  datatype Refusal =
    | UntrustedIssuer
    | LeafRefused(verdict: Verify.VaidVerdict)
    | LeafExpired
    | UnreadableBoundary
    | MisboundAncestor
    | ChainRefused(chainVerdict: Chain.ChainVerification)

  predicate IsBound(keys: TrustedIssuers, v: Vaid) {
    keys.TrustDomainFor(v.thumbprint) == Some(v.trustDomain)
  }

  /** A trusted key's document that claims another key's domain. A key not trusted at all has no domain to miss. */
  predicate IsMisbound(keys: TrustedIssuers, v: Vaid) {
    keys.TrustDomainFor(v.thumbprint).Some? && !IsBound(keys, v)
  }

  predicate AllReadable(p: Presented) {
    BoundaryIsEvaluable(p.leaf.scopeBoundary)
        && forall k | 0 <= k < |p.chain| :: BoundaryIsEvaluable(p.chain[k].scopeBoundary)
  }

  predicate NoneMisbound(keys: TrustedIssuers, chain: seq<Vaid>) {
    forall k | 0 <= k < |chain| :: !IsMisbound(keys, chain[k])
  }

  function LeafRefusal(keys: TrustedIssuers, leaf: Vaid, now: Instant): Option<Refusal> {
    match keys.ResolveKey(leaf.thumbprint)
    case None => Some(UntrustedIssuer)
    case Some(key) =>
      if !IsBound(keys, leaf) then Some(UntrustedIssuer)
      else if Verify.AuthenticityVerdict(key, leaf) != Verify.Valid then
        Some(LeafRefused(Verify.AuthenticityVerdict(key, leaf)))
      else if leaf.IsExpiredAt(now) then Some(LeafExpired)
      else None
  }

  function VerdictOf(keys: TrustedIssuers, p: Presented, now: Instant): Chain.ChainVerification {
    Chain.Verdict(keys.Resolver(), p.leaf, Chain.PresentedBundle(p.chain), map[], now)
  }

  /** The leaf on its own, then what can be read, then the ancestors' domains, then the chain. */
  function StandingRefusal(keys: TrustedIssuers, p: Presented, now: Instant): Option<Refusal> {
    var refusal := LeafRefusal(keys, p.leaf, now);
    if refusal.Some? then refusal
    else if !AllReadable(p) then Some(UnreadableBoundary)
    else if !NoneMisbound(keys, p.chain) then Some(MisboundAncestor)
    else if VerdictOf(keys, p, now) != Chain.Attenuated then Some(ChainRefused(VerdictOf(keys, p, now)))
    else None
  }

  method CheckReadable(p: Presented) returns (ok: bool)
    ensures ok == AllReadable(p)
  {
    var documents := [p.leaf] + p.chain;
    for i := 0 to |documents|
      invariant forall k | 0 <= k < i :: BoundaryIsEvaluable(documents[k].scopeBoundary)
    {
      if !BoundaryIsEvaluable(documents[i].scopeBoundary) {
        assert i > 0 ==> documents[i] == p.chain[i - 1];
        return false;
      }
    }
    assert BoundaryIsEvaluable(documents[0].scopeBoundary);
    assert forall k | 0 <= k < |p.chain| :: documents[k + 1] == p.chain[k];
    return true;
  }

  method CheckBindings(keys: TrustedIssuers, chain: seq<Vaid>) returns (ok: bool)
    ensures ok == NoneMisbound(keys, chain)
  {
    for i := 0 to |chain|
      invariant forall k | 0 <= k < i :: !IsMisbound(keys, chain[k])
    {
      var bound := keys.TrustDomainFor(chain[i].thumbprint);
      if bound.Some? && bound != Some(chain[i].trustDomain) {
        assert IsMisbound(keys, chain[i]);
        return false;
      }
    }
    return true;
  }

  method CheckStanding(keys: TrustedIssuers, p: Presented, now: Instant) returns (refusal: Option<Refusal>)
    ensures refusal == StandingRefusal(keys, p, now)
  {
    hide AllReadable, NoneMisbound, Chain.Verdict, Verify.AuthenticityVerdict;
    var leaf := p.leaf;
    var key := keys.ResolveKey(leaf.thumbprint);
    if key.None? || keys.TrustDomainFor(leaf.thumbprint) != Some(leaf.trustDomain) {
      return Some(UntrustedIssuer);
    }
    var authenticity := Verify.AuthenticityVerdict(key.value, leaf);
    if authenticity != Verify.Valid {
      return Some(LeafRefused(authenticity));
    }
    if leaf.IsExpiredAt(now) {
      return Some(LeafExpired);
    }
    var readable := CheckReadable(p);
    if !readable {
      return Some(UnreadableBoundary);
    }
    var bound := CheckBindings(keys, p.chain);
    if !bound {
      return Some(MisboundAncestor);
    }
    var verdict := Chain.VerifyChainAt(keys.Resolver(), leaf, Chain.PresentedBundle(p.chain), map[], now);
    return if verdict != Chain.Attenuated then Some(ChainRefused(verdict)) else None;
  }

  // ------------------------------------------------------------------
  // verify_presentation
  // ------------------------------------------------------------------

  datatype VerifyCode =
    | Allowed
    | NoVaid
    | UnsupportedSigVersion
    | MalformedTrustDomain
    | IssuerMismatch
    | LineageInconsistent
    | Inauthentic
    | Expired
    | UnknownScopeKind
    | Unverifiable
    | NotAttenuated
    | ConsentExpired
    | OutOfScope
    | MissingCapability
    | Revoked
    | Indeterminate

  function CodeOf(refusal: Refusal): VerifyCode {
    match refusal
    case UntrustedIssuer => IssuerMismatch
    case LeafRefused(verdict) =>
      (match verdict
       case UnsupportedSigVersion => UnsupportedSigVersion
       case MalformedTrustDomain => MalformedTrustDomain
       case IssuerMismatch => IssuerMismatch
       case LineageInconsistent => LineageInconsistent
       case _ => Inauthentic)
    case LeafExpired => Expired
    case UnreadableBoundary => VerifyCode.UnknownScopeKind
    case MisboundAncestor => IssuerMismatch
    case ChainRefused(verdict) =>
      match verdict
      case Inauthentic => Inauthentic
      case NotAttenuated => NotAttenuated
      case Expired => Expired
      case ConsentExpired => ConsentExpired
      case _ => Unverifiable
  }

  function StatusCode(status: RevocationStatus): VerifyCode {
    match status
    case NotRevoked => Allowed
    case Revoked => VerifyCode.Revoked
    case Unavailable => Indeterminate
  }

  function AssembledFrom(p: Presented): LineageAssembly {
    Assembled(p.leaf.Id(), p.leaf.Parent(), Chain.BundleResolver(Chain.PresentedBundle(p.chain)))
  }

  function PresentationCode(
    presentation: Option<Presented>, keys: TrustedIssuers, check: RevocationCheck,
    resource: Option<string>, capability: Option<string>, now: Instant): VerifyCode
  {
    match presentation
    case None => NoVaid
    case Some(p) =>
      var refusal := StandingRefusal(keys, p, now);
      if refusal.Some? then CodeOf(refusal.value)
      else if resource.Some? && !ScopeContains(p.leaf.scopeBoundary, resource.value) then OutOfScope
      else if capability.Some? && !CapsContain(p.leaf.capabilitySet, capability.value) then MissingCapability
      else match AssembledFrom(p)
        case Incomplete => Indeterminate
        case Complete(ids) => StatusCode(check(ids))
  }

  method VerifyPresentation(
    presentation: Option<Presented>, keys: TrustedIssuers, check: RevocationCheck,
    resource: Option<string>, capability: Option<string>, now: Instant) returns (code: VerifyCode)
    ensures code == PresentationCode(presentation, keys, check, resource, capability, now)
  {
    if presentation.None? {
      return NoVaid;
    }
    var p := presentation.value;
    var refusal := CheckStanding(keys, p, now);
    if refusal.Some? {
      return CodeOf(refusal.value);
    }
    if resource.Some? {
      var contained := CheckScope(p.leaf.scopeBoundary, resource.value);
      if !contained {
        return OutOfScope;
      }
    }
    if capability.Some? && !CapsContain(p.leaf.capabilitySet, capability.value) {
      return MissingCapability;
    }
    var lineage := AssembleLineage(p.leaf.Id(), p.leaf.Parent(), Chain.BundleResolver(Chain.PresentedBundle(p.chain)));
    if lineage.Incomplete? {
      return Indeterminate;
    }
    match check(lineage.ids) {
      case Revoked => return VerifyCode.Revoked;
      case Unavailable => return Indeterminate;
      case NotRevoked => return Allowed;
    }
  }

  // ------------------------------------------------------------------
  // What standing means
  // ------------------------------------------------------------------

  /** A presentation that stands has a chain, and `docs` is it. */
  ghost predicate Stands(keys: TrustedIssuers, p: Presented, now: Instant, docs: seq<Vaid>) {
    && IsDelegation(keys.Resolver(), p.leaf, Chain.PresentedBundle(p.chain), map[], docs)
    && (forall k | 0 <= k < |docs| :: LiveAt(docs, k, now) && IsBound(keys, docs[k]))
    && AllReadable(p)
    && NoneMisbound(keys, p.chain)
  }

  lemma ConsentsAreVacuous(keys: Chain.KeyResolver, docs: seq<Vaid>, now: Instant)
    requires IsConsentedChain(keys, map[], docs)
    ensures ConsentsCurrent(map[], docs, now) && NeverCrossesKeys(docs)
  {
    forall k | 0 <= k < |docs| - 1 ensures !CrossesKeys(docs, k) && CurrentAt(map[], docs, k, now) {
      assert ConsentedAt(keys, map[], docs, k);
    }
  }

  lemma AuthenticIsBound(keys: TrustedIssuers, v: Vaid)
    requires Chain.Authentic(keys.Resolver(), v) && !IsMisbound(keys, v)
    ensures IsBound(keys, v)
  {
  }

  lemma ChainIsBound(keys: TrustedIssuers, p: Presented, docs: seq<Vaid>)
    requires IsPresentedChain(p.leaf, Chain.PresentedBundle(p.chain), docs)
    requires Chain.AllAuthentic(keys.Resolver(), p.leaf, Chain.PresentedBundle(p.chain))
    requires IsBound(keys, p.leaf) && NoneMisbound(keys, p.chain)
    ensures forall k | 0 <= k < |docs| :: IsBound(keys, docs[k])
  {
    hide IsBound, IsMisbound, Chain.Authentic, LinksUp;
    var bundle := Chain.PresentedBundle(p.chain);
    forall k | 0 <= k < |docs| ensures IsBound(keys, docs[k]) {
      if k < |docs| - 1 {
        assert IsPresented(bundle, docs[k]);
        assert docs[k] == bundle[docs[k].Id()] && docs[k] in bundle.Values && docs[k] in p.chain;
        AuthenticIsBound(keys, docs[k]);
      }
    }
  }

  lemma BoundLeafIsTrusted(keys: TrustedIssuers, leaf: Vaid, now: Instant)
    requires Chain.Authentic(keys.Resolver(), leaf) && IsBound(keys, leaf)
    ensures LeafRefusal(keys, leaf, now) == None <==> !leaf.IsExpiredAt(now)
  {
  }

  lemma UnrefusedLeaf(keys: TrustedIssuers, leaf: Vaid, now: Instant)
    requires LeafRefusal(keys, leaf, now) == None
    ensures IsBound(keys, leaf) && !leaf.IsExpiredAt(now)
  {
  }

  /**
   Nothing is refused exactly when there is a chain, standing end to end, with every document on
   it live and bound.
   */
  lemma StandingIsExact(keys: TrustedIssuers, p: Presented, now: Instant)
    ensures StandingRefusal(keys, p, now) == None
            <==> exists docs :: Stands(keys, p, now, docs)
    ensures StandingRefusal(keys, p, now) == None ==>
              var docs := Chain.PresentedChain(p.leaf, Chain.PresentedBundle(p.chain));
              docs.Some? && Stands(keys, p, now, docs.value)
  {
    hide LeafRefusal, IsBound, Chain.Verdict, IsDelegation, AllReadable, NoneMisbound, IsMisbound;
    if StandingRefusal(keys, p, now) == None {
      StandingMeans(keys, p, now);
    }
    if docs :| Stands(keys, p, now, docs) {
      WhatStandsIsNotRefused(keys, p, now, docs);
    }
  }

  lemma StandingMeans(keys: TrustedIssuers, p: Presented, now: Instant)
    requires StandingRefusal(keys, p, now) == None
    ensures var docs := Chain.PresentedChain(p.leaf, Chain.PresentedBundle(p.chain));
            docs.Some? && Stands(keys, p, now, docs.value)
  {
    hide LeafRefusal, IsBound, Chain.Verdict, AllReadable, NoneMisbound, Chain.AllAuthentic, IsConsentedChain;
    hide IsContainedChain;
    var docs := AttenuatedMeans(keys.Resolver(), p.leaf, Chain.PresentedBundle(p.chain), map[], now);
    UnrefusedLeaf(keys, p.leaf, now);
    ChainIsBound(keys, p, docs);
    assert docs[|docs| - 1] == p.leaf && LiveAt(docs, |docs| - 1, now);
  }

  lemma WhatStandsIsNotRefused(keys: TrustedIssuers, p: Presented, now: Instant, docs: seq<Vaid>)
    requires Stands(keys, p, now, docs)
    ensures StandingRefusal(keys, p, now) == None
  {
    hide LeafRefusal, IsBound, Chain.Verdict, IsMisbound;
    var bundle := Chain.PresentedBundle(p.chain);
    PresentedChainIsExact(p.leaf, bundle, docs);
    ConsentsAreVacuous(keys.Resolver(), docs, now);
    AttenuatedInstants(keys.Resolver(), p.leaf, bundle, map[], docs, now);
    assert LiveAt(docs, |docs| - 1, now) && IsBound(keys, docs[|docs| - 1]);
    BoundLeafIsTrusted(keys, p.leaf, now);
  }

  // ------------------------------------------------------------------
  // A leaf-only check is enough
  // ------------------------------------------------------------------

  /** What a document on an allowed chain may do, and that it may do it now. */
  predicate MayAct(keys: TrustedIssuers, v: Vaid, resource: Option<string>, capability: Option<string>, now: Instant) {
    && (resource.Some? ==> ScopeContains(v.scopeBoundary, resource.value))
    && (capability.Some? ==> capability.value in v.capabilitySet)
    && !v.IsExpiredAt(now)
    && IsBound(keys, v)
  }

  lemma AncestorMayAct(
    keys: TrustedIssuers, ancestor: Vaid, leaf: Vaid, resource: Option<string>, capability: Option<string>,
    now: Instant)
    requires Holds(ancestor, leaf) && MayAct(keys, leaf, resource, capability, now) && IsBound(keys, ancestor)
    ensures MayAct(keys, ancestor, resource, capability, now)
  {
  }

  /**
   Scope and capability are asked of the leaf alone, yet when the presentation is
   allowed every document on its chain holds both, is live, is signed under the key
   its domain is bound to, and is in a lineage the revocation check cleared.
   */
  lemma LeafCheckIsEnough(
    p: Presented, keys: TrustedIssuers, state: RevokedState, resource: Option<string>, capability: Option<string>,
    now: Instant)
    returns (docs: seq<Vaid>)
    requires PresentationCode(Some(p), keys, StoreCheck(state), resource, capability, now) == Allowed
    ensures IsPresentedChain(p.leaf, Chain.PresentedBundle(p.chain), docs)
    ensures forall k | 0 <= k < |docs| ::
              MayAct(keys, docs[k], resource, capability, now) && state.Some? && docs[k].Id() !in state.value
  {
    hide StandingRefusal, Stands, MayAct, IsBound, ScopeContains;
    StandingMeans(keys, p, now);
    docs := Chain.PresentedChain(p.leaf, Chain.PresentedBundle(p.chain)).value;
    LeafMayAct(keys, p, docs, resource, capability, now);
    LineageIsOfChain(p, docs);
    assert CheckedLineage(state, Ids(docs)) == NotRevoked;
    forall k | 0 <= k < |docs|
      ensures MayAct(keys, docs[k], resource, capability, now) && state.Some? && docs[k].Id() !in state.value
    {
      assert Ids(docs)[k] == docs[k].Id();
      if k < |docs| - 1 {
        StandingHolds(keys, p, now, docs, k);
        AncestorMayAct(keys, docs[k], p.leaf, resource, capability, now);
      }
    }
  }

  lemma LeafMayAct(
    keys: TrustedIssuers, p: Presented, docs: seq<Vaid>, resource: Option<string>, capability: Option<string>,
    now: Instant)
    requires Stands(keys, p, now, docs)
    requires resource.Some? ==> ScopeContains(p.leaf.scopeBoundary, resource.value)
    requires capability.Some? ==> CapsContain(p.leaf.capabilitySet, capability.value)
    ensures IsPresentedChain(p.leaf, Chain.PresentedBundle(p.chain), docs)
    ensures MayAct(keys, p.leaf, resource, capability, now)
  {
    assert docs[|docs| - 1] == p.leaf && LiveAt(docs, |docs| - 1, now) && IsBound(keys, docs[|docs| - 1]);
  }

  lemma StandingHolds(keys: TrustedIssuers, p: Presented, now: Instant, docs: seq<Vaid>, k: nat)
    requires Stands(keys, p, now, docs) && k + 1 < |docs|
    ensures Holds(docs[k], p.leaf) && IsBound(keys, docs[k])
  {
    hide Stands, IsContainedChain, Holds, IsBound;
    WhatStands(keys, p, now, docs);
    ContainmentComposes(docs, k, |docs| - 1);
  }

  lemma WhatStands(keys: TrustedIssuers, p: Presented, now: Instant, docs: seq<Vaid>)
    requires Stands(keys, p, now, docs)
    ensures docs != [] && docs[|docs| - 1] == p.leaf && IsContainedChain(docs)
    ensures forall k | 0 <= k < |docs| :: IsBound(keys, docs[k])
  {
    hide IsBound, IsContainedChain, AllReadable, NoneMisbound;
    forall k | 0 <= k < |docs| ensures IsBound(keys, docs[k]) {
      assert LiveAt(docs, k, now);
    }
  }

  lemma LineageIsOfChain(p: Presented, docs: seq<Vaid>)
    requires IsPresentedChain(p.leaf, Chain.PresentedBundle(p.chain), docs)
    ensures AssembledFrom(p) == Complete(Ids(docs))
  {
    PresentedIsLineage(p.leaf, Chain.PresentedBundle(p.chain), docs);
    AssemblyIsExact(Ids(docs), p.leaf.Id(), p.leaf.Parent(), Chain.BundleResolver(Chain.PresentedBundle(p.chain)));
  }

  /**
   `Indeterminate` only ever means the revocation check could not answer: the lineage never
   fails to assemble there.
   */
  lemma IndeterminateMeansUnavailable(
    p: Presented, keys: TrustedIssuers, check: RevocationCheck, resource: Option<string>, capability: Option<string>,
    now: Instant)
    requires PresentationCode(Some(p), keys, check, resource, capability, now) == Indeterminate
    ensures AssembledFrom(p).Complete? && check(AssembledFrom(p).ids) == Unavailable
  {
    hide StandingRefusal, Assembled, Chain.PresentedChain, Stands, LeafRefusal;
    StandingMeans(keys, p, now);
    StandingIsPresented(keys, p, now, Chain.PresentedChain(p.leaf, Chain.PresentedBundle(p.chain)).value);
    LineageIsOfChain(p, Chain.PresentedChain(p.leaf, Chain.PresentedBundle(p.chain)).value);
  }

  lemma StandingIsPresented(keys: TrustedIssuers, p: Presented, now: Instant, docs: seq<Vaid>)
    requires Stands(keys, p, now, docs)
    ensures IsPresentedChain(p.leaf, Chain.PresentedBundle(p.chain), docs)
  {
  }

  /**
   A presented document is bound to its key's domain, or is under no trusted key and displaced
   by another of its id.
   */
  lemma PresentedIsBoundOrDisplaced(keys: TrustedIssuers, p: Presented, now: Instant, k: nat)
    requires StandingRefusal(keys, p, now) == None && k < |p.chain|
    ensures || IsBound(keys, p.chain[k])
            || (keys.ResolveKey(p.chain[k].thumbprint) == None
                && p.chain[k].Id() in Chain.PresentedBundle(p.chain)
                && Chain.PresentedBundle(p.chain)[p.chain[k].Id()] != p.chain[k])
  {
    var v, bundle := p.chain[k], Chain.PresentedBundle(p.chain);
    assert v in p.chain && v.Id() in bundle && !IsMisbound(keys, v);
    if bundle[v.Id()] == v {
      assert Chain.Authentic(keys.Resolver(), bundle[v.Id()]);
      AuthenticIsBound(keys, v);
    }
  }
}
