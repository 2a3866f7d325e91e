/** Which code a presentation gets and which reason an exchange is refused for, from the facts of what is presented. */
module PresentationLaws {
  import opened Wrappers
  import opened Wire
  import opened ScopeRules
  import opened Document
  import opened IssuerIdentity
  import opened Revocation
  import opened ChainTheorems
  import opened ChainLaws
  import opened Trust
  import opened Presentation
  import Exchange
  import TokenLife
  import Chain
  import Verify

  // ------------------------------------------------------------------
  // Standing
  // ------------------------------------------------------------------

  /** Its key is trusted, for the domain it names. */
  predicate IsTrusted(keys: TrustedIssuers, v: Vaid) {
    v.thumbprint in keys.entries && keys.entries[v.thumbprint].trustDomain == v.trustDomain
  }

  predicate IsTrustedElsewhere(keys: TrustedIssuers, v: Vaid) {
    v.thumbprint in keys.entries && keys.entries[v.thumbprint].trustDomain != v.trustDomain
  }

  /** What is at fault with a presentation, the first thing first; the chain's verdict is `VerdictIsExact`'s. */
  function StandingFault(keys: TrustedIssuers, p: Presented, now: Instant): Option<Refusal> {
    var leaf := p.leaf;
    if !IsTrusted(keys, leaf) then Some(UntrustedIssuer)
    else
      var key := keys.entries[leaf.thumbprint].publicKey;
      if leaf.sigVersion != 4 then Some(LeafRefused(Verify.UnsupportedSigVersion))
      else if !IsValidTrustDomain(leaf.trustDomain) then Some(LeafRefused(Verify.MalformedTrustDomain))
      else if leaf.thumbprint != "urn:ietf:params:oauth:jwk-thumbprint:sha-256:" + key
        then Some(LeafRefused(Verify.IssuerMismatch))
      else if leaf.lineageHash != Verify.LineageText(leaf) then Some(LeafRefused(Verify.LineageInconsistent))
      else if !Verify.IsSignedBy(key, leaf) then Some(LeafRefused(Verify.Inauthentic))
      else if !IsLive(leaf, now) then Some(LeafExpired)
      else if !HoldsOnlyPrefixes(leaf.scopeBoundary) || exists v | v in p.chain :: !HoldsOnlyPrefixes(v.scopeBoundary)
        then Some(UnreadableBoundary)
      else if exists v | v in p.chain :: IsTrustedElsewhere(keys, v) then Some(MisboundAncestor)
      else if VerdictOf(keys, p, now) != Chain.Attenuated then Some(ChainRefused(VerdictOf(keys, p, now)))
      else None
  }

  lemma ReadableAndBoundAreExact(keys: TrustedIssuers, p: Presented)
    ensures AllReadable(p)
            <==> && HoldsOnlyPrefixes(p.leaf.scopeBoundary)
                 && forall v | v in p.chain :: HoldsOnlyPrefixes(v.scopeBoundary)
    ensures NoneMisbound(keys, p.chain) <==> forall v | v in p.chain :: !IsTrustedElsewhere(keys, v)
  {
    hide HoldsOnlyPrefixes, BoundaryIsEvaluable;
    ReadableIsExact(p.leaf.scopeBoundary);
    forall v | v in p.chain ensures BoundaryIsEvaluable(v.scopeBoundary) <==> HoldsOnlyPrefixes(v.scopeBoundary) {
      ReadableIsExact(v.scopeBoundary);
    }
    forall k | 0 <= k < |p.chain| ensures p.chain[k] in p.chain {
    }
  }

  lemma RefusalIsExact(keys: TrustedIssuers, p: Presented, now: Instant)
    ensures StandingRefusal(keys, p, now) == StandingFault(keys, p, now)
  {
    hide HoldsOnlyPrefixes, AllReadable, NoneMisbound, Chain.Verdict, IsValidTrustDomain, ToObject;
    hide Verify.AuthenticityVerdict, Verify.IsSignedBy;
    ReadableAndBoundAreExact(keys, p);
    if p.leaf.thumbprint in keys.entries {
      Verify.AuthenticityIsExact(keys.entries[p.leaf.thumbprint].publicKey, p.leaf);
    }
  }

  /** The code for each fault. */
  lemma CodesNameTheFault()
    ensures CodeOf(UntrustedIssuer) == CodeOf(MisboundAncestor) == IssuerMismatch
    ensures CodeOf(LeafExpired) == Expired && CodeOf(UnreadableBoundary) == VerifyCode.UnknownScopeKind
    ensures CodeOf(LeafRefused(Verify.UnsupportedSigVersion)) == UnsupportedSigVersion
    ensures CodeOf(LeafRefused(Verify.MalformedTrustDomain)) == MalformedTrustDomain
    ensures CodeOf(LeafRefused(Verify.IssuerMismatch)) == IssuerMismatch
    ensures CodeOf(LeafRefused(Verify.LineageInconsistent)) == LineageInconsistent
    ensures CodeOf(LeafRefused(Verify.Inauthentic)) == CodeOf(ChainRefused(Chain.Inauthentic)) == Inauthentic
    ensures CodeOf(ChainRefused(Chain.Unverifiable)) == Unverifiable
    ensures CodeOf(ChainRefused(Chain.NotAttenuated)) == NotAttenuated
    ensures CodeOf(ChainRefused(Chain.Expired)) == Expired
    ensures CodeOf(ChainRefused(Chain.ConsentExpired)) == ConsentExpired
    ensures forall refusal :: CodeOf(refusal) != Allowed
  {
  }

  // ------------------------------------------------------------------
  // verify_presentation
  // ------------------------------------------------------------------

  predicate MayReach(boundary: Scope, resource: Option<string>) {
    resource.Some? ==> HoldsOnlyPrefixes(boundary) && (boundary == [] || SomePrefixBegins(boundary, resource.value))
  }

  predicate MayUse(caps: seq<string>, capability: Option<string>) {
    capability.Some? ==> capability.value in caps
  }

  /** What standing leaves open: the resource, then the capability, then revocation of the chain's own ids. */
  lemma StandingCodeIsExact(
    p: Presented, keys: TrustedIssuers, check: RevocationCheck, resource: Option<string>, capability: Option<string>,
    now: Instant, docs: seq<Vaid>)
    requires Stands(keys, p, now, docs)
    ensures PresentationCode(Some(p), keys, check, resource, capability, now)
            == if !MayReach(p.leaf.scopeBoundary, resource) then OutOfScope
               else if !MayUse(p.leaf.capabilitySet, capability) then MissingCapability
               else match check(Ids(docs))
                 case NotRevoked => Allowed
                 case Revoked => VerifyCode.Revoked
                 case Unavailable => Indeterminate
  {
    hide StandingRefusal, Stands, Assembled, ScopeContains, HoldsOnlyPrefixes, SomePrefixBegins;
    WhatStandsIsNotRefused(keys, p, now, docs);
    StandingIsPresented(keys, p, now, docs);
    LineageIsOfChain(p, docs);
    if resource.Some? {
      ScopeContainsIsExact(p.leaf.scopeBoundary, resource.value);
    }
  }

  /**
   Allowed iff something was presented, it stands as a chain, its leaf may reach the
   resource and use the capability, and the check clears exactly the chain's ids.
   */
  lemma AllowedIsExact(
    presentation: Option<Presented>, keys: TrustedIssuers, check: RevocationCheck, resource: Option<string>,
    capability: Option<string>, now: Instant)
    ensures PresentationCode(presentation, keys, check, resource, capability, now) == Allowed
            <==> && presentation.Some?
                 && MayReach(presentation.value.leaf.scopeBoundary, resource)
                 && MayUse(presentation.value.leaf.capabilitySet, capability)
                 && exists docs :: Stands(keys, presentation.value, now, docs) && check(Ids(docs)) == NotRevoked
  {
    hide StandingRefusal, Stands, Assembled, MayReach, MayUse, CodeOf;
    if presentation.Some? {
      var p := presentation.value;
      CodesNameTheFault();
      StandingIsExact(keys, p, now);
      forall docs | Stands(keys, p, now, docs)
        ensures PresentationCode(presentation, keys, check, resource, capability, now) == Allowed
                <==> && MayReach(p.leaf.scopeBoundary, resource) && MayUse(p.leaf.capabilitySet, capability)
                     && check(Ids(docs)) == NotRevoked
      {
        StandingCodeIsExact(p, keys, check, resource, capability, now, docs);
      }
    }
  }

  // ------------------------------------------------------------------
  // exchange
  // ------------------------------------------------------------------

  lemma ReasonsNameTheFault()
    ensures Exchange.ReasonFor(UntrustedIssuer) == Exchange.ReasonFor(MisboundAncestor) == Exchange.IssuerMismatch
    ensures Exchange.ReasonFor(LeafExpired) == Exchange.LeafHasExpired
    ensures Exchange.ReasonFor(UnreadableBoundary) == Exchange.UnknownScopeKind
    ensures Exchange.ReasonFor(LeafRefused(Verify.UnsupportedSigVersion)) == Exchange.UnsupportedSigVersion
    ensures Exchange.ReasonFor(LeafRefused(Verify.MalformedTrustDomain)) == Exchange.MalformedTrustDomain
    ensures Exchange.ReasonFor(LeafRefused(Verify.IssuerMismatch)) == Exchange.IssuerMismatch
    ensures Exchange.ReasonFor(LeafRefused(Verify.LineageInconsistent)) == Exchange.LineageInconsistent
    ensures Exchange.ReasonFor(LeafRefused(Verify.Inauthentic)) == Exchange.Inauthentic
    ensures Exchange.ReasonFor(ChainRefused(Chain.Inauthentic)) == Exchange.Inauthentic
    ensures Exchange.ReasonFor(ChainRefused(Chain.Unverifiable)) == Exchange.ChainUnverifiable
    ensures Exchange.ReasonFor(ChainRefused(Chain.NotAttenuated)) == Exchange.ChainNotAttenuated
    ensures Exchange.ReasonFor(ChainRefused(Chain.Expired)) == Exchange.ChainExpired
    ensures Exchange.ReasonFor(ChainRefused(Chain.ConsentExpired)) == Exchange.ChainConsentExpired
  {
  }

  /** A leaf to exchange, someone to issue for, and a kind of token there is. */
  predicate IsAsked(request: Exchange.ExchangeRequest) {
    && request.leaf.Some?
    && request.audience.Some? && request.audience.value != ""
    && (request.requestedTokenType.None?
        || request.requestedTokenType.value == "urn:ietf:params:oauth:token-type:jwt")
  }

  /** The seconds of an instant, its fraction dropped: down from 1970 on, up before. */
  lemma TruncatesTowardsZero(t: Instant)
    ensures var s := Exchange.Truncated(t);
            if t >= 0 then 0 <= s && s * SECOND <= t < (s + 1) * SECOND
            else s <= 0 && (s - 1) * SECOND < t <= s * SECOND
  {
  }

  /** Past request and standing, what is refused: a revoked chain, one that cannot be checked, or no life left. */
  lemma StandingReasonIsExact(
    bridge: Exchange.Bridge, request: Exchange.ExchangeRequest, now: Instant, docs: seq<Vaid>)
    requires IsAsked(request) && Stands(bridge.keys, TokenLife.PresentedBy(request), now, docs)
    ensures request.leaf.value.Expiry().Some?
    ensures Exchange.Refusals(bridge, request, now)
            == match bridge.check(Ids(docs))
               case Revoked => Some(Exchange.IsRevoked)
               case Unavailable => Some(Exchange.RevocationUnavailable)
               case NotRevoked =>
                 if 0 < bridge.ttlSeconds
                    && Exchange.Truncated(now) < Exchange.Truncated(request.leaf.value.Expiry().value)
                 then None else Some(Exchange.LeafHasExpired)
  {
    hide StandingRefusal, Stands, Assembled, Exchange.Truncated;
    var p := TokenLife.PresentedBy(request);
    WhatStandsIsNotRefused(bridge.keys, p, now, docs);
    StandingIsPresented(bridge.keys, p, now, docs);
    LineageIsOfChain(p, docs);
    Exchange.StandingLeafIsLive(bridge.keys, p, now, docs);
  }

  /**
   A token is issued iff it was asked for properly, the presentation stands as a chain
   that the check clears, and a whole second of life is left.
   */
  lemma ExchangeSucceedsExactlyWhen(bridge: Exchange.Bridge, request: Exchange.ExchangeRequest, now: Instant)
    ensures Exchange.Refusals(bridge, request, now) == None
            <==> && IsAsked(request)
                 && request.leaf.value.Expiry().Some?
                 && 0 < bridge.ttlSeconds
                 && Exchange.Truncated(now) < Exchange.Truncated(request.leaf.value.Expiry().value)
                 && exists docs :: Stands(bridge.keys, TokenLife.PresentedBy(request), now, docs)
                                   && bridge.check(Ids(docs)) == NotRevoked
  {
    hide StandingRefusal, Stands, Assembled, Exchange.ReasonFor, Exchange.Truncated;
    if IsAsked(request) {
      var p := TokenLife.PresentedBy(request);
      StandingIsExact(bridge.keys, p, now);
      forall docs | Stands(bridge.keys, p, now, docs)
        ensures Exchange.Refusals(bridge, request, now) == None
                <==> && bridge.check(Ids(docs)) == NotRevoked && request.leaf.value.Expiry().Some?
                     && 0 < bridge.ttlSeconds
                     && Exchange.Truncated(now) < Exchange.Truncated(request.leaf.value.Expiry().value)
      {
        StandingReasonIsExact(bridge, request, now, docs);
      }
    }
  }

  /** A request at fault in itself is refused for the first of its faults, and one that does not stand for that. */
  lemma EarlyReasonIsExact(bridge: Exchange.Bridge, request: Exchange.ExchangeRequest, now: Instant)
    ensures !IsAsked(request) ==>
              Exchange.Refusals(bridge, request, now)
              == Some(if request.leaf.None? then Exchange.NoLeaf
                      else if request.audience.None? || request.audience.value == "" then Exchange.MissingAudience
                      else Exchange.UnsupportedRequestedTokenType)
    ensures IsAsked(request) && StandingFault(bridge.keys, TokenLife.PresentedBy(request), now).Some? ==>
              Exchange.Refusals(bridge, request, now)
              == Some(Exchange.ReasonFor(StandingFault(bridge.keys, TokenLife.PresentedBy(request), now).value))
  {
    hide StandingRefusal, StandingFault, Exchange.ReasonFor;
    if request.leaf.Some? {
      RefusalIsExact(bridge.keys, TokenLife.PresentedBy(request), now);
    }
  }
}
