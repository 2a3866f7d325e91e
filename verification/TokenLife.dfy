/** How long an issued token lives, and what stays true while it does. */
module TokenLife {
  import opened Wrappers
  import opened Wire
  import opened ScopeRules
  import opened Document
  import opened IssuerIdentity
  import opened Revocation
  import opened ChainTheorems
  import opened Trust
  import opened Presentation
  import opened Claims
  import opened Exchange
  import Chain
  import Mint
  import SoloRuns
  import Verify

  function PresentedBy(request: ExchangeRequest): Presented
    requires request.leaf.Some?
  {
    Presented(request.leaf.value, request.chain)
  }

  /** An exchange that is not refused: there is then a leaf, whose expiry can be read. */
  predicate Succeeds(bridge: Bridge, request: ExchangeRequest, now: Instant) {
    && request.leaf.Some? && request.leaf.value.Expiry().Some?
    && Refusals(bridge, request, now) == None
  }

  function EndOf(bridge: Bridge, request: ExchangeRequest, now: Instant): int
    requires Succeeds(bridge, request, now)
  {
    ExpiryOf(Truncated(now), bridge.ttlSeconds, request.leaf.value.Expiry().value)
  }

  /** A leaf's expiry that truncation does not move later, or that the TTL does not reach. */
  predicate TruncationIsSafe(iat: int, ttlSeconds: int, leafExpiry: Instant) {
    leafExpiry >= 0 || leafExpiry % SECOND == 0 || iat + ttlSeconds < Truncated(leafExpiry)
  }

  /** The token ends by the leaf's expiry exactly when truncation is safe. */
  lemma TruncationIsExact(iat: int, ttlSeconds: int, leafExpiry: Instant)
    ensures ExpiryOf(iat, ttlSeconds, leafExpiry) * SECOND <= leafExpiry
        <==> TruncationIsSafe(iat, ttlSeconds, leafExpiry)
  {
  }

  lemma SuccessMeans(bridge: Bridge, request: ExchangeRequest, now: Instant)
    requires Succeeds(bridge, request, now)
    ensures var p := PresentedBy(request);
            && StandingRefusal(bridge.keys, p, now) == None
            && ChainOf(p).Some?
            && Stands(bridge.keys, p, now, ChainOf(p).value)
            && Truncated(now) < EndOf(bridge, request, now) <= Truncated(now) + bridge.ttlSeconds
  {
    hide StandingRefusal, Stands, Chain.PresentedChain, Assembled;
    StandingMeans(bridge.keys, PresentedBy(request), now);
  }

  lemma StandsWhileLeafLives(keys: TrustedIssuers, p: Presented, now: Instant, docs: seq<Vaid>, t: Instant)
    requires Stands(keys, p, now, docs) && !p.leaf.IsExpiredAt(t)
    ensures Stands(keys, p, t, docs) && forall k | 0 <= k < |docs| :: !docs[k].IsExpiredAt(t)
  {
    hide IsBound, AllReadable, NoneMisbound, Chain.AllAuthentic, IsContainedChain, IsConsentedChain;
    LifeOnlyShrinks(docs, t);
    forall k | 0 <= k < |docs| ensures LiveAt(docs, k, t) && IsBound(keys, docs[k]) {
      assert LiveAt(docs, k, now);
    }
  }

  /**
   Provided truncation is safe: at every instant up to the token's end each document
   on its chain is live, and the presentation would be accepted all over again.
   */
  lemma TokenLivesWithinItsChain(bridge: Bridge, request: ExchangeRequest, now: Instant, t: Instant)
    requires Succeeds(bridge, request, now) && t <= EndOf(bridge, request, now) * SECOND
    requires TruncationIsSafe(Truncated(now), bridge.ttlSeconds, request.leaf.value.Expiry().value)
    ensures Truncated(now) < EndOf(bridge, request, now) <= Truncated(now) + bridge.ttlSeconds
    ensures var p := PresentedBy(request);
            && ChainOf(p).Some?
            && (forall k | 0 <= k < |ChainOf(p).value| :: !ChainOf(p).value[k].IsExpiredAt(t))
            && StandingRefusal(bridge.keys, p, t) == None
            && VerdictOf(bridge.keys, p, t) == Chain.Attenuated
  {
    hide Stands, Refusals, ChainOf, LeafRefusal, AllReadable, NoneMisbound, Chain.Verdict;
    var p := PresentedBy(request);
    SuccessMeans(bridge, request, now);
    TruncationIsExact(Truncated(now), bridge.ttlSeconds, p.leaf.Expiry().value);
    StandsWhileLeafLives(bridge.keys, p, now, ChainOf(p).value, t);
    WhatStandsIsNotRefused(bridge.keys, p, t, ChainOf(p).value);
  }

  /** And only then: where it is not, the leaf has expired by the token's end. */
  lemma TokenLifeIsExact(bridge: Bridge, request: ExchangeRequest, now: Instant)
    requires Succeeds(bridge, request, now)
    ensures TruncationIsSafe(Truncated(now), bridge.ttlSeconds, request.leaf.value.Expiry().value)
            <==> forall t | t <= EndOf(bridge, request, now) * SECOND :: !request.leaf.value.IsExpiredAt(t)
  {
    TruncationIsExact(Truncated(now), bridge.ttlSeconds, request.leaf.value.Expiry().value);
    assert EndOf(bridge, request, now) * SECOND <= EndOf(bridge, request, now) * SECOND;
    var end := EndOf(bridge, request, now) * SECOND;
    assert request.leaf.value.IsExpiredAt(end) <==> end > request.leaf.value.Expiry().value;
  }

  // ------------------------------------------------------------------
  // A token that outlives its leaf
  // ------------------------------------------------------------------

  function EarlyLeaf(): Vaid {
    var seed := Mint.Seed("agent", "1", "tenant", None, [], [], None);
    Mint.IssuedVaid(SoloRuns.DEEP, "leaf", seed, Raw("holder"), 0, Rfc3339(-1_500_000_000, "1969-12-31T23:59:58.5Z"))
  }

  function EarlyBridge(): Bridge {
    var trusted := TrustedIssuer(SoloRuns.DEEP.kernelKey, SoloRuns.DEEP.trustDomain);
    Bridge(TrustedIssuers(map[ThumbprintOf(SoloRuns.DEEP.kernelKey) := trusted]), _ => NotRevoked, "bridge", 300)
  }

  lemma EarlyLeafIs()
    ensures var leaf := EarlyLeaf();
            && leaf.Parent() == None && leaf.Expiry() == Some(-1_500_000_000) && leaf.scopeBoundary == []
            && leaf.thumbprint == ThumbprintOf(SoloRuns.DEEP.kernelKey) && leaf.trustDomain == SoloRuns.DEEP.trustDomain
            && Verify.VerifyVaidAuthenticity(SoloRuns.DEEP.kernelKey, leaf)
  {
    hide Verify.VerifyVaidAuthenticity, SigningMessage;
    SoloRuns.DeepConfigIsOne();
    Mint.IssuedIsAuthentic(SoloRuns.DEEP, "leaf", Mint.Seed("agent", "1", "tenant", None, [], [], None),
        Raw("holder"), 0,
                           EarlyLeaf().expiresAt);
  }

  lemma EarlyLeafStands()
    ensures Stands(EarlyBridge().keys, Presented(EarlyLeaf(), []), -10 * SECOND, [EarlyLeaf()])
  {
    hide EarlyLeaf, Verify.VerifyVaidAuthenticity;
    var leaf, keys := EarlyLeaf(), EarlyBridge().keys;
    EarlyLeafIs();
    assert Chain.Authentic(keys.Resolver(), leaf) by {
      assert keys.Resolver()(leaf.thumbprint) == Some(SoloRuns.DEEP.kernelKey);
    }
    assert LinksUp([leaf], 0);
    assert LiveAt([leaf], 0, -10 * SECOND);
  }

  /** Before 1970 a fractional expiry is truncated to a later second: this token ends half a second after its leaf. */
  lemma TokenMayOutliveItsLeaf()
    ensures var request := ExchangeRequest(Some(EarlyLeaf()), [], Some("audience"), None);
            && Succeeds(EarlyBridge(), request, -10 * SECOND)
            && EndOf(EarlyBridge(), request, -10 * SECOND) == -1
            && EarlyLeaf().IsExpiredAt(-1 * SECOND)
  {
    hide StandingRefusal, Stands, EarlyLeaf;
    var p := Presented(EarlyLeaf(), []);
    EarlyLeafStands();
    WhatStandsIsNotRefused(EarlyBridge().keys, p, -10 * SECOND, [EarlyLeaf()]);
    StandingIsPresented(EarlyBridge().keys, p, -10 * SECOND, [EarlyLeaf()]);
    LineageIsOfChain(p, [EarlyLeaf()]);
    EarlyLeafIs();
  }
}
