/** The token bridge: a verified chain exchanged for a short-lived token. */
module Exchange {
  import opened Wrappers
  import opened Wire
  import opened ScopeRules
  import opened Document
  import opened Revocation
  import opened ChainTheorems
  import opened Trust
  import opened Presentation
  import opened Claims
  import Chain
  import Verify

  const ISSUED_TOKEN_TYPE_JWT := "urn:ietf:params:oauth:token-type:jwt"

  datatype ExchangeRequest = ExchangeRequest(
    leaf: Option<Vaid>,
    chain: seq<Vaid>,
    audience: Option<string>,
    requestedTokenType: Option<string>)

  datatype DenialReason =
    | NoLeaf
    | UnsupportedSigVersion
    | MalformedTrustDomain
    | IssuerMismatch
    | LineageInconsistent
    | Inauthentic
    | LeafHasExpired
    | UnknownScopeKind
    | ChainUnverifiable
    | ChainNotAttenuated
    | ChainExpired
    | ChainConsentExpired
    | IsRevoked
    | RevocationUnavailable
    | MissingAudience
    | UnsupportedRequestedTokenType

  datatype TokenClaims = TokenClaims(
    iss: string,
    aud: string,
    iat: int,
    exp: int,
    jti: string,
    sub: string,
    act: Option<Actor>,
    vaid: VaidClaim)

  /** A token stands for the claims its signer signed. */
  datatype ExchangeResult = Issued(accessToken: TokenClaims, expiresIn: int) | Denied(reason: DenialReason)

  /** What the deployment configures, and the id drawn for a token. */
  datatype Bridge = Bridge(keys: TrustedIssuers, check: RevocationCheck, issuer: string, ttlSeconds: int)

  function ReasonFor(refusal: Refusal): DenialReason {
    match refusal
    case UntrustedIssuer => DenialReason.IssuerMismatch
    case LeafRefused(verdict) =>
      (match verdict
       case UnsupportedSigVersion => DenialReason.UnsupportedSigVersion
       case MalformedTrustDomain => DenialReason.MalformedTrustDomain
       case IssuerMismatch => DenialReason.IssuerMismatch
       case LineageInconsistent => DenialReason.LineageInconsistent
       case _ => DenialReason.Inauthentic)
    case LeafExpired => LeafHasExpired
    case UnreadableBoundary => DenialReason.UnknownScopeKind
    case MisboundAncestor => DenialReason.IssuerMismatch
    case ChainRefused(verdict) =>
      match verdict
      case Inauthentic => DenialReason.Inauthentic
      case NotAttenuated => ChainNotAttenuated
      case Expired => ChainExpired
      case ConsentExpired => ChainConsentExpired
      case _ => ChainUnverifiable
  }

  /** Whole seconds since the epoch, truncated towards zero as `int` does. */
  function Truncated(t: Instant): int {
    if t >= 0 then t / SECOND else -((-t) / SECOND)
  }

  /** What is asked of the request before any of it is verified. */
  function RequestFault(request: ExchangeRequest): Option<DenialReason> {
    if request.leaf.None? then Some(NoLeaf)
    else if request.audience.None? || request.audience.value == "" then Some(MissingAudience)
    else if request.requestedTokenType.Some? && request.requestedTokenType.value != ISSUED_TOKEN_TYPE_JWT
      then Some(UnsupportedRequestedTokenType)
    else None
  }

  function StatusFault(status: RevocationStatus): Option<DenialReason> {
    match status
    case NotRevoked => None
    case Revoked => Some(IsRevoked)
    case Unavailable => Some(RevocationUnavailable)
  }

  /** The end of the token's life: its TTL, or the leaf's own expiry if that is sooner. */
  function ExpiryOf(iat: int, ttlSeconds: int, leafExpiry: Instant): int {
    if iat + ttlSeconds <= Truncated(leafExpiry) then iat + ttlSeconds else Truncated(leafExpiry)
  }

  /** Why an exchange is refused, if it is: the guards in order. */
  function Refusals(bridge: Bridge, request: ExchangeRequest, now: Instant): Option<DenialReason> {
    var fault := RequestFault(request);
    if fault.Some? then fault
    else
      var p := Presented(request.leaf.value, request.chain);
      var refusal := StandingRefusal(bridge.keys, p, now);
      if refusal.Some? then Some(ReasonFor(refusal.value))
      else match AssembledFrom(p)
        case Incomplete => Some(ChainUnverifiable)
        case Complete(ids) =>
          var status := StatusFault(bridge.check(ids));
          if status.Some? then status
          else if p.leaf.Expiry().None?
              || ExpiryOf(Truncated(now), bridge.ttlSeconds, p.leaf.Expiry().value) <= Truncated(now)
            then Some(LeafHasExpired)
          else None
  }

  /** The documents of a presentation's chain, root first. */
  function ChainOf(p: Presented): Option<seq<Vaid>> {
    Chain.PresentedChain(p.leaf, Chain.PresentedBundle(p.chain))
  }

  /** The leaf's own id, domain and authority, and a digest that is of every document's object, root first. */
  predicate IsClaimOf(claim: VaidClaim, leaf: Vaid, docs: seq<Vaid>) {
    && claim.vaidId == leaf.vaidId.raw && claim.trustDomain == leaf.trustDomain
    && claim.scopeBoundary == leaf.scopeBoundary && claim.capabilitySet == leaf.capabilitySet
    && |claim.chainSha256| == |docs| && forall k | 0 <= k < |docs| :: claim.chainSha256[k] == ToObject(docs[k])
  }

  /** Every resource and every capability the claim contains, each document on the chain holds. */
  ghost predicate IsHeldByAll(claim: VaidClaim, docs: seq<Vaid>) {
    && (forall k, r: string | 0 <= k < |docs| && ScopeContains(claim.scopeBoundary, r) ::
          ScopeContains(docs[k].scopeBoundary, r))
    && (forall k, c | 0 <= k < |docs| && c in claim.capabilitySet :: c in docs[k].capabilitySet)
  }

  /** `end` is the TTL's or the leaf's own, whichever is sooner. */
  predicate IsSoonerEnd(end: int, iat: int, ttlSeconds: int, leafExpiry: Instant) {
    && end <= iat + ttlSeconds && end <= Truncated(leafExpiry)
    && (end == iat + ttlSeconds || end == Truncated(leafExpiry))
  }

  /** A token names exactly the chain it was exchanged for, and carries the leaf's authority. */
  predicate IsTokenFor(claims: TokenClaims, bridge: Bridge, request: ExchangeRequest, now: Instant, docs: seq<Vaid>)
    requires request.leaf.Some? && request.leaf.value.Expiry().Some?
  {
    && claims.iss == bridge.issuer
    && request.audience == Some(claims.aud)
    && claims.iat == Truncated(now)
    && IsSoonerEnd(claims.exp, claims.iat, bridge.ttlSeconds, request.leaf.value.Expiry().value)
    && Flattened(claims.sub, claims.act) == RawIds(docs)
    && IsClaimOf(claims.vaid, request.leaf.value, docs)
  }

  lemma BuiltClaimIs(leaf: Vaid, docs: seq<Vaid>)
    ensures IsClaimOf(BuildVaidClaim(leaf, docs), leaf, docs)
  {
    hide ToObject;
  }

  /** A token can do nothing any document on its chain could not. */
  lemma TokenAuthorityIsHeld(keys: TrustedIssuers, p: Presented, now: Instant, docs: seq<Vaid>, claim: VaidClaim)
    requires Stands(keys, p, now, docs) && IsClaimOf(claim, p.leaf, docs)
    ensures IsHeldByAll(claim, docs)
  {
    hide Stands, ToObject, ScopeContains;
    WhatStands(keys, p, now, docs);
    forall k | 0 <= k < |docs|
      ensures forall r: string :: ScopeContains(p.leaf.scopeBoundary, r) ==> ScopeContains(docs[k].scopeBoundary, r)
      ensures forall c | c in p.leaf.capabilitySet :: c in docs[k].capabilitySet
    {
      if k < |docs| - 1 {
        StandingHolds(keys, p, now, docs, k);
      }
    }
  }

  method Exchange(bridge: Bridge, request: ExchangeRequest, now: Instant, jti: string) returns (r: ExchangeResult)
    ensures match Refusals(bridge, request, now)
            case Some(reason) => r == Denied(reason)
            case None =>
              && r.Issued? && r.accessToken.jti == jti && r.expiresIn == r.accessToken.exp - r.accessToken.iat
              && request.leaf.value.Expiry().Some?
              && var docs := ChainOf(Presented(request.leaf.value, request.chain));
                 && docs.Some? && IsTokenFor(r.accessToken, bridge, request, now, docs.value)
                 && IsHeldByAll(r.accessToken.vaid, docs.value)
  {
    hide StandingRefusal, Stands, Chain.PresentedChain, Assembled, BuildVaidClaim, IsHeldByAll, IsClaimOf;
    if request.leaf.None? {
      return Denied(NoLeaf);
    }
    if request.audience.None? || request.audience.value == "" {
      return Denied(MissingAudience);
    }
    if request.requestedTokenType.Some? && request.requestedTokenType.value != ISSUED_TOKEN_TYPE_JWT {
      return Denied(UnsupportedRequestedTokenType);
    }
    var leaf := request.leaf.value;
    var p := Presented(leaf, request.chain);
    var refusal := CheckStanding(bridge.keys, p, now);
    if refusal.Some? {
      return Denied(ReasonFor(refusal.value));
    }
    var bundle := Chain.PresentedBundle(request.chain);
    var lineage := AssembleLineage(leaf.Id(), leaf.Parent(), Chain.BundleResolver(bundle));
    if lineage.Incomplete? {
      return Denied(ChainUnverifiable);
    }
    match bridge.check(lineage.ids) {
      case Revoked => return Denied(IsRevoked);
      case Unavailable => return Denied(RevocationUnavailable);
      case NotRevoked =>
    }
    StandingHasChain(bridge.keys, p, now);
    ChainOfLineage(p, lineage.ids);
    var found := Chain.CollectDocuments(leaf, bundle, lineage.ids);
    var docs := found.value;
    var sub, act := BuildSubAndAct(docs);
    var vaidClaim := BuildVaidClaim(leaf, docs);
    BuiltClaimIs(leaf, docs);
    StandingMeans(bridge.keys, p, now);
    TokenAuthorityIsHeld(bridge.keys, p, now, docs, vaidClaim);
    var iat := Truncated(now);
    var leafExpiry := Truncated(leaf.Expiry().value);
    var exp := if iat + bridge.ttlSeconds <= leafExpiry then iat + bridge.ttlSeconds else leafExpiry;
    if exp <= iat {
      return Denied(LeafHasExpired);
    }
    var claims := TokenClaims(bridge.issuer, request.audience.value, iat, exp, jti, sub, act, vaidClaim);
    return Issued(claims, exp - iat);
  }

  lemma StandingHasChain(keys: TrustedIssuers, p: Presented, now: Instant)
    requires StandingRefusal(keys, p, now) == None
    ensures ChainOf(p).Some? && ChainOf(p).value != [] && p.leaf.Expiry().Some?
  {
    hide StandingRefusal, Chain.PresentedChain;
    StandingMeans(keys, p, now);
    StandingLeafIsLive(keys, p, now, ChainOf(p).value);
  }

  lemma StandingLeafIsLive(keys: TrustedIssuers, p: Presented, now: Instant, docs: seq<Vaid>)
    requires Stands(keys, p, now, docs)
    ensures docs != [] && p.leaf.Expiry().Some? && now <= p.leaf.Expiry().value
  {
    assert docs[|docs| - 1] == p.leaf && LiveAt(docs, |docs| - 1, now);
  }

  lemma ChainOfLineage(p: Presented, ids: seq<Uuid>)
    requires AssembledFrom(p) == Complete(ids)
    ensures ChainOf(p) == Chain.ChainDocuments(p.leaf, Chain.PresentedBundle(p.chain), ids)
  {
  }
}
