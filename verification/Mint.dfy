/** What a mint decides and does, one atomic step at a time: mint.rs and the issuer behind it. */
module Mint {
  import opened Wrappers
  import opened Wire
  import opened ScopeRules
  import opened Document
  import opened IssuerIdentity
  import opened Revocation
  import opened Attestation
  import Verify

  // ------------------------------------------------------------------
  // Requests and outcomes
  // ------------------------------------------------------------------

  datatype Seed = Seed(
    agentClass: string,
    version: string,
    tenantId: string,
    parentVaid: Option<Uuid>,
    scopeBoundary: Scope,
    capabilitySet: seq<string>,
    publicKeyDer: Option<Octets>)

  datatype MintPop = MintPop(nonce: string, issuedAt: Instant, signature: Octets)

  datatype MintRequest = MintRequest(seed: Seed, pop: Option<MintPop>)

  datatype MintResponse = MintResponse(vaid: Vaid, expiryBoundedByParent: bool, parentExpiresAt: Option<Timestamp>)

  datatype Denial =
    | RootMintDenied
    | NoVerifiedParent
    | DepthUndetermined
    | TooDeep
    | CrossTenant
    | ParentMismatch
    | ScopeExceeded
    | CapabilitiesExceeded
    | ParentExpired
    | CeilingUnreadable
    | IssuerIgnoredCeiling

  datatype PopFault = KeyRequired | PopRequired | Stale | Replayed | BadSignature

  datatype MintError =
    | Unauthorized(denial: Denial)
    | Identity(fault: PopFault)
    | LineageWriteFailed
    | AuditWriteFailed

  datatype AuditEntry =
    | RootMinted(agentClass: string, version: string, tenantId: string, parentVaid: Option<Uuid>,
                 scopeBoundary: Scope, capabilityCount: nat, byoKey: bool)
    | ChildMinted(agentClass: string, version: string, parentVaid: Option<Uuid>,
                  scopeBoundary: Scope, capabilityCount: nat, parentTenant: string,
                  expiryBoundedByParent: bool, expiresAt: Timestamp, parentExpiresAt: Timestamp)

  /** The issuer's key, TTL and trust domain, and the mint's depth limit. */
  datatype Config = Config(kernelKey: Key, ttlHours: int, trustDomain: string, maxDelegationDepth: nat)

  /** What both constructors enforce: a well-formed trust domain and a limit with no "unlimited". */
  predicate IsConfig(cfg: Config) {
    IsValidTrustDomain(cfg.trustDomain) && 1 <= cfg.maxDelegationDepth <= MAX_LINEAGE_DEPTH
  }

  // ------------------------------------------------------------------
  // Checks
  // ------------------------------------------------------------------

  /** The refusals of a delegation, in order; each comes before any key work or nonce. */
  function ChildDenial(cfg: Config, assembly: LineageAssembly, seed: Seed, parent: Vaid, now: Instant): Option<Denial> {
    if assembly.Incomplete? then Some(DepthUndetermined)
    else if |assembly.ids| > cfg.maxDelegationDepth then Some(TooDeep)
    else if seed.tenantId != parent.tenantId then Some(CrossTenant)
    else if seed.parentVaid != Some(parent.Id()) then Some(ParentMismatch)
    else if !ScopeAttenuates(parent.scopeBoundary, seed.scopeBoundary) then Some(ScopeExceeded)
    else if !CapsAttenuate(parent.capabilitySet, seed.capabilitySet) then Some(CapabilitiesExceeded)
    else if parent.IsExpiredAt(now) then Some(ParentExpired)
    else None
  }

  function Abs(x: int): nat {
    if x < 0 then -x else x
  }

  /** The skew is counted in whole seconds, truncated. */
  predicate IsFresh(pop: MintPop, now: Instant) {
    Abs(now - pop.issuedAt) / SECOND <= MINT_POP_FRESHNESS_SECS
  }

  function PopPayloadOf(seed: Seed, key: Octets, pop: MintPop): PopPayload {
    PopPayload(key, seed.tenantId, seed.agentClass, seed.version, seed.parentVaid,
               seed.scopeBoundary, seed.capabilitySet, pop.nonce, pop.issuedAt)
  }

  predicate ProvesPossession(seed: Seed, key: Octets, pop: MintPop) {
    key.Raw? && Verifies(key.bytes, PopMessage(PopPayloadOf(seed, key, pop)), pop.signature)
  }

  /** The faults of a proof of possession, in order. */
  function PopOutcome(
    nonces: set<string>, seed: Seed, key: Octets, pop: Option<MintPop>, now: Instant): Option<PopFault> {
    match pop
    case None => Some(PopRequired)
    case Some(p) =>
      if !IsFresh(p, now) then Some(Stale)
      else if p.nonce in nonces then Some(Replayed)
      else if !ProvesPossession(seed, key, p) then Some(BadSignature)
      else None
  }

  // ------------------------------------------------------------------
  // Issuing
  // ------------------------------------------------------------------

  const HOUR := 3600 * SECOND

  function Min(a: int, b: int): int {
    if a <= b then a else b
  }

  /** The expiry stamped: the issuer's TTL, clamped to the ceiling. None for a ceiling that cannot be read. */
  function StampedExpiry(cfg: Config, now: Instant, notAfter: Option<Timestamp>): Option<Timestamp> {
    var expires := WholeSecond(now) + cfg.ttlHours * HOUR;
    match notAfter
    case None => Some(FormatE6(expires))
    case Some(ceiling) =>
      match ParseRfc3339(ceiling)
      case None => None
      case Some(cap) => Some(FormatE6(Min(expires, cap)))
  }

  function Unsigned(cfg: Config, id: Uuid, seed: Seed, key: Octets, now: Instant, expiresAt: Timestamp): Vaid {
    Vaid(VAID_SIG_VERSION_V4, FromUuid(id), FromUuid(id), seed.agentClass, seed.version, seed.tenantId,
         FormatE6(WholeSecond(now)), expiresAt, key, Raw(""),
         Some(match seed.parentVaid case None => None case Some(p) => Some(FromUuid(p))),
         seed.scopeBoundary, Verify.ComputeLineageHash(seed.parentVaid, id), seed.capabilitySet,
         cfg.trustDomain, ThumbprintOf(cfg.kernelKey), map[])
  }

  function Signed(cfg: Config, v: Vaid): Vaid {
    v.(kernelSignature := Signature(cfg.kernelKey, SigningMessage(v)))
  }

  function IssuedVaid(cfg: Config, id: Uuid, seed: Seed, key: Octets, now: Instant, expiresAt: Timestamp): Vaid {
    Signed(cfg, Unsigned(cfg, id, seed, key, now, expiresAt))
  }

  function Ceiling(parent: Option<Vaid>): Option<Timestamp> {
    match parent
    case None => None
    case Some(p) => Some(p.expiresAt)
  }

  function ResponseOf(vaid: Vaid, parent: Option<Vaid>): MintResponse {
    match parent
    case None => MintResponse(vaid, false, None)
    case Some(p) => MintResponse(vaid, vaid.expiresAt == p.expiresAt, Some(p.expiresAt))
  }

  function AuditOf(seed: Seed, vaid: Vaid, parent: Option<Vaid>): AuditEntry {
    match parent
    case None =>
      RootMinted(seed.agentClass, seed.version, seed.tenantId, seed.parentVaid,
                 seed.scopeBoundary, |seed.capabilitySet|, seed.publicKeyDer.Some?)
    case Some(p) =>
      ChildMinted(seed.agentClass, seed.version, seed.parentVaid, seed.scopeBoundary, |seed.capabilitySet|,
                  p.tenantId, vaid.expiresAt == p.expiresAt, vaid.expiresAt, p.expiresAt)
  }

  // ------------------------------------------------------------------
  // A call, split at its locks and awaits
  // ------------------------------------------------------------------

  /** The stores calls share; each is behind its own lock. */
  datatype Shared = Shared(nonces: set<string>, lineage: LineageMap, audit: seq<AuditEntry>)

  /**
   Where a mint call stands. `parent` is None for a root mint, `pop` for a root mint
   without a registered key; a returned call knows which audit entry is its own.
   */
  datatype Phase =
    | Walking(request: MintRequest, authority: Vaid, chain: seq<Uuid>, next: Option<Uuid>)
    | AtNonceLock(seed: Seed, key: Octets, proof: MintPop, parent: Option<Vaid>)
    | Issuing(seed: Seed, key: Octets, pop: Option<MintPop>, parent: Option<Vaid>)
    | Built(seed: Seed, pop: Option<MintPop>, parent: Option<Vaid>, vaid: Vaid)
    | Recorded(seed: Seed, pop: Option<MintPop>, parent: Option<Vaid>, vaid: Vaid)
    | Returned(seed: Seed, pop: Option<MintPop>, parent: Option<Vaid>, vaid: Vaid, entry: nat)
    | Refused(error: MintError)

  predicate IsFinal(phase: Phase) {
    phase.Returned? || phase.Refused?
  }

  /** What a step draws from outside: the clocks it reads, a fresh id, a generated key, and whether writes succeed. */
  datatype Env = Env(
    permitted: bool,
    checkedAt: Instant,
    popAt: Instant,
    issuedAt: Instant,
    freshId: Uuid,
    generatedKey: Octets,
    lineageWrites: bool,
    auditWrites: bool)

  /** Up to the nonce lock: a proof must be there and fresh. */
  function TowardsNonce(request: MintRequest, key: Octets, parent: Option<Vaid>, env: Env): Phase {
    match request.pop
    case None => Refused(Identity(PopRequired))
    case Some(pop) =>
      if !IsFresh(pop, env.popAt) then Refused(Identity(Stale))
      else AtNonceLock(request.seed, key, pop, parent)
  }

  function BeginRoot(request: MintRequest, env: Env): Phase {
    if !env.permitted then Refused(Unauthorized(RootMintDenied))
    else match request.seed.publicKeyDer
      case None => Issuing(request.seed, env.generatedKey, None, None)
      case Some(key) => TowardsNonce(request, key, None, env)
  }

  function BeginChild(request: MintRequest, parent: Option<Vaid>): Phase {
    match parent
    case None => Refused(Unauthorized(NoVerifiedParent))
    case Some(p) => Walking(request, p, [p.Id()], p.Parent())
  }

  /** The attenuation checks, once the parent's lineage is assembled or has failed to. */
  function Checked(cfg: Config, request: MintRequest, parent: Vaid, assembly: LineageAssembly, env: Env): Phase {
    match ChildDenial(cfg, assembly, request.seed, parent, env.checkedAt)
    case Some(denial) => Refused(Unauthorized(denial))
    case None =>
      match request.seed.publicKeyDer
      case None => Refused(Identity(KeyRequired))
      case Some(key) => TowardsNonce(request, key, Some(parent), env)
  }

  /** One turn of the ancestry walk: one lookup under the lineage lock. */
  function WalkTurn(cfg: Config, lineage: LineageMap, phase: Phase, env: Env): Phase
    requires phase.Walking?
  {
    match phase.next
    case None => Checked(cfg, phase.request, phase.authority, Complete(Reversed(phase.chain)), env)
    case Some(pid) =>
      if pid in phase.chain || |phase.chain| >= MAX_LINEAGE_DEPTH
      then Checked(cfg, phase.request, phase.authority, Incomplete, env)
      else match Resolve(lineage, pid)
        case Root => phase.(chain := phase.chain + [pid], next := None)
        case Parent(grandparent) => phase.(chain := phase.chain + [pid], next := Some(grandparent))
        case Unknown => Checked(cfg, phase.request, phase.authority, Incomplete, env)
  }

  /** The signature over the proof, then the document: no store is touched. */
  function IssueTurn(cfg: Config, phase: Phase, env: Env): Phase
    requires phase.Issuing?
  {
    if phase.pop.Some? && !ProvesPossession(phase.seed, phase.key, phase.pop.value)
    then Refused(Identity(BadSignature))
    else match StampedExpiry(cfg, env.issuedAt, Ceiling(phase.parent))
      case None => Refused(Unauthorized(CeilingUnreadable))
      case Some(expiresAt) =>
        Built(phase.seed, phase.pop, phase.parent,
              IssuedVaid(cfg, env.freshId, phase.seed, phase.key, env.issuedAt, expiresAt))
  }

  predicate HonoursCeiling(parent: Option<Vaid>, vaid: Vaid) {
    parent.Some? ==> ExpiryAttenuates(parent.value.expiresAt, vaid.expiresAt)
  }

  /** One atomic step of a call: what it does to the stores, and where it then stands. */
  function CallStep(cfg: Config, shared: Shared, phase: Phase, env: Env): (Shared, Phase) {
    match phase
    case Walking(_, _, _, _) => (shared, WalkTurn(cfg, shared.lineage, phase, env))
    case AtNonceLock(seed, key, proof, parent) =>
      if proof.nonce in shared.nonces then (shared, Refused(Identity(Replayed)))
      else (shared.(nonces := shared.nonces + {proof.nonce}), Issuing(seed, key, Some(proof), parent))
    case Issuing(_, _, _, _) => (shared, IssueTurn(cfg, phase, env))
    case Built(seed, pop, parent, vaid) =>
      if !env.lineageWrites then (shared, Refused(LineageWriteFailed))
      else (shared.(lineage := shared.lineage[vaid.Id() := seed.parentVaid]), Recorded(seed, pop, parent, vaid))
    case Recorded(seed, pop, parent, vaid) =>
      if !HonoursCeiling(parent, vaid) then (shared, Refused(Unauthorized(IssuerIgnoredCeiling)))
      else if !env.auditWrites then (shared, Refused(AuditWriteFailed))
      else (shared.(audit := shared.audit + [AuditOf(seed, vaid, parent)]),
            Returned(seed, pop, parent, vaid, |shared.audit|))
    case Returned(_, _, _, _, _) => (shared, phase)
    case Refused(_) => (shared, phase)
  }

  // ------------------------------------------------------------------
  // Properties of single steps
  // ------------------------------------------------------------------

  /** The window is open at exactly 300 s and shut from 301 s. */
  lemma FreshnessWindow(pop: MintPop, now: Instant)
    ensures IsFresh(pop, now) <==> Abs(now - pop.issuedAt) < (MINT_POP_FRESHNESS_SECS + 1) * SECOND
  {
  }

  /** A child's expiry is the whole second of the earlier of TTL and parent, and never after the parent's. */
  lemma ClampIsFloorOfTheEarlier(cfg: Config, now: Instant, parent: Timestamp)
    requires ParseRfc3339(parent).Some?
    ensures var cap := ParseRfc3339(parent).value;
            var stamped := StampedExpiry(cfg, now, Some(parent));
            && stamped.Some?
            && ParseRfc3339(stamped.value) == Some(WholeSecond(Min(now + cfg.ttlHours * HOUR, cap)))
            && ExpiryAttenuates(parent, stamped.value)
  {
  }

  /** For a parent in the whole-second profile, the flag says the TTL reached at least the parent's end. */
  lemma BoundedFlagIsExact(cfg: Config, id: Uuid, seed: Seed, key: Octets, now: Instant, parent: Vaid)
    requires parent.expiresAt.E6?
    ensures var stamped := StampedExpiry(cfg, now, Ceiling(Some(parent)));
            && stamped.Some?
            && var response := ResponseOf(IssuedVaid(cfg, id, seed, key, now, stamped.value), Some(parent));
               && (response.expiryBoundedByParent <==> parent.Expiry().value <= now + cfg.ttlHours * HOUR)
               && response.parentExpiresAt == Some(parent.expiresAt)
  {
    ClampIsFloorOfTheEarlier(cfg, now, parent.expiresAt);
  }

  /** A child of a live whole-second parent is live when issued, if the clock has not since passed the parent. */
  lemma ChildIsBornLive(cfg: Config, now: Instant, second: int)
    requires cfg.ttlHours >= 1
    ensures now <= ParseRfc3339(StampedExpiry(cfg, now, Some(E6(second))).value).value <==> now <= second * SECOND
  {
  }

  lemma IssuedIsAuthentic(cfg: Config, id: Uuid, seed: Seed, key: Octets, now: Instant, expiresAt: Timestamp)
    requires IsConfig(cfg)
    ensures var v := IssuedVaid(cfg, id, seed, key, now, expiresAt);
            && v.Id() == id && v.Parent() == seed.parentVaid
            && Verify.VerifyVaidAuthenticity(cfg.kernelKey, v)
  {
    var u := Unsigned(cfg, id, seed, key, now, expiresAt);
    SignatureCoversEverythingElse(u, Signature(cfg.kernelKey, SigningMessage(u)));
  }
}
