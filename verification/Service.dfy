/** The mint service and its reference issuer, with the stores they update in place. */
module Service {
  import opened Wrappers
  import opened Wire
  import opened ScopeRules
  import opened Document
  import opened IssuerIdentity
  import opened Revocation
  import opened Mint
  import opened MintLaws
  import opened Issuer
  import Verify

  // ------------------------------------------------------------------
  // A call with the stores to itself
  // ------------------------------------------------------------------

  function StepsLeft(phase: Phase): nat {
    match phase
    case Walking(_, _, chain, next) =>
      5 + if next.Some? && |chain| <= MAX_LINEAGE_DEPTH then 1 + MAX_LINEAGE_DEPTH - |chain| else 0
    case AtNonceLock(_, _, _, _) => 4
    case Issuing(_, _, _, _) => 3
    case Built(_, _, _, _) => 2
    case Recorded(_, _, _, _) => 1
    case _ => 0
  }

  /** A call stepped to its end with nobody in between. */
  function Finish(cfg: Config, shared: Shared, phase: Phase, env: Env): (Shared, Phase)
    decreases StepsLeft(phase)
  {
    if IsFinal(phase) then (shared, phase)
    else
      var (after, next) := CallStep(cfg, shared, phase, env);
      Finish(cfg, after, next, env)
  }

  lemma {:induction false} FinishEnds(cfg: Config, shared: Shared, phase: Phase, env: Env)
    ensures IsFinal(Finish(cfg, shared, phase, env).1)
    decreases StepsLeft(phase)
  {
    if !IsFinal(phase) {
      var (after, next) := CallStep(cfg, shared, phase, env);
      FinishEnds(cfg, after, next, env);
    }
  }

  /** Turn by turn, the walk of a call is the assembly of its parent's lineage. */
  lemma {:induction false} WalkingFinishes(cfg: Config, shared: Shared, phase: Phase, env: Env)
    requires phase.Walking?
    ensures var assembly := Walk(phase.chain, phase.next, MapResolver(shared.lineage));
            Finish(cfg, shared, phase, env)
            == Finish(cfg, shared, Checked(cfg, phase.request, phase.authority, assembly, env), env)
    decreases StepsLeft(phase)
  {
    var turned := WalkTurn(cfg, shared.lineage, phase, env);
    if turned.Walking? {
      WalkingFinishes(cfg, shared, turned, env);
    }
  }

  /** How a call ends once its proof has been accepted, where writes do not fail. */
  function IssuedOutcome(
    cfg: Config, shared: Shared, seed: Seed, key: Octets, pop: Option<MintPop>, parent: Option<Vaid>, env: Env)
    : (Shared, Phase)
  {
    match StampedExpiry(cfg, env.issuedAt, Ceiling(parent))
    case None => (shared, Refused(Unauthorized(CeilingUnreadable)))
    case Some(expiresAt) =>
      var v := IssuedVaid(cfg, env.freshId, seed, key, env.issuedAt, expiresAt);
      var recorded := shared.(lineage := shared.lineage[v.Id() := seed.parentVaid]);
      if !HonoursCeiling(parent, v) then (recorded, Refused(Unauthorized(IssuerIgnoredCeiling)))
      else (recorded.(audit := recorded.audit + [AuditOf(seed, v, parent)]),
            Returned(seed, pop, parent, v, |shared.audit|))
  }

  lemma IssuingFinishes(
    cfg: Config, shared: Shared, seed: Seed, key: Octets, pop: Option<MintPop>, parent: Option<Vaid>, env: Env)
    requires env.lineageWrites && env.auditWrites
    requires pop.Some? ==> ProvesPossession(seed, key, pop.value)
    ensures Finish(cfg, shared, Issuing(seed, key, pop, parent), env)
            == IssuedOutcome(cfg, shared, seed, key, pop, parent, env)
  {
    hide IssuedVaid, HonoursCeiling, AuditOf, ProvesPossession, StampedExpiry;
    match StampedExpiry(cfg, env.issuedAt, Ceiling(parent))
    case None =>
    case Some(expiresAt) =>
      var v := IssuedVaid(cfg, env.freshId, seed, key, env.issuedAt, expiresAt);
      var built := Built(seed, pop, parent, v);
      var recorded := shared.(lineage := shared.lineage[v.Id() := seed.parentVaid]);
      assert Finish(cfg, shared, built, env) == Finish(cfg, recorded, Recorded(seed, pop, parent, v), env);
      var (audited, last) := CallStep(cfg, recorded, Recorded(seed, pop, parent, v), env);
      assert IsFinal(last) && Finish(cfg, audited, last, env) == (audited, last);
  }

  // ------------------------------------------------------------------
  // The classes
  // ------------------------------------------------------------------

  class InMemoryAudit {
    var entries: seq<AuditEntry>

    constructor ()
      ensures entries == []
    {
      entries := [];
    }

    method Record(entry: AuditEntry)
      modifies this
      ensures entries == old(entries) + [entry]
    {
      entries := entries + [entry];
    }
  }

  class ReferenceIssuer {
    const kernelKey: Key
    const ttlHours: int
    const trustDomain: string
    const lineage: InMemoryLineageStore
    var revocation: InMemoryRevocationList

    constructor WithKey(kernelKey: Key, ttlHours: int, trustDomain: string)
      ensures this.kernelKey == kernelKey && this.ttlHours == ttlHours && this.trustDomain == trustDomain
      ensures fresh(lineage) && lineage.entries == map[]
      ensures fresh(revocation) && revocation.state == None
    {
      this.kernelKey := kernelKey;
      this.ttlHours := ttlHours;
      this.trustDomain := trustDomain;
      lineage := new InMemoryLineageStore();
      revocation := new InMemoryRevocationList.Absent();
    }

    /** A malformed trust domain is refused here, not at the mint. */
    static method FromSeed(kernelKey: Key, ttlHours: int, trustDomain: string) returns (r: Option<ReferenceIssuer>)
      ensures r.Some? <==> IsValidTrustDomain(trustDomain)
      ensures r.Some? ==>
                && fresh(r.value) && fresh(r.value.lineage) && fresh(r.value.revocation)
                && r.value.Settings(1) == Config(kernelKey, ttlHours, trustDomain, 1)
                && r.value.lineage.entries == map[] && r.value.revocation.state == None
    {
      if !IsValidTrustDomain(trustDomain) {
        return None;
      }
      var issuer := new ReferenceIssuer.WithKey(kernelKey, ttlHours, trustDomain);
      return Some(issuer);
    }

    function Settings(maxDelegationDepth: nat): Config {
      Config(kernelKey, ttlHours, trustDomain, maxDelegationDepth)
    }

    method AssumingNothingRevoked()
      modifies this
      ensures fresh(revocation) && revocation.state == Some({})
    {
      revocation := new InMemoryRevocationList.AssumeNothingRevoked();
    }

    method Revoke(id: Uuid)
      modifies revocation
      ensures revocation.state == WithRevoked(old(revocation.state), id)
    {
      revocation.Revoke(id);
    }

    method ClearLineage()
      modifies lineage
      ensures lineage.entries == map[]
    {
      lineage.Clear();
    }

    method RevocationStatus(v: Vaid) returns (status: RevocationStatus)
      ensures status == StatusOf(lineage.entries, revocation.state, v)
    {
      var assembly := AssembleLineage(v.Id(), v.Parent(), MapResolver(lineage.entries));
      match assembly {
        case Incomplete => return Unavailable;
        case Complete(ids) => status := revocation.CheckLineage(ids);
      }
    }

    method VerifyVaid(v: Vaid, now: Instant) returns (ok: bool)
      ensures ok == VerifiesVaid(kernelKey, lineage.entries, revocation.state, v, now)
    {
      if v.sigVersion != VAID_SIG_VERSION_V4 || v.IsExpiredAt(now) {
        return false;
      }
      var status := RevocationStatus(v);
      if status != NotRevoked {
        return false;
      }
      return Verifies(kernelKey, SigningMessage(v), v.kernelSignature);
    }

    /** Signed, and recorded before it is handed out; an unreadable ceiling issues nothing. */
    method BuildAndSignVaid(seed: Seed, key: Octets, notAfter: Option<Timestamp>, freshId: Uuid, now: Instant)
      returns (r: Result<Vaid, MintError>)
      modifies lineage
      ensures match StampedExpiry(Settings(1), now, notAfter)
              case None => r == Failure(Unauthorized(CeilingUnreadable)) && lineage.entries == old(lineage.entries)
              case Some(expiresAt) =>
                && r == Success(IssuedVaid(Settings(1), freshId, seed, key, now, expiresAt))
                && lineage.entries == old(lineage.entries)[freshId := seed.parentVaid]
      ensures r.Success? ==> IsStamped(Settings(1), seed, key, freshId, now, CeilingOf(notAfter), r.value)
    {
      IssuedIsExact(Settings(1), freshId, seed, key, now, notAfter);
      hide SigningMessage, Verify.ComputeLineageHash;
      var issuedAt := WholeSecond(now);
      var expires := issuedAt + ttlHours * HOUR;
      if notAfter.Some? {
        match ParseRfc3339(notAfter.value) {
          case None => return Failure(Unauthorized(CeilingUnreadable));
          case Some(cap) => expires := Min(expires, cap);
        }
      }
      var unsigned := Unsigned(Settings(1), freshId, seed, key, now, FormatE6(expires));
      var vaid := Signed(Settings(1), unsigned);
      lineage.Record(vaid.Id(), seed.parentVaid);
      return Success(vaid);
    }
  }

  /** What a finished call hands its caller. */
  function Outcome(phase: Phase): Result<MintResponse, MintError>
    requires IsFinal(phase)
  {
    match phase
    case Returned(_, _, parent, vaid, _) => Success(ResponseOf(vaid, parent))
    case Refused(error) => Failure(error)
  }

  class MintService {
    const issuer: ReferenceIssuer
    const audit: InMemoryAudit
    const maxDelegationDepth: nat
    var consumedPopNonces: set<string>

    constructor WithDepth(issuer: ReferenceIssuer, audit: InMemoryAudit, maxDelegationDepth: nat)
      ensures this.issuer == issuer && this.audit == audit && this.maxDelegationDepth == maxDelegationDepth
      ensures consumedPopNonces == {}
    {
      this.issuer := issuer;
      this.audit := audit;
      this.maxDelegationDepth := maxDelegationDepth;
      consumedPopNonces := {};
    }

    /** No depth means "unlimited": a limit outside 1 to 1024 constructs nothing. */
    static method WithMaxDelegationDepth(issuer: ReferenceIssuer, audit: InMemoryAudit, depth: nat)
      returns (r: Option<MintService>)
      ensures r.Some? <==> 1 <= depth <= MAX_LINEAGE_DEPTH
      ensures r.Some? ==>
                && fresh(r.value) && r.value.issuer == issuer && r.value.audit == audit
                && r.value.maxDelegationDepth == depth && r.value.consumedPopNonces == {}
    {
      if depth < 1 || depth > MAX_LINEAGE_DEPTH {
        return None;
      }
      var service := new MintService.WithDepth(issuer, audit, depth);
      return Some(service);
    }

    function Settings(): Config {
      issuer.Settings(maxDelegationDepth)
    }

    function Stores(): Shared
      reads this, issuer.lineage, audit
    {
      Shared(consumedPopNonces, issuer.lineage.entries, audit.entries)
    }

    /** A fresh proof spends its nonce before its signature is looked at. */
    method VerifyPopAtMint(
      seed: Seed, key: Octets, pop: Option<MintPop>, now: Instant) returns (fault: Option<PopFault>)
      modifies this
      ensures fault == PopOutcome(old(consumedPopNonces), seed, key, pop, now)
      ensures consumedPopNonces
              == old(consumedPopNonces) + if pop.Some? && IsWithinSkew(pop.value, now) then {pop.value.nonce} else {}
      ensures fault == None <==> HasProof(old(consumedPopNonces), seed, key, pop, now)
    {
      ProofIsExact(consumedPopNonces, seed, key, pop, now);
      if pop.Some? {
        FreshnessWindow(pop.value, now);
      }
      if pop.None? {
        return Some(PopRequired);
      }
      if !IsFresh(pop.value, now) {
        return Some(Stale);
      }
      if pop.value.nonce in consumedPopNonces {
        return Some(Replayed);
      }
      consumedPopNonces := consumedPopNonces + {pop.value.nonce};
      if !ProvesPossession(seed, key, pop.value) {
        return Some(BadSignature);
      }
      return None;
    }

    /** Alone on the stores, the method is the stepped call. */
    method MintRoot(request: MintRequest, env: Env) returns (r: Result<MintResponse, MintError>)
      requires env.lineageWrites && env.auditWrites
      modifies this, issuer.lineage, audit
      ensures var (stores, phase) := Finish(Settings(), old(Stores()), BeginRoot(request, env), env);
              Stores() == stores && IsFinal(phase) && r == Outcome(phase)
      ensures r.Success? <==>
                && env.permitted
                && (request.seed.publicKeyDer.None? || HasRegisteredProof(old(consumedPopNonces), request, env.popAt))
      ensures r.Success? ==>
                && HasMinted(Settings(), old(Stores()), Stores(), request.seed, RootKey(request.seed, env),
                             env, None, r.value.vaid)
                && !r.value.expiryBoundedByParent && r.value.parentExpiresAt == None
    {
      hide IssuedVaid, AuditOf, StampedExpiry, HasMinted, HasRegisteredProof;
      RootOutcome(Settings(), Stores(), request, env);
      var seed := request.seed;
      ghost var cfg, before, begun := Settings(), Stores(), BeginRoot(request, env);
      FinishEnds(cfg, before, begun, env);
      if !env.permitted {
        return Failure(Unauthorized(RootMintDenied));
      }
      var key := env.generatedKey;
      ghost var proof: Option<MintPop> := None;
      if seed.publicKeyDer.Some? {
        key := seed.publicKeyDer.value;
        ProofFinishes(cfg, before, request, key, None, env);
        var fault := VerifyPopAtMint(seed, key, request.pop, env.popAt);
        if fault.Some? {
          return Failure(Identity(fault.value));
        }
        proof := request.pop;
      }
      IssuingFinishes(cfg, Stores(), seed, key, proof, None, env);
      SameIssuer(issuer.Settings(1), cfg, env, seed, key, None);
      var issued := issuer.BuildAndSignVaid(seed, key, None, env.freshId, env.issuedAt);
      if issued.Failure? {
        return Failure(issued.error);
      }
      audit.Record(AuditOf(seed, issued.value, None));
      return Success(MintResponse(issued.value, false, None));
    }

    method MintChild(request: MintRequest, parent: Option<Vaid>, env: Env) returns (r: Result<MintResponse, MintError>)
      requires env.lineageWrites && env.auditWrites
      modifies this, issuer.lineage, audit
      ensures var (stores, phase) := Finish(Settings(), old(Stores()), BeginChild(request, parent), env);
              Stores() == stores && IsFinal(phase) && r == Outcome(phase)
      ensures r.Success? <==> parent.Some? && MayMintChild(Settings(), old(Stores()), request, parent.value, env)
      ensures r.Success? ==>
                && request.seed.publicKeyDer.Some?
                && HasMinted(Settings(), old(Stores()), Stores(), request.seed, request.seed.publicKeyDer.value,
                             env, parent, r.value.vaid)
                && (r.value.expiryBoundedByParent <==> r.value.vaid.expiresAt == parent.value.expiresAt)
                && r.value.parentExpiresAt == Some(parent.value.expiresAt)
    {
      hide HasMinted, MayMintChild;
      hide IssuedVaid, AuditOf, StampedExpiry, ScopeAttenuates, CapsAttenuate;
      var seed := request.seed;
      ghost var cfg, before, begun := Settings(), Stores(), BeginChild(request, parent);
      FinishEnds(cfg, before, begun, env);
      if parent.None? {
        return Failure(Unauthorized(NoVerifiedParent));
      }
      var p := parent.value;
      ChildOutcome(cfg, before, request, p, env);
      WalkingFinishes(cfg, before, begun, env);
      var assembly := AssembleLineage(p.Id(), p.Parent(), MapResolver(issuer.lineage.entries));
      if assembly.Incomplete? {
        return Failure(Unauthorized(DepthUndetermined));
      }
      if |assembly.ids| - 1 + 1 > maxDelegationDepth {
        return Failure(Unauthorized(TooDeep));
      }
      if seed.tenantId != p.tenantId {
        return Failure(Unauthorized(CrossTenant));
      }
      if seed.parentVaid != Some(p.Id()) {
        return Failure(Unauthorized(ParentMismatch));
      }
      if !ScopeAttenuates(p.scopeBoundary, seed.scopeBoundary) {
        return Failure(Unauthorized(ScopeExceeded));
      }
      if !CapsAttenuate(p.capabilitySet, seed.capabilitySet) {
        return Failure(Unauthorized(CapabilitiesExceeded));
      }
      if p.IsExpiredAt(env.checkedAt) {
        return Failure(Unauthorized(ParentExpired));
      }
      if seed.publicKeyDer.None? {
        return Failure(Identity(KeyRequired));
      }
      var key := seed.publicKeyDer.value;
      ProofFinishes(cfg, before, request, key, parent, env);
      var fault := VerifyPopAtMint(seed, key, request.pop, env.popAt);
      if fault.Some? {
        return Failure(Identity(fault.value));
      }
      IssuingFinishes(cfg, Stores(), seed, key, request.pop, parent, env);
      SameIssuer(issuer.Settings(1), cfg, env, seed, key, parent);
      var issued := issuer.BuildAndSignVaid(seed, key, Some(p.expiresAt), env.freshId, env.issuedAt);
      if issued.Failure? {
        return Failure(issued.error);
      }
      var vaid := issued.value;
      if !ExpiryAttenuates(p.expiresAt, vaid.expiresAt) {
        return Failure(Unauthorized(IssuerIgnoredCeiling));
      }
      audit.Record(AuditOf(seed, vaid, parent));
      return Success(MintResponse(vaid, vaid.expiresAt == p.expiresAt, Some(p.expiresAt)));
    }
  }

  // ------------------------------------------------------------------
  // When a mint succeeds, and with what
  // ------------------------------------------------------------------

  predicate HasRegisteredProof(nonces: set<string>, request: MintRequest, now: Instant) {
    && request.seed.publicKeyDer.Some?
    && HasProof(nonces, request.seed, request.seed.publicKeyDer.value, request.pop, now)
  }

  /** The key registered, or the one generated for want of one. */
  function RootKey(seed: Seed, env: Env): Octets {
    if seed.publicKeyDer.Some? then seed.publicKeyDer.value else env.generatedKey
  }

  /** The nonce a call spends on the way: that of a proof within its window, accepted or not. */
  function SpentBy(request: MintRequest, now: Instant): set<string> {
    if request.seed.publicKeyDer.Some? && request.pop.Some? && IsWithinSkew(request.pop.value, now)
    then {request.pop.value.nonce} else {}
  }

  /** A new document, stamped for the seed, recorded below its parent, and one more audit entry, which describes it. */
  predicate HasMinted(
    cfg: Config, before: Shared, after: Shared, seed: Seed, key: Octets, env: Env, parent: Option<Vaid>, v: Vaid) {
    && IsStamped(cfg, seed, key, env.freshId, env.issuedAt, if parent.Some? then parent.value.Expiry() else None, v)
    && after.lineage == before.lineage[env.freshId := seed.parentVaid]
    && |after.audit| == |before.audit| + 1 && before.audit <= after.audit
    && Describes(Last(after.audit), v, parent, seed.publicKeyDer.Some?)
  }

  predicate HasOnlySpent(before: Shared, after: Shared, nonces: set<string>) {
    after == before.(nonces := before.nonces + nonces)
  }

  /** Where writes succeed, a proof that passes ends in a document unless the parent's ceiling cannot be read. */
  lemma IssuedOutcomeIsExact(
    cfg: Config, shared: Shared, seed: Seed, key: Octets, pop: Option<MintPop>, parent: Option<Vaid>, env: Env)
    requires parent.Some? ==> parent.value.Expiry().Some?
    ensures var (after, end) := IssuedOutcome(cfg, shared, seed, key, pop, parent, env);
            && end.Returned? && end.seed == seed && end.pop == pop && end.parent == parent
            && after.nonces == shared.nonces
            && HasMinted(cfg, shared, after, seed, key, env, parent, end.vaid)
  {
    hide IssuedVaid, AuditOf, StampedExpiry, Describes, Verify.IsSignedBy;
    var end := IssuedOutcome(cfg, shared, seed, key, pop, parent, env).1;
    IssuedIsExact(cfg, env.freshId, seed, key, env.issuedAt, Ceiling(parent));
    StampedExpiryIsExact(cfg, env.issuedAt, Ceiling(parent));
    if parent.Some? {
      EndsByItsCeiling(cfg, env.issuedAt, parent.value.Expiry().value);
    }
    AuditDescribes(cfg, seed, key, env.freshId, end.vaid, parent);
  }

  lemma EndsByItsCeiling(cfg: Config, issuedAt: Instant, ceiling: Instant)
    ensures EndsAt(cfg, issuedAt, Some(ceiling)) * SECOND <= ceiling
  {
    var hours := issuedAt + cfg.ttlHours * 3600 * SECOND;
    assert hours / SECOND * SECOND <= hours && ceiling / SECOND * SECOND <= ceiling;
  }

  /** A root mint returns exactly when permitted and, for a registered key, proven; permission is asked first. */
  lemma RootOutcome(cfg: Config, shared: Shared, request: MintRequest, env: Env)
    requires env.lineageWrites && env.auditWrites
    ensures var (after, end) := Finish(cfg, shared, BeginRoot(request, env), env);
            var registered := request.seed.publicKeyDer;
            && (end.Returned? <==>
                  env.permitted && (registered.None? || HasRegisteredProof(shared.nonces, request, env.popAt)))
            && (!env.permitted ==> end == Refused(Unauthorized(RootMintDenied)) && after == shared)
            && (env.permitted ==> after.nonces == shared.nonces + SpentBy(request, env.popAt))
            && (!end.Returned? && env.permitted ==> HasOnlySpent(shared, after, SpentBy(request, env.popAt)))
            && (end.Returned? ==>
                  && end.seed == request.seed && end.parent == None
                  && HasMinted(cfg, shared, after, request.seed, RootKey(request.seed, env), env, None, end.vaid))
  {
    hide IssuedOutcome, HasMinted, ProvesPossession, HasProof, IsFresh;
    var seed := request.seed;
    if env.permitted {
      assert shared.nonces + {} == shared.nonces;
      match seed.publicKeyDer
      case None =>
        IssuingFinishes(cfg, shared, seed, env.generatedKey, None, None, env);
        IssuedOutcomeIsExact(cfg, shared, seed, env.generatedKey, None, None, env);
      case Some(key) =>
        ProofOutcome(cfg, shared, request, key, None, env);
    }
  }

  /** From the proof on, for a parent whose expiry can be read. */
  lemma ProofOutcome(cfg: Config, shared: Shared, request: MintRequest, key: Octets, parent: Option<Vaid>, env: Env)
    requires env.lineageWrites && env.auditWrites && request.seed.publicKeyDer == Some(key)
    requires parent.Some? ==> parent.value.Expiry().Some?
    ensures var (after, end) := Finish(cfg, shared, TowardsNonce(request, key, parent, env), env);
            && (end.Returned? <==> HasProof(shared.nonces, request.seed, key, request.pop, env.popAt))
            && after.nonces == shared.nonces + SpentBy(request, env.popAt)
            && (!end.Returned? ==> HasOnlySpent(shared, after, SpentBy(request, env.popAt)))
            && (end.Returned? ==>
                  && end.seed == request.seed && end.parent == parent && end.pop == request.pop
                  && HasMinted(cfg, shared, after, request.seed, key, env, parent, end.vaid))
  {
    hide IssuedOutcome, ProvesPossession, IsFresh, Finish, IsStamped, SignsSeed;
    var pop, now := request.pop, env.popAt;
    var spent := shared.(nonces := shared.nonces + SpentBy(request, now));
    ProofIsExact(shared.nonces, request.seed, key, pop, now);
    if pop.Some? {
      FreshnessWindow(pop.value, now);
    }
    ProofFinishes(cfg, shared, request, key, parent, env);
    if HasProof(shared.nonces, request.seed, key, pop, now) {
      IssuingFinishes(cfg, spent, request.seed, key, pop, parent, env);
      IssuedOutcomeIsExact(cfg, spent, request.seed, key, pop, parent, env);
    } else {
      FinishFinal(cfg, spent, env, PopOutcome(shared.nonces, request.seed, key, pop, now).value);
    }
  }

  lemma FinishFinal(cfg: Config, shared: Shared, env: Env, fault: PopFault)
    ensures Finish(cfg, shared, Refused(Identity(fault)), env) == (shared, Refused(Identity(fault)))
  {
  }

  /** Everything a delegation needs, the proof last. */
  ghost predicate MayMintChild(cfg: Config, shared: Shared, request: MintRequest, parent: Vaid, env: Env) {
    && MayDelegate(cfg.maxDelegationDepth, Assembled(parent.Id(), parent.Parent(), MapResolver(shared.lineage)),
                   request.seed, parent, env.checkedAt)
    && HasRegisteredProof(shared.nonces, request, env.popAt)
  }

  /** A child mint returns exactly when its parent is there, may delegate this, and the proof is good. */
  lemma ChildOutcome(cfg: Config, shared: Shared, request: MintRequest, parent: Vaid, env: Env)
    requires env.lineageWrites && env.auditWrites
    ensures var (after, end) := Finish(cfg, shared, BeginChild(request, Some(parent)), env);
            var assembly := Assembled(parent.Id(), parent.Parent(), MapResolver(shared.lineage));
            var allowed := MayDelegate(cfg.maxDelegationDepth, assembly, request.seed, parent, env.checkedAt);
            && (end.Returned? <==> MayMintChild(cfg, shared, request, parent, env))
            && (!allowed ==> end.Refused? && end.error.Unauthorized? && after == shared)
            && (allowed ==> after.nonces == shared.nonces + SpentBy(request, env.popAt))
            && (!end.Returned? && allowed ==> HasOnlySpent(shared, after, SpentBy(request, env.popAt)))
            && (end.Returned? ==>
                  && end.seed == request.seed && end.parent == Some(parent) && request.seed.publicKeyDer.Some?
                  && HasMinted(cfg, shared, after, request.seed, request.seed.publicKeyDer.value, env,
                               Some(parent), end.vaid))
  {
    hide IssuedOutcome, HasMinted, HasProof, IsNarrower, Assembled, ChildDenial, TowardsNonce;
    var assembly := Assembled(parent.Id(), parent.Parent(), MapResolver(shared.lineage));
    AssembledIsTheWalk(parent, MapResolver(shared.lineage));
    WalkingFinishes(cfg, shared, BeginChild(request, Some(parent)), env);
    DelegationIsExact(cfg, assembly, request.seed, parent, env.checkedAt);
    assert shared.nonces + {} == shared.nonces;
    if ChildDenial(cfg, assembly, request.seed, parent, env.checkedAt) == None && request.seed.publicKeyDer.Some? {
      ProofOutcome(cfg, shared, request, request.seed.publicKeyDer.value, Some(parent), env);
    }
  }

  lemma AssembledIsTheWalk(v: Vaid, resolver: Resolver)
    ensures Assembled(v.Id(), v.Parent(), resolver) == Walk([v.Id()], v.Parent(), resolver)
  {
  }

  /** The depth limit is the mint's alone: an issuer stamps the same document under any. */
  lemma SameIssuer(one: Config, other: Config, env: Env, seed: Seed, key: Octets, parent: Option<Vaid>)
    requires one == other.(maxDelegationDepth := one.maxDelegationDepth)
    ensures StampedExpiry(one, env.issuedAt, Ceiling(parent)) == StampedExpiry(other, env.issuedAt, Ceiling(parent))
    ensures forall e :: IssuedVaid(one, env.freshId, seed, key, env.issuedAt, e)
                        == IssuedVaid(other, env.freshId, seed, key, env.issuedAt, e)
    ensures forall e :: IssuedVaid(one, env.freshId, seed, key, env.issuedAt, e).Id() == env.freshId
    ensures forall e :: IssuedVaid(one, env.freshId, seed, key, env.issuedAt, e).expiresAt == e
  {
  }

  /** The nonce lock and the signature check, taken together. */
  lemma ProofFinishes(cfg: Config, shared: Shared, request: MintRequest, key: Octets, parent: Option<Vaid>, env: Env)
    ensures var fault := PopOutcome(shared.nonces, request.seed, key, request.pop, env.popAt);
            var spent := shared.(nonces := shared.nonces
                                           + if request.pop.Some? && IsFresh(request.pop.value, env.popAt)
                                             then {request.pop.value.nonce} else {});
            Finish(cfg, shared, TowardsNonce(request, key, parent, env), env)
            == if fault.Some? then (spent, Refused(Identity(fault.value)))
               else Finish(cfg, spent, Issuing(request.seed, key, request.pop, parent), env)
  {
    hide ProvesPossession, IsFresh;
    var begun := TowardsNonce(request, key, parent, env);
    if begun.AtNonceLock? {
      var nonce := request.pop.value.nonce;
      var (after, next) := CallStep(cfg, shared, begun, env);
      assert Finish(cfg, shared, begun, env) == Finish(cfg, after, next, env);
      if nonce in shared.nonces {
        assert shared.nonces + {nonce} == shared.nonces;
        assert Finish(cfg, after, next, env) == (after, next);
      } else if !ProvesPossession(request.seed, key, request.pop.value) {
        var refused := IssueTurn(cfg, next, env);
        assert Finish(cfg, after, next, env) == Finish(cfg, after, refused, env) == (after, refused);
      }
    } else {
      assert shared.nonces + {} == shared.nonces;
    }
  }
}
