/** What stands behind every mint a run has returned: the proof, the permission, the checks, the record. */
module RunLaws {
  import opened Wrappers
  import opened Wire
  import opened ScopeRules
  import opened Document
  import opened Revocation
  import opened Mint
  import opened MintLaws
  import opened Interleaving
  import opened Accounts
  import opened MintRuns
  import opened RevocationRuns
  import Verify

  // ------------------------------------------------------------------
  // Every document is stamped, and proven where a key was registered
  // ------------------------------------------------------------------

  /** A registered key and a proof go together, and a child always has both. */
  predicate IsRegistered(seed: Seed, pop: Option<MintPop>, parent: Option<Vaid>) {
    (pop.Some? <==> seed.publicKeyDer.Some?) && (parent.Some? ==> pop.Some?)
  }

  predicate IsProven(cfg: Config, seed: Seed, pop: Option<MintPop>, parent: Option<Vaid>, v: Vaid) {
    && IsRegistered(seed, pop, parent)
    && (pop.Some? ==> seed.publicKeyDer == Some(v.publicKeyDer) && SignsSeed(seed, v.publicKeyDer, pop.value))
    && CarriesSeed(cfg, seed, v.publicKeyDer, v.Id(), v)
    && Verify.IsSignedBy(cfg.kernelKey, v)
  }

  predicate PhaseIsProven(cfg: Config, phase: Phase) {
    match phase
    case AtNonceLock(seed, key, _, _) => seed.publicKeyDer == Some(key)
    case Issuing(seed, key, pop, parent) =>
      IsRegistered(seed, pop, parent) && (pop.Some? ==> seed.publicKeyDer == Some(key))
    case Built(seed, pop, parent, vaid) => IsProven(cfg, seed, pop, parent, vaid)
    case Recorded(seed, pop, parent, vaid) => IsProven(cfg, seed, pop, parent, vaid)
    case Returned(seed, pop, parent, vaid, _) => IsProven(cfg, seed, pop, parent, vaid)
    case _ => true
  }

  lemma IssueTurnIsProven(cfg: Config, phase: Phase, env: Env)
    requires phase.Issuing? && PhaseIsProven(cfg, phase)
    ensures PhaseIsProven(cfg, IssueTurn(cfg, phase, env))
  {
    hide StampedExpiry, IssuedVaid, Verify.IsSignedBy, CarriesSeed, ProvesPossession, SignsSeed;
    var turned := IssueTurn(cfg, phase, env);
    if turned.Built? {
      IssuedCarriesSeed(cfg, env.freshId, phase.seed, phase.key, env.issuedAt, turned.vaid.expiresAt);
      IssuedHasExpiry(cfg, phase, env);
      IssuedIsSigned(cfg, env.freshId, phase.seed, phase.key, env.issuedAt, turned.vaid.expiresAt);
      IssuedNamesItsKey(cfg, phase.seed, phase.key, env.freshId, turned.vaid);
      if phase.pop.Some? {
        ProvenIsSigned(phase.seed, phase.key, phase.pop.value);
      }
    }
  }

  lemma IssuedHasExpiry(cfg: Config, phase: Phase, env: Env)
    requires phase.Issuing? && IssueTurn(cfg, phase, env).Built?
    ensures var v := IssueTurn(cfg, phase, env).vaid;
            v == IssuedVaid(cfg, env.freshId, phase.seed, phase.key, env.issuedAt, v.expiresAt)
  {
  }

  lemma IssuedNamesItsKey(cfg: Config, seed: Seed, key: Octets, id: Uuid, v: Vaid)
    requires CarriesSeed(cfg, seed, key, id, v)
    ensures v.publicKeyDer == key && v.Id() == id
  {
  }

  lemma ProvenIsSigned(seed: Seed, key: Octets, proof: MintPop)
    ensures ProvesPossession(seed, key, proof) <==> SignsSeed(seed, key, proof)
  {
  }

  lemma StepIsProven(cfg: Config, shared: Shared, phase: Phase, env: Env)
    requires PhaseIsProven(cfg, phase)
    ensures PhaseIsProven(cfg, CallStep(cfg, shared, phase, env).1)
  {
    hide IssueTurn, IsProven, ChildDenial;
    if phase.Issuing? {
      IssueTurnIsProven(cfg, phase, env);
    }
  }

  lemma {:induction false} CallsAreProven(cfg: Config, revoked: RevokedState, es: seq<Event>, call: nat)
    requires IsRun(cfg, revoked, es) && call in After(cfg, revoked, es).calls
    ensures PhaseIsProven(cfg, After(cfg, revoked, es).calls[call])
  {
    hide PhaseIsProven, CallStep, ChildDenial;
    var w, e := After(cfg, revoked, es[..|es| - 1]), Last(es);
    if call in w.calls {
      CallsAreProven(cfg, revoked, es[..|es| - 1], call);
      if e.Advance? && e.call == call {
        StepIsProven(cfg, w.shared, w.calls[call], e.env);
      }
    } else {
      BegunIsProven(cfg, e);
    }
  }

  lemma BegunIsProven(cfg: Config, e: Event)
    ensures e.StartRoot? ==> PhaseIsProven(cfg, BeginRoot(e.request, e.env))
    ensures e.StartChild? ==> PhaseIsProven(cfg, BeginChild(e.request, e.parent))
  {
  }

  /**
   Every document a run has returned carries its seed member for member, is signed by
   the kernel, and, wherever a key was registered, as it is for every child, that key's
   holder signed the very contents of the document, with the mint's own nonce.
   */
  lemma ReturnedIsProven(cfg: Config, revoked: RevokedState, es: seq<Event>, call: nat)
    requires IsRun(cfg, revoked, es)
    requires call in After(cfg, revoked, es).calls && After(cfg, revoked, es).calls[call].Returned?
    ensures var mint := After(cfg, revoked, es).calls[call];
            var v := mint.vaid;
            && CarriesSeed(cfg, mint.seed, v.publicKeyDer, v.Id(), v)
            && v.kernelSignature == Signature(cfg.kernelKey, VaidMessage(ToObject(v)[KernelSignature := Null]))
            && (mint.pop.Some? <==> mint.seed.publicKeyDer.Some?)
            && (mint.parent.Some? ==> mint.pop.Some?)
            && (mint.pop.Some? ==>
                  && mint.seed.publicKeyDer == Some(v.publicKeyDer) && v.publicKeyDer.Raw?
                  && mint.pop.value.signature == Signature(v.publicKeyDer.bytes, PopMessage(PopPayload(
                       v.publicKeyDer, v.tenantId, v.agentClass, v.version, v.Parent(),
                       v.scopeBoundary, v.capabilitySet, mint.pop.value.nonce, mint.pop.value.issuedAt))))
  {
    hide IsRun, After, ToObject;
    CallsAreProven(cfg, revoked, es, call);
  }

  /** And the audit entry it left describes it, as long as its process lives. */
  lemma AuditDescribesReturned(cfg: Config, revoked: RevokedState, es: seq<Event>, call: nat)
    requires IsConfig(cfg) && IsRun(cfg, revoked, es)
    requires var w := After(cfg, revoked, es); IsCurrent(w, call) && w.calls[call].Returned?
    ensures var w := After(cfg, revoked, es);
            var mint := w.calls[call];
            && mint.entry < |w.shared.audit|
            && Describes(w.shared.audit[mint.entry], mint.vaid, mint.parent, mint.pop.Some?)
  {
    hide IsRun, After, AuditOf, Describes, IsSound, ToObject;
    var mint := After(cfg, revoked, es).calls[call];
    ReturnedIsProven(cfg, revoked, es, call);
    ReturnedIsRecordedAndAudited(cfg, revoked, es, call);
    AuditDescribes(cfg, mint.seed, mint.vaid.publicKeyDer, mint.vaid.Id(), mint.vaid, mint.parent);
  }

  // ------------------------------------------------------------------
  // Every mint was admitted
  // ------------------------------------------------------------------

  predicate IsAdmitted(phase: Phase) {
    phase.AtNonceLock? || phase.Issuing? || phase.Built? || phase.Recorded? || phase.Returned?
  }

  function ProofOf(phase: Phase): Option<MintPop>
    requires IsAdmitted(phase)
  {
    if phase.AtNonceLock? then Some(phase.proof) else phase.pop
  }

  /**
   The event that let a mint pass: for a root, its start, permitted; for a child, the
   step at which its parent was live and everything it asks for was the parent's to
   give. In both, the proof was within its window.
   */
  ghost predicate IsAdmission(e: Event, call: nat, seed: Seed, pop: Option<MintPop>, parent: Option<Vaid>) {
    match parent
    case None =>
      && e.StartRoot? && e.call == call && e.env.permitted && e.request.seed == seed
      && (pop.Some? ==> IsWithinSkew(pop.value, e.env.popAt))
    case Some(p) =>
      && e.Advance? && e.call == call
      && IsLive(p, e.env.checkedAt)
      && seed.tenantId == p.tenantId && seed.parentVaid == Some(p.Id())
      && IsNarrower(p.scopeBoundary, seed.scopeBoundary) && IsSubset(seed.capabilitySet, p.capabilitySet)
      && pop.Some? && IsWithinSkew(pop.value, e.env.popAt)
  }

  lemma WalkAdmits(cfg: Config, lineage: LineageMap, phase: Phase, call: nat, env: Env)
    requires phase.Walking?
    ensures var turned := WalkTurn(cfg, lineage, phase, env);
            IsAdmitted(turned) ==>
              IsAdmission(Advance(call, env), call, turned.seed, ProofOf(turned), turned.parent)
  {
    hide ChildDenial, IsNarrower, IsFresh, IsWithinSkew;
    var turned := WalkTurn(cfg, lineage, phase, env);
    if IsAdmitted(turned) {
      FreshnessWindow(turned.proof, env.popAt);
      SkewIsFresh(turned.proof, env.popAt);
      WalkChecks(cfg, lineage, phase, env);
    }
  }

  lemma SkewIsFresh(proof: MintPop, now: Instant)
    ensures IsFresh(proof, now) <==> IsWithinSkew(proof, now)
  {
    FreshnessWindow(proof, now);
  }

  lemma WalkChecks(cfg: Config, lineage: LineageMap, phase: Phase, env: Env)
    requires phase.Walking? && IsAdmitted(WalkTurn(cfg, lineage, phase, env))
    ensures var turned := WalkTurn(cfg, lineage, phase, env);
            && turned.parent.Some?
            && var p := turned.parent.value;
               && IsLive(p, env.checkedAt) && turned.seed.tenantId == p.tenantId
               && turned.seed.parentVaid == Some(p.Id())
               && IsNarrower(p.scopeBoundary, turned.seed.scopeBoundary)
               && IsSubset(turned.seed.capabilitySet, p.capabilitySet)
  {
    hide ChildDenial, IsNarrower, IsFresh;
    DelegationIsExact(cfg, Complete(Reversed(phase.chain)), phase.request.seed, phase.authority, env.checkedAt);
    DelegationIsExact(cfg, Incomplete, phase.request.seed, phase.authority, env.checkedAt);
  }

  lemma StartAdmits(e: Event)
    requires e.StartRoot? && IsAdmitted(BeginRoot(e.request, e.env))
    ensures var begun := BeginRoot(e.request, e.env);
            IsAdmission(e, e.call, begun.seed, ProofOf(begun), begun.parent)
  {
    hide IsFresh, IsWithinSkew;
    if e.request.pop.Some? {
      SkewIsFresh(e.request.pop.value, e.env.popAt);
    }
  }

  lemma StepKeepsAdmission(cfg: Config, shared: Shared, phase: Phase, env: Env)
    requires !phase.Walking? && IsAdmitted(CallStep(cfg, shared, phase, env).1)
    ensures var stepped := CallStep(cfg, shared, phase, env).1;
            && IsAdmitted(phase)
            && stepped.seed == phase.seed && stepped.parent == phase.parent && ProofOf(stepped) == ProofOf(phase)
  {
    hide ProvesPossession, StampedExpiry, IssuedVaid, HonoursCeiling, AuditOf;
  }

  /** Behind every mint past its checks, so behind every one returned, there is the event that admitted it. */
  lemma {:induction false} WasAdmitted(cfg: Config, revoked: RevokedState, es: seq<Event>, call: nat) returns (k: nat)
    requires IsRun(cfg, revoked, es)
    requires var calls := After(cfg, revoked, es).calls; call in calls && IsAdmitted(calls[call])
    ensures var phase := After(cfg, revoked, es).calls[call];
            k < |es| && IsAdmission(es[k], call, phase.seed, ProofOf(phase), phase.parent)
  {
    hide IsAdmission, CallStep, WalkTurn, BeginRoot;
    var before := es[..|es| - 1];
    var w, e := After(cfg, revoked, before), Last(es);
    if e.StartRoot? && e.call == call {
      StartAdmits(e);
      k := |es| - 1;
    } else if e.Advance? && e.call == call && w.calls[call].Walking? {
      StepOfWalking(cfg, w.shared, w.calls[call], e.env);
      WalkAdmits(cfg, w.shared.lineage, w.calls[call], call, e.env);
      k := |es| - 1;
    } else {
      if e.Advance? && e.call == call {
        StepKeepsAdmission(cfg, w.shared, w.calls[call], e.env);
      }
      k := WasAdmitted(cfg, revoked, before, call);
    }
  }

  lemma StepOfWalking(cfg: Config, shared: Shared, phase: Phase, env: Env)
    requires phase.Walking?
    ensures CallStep(cfg, shared, phase, env).1 == WalkTurn(cfg, shared.lineage, phase, env)
  {
  }

  // ------------------------------------------------------------------
  // What is revoked
  // ------------------------------------------------------------------

  predicate HasRevoked(es: seq<Event>, x: Uuid) {
    exists k | 0 <= k < |es| :: es[k] == Revoke(x)
  }

  /** Within one process, exactly what was revoked at its start or since; a store vouches once anything was. */
  lemma {:induction false} RevokedExactly(cfg: Config, revoked: RevokedState, es: seq<Event>, x: Uuid)
    requires IsRun(cfg, revoked, es) && NeverRestarts(es, 0)
    ensures IsRevoked(After(cfg, revoked, es).revoked, x) <==> IsRevoked(revoked, x) || HasRevoked(es, x)
    ensures After(cfg, revoked, es).revoked.Some? <==> revoked.Some? || exists k | 0 <= k < |es| :: es[k].Revoke?
  {
    if es != [] {
      var before := es[..|es| - 1];
      assert !es[|es| - 1].Restart?;
      RevokedExactly(cfg, revoked, before, x);
      assert forall k | 0 <= k < |before| :: before[k] == es[k];
      assert HasRevoked(es, x) <==> HasRevoked(before, x) || es[|es| - 1] == Revoke(x);
    }
  }
}
