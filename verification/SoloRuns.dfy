/** Calls that run undisturbed are runs; and the one run whose last document nobody can verify. */
module SoloRuns {
  import opened Wrappers
  import opened Wire
  import opened ScopeRules
  import opened Document
  import opened IssuerIdentity
  import opened Revocation
  import opened Attestation
  import opened Mint
  import opened Interleaving
  import opened Service
  import opened ChainTheorems
  import opened MintRuns
  import opened RevocationRuns
  import Chain

  // ------------------------------------------------------------------
  // What the service's methods do is a run
  // ------------------------------------------------------------------

  lemma RunGoesOn(cfg: Config, revoked: RevokedState, es: seq<Event>, e: Event)
    requires IsRun(cfg, revoked, es) && IsPossible(After(cfg, revoked, es), e)
    ensures IsRun(cfg, revoked, es + [e])
    ensures After(cfg, revoked, es + [e]) == Next(cfg, After(cfg, revoked, es), e)
  {
    assert (es + [e])[..|es|] == es;
  }

  lemma RunAdvances(cfg: Config, revoked: RevokedState, es: seq<Event>, call: nat, env: Env)
    requires IsRun(cfg, revoked, es)
    requires var w := After(cfg, revoked, es); call in w.calls && call in w.wrote && env.freshId !in w.issued
    ensures IsRun(cfg, revoked, es + [Advance(call, env)])
    ensures After(cfg, revoked, es + [Advance(call, env)]) == Advanced(cfg, After(cfg, revoked, es), call, env)
    ensures NeverLosesLineage(es) ==> NeverLosesLineage(es + [Advance(call, env)])
  {
    RunGoesOn(cfg, revoked, es, Advance(call, env));
  }

  /** Only `call` has moved, and nothing issued has been lost. */
  predicate OnlyMoved(w: World, after: World, call: nat, freshId: Uuid) {
    && Extends(w, after) && after.revoked == w.revoked
    && after.issued.Keys <= w.issued.Keys + {freshId}
    && after.calls.Keys == w.calls.Keys == after.wrote.Keys
    && (forall other | other in w.calls && other != call :: after.calls[other] == w.calls[other])
  }

  lemma MovesCompose(w: World, between: World, after: World, call: nat, freshId: Uuid)
    requires OnlyMoved(w, between, call, freshId) && OnlyMoved(between, after, call, freshId)
    ensures OnlyMoved(w, after, call, freshId)
  {
  }

  lemma KeysOfMoved(w: World, after: World, call: nat, freshId: Uuid)
    requires OnlyMoved(w, after, call, freshId)
    ensures after.calls.Keys == w.calls.Keys == after.wrote.Keys && after.issued.Keys <= w.issued.Keys + {freshId}
  {
  }

  predicate HasNotSigned(phase: Phase) {
    phase.Walking? || phase.AtNonceLock? || phase.Issuing?
  }

  /** A call stepped alone is a run of the interleaved machine, ending where `Finish` does. */
  lemma {:induction false} SoloCallIsARun(
    cfg: Config, revoked: RevokedState, es: seq<Event>, call: nat, env: Env, spare: Uuid) returns (more: seq<Event>)
    requires IsRun(cfg, revoked, es)
    requires var w := After(cfg, revoked, es);
             && call in w.calls && w.calls.Keys == w.wrote.Keys
             && spare !in w.issued && spare != env.freshId
             && (HasNotSigned(w.calls[call]) ==> env.freshId !in w.issued)
    ensures es <= more && IsRun(cfg, revoked, more)
    ensures NeverLosesLineage(es) ==> NeverLosesLineage(more)
    ensures var w, after := After(cfg, revoked, es), After(cfg, revoked, more);
            && OnlyMoved(w, after, call, env.freshId)
            && (after.shared, after.calls[call]) == Finish(cfg, w.shared, w.calls[call], env)
    decreases StepsLeft(After(cfg, revoked, es).calls[call])
  {
    var w := After(cfg, revoked, es);
    var phase := w.calls[call];
    if IsFinal(phase) {
      more := es;
    } else {
      hide IsRun, After, Finish, CallStep, Advanced, OnlyMoved, NeverLosesLineage, IsPossible;
      var step := if HasNotSigned(phase) then env else env.(freshId := spare);
      RunAdvances(cfg, revoked, es, call, step);
      StepMovesOnlyItsCall(cfg, w, call, env, step);
      FinishStep(cfg, w.shared, phase, env);
      KeysOfMoved(w, Advanced(cfg, w, call, step), call, env.freshId);
      more := SoloCallIsARun(cfg, revoked, es + [Advance(call, step)], call, env, spare);
      MovesCompose(w, Advanced(cfg, w, call, step), After(cfg, revoked, more), call, env.freshId);
    }
  }

  lemma FinishStep(cfg: Config, shared: Shared, phase: Phase, env: Env)
    requires !IsFinal(phase)
    ensures var (after, next) := CallStep(cfg, shared, phase, env);
            StepsLeft(next) < StepsLeft(phase)
            && Finish(cfg, shared, phase, env) == Finish(cfg, after, next, env)
  {
  }

  lemma StepMovesOnlyItsCall(cfg: Config, w: World, call: nat, env: Env, step: Env)
    requires call in w.calls && w.calls.Keys == w.wrote.Keys
    requires HasNotSigned(w.calls[call]) ==> env.freshId !in w.issued
    requires step == if HasNotSigned(w.calls[call]) then env else env.(freshId := step.freshId)
    ensures var after := Advanced(cfg, w, call, step);
            && OnlyMoved(w, after, call, env.freshId)
            && (after.shared, after.calls[call]) == CallStep(cfg, w.shared, w.calls[call], env)
            && (HasNotSigned(after.calls[call]) ==> HasNotSigned(w.calls[call]) && after.issued == w.issued)
  {
    hide Checked, StampedExpiry, ProvesPossession, HonoursCeiling, AuditOf, Changed;
  }

  // ------------------------------------------------------------------
  // The depth limit of 1024
  // ------------------------------------------------------------------

  /** A one-hour issuer under the largest limit the constructor takes. */
  const DEEP := Config("kernel", 1, "b.c", MAX_LINEAGE_DEPTH)

  const NOTHING_REVOKED: RevokedState := Some({})

  /** Distinct for distinct n: used for the n-th id and the n-th nonce. */
  function Name(n: nat): (s: string)
    ensures |s| == n
  {
    seq(n, _ => 'x')
  }

  function DeepSeed(parent: Option<Uuid>): Seed {
    Seed("agent", "1", "tenant", parent, [], [], Some(Raw("holder")))
  }

  function DeepRequest(n: nat, parent: Option<Uuid>): MintRequest {
    var blank := MintPop(Name(n), 0, Raw(""));
    var payload := PopPayloadOf(DeepSeed(parent), Raw("holder"), blank);
    MintRequest(DeepSeed(parent), Some(blank.(signature := Signature("holder", PopMessage(payload)))))
  }

  function DeepEnv(n: nat): Env {
    Env(true, 0, 0, 0, Name(n), Raw(""), true, true)
  }

  predicate AreNames(names: set<string>, n: nat) {
    forall s | s in names :: |s| < n
  }

  /** After n mints, each from the last: `v` is the n-th document, n deep. */
  predicate IsDeepWorld(w: World, n: nat, v: Vaid) {
    && AreNames(w.issued.Keys, n) && AreNames(w.shared.nonces, n)
    && (forall call | call in w.calls :: call < n)
    && w.revoked == NOTHING_REVOKED
    && IsReturned(w, v) && v.Id() in w.issued && |w.issued[v.Id()]| == n
    && IsDeepDocument(v)
  }

  predicate IsDeep(es: seq<Event>, n: nat, v: Vaid) {
    && IsRun(DEEP, NOTHING_REVOKED, es) && NeverLosesLineage(es)
    && IsDeepWorld(After(DEEP, NOTHING_REVOKED, es), n, v)
  }

  lemma LastLabel(c: char)
    requires c != '.'
    ensures SplitLabels([c]) == [[c]]
  {
    assert [c][1..] == "" && [c][..1] + "" == [c];
  }

  lemma FirstLabel(c: char, rest: string)
    requires c != '.'
    ensures SplitLabels([c] + "." + rest) == [[c]] + SplitLabels(rest)
  {
    var s := [c] + "." + rest;
    var dotted := s[1..];
    assert dotted[0] == '.' && dotted[1..] == rest;
    assert SplitLabels(dotted) == [""] + SplitLabels(rest);
    assert s[..1] + "" == [c];
  }

  lemma DeepConfigIsOne()
    ensures IsConfig(DEEP)
  {
    LastLabel('c');
    FirstLabel('b', "c");
    assert "b" + "." + "c" == "b.c";
    var labels := SplitLabels("b.c");
    assert labels == ["b", "c"];
    assert !IsDigit(labels[1][0]);
    assert IsValidLabel("b") && IsValidLabel("c");
  }

  lemma DeepProofHolds(n: nat, parent: Option<Uuid>)
    ensures var request := DeepRequest(n, parent);
            && IsFresh(request.pop.value, 0)
            && ProvesPossession(request.seed, Raw("holder"), request.pop.value)
  {
  }

  predicate IsDeepDocument(v: Vaid) {
    v.tenantId == "tenant" && v.scopeBoundary == [] && v.capabilitySet == [] && v.expiresAt == E6(3600)
  }

  lemma DeepIssueReturns(shared: Shared, n: nat, parent: Option<Vaid>, p: Option<Uuid>, pop: Option<MintPop>)
    requires parent.Some? ==> parent.value.expiresAt == E6(3600)
    ensures var (after, phase) := IssuedOutcome(DEEP, shared, DeepSeed(p), Raw("holder"), pop, parent, DeepEnv(n));
            && phase.Returned? && phase.parent == parent && phase.seed == DeepSeed(p)
            && phase.vaid.Id() == Name(n) && IsDeepDocument(phase.vaid)
            && after.nonces == shared.nonces
  {
    assert StampedExpiry(DEEP, 0, Ceiling(parent)) == Some(E6(3600));
  }

  /** What the n-th mint, alone on the stores, comes to. */
  lemma DeepMintReturns(shared: Shared, n: nat, parent: Option<Vaid>, p: Option<Uuid>)
    requires AreNames(shared.nonces, n)
    requires parent.Some? ==> parent.value.expiresAt == E6(3600)
    ensures var begun := TowardsNonce(DeepRequest(n, p), Raw("holder"), parent, DeepEnv(n));
            var (after, phase) := Finish(DEEP, shared, begun, DeepEnv(n));
            && phase.Returned? && phase.parent == parent && phase.seed == DeepSeed(p)
            && phase.vaid.Id() == Name(n) && IsDeepDocument(phase.vaid)
            && after.nonces == shared.nonces + {Name(n)}
  {
    hide Finish, IssuedOutcome, ProvesPossession, IsFresh, IsDeepDocument;
    var request, env := DeepRequest(n, p), DeepEnv(n);
    var spent := shared.(nonces := shared.nonces + {Name(n)});
    DeepProofHolds(n, p);
    assert Name(n) !in shared.nonces;
    ProofFinishes(DEEP, shared, request, Raw("holder"), parent, env);
    IssuingFinishes(DEEP, spent, request.seed, Raw("holder"), request.pop, parent, env);
    DeepIssueReturns(spent, n, parent, p, request.pop);
  }

  /** The n-th call, begun below a document n deep (or none), will return one that is a child of it. */
  predicate IsDeepCall(w: World, begun: World, n: nat, parent: Option<Uuid>) {
    && AreNames(w.issued.Keys, n) && AreNames(w.shared.nonces, n)
    && (forall call | call in w.calls :: call < n)
    && w.revoked == NOTHING_REVOKED
    && (if parent.None? then n == 0 else parent.value in w.issued && |w.issued[parent.value]| == n)
    && n in begun.calls && begun == Begun(w, n, begun.calls[n])
    && HasNotSigned(begun.calls[n])
    && var (after, phase) := Finish(DEEP, w.shared, begun.calls[n], DeepEnv(n));
       && phase.Returned? && phase.vaid.Id() == Name(n) && IsDeepDocument(phase.vaid)
       && phase.seed.parentVaid == parent
       && after.nonces == w.shared.nonces + {Name(n)}
  }

  lemma DeepWorldGrows(w: World, begun: World, after: World, n: nat, parent: Option<Uuid>)
    requires IsSound(DEEP, after) && IsDeepCall(w, begun, n, parent) && OnlyMoved(begun, after, n, Name(n))
    requires (after.shared, after.calls[n]) == Finish(DEEP, begun.shared, begun.calls[n], DeepEnv(n))
    ensures IsDeepWorld(after, n + 1, after.calls[n].vaid)
  {
    hide IsSound, Finish, IsDeepDocument;
    ReturnedIsOneDeeper(DEEP, after, n);
  }

  /** Begun, it runs alone to its end. */
  lemma DeepCallEnds(es: seq<Event>, begin: Event, n: nat, parent: Option<Uuid>) returns (more: seq<Event>, v: Vaid)
    requires IsRun(DEEP, NOTHING_REVOKED, es) && IsRun(DEEP, NOTHING_REVOKED, es + [begin])
    requires NeverLosesLineage(es) && !Forgets(begin)
    requires IsDeepCall(After(DEEP, NOTHING_REVOKED, es), After(DEEP, NOTHING_REVOKED, es + [begin]), n, parent)
    ensures IsDeep(more, n + 1, v)
  {
    var w, begun := After(DEEP, NOTHING_REVOKED, es), After(DEEP, NOTHING_REVOKED, es + [begin]);
    hide IsRun, After, Finish, IsSound, NeverLosesLineage, IsDeepWorld, OnlyMoved, IsDeepDocument;
    DeepConfigIsOne();
    RunIsSound(DEEP, NOTHING_REVOKED, es + [begin]);
    SoundKeys(DEEP, begun);
    StillNeverLoses(es, begin);
    more := SoloCallIsARun(DEEP, NOTHING_REVOKED, es + [begin], n, DeepEnv(n), Name(n + 1));
    var after := After(DEEP, NOTHING_REVOKED, more);
    RunIsSound(DEEP, NOTHING_REVOKED, more);
    KeysOfMoved(begun, after, n, Name(n));
    DeepWorldGrows(w, begun, after, n, parent);
    v := after.calls[n].vaid;
  }

  lemma DeepRootBegins()
    ensures var w := Start(NOTHING_REVOKED);
            IsDeepCall(w, Begun(w, 0, BeginRoot(DeepRequest(0, None), DeepEnv(0))), 0, None)
  {
    hide Finish, IsDeepDocument, IsFresh;
    DeepProofHolds(0, None);
    DeepMintReturns(Start(NOTHING_REVOKED).shared, 0, None, None);
  }

  lemma DeepestStart() returns (es: seq<Event>, v: Vaid)
    ensures IsDeep(es, 1, v)
  {
    hide IsDeep, IsDeepCall, IsFresh;
    DeepRootBegins();
    RunGoesOn(DEEP, NOTHING_REVOKED, [], StartRoot(0, DeepRequest(0, None), DeepEnv(0)));
    es, v := DeepCallEnds([], StartRoot(0, DeepRequest(0, None), DeepEnv(0)), 0, None);
  }

  lemma StillNeverLoses(es: seq<Event>, e: Event)
    requires NeverLosesLineage(es) && !Forgets(e)
    ensures NeverLosesLineage(es + [e])
  {
  }

  lemma SoundKeys(cfg: Config, w: World)
    requires IsSound(cfg, w)
    ensures w.calls.Keys == w.wrote.Keys
  {
  }

  lemma ReturnedIsOneDeeper(cfg: Config, w: World, call: nat)
    requires IsSound(cfg, w) && call in w.calls && w.calls[call].Returned?
    ensures var v := w.calls[call].vaid;
            && v.Id() in w.issued
            && match w.calls[call].seed.parentVaid
               case None => |w.issued[v.Id()]| == 1
               case Some(p) => p in w.issued && |w.issued[v.Id()]| == |w.issued[p]| + 1
  {
    hide IsGoodChain, LineageIsTrue;
    assert CallIsSound(cfg, w, w.calls[call]);
    ChildIsOneDeeper(cfg, w, w.calls[call].vaid);
  }

  lemma ChildIsOneDeeper(cfg: Config, w: World, v: Vaid)
    requires ChainsAreGood(cfg, w) && Known(w, v)
    ensures match v.Parent()
            case None => |w.issued[v.Id()]| == 1
            case Some(p) => p in w.issued && |w.issued[v.Id()]| == |w.issued[p]| + 1
  {
    var c := w.issued[v.Id()];
    assert IsGoodChain(cfg, w.issued, w.recorded, c);
    assert LinksUp(c, |c| - 1);
    if |c| > 1 {
      assert PrefixIssued(w.issued, c, |c| - 2);
    }
  }

  lemma DeeperStill(es: seq<Event>, n: nat, v: Vaid) returns (more: seq<Event>, child: Vaid)
    requires 1 <= n <= MAX_LINEAGE_DEPTH && IsDeep(es, n, v)
    ensures IsDeep(more, n + 1, child)
  {
    var w := After(DEEP, NOTHING_REVOKED, es);
    var request := DeepRequest(n, Some(v.Id()));
    var begin := StartChild(n, request, Some(v));
    RunGoesOn(DEEP, NOTHING_REVOKED, es, begin);
    DeepParentIsAccepted(es, n, v);
    DeepMintReturns(w.shared, n, Some(v), Some(v.Id()));
    more, child := DeepCallEnds(es, begin, n, Some(v.Id()));
  }

  lemma DeepParentIsAssembled(es: seq<Event>, n: nat, v: Vaid)
    requires 1 <= n <= MAX_LINEAGE_DEPTH && IsDeep(es, n, v)
    ensures var assembly := Assembled(v.Id(), v.Parent(), MapResolver(After(DEEP, NOTHING_REVOKED, es).shared.lineage));
            assembly.Complete? && |assembly.ids| == n
  {
    hide Assembled, IsTrueChain, OfIssuer, IsContainedChain, Finish, IsDeepDocument;
    var w := After(DEEP, NOTHING_REVOKED, es);
    var c := w.issued[v.Id()];
    DeepConfigIsOne();
    RunIsSound(DEEP, NOTHING_REVOKED, es);
    NothingLostNothingForgotten(DEEP, NOTHING_REVOKED, es);
    assert IsGoodChain(DEEP, w.issued, w.recorded, c);
    forall k | 0 <= k < |c| - 1 ensures ResolvesAt(w.shared.lineage, c, k) {
      assert IsRecordedAt(w.recorded, c, k);
    }
    ReturnedIsKnown(DEEP, w, v);
    AssemblyIsTheTruth(w, c);
  }

  lemma DeepParentIsAccepted(es: seq<Event>, n: nat, v: Vaid)
    requires 1 <= n <= MAX_LINEAGE_DEPTH && IsDeep(es, n, v)
    ensures var w := After(DEEP, NOTHING_REVOKED, es);
            var request := DeepRequest(n, Some(v.Id()));
            Finish(DEEP, w.shared, BeginChild(request, Some(v)), DeepEnv(n))
            == Finish(DEEP, w.shared, TowardsNonce(request, Raw("holder"), Some(v), DeepEnv(n)), DeepEnv(n))
  {
    hide Assembled, Walk, IsRun, After, Finish, TowardsNonce;
    var w := After(DEEP, NOTHING_REVOKED, es);
    DeepParentIsAssembled(es, n, v);
    assert Assembled(v.Id(), v.Parent(), MapResolver(w.shared.lineage))
           == Walk([v.Id()], v.Parent(), MapResolver(w.shared.lineage)) by {
      AssembledIsWalk(v, MapResolver(w.shared.lineage));
    }
    WalkingFinishes(DEEP, w.shared, BeginChild(DeepRequest(n, Some(v.Id())), Some(v)), DeepEnv(n));
  }

  lemma AssembledIsWalk(v: Vaid, resolver: Resolver)
    ensures Assembled(v.Id(), v.Parent(), resolver) == Walk([v.Id()], v.Parent(), resolver)
  {
  }

  lemma ReturnedIsKnown(cfg: Config, w: World, v: Vaid)
    requires CallsAreSound(cfg, w) && IsReturned(w, v)
    ensures Known(w, v)
  {
    var call :| call in w.calls && w.calls[call].Returned? && w.calls[call].vaid == v;
    assert CallIsSound(cfg, w, w.calls[call]);
  }

  lemma {:induction false} DeepRun(n: nat) returns (es: seq<Event>, v: Vaid)
    requires 1 <= n <= MAX_LINEAGE_DEPTH + 1
    ensures IsDeep(es, n, v)
  {
    if n == 1 {
      es, v := DeepestStart();
    } else {
      var shorter, parent := DeepRun(n - 1);
      es, v := DeeperStill(shorter, n - 1, parent);
    }
  }

  /** At every depth up to 1023 a run mints a document that the verifier attenuates and its issuer passes. */
  lemma EveryDepthIsReached(n: nat, attestations: AttestationBundle) returns (es: seq<Event>, v: Vaid)
    requires 1 <= n <= MAX_LINEAGE_DEPTH
    ensures IsConfig(DEEP) && IsRun(DEEP, NOTHING_REVOKED, es)
    ensures var w := After(DEEP, NOTHING_REVOKED, es);
            && IsReturned(w, v) && v.Id() in w.issued
            && var c := TrueChain(w, v.Id());
               && |c| == n && Last(c) == v
               && VerdictOn(DEEP.kernelKey, c, attestations, 0) == Chain.Attenuated
               && Passes(DEEP, w, v.Id(), 0)
  {
    hide IsRun, After, VerdictOn, Passes, IsTrueChain, AllOfIssuer, CallsAreSound;
    DeepConfigIsOne();
    es, v := DeepRun(n);
    var w := After(DEEP, NOTHING_REVOKED, es);
    var c := w.issued[v.Id()];
    RunIsSound(DEEP, NOTHING_REVOKED, es);
    DeepReturnedIsKnown(es, v);
    assert IsGoodChain(DEEP, w.issued, w.recorded, c);
    NothingLostNothingForgotten(DEEP, NOTHING_REVOKED, es);
    forall k | 0 <= k < |c| - 1 ensures ResolvesAt(w.shared.lineage, c, k) {
      assert IsRecordedAt(w.recorded, c, k);
    }
    LifeOnlyShrinks(c, 0);
    LapsedMeans(c, 0);
    MintedChainVerdict(DEEP, NOTHING_REVOKED, es, v.Id(), attestations, 0);
    PassesIsExact(DEEP, NOTHING_REVOKED, es, v.Id(), 0);
  }

  lemma DeepReturnedIsKnown(es: seq<Event>, v: Vaid)
    requires IsRun(DEEP, NOTHING_REVOKED, es) && IsReturned(After(DEEP, NOTHING_REVOKED, es), v)
    ensures Known(After(DEEP, NOTHING_REVOKED, es), v)
  {
    hide IsRun, After;
    DeepConfigIsOne();
    RunIsSound(DEEP, NOTHING_REVOKED, es);
    ReturnedIsKnown(DEEP, After(DEEP, NOTHING_REVOKED, es), v);
  }

  /**
   Under the largest limit accepted, 1024, a run of 1025 mints with nothing lost and
   nothing revoked returns a document that no verifier can ever verify and that its
   own issuer never passes.
   */
  lemma LimitOf1024MintsTooDeep() returns (es: seq<Event>, v: Vaid)
    ensures IsConfig(DEEP) && IsRun(DEEP, NOTHING_REVOKED, es) && NeverLosesLineage(es)
    ensures var w := After(DEEP, NOTHING_REVOKED, es);
            && IsReturned(w, v) && v.Id() in w.issued
            && var c := TrueChain(w, v.Id());
               && c != [] && Last(c) == v
               && (forall now, attestations :: VerdictOn(DEEP.kernelKey, c, attestations, now) == Chain.Unverifiable)
               && forall now :: !Passes(DEEP, w, v.Id(), now)
  {
    es, v := DeepRun(MAX_LINEAGE_DEPTH + 1);
    DeepConfigIsOne();
    var w := After(DEEP, NOTHING_REVOKED, es);
    RunIsSound(DEEP, NOTHING_REVOKED, es);
    ReturnedIsKnown(DEEP, w, v);
    var c := TrueChain(w, v.Id());
    forall now, attestations ensures VerdictOn(DEEP.kernelKey, c, attestations, now) == Chain.Unverifiable {
      MintedChainVerdict(DEEP, NOTHING_REVOKED, es, v.Id(), attestations, now);
    }
    forall now ensures !Passes(DEEP, w, v.Id(), now) {
      PassesIsExact(DEEP, NOTHING_REVOKED, es, v.Id(), now);
    }
  }
}
