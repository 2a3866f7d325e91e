/**
 Every interleaving of mint calls, revocations, lineage loss and restarts over one mint.

 A world holds the shared stores, where each call stands, and the history a proof
 needs: the chain of every document ever signed, the ids ever recorded, which stores
 each call has changed, and which calls an earlier process finished.
 */
module Interleaving {
  import opened Wrappers
  import opened Wire
  import opened ScopeRules
  import opened Document
  import opened IssuerIdentity
  import opened Revocation
  import opened Mint
  import opened ChainTheorems
  import Chain
  import Verify

  datatype Store = Nonces | Lineage | Audit

  datatype World = World(
    shared: Shared,
    revoked: RevokedState,
    calls: map<nat, Phase>,
    issued: map<Uuid, seq<Vaid>>,
    recorded: set<Uuid>,
    wrote: map<nat, set<Store>>,
    earlier: set<nat>)

  datatype Event =
    | StartRoot(call: nat, request: MintRequest, env: Env)
    | StartChild(call: nat, request: MintRequest, parent: Option<Vaid>)
    | Advance(call: nat, env: Env)
    | Revoke(id: Uuid)
    | LoseLineage(kept: set<Uuid>)
    | Restart(revoked: RevokedState)

  function Start(revoked: RevokedState): World {
    World(Shared({}, map[], []), revoked, map[], map[], {}, map[], {})
  }

  function Changed(before: Shared, after: Shared): set<Store> {
    (if before.nonces != after.nonces then {Nonces} else {})
    + (if before.lineage != after.lineage then {Lineage} else {})
    + (if before.audit != after.audit then {Audit} else {})
  }

  /** The chain of the authority a call delegates from; empty for a root mint. */
  function AuthorityChain(w: World, parent: Option<Vaid>): seq<Vaid> {
    if parent.Some? && parent.value.Id() in w.issued then w.issued[parent.value.Id()] else []
  }

  function Begun(w: World, call: nat, phase: Phase): World {
    w.(calls := w.calls[call := phase], wrote := w.wrote[call := {}])
  }

  function Advanced(cfg: Config, w: World, call: nat, env: Env): World
    requires call in w.calls && call in w.wrote
  {
    var (shared, phase) := CallStep(cfg, w.shared, w.calls[call], env);
    World(
      shared,
      w.revoked,
      w.calls[call := phase],
      if w.calls[call].Issuing? && phase.Built?
      then w.issued[phase.vaid.Id() := AuthorityChain(w, phase.parent) + [phase.vaid]] else w.issued,
      w.recorded + shared.lineage.Keys,
      w.wrote[call := w.wrote[call] + Changed(w.shared, shared)],
      w.earlier)
  }

  function Restricted(entries: LineageMap, kept: set<Uuid>): LineageMap {
    map id | id in entries && id in kept :: entries[id]
  }

  /** The in-memory stores start empty, and calls under way are gone; what was issued and returned stays so. */
  function Restarted(w: World, revoked: RevokedState): World {
    World(
      Shared({}, map[], []),
      revoked,
      map call | call in w.calls && IsFinal(w.calls[call]) :: w.calls[call],
      w.issued,
      w.recorded,
      map call | call in w.wrote && call in w.calls && IsFinal(w.calls[call]) :: w.wrote[call],
      set call | call in w.calls && IsFinal(w.calls[call]))
  }

  function Next(cfg: Config, w: World, e: Event): World
    requires IsPossible(w, e)
  {
    match e
    case StartRoot(call, request, env) => Begun(w, call, BeginRoot(request, env))
    case StartChild(call, request, parent) => Begun(w, call, BeginChild(request, parent))
    case Advance(call, env) => Advanced(cfg, w, call, env)
    case Revoke(id) => w.(revoked := WithRevoked(w.revoked, id))
    case LoseLineage(kept) => w.(shared := w.shared.(lineage := Restricted(w.shared.lineage, kept)))
    case Restart(revoked) => Restarted(w, revoked)
  }

  predicate IsReturned(w: World, v: Vaid) {
    exists call | call in w.calls :: w.calls[call].Returned? && w.calls[call].vaid == v
  }

  /**
   What is assumed of the outside: a new call has a new name, a root seed names no
   parent, a parent was returned by this mint, and a fresh id was never issued.
   */
  predicate IsPossible(w: World, e: Event) {
    match e
    case StartRoot(call, request, env) => call !in w.calls && request.seed.parentVaid == None
    case StartChild(call, request, parent) => call !in w.calls && (parent.Some? ==> IsReturned(w, parent.value))
    case Advance(call, env) => call in w.calls && call in w.wrote && env.freshId !in w.issued
    case Revoke(id) => true
    case LoseLineage(kept) => true
    case Restart(revoked) => true
  }

  // ------------------------------------------------------------------
  // Invariants
  // ------------------------------------------------------------------

  predicate OfIssuer(cfg: Config, v: Vaid) {
    && Verify.VerifyVaidAuthenticity(cfg.kernelKey, v)
    && v.trustDomain == cfg.trustDomain
    && v.expiresAt.E6?
  }

  lemma IssuerIsNamed(cfg: Config, v: Vaid)
    requires OfIssuer(cfg, v)
    ensures v.thumbprint == ThumbprintOf(cfg.kernelKey) && v.trustDomain == cfg.trustDomain && v.expiresAt.E6?
  {
  }

  predicate PrefixIssued(issued: map<Uuid, seq<Vaid>>, c: seq<Vaid>, k: nat)
    requires k < |c|
  {
    c[k].Id() in issued && issued[c[k].Id()] == c[..k + 1]
  }

  /** Parents name each other up to a document naming none, and every prefix is the chain of its own last. */
  predicate IsTrueChain(issued: map<Uuid, seq<Vaid>>, c: seq<Vaid>) {
    && (forall k {:trigger LinksUp(c, k)} | 0 <= k < |c| :: LinksUp(c, k))
    && (forall k {:trigger PrefixIssued(issued, c, k)} | 0 <= k < |c| :: PrefixIssued(issued, c, k))
  }

  predicate AllOfIssuer(cfg: Config, c: seq<Vaid>) {
    forall k {:trigger OfIssuer(cfg, c[k])} | 0 <= k < |c| :: OfIssuer(cfg, c[k])
  }

  predicate IsRecordedAt(recorded: set<Uuid>, c: seq<Vaid>, k: nat)
    requires k < |c|
  {
    c[k].Id() in recorded
  }

  predicate AncestorsRecorded(recorded: set<Uuid>, c: seq<Vaid>) {
    forall k | 0 <= k < |c| - 1 :: IsRecordedAt(recorded, c, k)
  }

  predicate IsGoodChain(cfg: Config, issued: map<Uuid, seq<Vaid>>, recorded: set<Uuid>, c: seq<Vaid>) {
    && 0 < |c| <= cfg.maxDelegationDepth + 1
    && IsTrueChain(issued, c)
    && AllOfIssuer(cfg, c)
    && AncestorsRecorded(recorded, c)
    && IsContainedChain(c)
  }

  predicate ChainsAreGood(cfg: Config, w: World) {
    forall id | id in w.issued ::
      && IsGoodChain(cfg, w.issued, w.recorded, w.issued[id])
      && Last(w.issued[id]).Id() == id
  }

  predicate Known(w: World, v: Vaid) {
    v.Id() in w.issued && w.issued[v.Id()] != [] && Last(w.issued[v.Id()]) == v
  }

  /** The lineage store holds true parents only, though perhaps not all of them. */
  predicate LineageIsTrue(w: World) {
    && w.shared.lineage.Keys <= w.recorded
    && (forall id | id in w.recorded :: id in w.issued)
    && forall id | id in w.shared.lineage ::
         && id in w.issued && w.issued[id] != []
         && w.shared.lineage[id] == Last(w.issued[id]).Parent()
  }

  /** Everything the delegation checks established, and nothing since has undone. */
  predicate IsDelegable(cfg: Config, w: World, seed: Seed, parent: Option<Vaid>) {
    match parent
    case None => seed.parentVaid == None
    case Some(p) =>
      && Known(w, p)
      && p.Id() in w.recorded
      && |w.issued[p.Id()]| <= cfg.maxDelegationDepth
      && seed.parentVaid == Some(p.Id())
      && seed.tenantId == p.tenantId
      && ScopeAttenuates(p.scopeBoundary, seed.scopeBoundary)
      && CapsAttenuate(p.capabilitySet, seed.capabilitySet)
  }

  predicate IsMinted(w: World, seed: Seed, parent: Option<Vaid>, vaid: Vaid) {
    && Known(w, vaid)
    && vaid.Parent() == seed.parentVaid
    && (parent.Some? ==> IsContained(parent.value, vaid))
  }

  /** A walk holds the last ids of the parent's true chain, leaf first. */
  predicate IsTrueWalk(w: World, authority: Vaid, chain: seq<Uuid>, next: Option<Uuid>) {
    && Known(w, authority)
    && authority.Id() in w.recorded
    && var ids := Ids(w.issued[authority.Id()]);
       && 0 < |chain| <= |ids|
       && chain == LastReversed(ids, |chain|)
       && next == Above(ids, |ids| - |chain|)
  }

  predicate CallIsSound(cfg: Config, w: World, phase: Phase) {
    match phase
    case Walking(_, authority, chain, next) => IsTrueWalk(w, authority, chain, next)
    case AtNonceLock(seed, _, _, parent) => IsDelegable(cfg, w, seed, parent)
    case Issuing(seed, _, _, parent) => IsDelegable(cfg, w, seed, parent)
    case Built(seed, _, parent, vaid) => IsMinted(w, seed, parent, vaid)
    case Recorded(seed, _, parent, vaid) => IsMinted(w, seed, parent, vaid) && vaid.Id() in w.recorded
    case Returned(seed, _, parent, vaid, _) => IsMinted(w, seed, parent, vaid) && vaid.Id() in w.recorded
    case Refused(error) => error != Unauthorized(CeilingUnreadable) && error != Unauthorized(IssuerIgnoredCeiling)
  }

  predicate CallsAreSound(cfg: Config, w: World) {
    && w.calls.Keys == w.wrote.Keys
    && forall call | call in w.calls :: CallIsSound(cfg, w, w.calls[call])
  }

  predicate IsSound(cfg: Config, w: World) {
    ChainsAreGood(cfg, w) && LineageIsTrue(w) && CallsAreSound(cfg, w)
  }

  // ------------------------------------------------------------------
  // Sound worlds stay sound
  // ------------------------------------------------------------------

  lemma StartIsSound(cfg: Config, revoked: RevokedState)
    ensures IsSound(cfg, Start(revoked))
  {
  }

  /** What never shrinks. */
  predicate Extends(w: World, after: World) {
    && (forall id | id in w.issued :: id in after.issued && after.issued[id] == w.issued[id])
    && w.recorded <= after.recorded
  }

  lemma SoundCallStaysSound(cfg: Config, w: World, after: World, phase: Phase)
    requires CallIsSound(cfg, w, phase) && Extends(w, after)
    ensures CallIsSound(cfg, after, phase)
  {
  }

  lemma GoodChainStaysGood(cfg: Config, w: World, after: World, c: seq<Vaid>)
    requires IsGoodChain(cfg, w.issued, w.recorded, c) && Extends(w, after)
    ensures IsGoodChain(cfg, after.issued, after.recorded, c)
  {
    forall k | 0 <= k < |c| ensures PrefixIssued(after.issued, c, k) {
      assert PrefixIssued(w.issued, c, k);
    }
    forall k | 0 <= k < |c| - 1 ensures IsRecordedAt(after.recorded, c, k) {
      assert IsRecordedAt(w.recorded, c, k);
    }
  }

  lemma GoodChainsStayGood(cfg: Config, w: World, after: World)
    requires ChainsAreGood(cfg, w) && Extends(w, after)
    ensures forall id | id in w.issued ::
              IsGoodChain(cfg, after.issued, after.recorded, w.issued[id]) && Last(w.issued[id]).Id() == id
  {
    forall id | id in w.issued ensures IsGoodChain(cfg, after.issued, after.recorded, w.issued[id]) {
      GoodChainStaysGood(cfg, w, after, w.issued[id]);
    }
  }

  lemma OtherCallsStaySound(cfg: Config, w: World, after: World, call: nat)
    requires CallsAreSound(cfg, w) && Extends(w, after)
    requires after.calls.Keys == w.calls.Keys + {call} == after.wrote.Keys
    requires forall other | other in w.calls && other != call :: after.calls[other] == w.calls[other]
    requires CallIsSound(cfg, after, after.calls[call])
    ensures CallsAreSound(cfg, after)
  {
    forall other | other in after.calls ensures CallIsSound(cfg, after, after.calls[other]) {
      if other != call {
        SoundCallStaysSound(cfg, w, after, w.calls[other]);
      }
    }
  }

  lemma FirstIdIsTrueWalk(w: World, authority: Vaid)
    requires Known(w, authority) && authority.Id() in w.recorded
    requires LinksUp(w.issued[authority.Id()], |w.issued[authority.Id()]| - 1)
    ensures IsTrueWalk(w, authority, [authority.Id()], authority.Parent())
  {
    LastReversedOne(Ids(w.issued[authority.Id()]));
  }

  lemma BeginChildIsSound(cfg: Config, w: World, request: MintRequest, parent: Vaid)
    requires ChainsAreGood(cfg, w) && CallsAreSound(cfg, w) && IsReturned(w, parent)
    ensures CallIsSound(cfg, w, BeginChild(request, Some(parent)))
  {
    hide IsContained, OfIssuer, IsTrueWalk;
    var other :| other in w.calls && w.calls[other].Returned? && w.calls[other].vaid == parent;
    assert CallIsSound(cfg, w, w.calls[other]);
    assert IsGoodChain(cfg, w.issued, w.recorded, w.issued[parent.Id()]);
    FirstIdIsTrueWalk(w, parent);
  }

  lemma BeginIsSound(cfg: Config, w: World, call: nat, phase: Phase)
    requires IsSound(cfg, w) && call !in w.calls && CallIsSound(cfg, w, phase)
    ensures IsSound(cfg, Begun(w, call, phase))
  {
    hide IsContained, OfIssuer, ScopeAttenuates, CapsAttenuate;
    var after := Begun(w, call, phase);
    GoodChainsStayGood(cfg, w, after);
    SoundCallStaysSound(cfg, w, after, phase);
    OtherCallsStaySound(cfg, w, after, call);
  }

  lemma LossIsSound(cfg: Config, w: World, e: Event)
    requires IsSound(cfg, w) && IsPossible(w, e) && (e.Revoke? || e.LoseLineage? || e.Restart?)
    ensures IsSound(cfg, Next(cfg, w, e))
  {
    var after := Next(cfg, w, e);
    forall call | call in after.calls ensures CallIsSound(cfg, after, after.calls[call]) {
      SoundCallStaysSound(cfg, w, after, w.calls[call]);
    }
  }

  /** What the lineage store answers about an ancestor is what the chain says. */
  lemma LineageAnswersTruly(w: World, c: seq<Vaid>, k: nat)
    requires LineageIsTrue(w) && IsTrueChain(w.issued, c) && k < |c|
    ensures var answer := Resolve(w.shared.lineage, c[k].Id());
            answer == Unknown || Agrees(answer, Above(Ids(c), k))
  {
    assert LinksUp(c, k) && PrefixIssued(w.issued, c, k);
  }

  lemma LongerWalkIsTrue(w: World, authority: Vaid, chain: seq<Uuid>, pid: Uuid, next: Option<Uuid>)
    requires IsTrueWalk(w, authority, chain, Some(pid))
    requires var ids := Ids(w.issued[authority.Id()]); next == Above(ids, |ids| - |chain| - 1)
    ensures IsTrueWalk(w, authority, chain + [pid], next)
  {
    LastReversedStep(Ids(w.issued[authority.Id()]), |chain|);
  }

  /** A finished walk has found the parent's whole chain, so the depth it checks is the true one. */
  lemma CheckedIsSound(cfg: Config, w: World, phase: Phase, assembly: LineageAssembly, env: Env)
    requires phase.Walking? && CallIsSound(cfg, w, phase)
    requires assembly.Complete? ==> |assembly.ids| == |w.issued[phase.authority.Id()]|
    ensures CallIsSound(cfg, w, Checked(cfg, phase.request, phase.authority, assembly, env))
  {
  }

  /** The walk only ever finds the truth. */
  lemma WalkTurnIsSound(cfg: Config, w: World, phase: Phase, env: Env)
    requires LineageIsTrue(w) && phase.Walking? && CallIsSound(cfg, w, phase)
    requires IsTrueChain(w.issued, w.issued[phase.authority.Id()])
    ensures CallIsSound(cfg, w, WalkTurn(cfg, w.shared.lineage, phase, env))
  {
    var c := w.issued[phase.authority.Id()];
    var ids, n := Ids(c), |phase.chain|;
    match phase.next
    case None =>
      assert n == |ids|;
      CheckedIsSound(cfg, w, phase, Complete(Reversed(phase.chain)), env);
    case Some(pid) =>
      CheckedIsSound(cfg, w, phase, Incomplete, env);
      assert pid == ids[|ids| - n - 1];
      LineageAnswersTruly(w, c, |ids| - n - 1);
      if Resolve(w.shared.lineage, pid) != Unknown {
        LongerWalkIsTrue(w, phase.authority, phase.chain, pid, Above(ids, |ids| - n - 1));
      }
  }

  /** What the mint checks of a seed is exactly what the verifier will ask of the hop it makes. */
  lemma MintChecksWhatVerifierAsks(cfg: Config, seed: Seed, key: Octets, parent: Vaid, id: Uuid, now: Instant)
    requires IsConfig(cfg) && OfIssuer(cfg, parent)
    ensures var stamped := StampedExpiry(cfg, now, Some(parent.expiresAt));
            && stamped.Some?
            && (IsContained(parent, IssuedVaid(cfg, id, seed, key, now, stamped.value))
                <==> && seed.tenantId == parent.tenantId
                     && ScopeAttenuates(parent.scopeBoundary, seed.scopeBoundary)
                     && CapsAttenuate(parent.capabilitySet, seed.capabilitySet))
  {
    hide OfIssuer, ScopeAttenuates, CapsAttenuate;
    IssuerIsNamed(cfg, parent);
    ClampIsFloorOfTheEarlier(cfg, now, parent.expiresAt);
  }

  lemma LongerChainIsTrue(w: World, after: World, c: seq<Vaid>, v: Vaid)
    requires Extends(w, after) && v.Id() in after.issued && after.issued[v.Id()] == c + [v]
    requires IsTrueChain(w.issued, c)
    requires v.Parent() == if c == [] then None else Some(Last(c).Id())
    ensures IsTrueChain(after.issued, c + [v])
  {
    var longer := c + [v];
    forall k | 0 <= k < |longer| ensures LinksUp(longer, k) && PrefixIssued(after.issued, longer, k) {
      if k < |c| {
        assert LinksUp(c, k) && PrefixIssued(w.issued, c, k);
        assert longer[..k + 1] == c[..k + 1];
      } else {
        assert longer[..k + 1] == longer;
      }
    }
  }

  lemma LongerChainIsContained(c: seq<Vaid>, v: Vaid)
    requires IsContainedChain(c) && (c != [] ==> IsContained(Last(c), v))
    ensures IsContainedChain(c + [v])
  {
    forall k | 0 <= k < |c| ensures ContainedAt(c + [v], k) {
      assert k < |c| - 1 ==> ContainedAt(c, k);
    }
  }

  lemma LongerChainIsOfIssuer(cfg: Config, c: seq<Vaid>, v: Vaid)
    requires AllOfIssuer(cfg, c) && OfIssuer(cfg, v)
    ensures AllOfIssuer(cfg, c + [v])
  {
  }

  lemma LongerChainIsRecorded(recorded: set<Uuid>, c: seq<Vaid>, v: Vaid)
    requires AncestorsRecorded(recorded, c) && (c != [] ==> Last(c).Id() in recorded)
    ensures AncestorsRecorded(recorded, c + [v])
  {
    forall k | 0 <= k < |c| ensures IsRecordedAt(recorded, c + [v], k) {
      assert k < |c| - 1 ==> IsRecordedAt(recorded, c, k);
    }
  }

  lemma NewChainIsGood(cfg: Config, w: World, after: World, seed: Seed, parent: Option<Vaid>, v: Vaid)
    requires ChainsAreGood(cfg, w) && IsDelegable(cfg, w, seed, parent) && OfIssuer(cfg, v)
    requires v.Parent() == seed.parentVaid && (parent.Some? ==> IsContained(parent.value, v))
    requires Extends(w, after) && v.Id() in after.issued && after.issued[v.Id()] == AuthorityChain(w, parent) + [v]
    requires after.recorded == w.recorded
    ensures IsGoodChain(cfg, after.issued, after.recorded, AuthorityChain(w, parent) + [v])
  {
    var c := AuthorityChain(w, parent);
    assert c != [] ==> IsGoodChain(cfg, w.issued, w.recorded, c);
    LongerChainIsTrue(w, after, c, v);
    LongerChainIsContained(c, v);
    LongerChainIsOfIssuer(cfg, c, v);
    LongerChainIsRecorded(after.recorded, c, v);
  }

  /** Signing a document with all its delegation established makes one more good chain. */
  lemma SigningIsSound(cfg: Config, w: World, after: World, seed: Seed, parent: Option<Vaid>, v: Vaid)
    requires ChainsAreGood(cfg, w) && IsDelegable(cfg, w, seed, parent) && OfIssuer(cfg, v)
    requires v.Id() !in w.issued && v.Parent() == seed.parentVaid
    requires parent.Some? ==> IsContained(parent.value, v)
    requires after.issued == w.issued[v.Id() := AuthorityChain(w, parent) + [v]] && after.recorded == w.recorded
    ensures ChainsAreGood(cfg, after) && Known(after, v)
  {
    hide IsContained, OfIssuer, ScopeAttenuates, CapsAttenuate;
    NewChainIsGood(cfg, w, after, seed, parent, v);
    GoodChainsStayGood(cfg, w, after);
  }

  /** What the issuer stamps is delegable authority made into a document. */
  lemma IssuedIsSound(cfg: Config, w: World, phase: Phase, env: Env)
    requires IsConfig(cfg) && ChainsAreGood(cfg, w) && phase.Issuing? && CallIsSound(cfg, w, phase)
    ensures var built := IssueTurn(cfg, phase, env);
            if built.Built? then
              && OfIssuer(cfg, built.vaid)
              && built.vaid.Id() == env.freshId && built.vaid.Parent() == phase.seed.parentVaid
              && (phase.parent.Some? ==> IsContained(phase.parent.value, built.vaid))
              && built.seed == phase.seed && built.parent == phase.parent
            else built == Refused(Identity(BadSignature))
  {
    var built := IssueTurn(cfg, phase, env);
    if phase.parent.Some? {
      var c := w.issued[phase.parent.value.Id()];
      assert OfIssuer(cfg, c[|c| - 1]);
      MintChecksWhatVerifierAsks(cfg, phase.seed, phase.key, phase.parent.value, env.freshId, env.issuedAt);
    }
    if built.Built? {
      IssuedIsAuthentic(cfg, env.freshId, phase.seed, phase.key, env.issuedAt, built.vaid.expiresAt);
    }
  }

  lemma LineageStaysTrue(w: World, after: World)
    requires LineageIsTrue(w) && Extends(w, after)
    requires after.shared.lineage == w.shared.lineage && after.recorded == w.recorded
    ensures LineageIsTrue(after)
  {
  }

  lemma BuiltIsSound(cfg: Config, w: World, after: World, call: nat, phase: Phase, built: Phase)
    requires IsSound(cfg, w) && call in w.calls && phase.Issuing? && CallIsSound(cfg, w, phase)
    requires built.Built? && OfIssuer(cfg, built.vaid) && built.vaid.Id() !in w.issued
    requires built.vaid.Parent() == phase.seed.parentVaid
    requires phase.parent.Some? ==> IsContained(phase.parent.value, built.vaid)
    requires built.seed == phase.seed && built.parent == phase.parent
    requires after.shared == w.shared && after.recorded == w.recorded
    requires after.calls == w.calls[call := built] && after.wrote.Keys == w.wrote.Keys
    requires after.issued == w.issued[built.vaid.Id() := AuthorityChain(w, phase.parent) + [built.vaid]]
    ensures IsSound(cfg, after)
  {
    hide IsContained, OfIssuer, IsGoodChain, ScopeAttenuates, CapsAttenuate;
    SigningIsSound(cfg, w, after, phase.seed, phase.parent, built.vaid);
    LineageStaysTrue(w, after);
    OtherCallsStaySound(cfg, w, after, call);
  }

  /** A step that signs nothing keeps the chains, whatever it does to one call. */
  lemma QuietStepIsSound(cfg: Config, w: World, after: World, call: nat)
    requires IsSound(cfg, w) && call in w.calls
    requires after.issued == w.issued && w.recorded <= after.recorded
    requires LineageIsTrue(after)
    requires after.calls.Keys == w.calls.Keys && after.wrote.Keys == w.wrote.Keys
    requires forall other | other in w.calls && other != call :: after.calls[other] == w.calls[other]
    requires CallIsSound(cfg, after, after.calls[call])
    ensures IsSound(cfg, after)
  {
    GoodChainsStayGood(cfg, w, after);
    OtherCallsStaySound(cfg, w, after, call);
  }

  lemma IssueStepIsSound(cfg: Config, w: World, call: nat, env: Env)
    requires IsConfig(cfg) && IsSound(cfg, w) && IsPossible(w, Advance(call, env)) && w.calls[call].Issuing?
    ensures IsSound(cfg, Advanced(cfg, w, call, env))
  {
    hide IsContained, OfIssuer, ScopeAttenuates, CapsAttenuate, IsConfig, IssueTurn, WalkTurn, Changed;
    var phase, after := w.calls[call], Advanced(cfg, w, call, env);
    assert CallIsSound(cfg, w, phase);
    assert after.recorded == w.recorded;
    IssuedIsSound(cfg, w, phase, env);
    var built := IssueTurn(cfg, phase, env);
    if built.Built? {
      BuiltIsSound(cfg, w, after, call, phase, built);
    } else {
      QuietStepIsSound(cfg, w, after, call);
    }
  }

  lemma RecordingIsTrue(cfg: Config, w: World, after: World, v: Vaid)
    requires LineageIsTrue(w) && Known(w, v) && after.issued == w.issued
    requires after.shared.lineage == w.shared.lineage[v.Id() := v.Parent()]
    requires after.recorded == w.recorded + after.shared.lineage.Keys
    ensures LineageIsTrue(after) && v.Id() in after.recorded
  {
  }

  lemma WalkingStepIsSound(cfg: Config, w: World, call: nat, env: Env)
    requires IsSound(cfg, w) && IsPossible(w, Advance(call, env)) && w.calls[call].Walking?
    ensures IsSound(cfg, Advanced(cfg, w, call, env))
  {
    hide IsContained, OfIssuer, ScopeAttenuates, CapsAttenuate, WalkTurn, IssueTurn, Changed;
    var phase, after := w.calls[call], Advanced(cfg, w, call, env);
    assert CallIsSound(cfg, w, phase);
    assert IsGoodChain(cfg, w.issued, w.recorded, w.issued[phase.authority.Id()]);
    WalkTurnIsSound(cfg, w, phase, env);
    assert after.recorded == w.recorded;
    SoundCallStaysSound(cfg, w, after, after.calls[call]);
    QuietStepIsSound(cfg, w, after, call);
  }

  lemma NonceStepIsSound(cfg: Config, w: World, call: nat, env: Env)
    requires IsSound(cfg, w) && IsPossible(w, Advance(call, env)) && w.calls[call].AtNonceLock?
    ensures IsSound(cfg, Advanced(cfg, w, call, env))
  {
    hide ChainsAreGood, IsDelegable, IssueTurn, WalkTurn, Changed;
    var phase, after := w.calls[call], Advanced(cfg, w, call, env);
    assert CallIsSound(cfg, w, phase);
    assert after.recorded == w.recorded;
    SoundCallStaysSound(cfg, w, after, phase);
    LineageStaysTrue(w, after);
    QuietStepIsSound(cfg, w, after, call);
  }

  lemma RecordStepIsSound(cfg: Config, w: World, call: nat, env: Env)
    requires IsSound(cfg, w) && IsPossible(w, Advance(call, env)) && w.calls[call].Built?
    ensures IsSound(cfg, Advanced(cfg, w, call, env))
  {
    hide ChainsAreGood, IsContained, IsDelegable, IsTrueWalk, IssueTurn, WalkTurn, HonoursCeiling, AuditOf, Changed;
    var phase, after := w.calls[call], Advanced(cfg, w, call, env);
    assert CallIsSound(cfg, w, phase);
    if env.lineageWrites {
      RecordingIsTrue(cfg, w, after, phase.vaid);
    } else {
      assert after.recorded == w.recorded;
    }
    QuietStepIsSound(cfg, w, after, call);
  }

  lemma MintedHonoursCeiling(w: World, seed: Seed, parent: Option<Vaid>, vaid: Vaid)
    requires IsMinted(w, seed, parent, vaid)
    ensures HonoursCeiling(parent, vaid)
  {
  }

  /** The re-check of the issued expiry never refuses this issuer's document. */
  lemma AuditStepIsSound(cfg: Config, w: World, call: nat, env: Env)
    requires IsSound(cfg, w) && IsPossible(w, Advance(call, env))
    requires w.calls[call].Recorded? || w.calls[call].Returned? || w.calls[call].Refused?
    ensures IsSound(cfg, Advanced(cfg, w, call, env))
  {
    hide ChainsAreGood, IsMinted, IsDelegable, IsTrueWalk, HonoursCeiling, IssueTurn, WalkTurn, AuditOf, Changed, Known;
    var phase, after := w.calls[call], Advanced(cfg, w, call, env);
    assert CallIsSound(cfg, w, phase);
    if phase.Recorded? {
      MintedHonoursCeiling(w, phase.seed, phase.parent, phase.vaid);
    }
    assert after.recorded == w.recorded;
    SoundCallStaysSound(cfg, w, after, phase);
    LineageStaysTrue(w, after);
    QuietStepIsSound(cfg, w, after, call);
  }

  lemma NextIsSound(cfg: Config, w: World, e: Event)
    requires IsConfig(cfg) && IsSound(cfg, w) && IsPossible(w, e)
    ensures IsSound(cfg, Next(cfg, w, e))
  {
    match e
    case StartRoot(call, request, env) =>
      BeginIsSound(cfg, w, call, BeginRoot(request, env));
    case StartChild(call, request, parent) =>
      if parent.Some? {
        BeginChildIsSound(cfg, w, request, parent.value);
      }
      BeginIsSound(cfg, w, call, BeginChild(request, parent));
    case Revoke(_) => LossIsSound(cfg, w, e);
    case LoseLineage(_) => LossIsSound(cfg, w, e);
    case Restart(_) => LossIsSound(cfg, w, e);
    case Advance(call, env) =>
      if w.calls[call].Issuing? {
        IssueStepIsSound(cfg, w, call, env);
      } else if w.calls[call].Walking? {
        WalkingStepIsSound(cfg, w, call, env);
      } else if w.calls[call].AtNonceLock? {
        NonceStepIsSound(cfg, w, call, env);
      } else if w.calls[call].Built? {
        RecordStepIsSound(cfg, w, call, env);
      } else {
        AuditStepIsSound(cfg, w, call, env);
      }
  }
}
