/** What interleaved calls leave in the shared stores: single-use nonces, bounded writes, an exact audit log. */
module Accounts {
  import opened Wrappers
  import opened Wire
  import opened Document
  import opened Revocation
  import opened Mint
  import opened Interleaving

  /** The nonce a call has spent, if it is past the nonce lock. */
  function SpentNonce(phase: Phase): Option<string> {
    match phase
    case Issuing(_, _, Some(pop), _) => Some(pop.nonce)
    case Built(_, Some(pop), _, _) => Some(pop.nonce)
    case Recorded(_, Some(pop), _, _) => Some(pop.nonce)
    case Returned(_, Some(pop), _, _, _) => Some(pop.nonce)
    case _ => None
  }

  /** A call of the process now running. */
  predicate IsCurrent(w: World, call: nat) {
    call in w.calls && call !in w.earlier
  }

  ghost predicate NoncesAreSingleUse(w: World) {
    && (forall call | IsCurrent(w, call) && SpentNonce(w.calls[call]).Some? ::
          SpentNonce(w.calls[call]).value in w.shared.nonces)
    && forall a, b | IsCurrent(w, a) && IsCurrent(w, b) && a != b && SpentNonce(w.calls[a]).Some? ::
         SpentNonce(w.calls[a]) != SpentNonce(w.calls[b])
  }

  /** Refusals raised before the proof of possession is spent. */
  predicate IsBeforePop(error: MintError) {
    match error
    case Unauthorized(denial) => denial != CeilingUnreadable && denial != IssuerIgnoredCeiling
    case Identity(fault) => fault != BadSignature
    case _ => false
  }

  /** The stores a call may have changed by the time it stands here. */
  function MayHaveWritten(phase: Phase): set<Store> {
    match phase
    case Walking(_, _, _, _) => {}
    case AtNonceLock(_, _, _, _) => {}
    case Issuing(_, _, _, _) => {Nonces}
    case Built(_, _, _, _) => {Nonces}
    case Recorded(_, _, _, _) => {Nonces, Lineage}
    case Returned(_, _, _, _, _) => {Nonces, Lineage, Audit}
    case Refused(error) =>
      if IsBeforePop(error) then {}
      else if error == AuditWriteFailed || error == Unauthorized(IssuerIgnoredCeiling) then {Nonces, Lineage}
      else {Nonces}
  }

  predicate WritesAreBounded(w: World) {
    forall call | call in w.calls :: call in w.wrote && w.wrote[call] <= MayHaveWritten(w.calls[call])
  }

  predicate OwnsEntry(w: World, call: nat, n: nat) {
    IsCurrent(w, call) && w.calls[call].Returned? && w.calls[call].entry == n
  }

  ghost predicate IsOwned(w: World, n: nat) {
    exists call | IsCurrent(w, call) :: OwnsEntry(w, call, n)
  }

  predicate EntryIsOwn(w: World, call: nat)
    requires call in w.calls
  {
    var phase := w.calls[call];
    phase.Returned? ==>
      && phase.entry < |w.shared.audit|
      && w.shared.audit[phase.entry] == AuditOf(phase.seed, phase.vaid, phase.parent)
  }

  /** The audit log holds one entry for each call this process has returned, and nothing else. */
  ghost predicate AuditIsExact(w: World) {
    && (forall call | IsCurrent(w, call) :: EntryIsOwn(w, call))
    && (forall a, b | IsCurrent(w, a) && IsCurrent(w, b) && a != b && w.calls[a].Returned? && w.calls[b].Returned? ::
          w.calls[a].entry != w.calls[b].entry)
    && forall n | 0 <= n < |w.shared.audit| :: IsOwned(w, n)
  }

  /** What holds of the calls of one process: nonces and audit entries are kept in its memory. */
  ghost predicate IsAccounted(w: World) {
    && (forall call | call in w.earlier :: call in w.calls && IsFinal(w.calls[call]))
    && NoncesAreSingleUse(w)
    && AuditIsExact(w)
  }

  // ------------------------------------------------------------------
  // Preservation
  // ------------------------------------------------------------------

  lemma StartIsAccounted(revoked: RevokedState)
    ensures IsAccounted(Start(revoked)) && WritesAreBounded(Start(revoked))
  {
  }

  /** A call that owns no entry may change in any way that spends no nonce and gains no entry. */
  lemma AuditStaysExact(w: World, after: World, call: nat)
    requires AuditIsExact(w) && after.shared.audit == w.shared.audit && after.earlier == w.earlier
    requires call in w.calls ==> !w.calls[call].Returned?
    requires after.calls.Keys == w.calls.Keys + {call} && !after.calls[call].Returned?
    requires forall other | other in w.calls && other != call :: after.calls[other] == w.calls[other]
    ensures AuditIsExact(after)
  {
    forall n | 0 <= n < |after.shared.audit| ensures IsOwned(after, n) {
      assert IsOwned(w, n);
      var owner: nat :| IsCurrent(w, owner) && OwnsEntry(w, owner, n);
      assert OwnsEntry(after, owner, n);
    }
    forall other | IsCurrent(after, other) ensures EntryIsOwn(after, other) {
      assert other != call ==> IsCurrent(w, other) && EntryIsOwn(w, other);
    }
  }

  lemma AuditGainsEntry(w: World, after: World, call: nat, entry: AuditEntry)
    requires AuditIsExact(w) && IsCurrent(w, call) && !w.calls[call].Returned? && after.earlier == w.earlier
    requires after.shared.audit == w.shared.audit + [entry]
    requires after.calls.Keys == w.calls.Keys && after.calls[call].Returned?
    requires after.calls[call].entry == |w.shared.audit|
    requires entry == AuditOf(after.calls[call].seed, after.calls[call].vaid, after.calls[call].parent)
    requires forall other | other in w.calls && other != call :: after.calls[other] == w.calls[other]
    ensures AuditIsExact(after)
  {
    forall other | IsCurrent(after, other) ensures EntryIsOwn(after, other) {
      assert other != call ==> IsCurrent(w, other) && EntryIsOwn(w, other);
    }
    forall n | 0 <= n < |after.shared.audit| ensures IsOwned(after, n) {
      if n < |w.shared.audit| {
        assert IsOwned(w, n);
        var owner: nat :| IsCurrent(w, owner) && OwnsEntry(w, owner, n);
        assert OwnsEntry(after, owner, n);
      } else {
        assert OwnsEntry(after, call, n);
      }
    }
    forall a | IsCurrent(w, a) && a != call && w.calls[a].Returned?
      ensures after.calls[a].entry != after.calls[call].entry
    {
      assert EntryIsOwn(w, a);
    }
  }

  lemma BeginIsAccounted(w: World, call: nat, phase: Phase)
    requires IsAccounted(w) && call !in w.calls
    requires phase.Walking? || phase.AtNonceLock? || phase.Refused? || (phase.Issuing? && phase.pop.None?)
    ensures IsAccounted(Begun(w, call, phase))
  {
    AuditStaysExact(w, Begun(w, call, phase), call);
  }

  /** Only the nonce lock spends a nonce, and only one that is not there yet. */
  lemma NoncesStaySingleUse(cfg: Config, w: World, call: nat, env: Env)
    requires NoncesAreSingleUse(w) && call in w.calls && call in w.wrote
    ensures NoncesAreSingleUse(Advanced(cfg, w, call, env))
  {
    var phase, after := w.calls[call], Advanced(cfg, w, call, env);
    var spent := SpentNonce(after.calls[call]);
    if phase.AtNonceLock? {
      assert spent.Some? ==> spent.value !in w.shared.nonces;
    } else {
      assert after.shared.nonces == w.shared.nonces;
      assert spent == None || spent == SpentNonce(phase);
    }
  }

  lemma WritesStayBounded(cfg: Config, w: World, call: nat, env: Env)
    requires WritesAreBounded(w) && call in w.calls && call in w.wrote
    ensures WritesAreBounded(Advanced(cfg, w, call, env))
  {
    var phase, after := w.calls[call], Advanced(cfg, w, call, env);
    assert Changed(w.shared, after.shared) + MayHaveWritten(phase) <= MayHaveWritten(after.calls[call]);
  }

  lemma AuditUntouched(w: World, after: World)
    requires AuditIsExact(w) && after.calls == w.calls && after.shared.audit == w.shared.audit
    requires after.earlier == w.earlier
    ensures AuditIsExact(after)
  {
    forall call | IsCurrent(after, call) ensures EntryIsOwn(after, call) {
      assert IsCurrent(w, call) && EntryIsOwn(w, call);
    }
    forall n | 0 <= n < |after.shared.audit| ensures IsOwned(after, n) {
      assert IsOwned(w, n);
      var owner: nat :| IsCurrent(w, owner) && OwnsEntry(w, owner, n);
      assert OwnsEntry(after, owner, n);
    }
  }

  lemma AdvanceIsAccounted(cfg: Config, w: World, call: nat, env: Env)
    requires IsAccounted(w) && call in w.calls && call in w.wrote
    ensures IsAccounted(Advanced(cfg, w, call, env))
  {
    hide AuditIsExact, NoncesAreSingleUse, AuditOf, ChildDenial, StampedExpiry, IssuedVaid, ProvesPossession;
    var phase, after := w.calls[call], Advanced(cfg, w, call, env);
    NoncesStaySingleUse(cfg, w, call, env);
    if phase.Returned? {
      AuditUntouched(w, after);
    } else if after.calls[call].Returned? {
      AuditGainsEntry(w, after, call, AuditOf(phase.seed, phase.vaid, phase.parent));
    } else {
      AuditStaysExact(w, after, call);
    }
  }

  /** What a call may have changed is bounded by how far it got, restarts or not. */
  lemma NextIsBounded(cfg: Config, w: World, e: Event)
    requires WritesAreBounded(w) && IsPossible(w, e)
    ensures WritesAreBounded(Next(cfg, w, e))
  {
    if e.Advance? {
      WritesStayBounded(cfg, w, e.call, e.env);
    }
  }

  lemma NextIsAccounted(cfg: Config, w: World, e: Event)
    requires IsAccounted(w) && IsPossible(w, e)
    ensures IsAccounted(Next(cfg, w, e))
  {
    match e
    case StartRoot(call, request, env) => BeginIsAccounted(w, call, BeginRoot(request, env));
    case StartChild(call, request, parent) => BeginIsAccounted(w, call, BeginChild(request, parent));
    case Advance(call, env) => AdvanceIsAccounted(cfg, w, call, env);
    case Revoke(_) => SameCallsAccounted(w, Next(cfg, w, e));
    case LoseLineage(_) => SameCallsAccounted(w, Next(cfg, w, e));
    case Restart(revoked) => RestartIsAccounted(w, revoked);
  }

  /** A new process has nothing to account for. */
  lemma RestartIsAccounted(w: World, revoked: RevokedState)
    ensures IsAccounted(Restarted(w, revoked))
  {
    assert forall call :: !IsCurrent(Restarted(w, revoked), call);
  }

  lemma SameCallsAccounted(w: World, after: World)
    requires IsAccounted(w) && after.calls == w.calls && after.earlier == w.earlier
    requires after.shared.audit == w.shared.audit && after.shared.nonces == w.shared.nonces
    ensures IsAccounted(after)
  {
    AuditUntouched(w, after);
  }
}
