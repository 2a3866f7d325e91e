/** Short runs that show what a restart forgets, and the one kind of root two checks disagree on. */
module RunWitnesses {
  import opened Wrappers
  import opened Wire
  import opened ScopeRules
  import opened Document
  import opened IssuerIdentity
  import opened Revocation
  import opened Mint
  import opened Interleaving
  import opened Issuer
  import opened Service
  import opened ChainTheorems
  import opened MintRuns
  import opened RevocationRuns
  import opened SoloRuns
  import opened RootSeeds
  import Verify

  /** A root mint with the stores to itself, as a run. */
  lemma {:induction false} RootMintedAlone(es: seq<Event>, call: nat, request: MintRequest, env: Env, spare: Uuid)
    returns (more: seq<Event>)
    requires IsRun(DEEP, NOTHING_REVOKED, es) && request.seed.parentVaid == None
    requires var w := After(DEEP, NOTHING_REVOKED, es);
             call !in w.calls && env.freshId !in w.issued && spare !in w.issued && spare != env.freshId
    ensures IsRun(DEEP, NOTHING_REVOKED, more)
    ensures var w, after := After(DEEP, NOTHING_REVOKED, es), After(DEEP, NOTHING_REVOKED, more);
            && Extends(w, after) && after.revoked == w.revoked && after.issued.Keys <= w.issued.Keys + {env.freshId}
            && after.calls.Keys == w.calls.Keys + {call}
            && (forall other | other in w.calls :: after.calls[other] == w.calls[other])
            && (after.shared, after.calls[call]) == Finish(DEEP, w.shared, BeginRoot(request, env), env)
  {
    hide IsRun, After, Finish, BeginRoot, IsSound;
    var w := After(DEEP, NOTHING_REVOKED, es);
    DeepConfigIsOne();
    RunGoesOn(DEEP, NOTHING_REVOKED, es, StartRoot(call, request, env));
    RunIsSound(DEEP, NOTHING_REVOKED, es + [StartRoot(call, request, env)]);
    SoundKeys(DEEP, Begun(w, call, BeginRoot(request, env)));
    more := SoloCallIsARun(DEEP, NOTHING_REVOKED, es + [StartRoot(call, request, env)], call, env, spare);
  }

  /** The one issued by `call`, when it returned a root: its chain is itself. */
  lemma {:induction false} ReturnedRootIsItsChain(es: seq<Event>, call: nat)
    requires IsRun(DEEP, NOTHING_REVOKED, es)
    requires var w := After(DEEP, NOTHING_REVOKED, es);
             call in w.calls && w.calls[call].Returned? && w.calls[call].seed.parentVaid == None
    ensures var w := After(DEEP, NOTHING_REVOKED, es);
            var v := w.calls[call].vaid;
            v.Id() in w.issued && TrueChain(w, v.Id()) == [v]
  {
    hide IsRun, After, IsSound;
    DeepConfigIsOne();
    RunIsSound(DEEP, NOTHING_REVOKED, es);
    ReturnedIsOneDeeper(DEEP, After(DEEP, NOTHING_REVOKED, es), call);
    ReturnedCallIsKnown(DEEP, After(DEEP, NOTHING_REVOKED, es), call);
    OnlyOne(After(DEEP, NOTHING_REVOKED, es), After(DEEP, NOTHING_REVOKED, es).calls[call].vaid);
  }

  lemma ReturnedCallIsKnown(cfg: Config, w: World, call: nat)
    requires IsSound(cfg, w) && call in w.calls && w.calls[call].Returned?
    ensures Known(w, w.calls[call].vaid)
  {
    hide ChainsAreGood, LineageIsTrue, IsContained, Known;
    assert CallIsSound(cfg, w, w.calls[call]);
  }

  lemma OnlyOne(w: World, v: Vaid)
    requires Known(w, v) && |w.issued[v.Id()]| == 1
    ensures w.issued[v.Id()] == [v]
  {
  }

  // ------------------------------------------------------------------
  // What a restart forgets
  // ------------------------------------------------------------------

  /** One proof, fresh at the epoch, and the environment of a mint that stamps `id`. */
  function ProvenRequest(): MintRequest {
    DeepRequest(0, None)
  }

  function EnvStamping(id: Uuid): Env {
    DeepEnv(0).(freshId := id)
  }

  lemma ProvenRootReturns(shared: Shared, id: Uuid)
    requires Name(0) !in shared.nonces
    ensures var (after, phase) := Finish(DEEP, shared, BeginRoot(ProvenRequest(), EnvStamping(id)), EnvStamping(id));
            && phase.Returned? && phase.pop == ProvenRequest().pop && phase.seed == ProvenRequest().seed
            && phase.vaid.Id() == id && phase.vaid.expiresAt == E6(3600)
  {
    hide Finish, ProvesPossession, IsFresh;
    var request, env := ProvenRequest(), EnvStamping(id);
    var spent := shared.(nonces := shared.nonces + {Name(0)});
    DeepProofHolds(0, None);
    ProofFinishes(DEEP, shared, request, Raw("holder"), None, env);
    IssuingFinishes(DEEP, spent, request.seed, Raw("holder"), request.pop, None, env);
    assert StampedExpiry(DEEP, 0, None) == Some(E6(3600));
  }

  /** A root minted with that proof from wherever a run has come, its nonce not remembered. */
  lemma {:induction false} ProvenRootMinted(es: seq<Event>, call: nat, id: Uuid, spare: Uuid)
    returns (more: seq<Event>)
    requires IsRun(DEEP, NOTHING_REVOKED, es)
    requires var w := After(DEEP, NOTHING_REVOKED, es);
             && call !in w.calls && id !in w.issued && spare !in w.issued && spare != id
             && Name(0) !in w.shared.nonces
    ensures IsRun(DEEP, NOTHING_REVOKED, more)
    ensures var w, after := After(DEEP, NOTHING_REVOKED, es), After(DEEP, NOTHING_REVOKED, more);
            && after.revoked == w.revoked && after.issued.Keys <= w.issued.Keys + {id}
            && after.calls.Keys == w.calls.Keys + {call}
            && (forall other | other in w.calls :: after.calls[other] == w.calls[other])
            && after.calls[call].Returned? && after.calls[call].pop == ProvenRequest().pop
            && after.calls[call].seed == ProvenRequest().seed
            && after.calls[call].vaid.Id() == id && after.calls[call].vaid.expiresAt == E6(3600)
  {
    hide IsRun, After, Finish, BeginRoot;
    ProvenRootReturns(After(DEEP, NOTHING_REVOKED, es).shared, id);
    more := RootMintedAlone(es, call, ProvenRequest(), EnvStamping(id), spare);
  }

  /** A proof inside its window mints once more after a restart: the two calls share a nonce. */
  lemma {:induction false} NonceBacksTwoProcesses() returns (es: seq<Event>)
    ensures IsRun(DEEP, NOTHING_REVOKED, es)
    ensures var calls := After(DEEP, NOTHING_REVOKED, es).calls;
            && 0 in calls && 1 in calls && calls[0].Returned? && calls[1].Returned?
            && calls[0].pop.Some? && calls[0].pop == calls[1].pop
            && calls[0].vaid.Id() != calls[1].vaid.Id()
  {
    var first := ProvenRootMinted([], 0, Name(1), Name(2));
    RunGoesOn(DEEP, NOTHING_REVOKED, first, Restart(NOTHING_REVOKED));
    assert |Name(1)| != |Name(2)| && |Name(2)| != |Name(3)| && |Name(1)| != |Name(3)|;
    es := ProvenRootMinted(first + [Restart(NOTHING_REVOKED)], 1, Name(2), Name(3));
  }

  /** A revoked root passes again after a restart into a store that vouches for nothing revoked. */
  lemma {:induction false} RestartForgetsARevocation() returns (es: seq<Event>, v: Vaid)
    ensures var revokedRun, restarted := es + [Revoke(v.Id())], es + [Revoke(v.Id()), Restart(NOTHING_REVOKED)];
            && IsRun(DEEP, NOTHING_REVOKED, revokedRun) && IsRun(DEEP, NOTHING_REVOKED, restarted)
            && var before, after := After(DEEP, NOTHING_REVOKED, revokedRun), After(DEEP, NOTHING_REVOKED, restarted);
               && v.Id() in before.issued && before.issued[v.Id()] == [v] && !Passes(DEEP, before, v.Id(), 0)
               && v.Id() in after.issued && after.issued[v.Id()] == [v] && Passes(DEEP, after, v.Id(), 0)
  {
    hide IsRun, After, Passes;
    assert IsRun(DEEP, NOTHING_REVOKED, []) && After(DEEP, NOTHING_REVOKED, []) == Start(NOTHING_REVOKED) by {
      EmptyRun();
    }
    assert |Name(1)| != |Name(2)|;
    es := ProvenRootMinted([], 0, Name(1), Name(2));
    v := After(DEEP, NOTHING_REVOKED, es).calls[0].vaid;
    ReturnedRootIsItsChain(es, 0);
    DeepConfigIsOne();
    var revoke, restart := Revoke(v.Id()), Restart(NOTHING_REVOKED);
    RunGoesOn(DEEP, NOTHING_REVOKED, es, revoke);
    RunGoesOn(DEEP, NOTHING_REVOKED, es + [revoke], restart);
    assert es + [revoke] + [restart] == es + [revoke, restart];
    PassesIsExact(DEEP, NOTHING_REVOKED, es + [revoke], v.Id(), 0);
    PassesIsExact(DEEP, NOTHING_REVOKED, es + [revoke, restart], v.Id(), 0);
  }

  lemma EmptyRun()
    ensures IsRun(DEEP, NOTHING_REVOKED, []) && After(DEEP, NOTHING_REVOKED, []) == Start(NOTHING_REVOKED)
  {
  }

  // ------------------------------------------------------------------
  // A root nobody can read
  // ------------------------------------------------------------------

  const UNREADABLE := Seed("agent", "1", "tenant", None, [ScopeEntry("budget", Int(5))], [], None)

  lemma UnreadableRootReturns(shared: Shared)
    ensures var env := DeepEnv(0);
            var (after, phase) := Finish(DEEP, shared, BeginRoot(MintRequest(UNREADABLE, None), env), env);
            && phase.Returned? && phase.seed == UNREADABLE && phase.vaid.scopeBoundary == UNREADABLE.scopeBoundary
            && phase.vaid.expiresAt == E6(3600)
  {
    hide Finish;
    IssuingFinishes(DEEP, shared, UNREADABLE, Raw(""), None, None, DeepEnv(0));
    assert StampedExpiry(DEEP, 0, None) == Some(E6(3600));
  }

  /** The run: one root with a boundary of an unknown kind. The issuer passes it, the standing verdict refuses it. */
  lemma {:induction false} UnreadableRootPasses() returns (es: seq<Event>, v: Vaid)
    ensures IsRun(DEEP, NOTHING_REVOKED, es)
    ensures var w := After(DEEP, NOTHING_REVOKED, es);
            && IsReturned(w, v) && v.Id() in w.issued && w.issued[v.Id()] == [v]
            && Passes(DEEP, w, v.Id(), 0)
            && Verify.StandingVerdict(DEEP.kernelKey, v, StatusOf(w.shared.lineage, w.revoked, v), 0)
               == Verify.VaidVerdict.UnknownScopeKind
  {
    hide IsRun, After, Passes, Finish, BeginRoot, Verify.AuthenticityVerdict, StatusOf;
    EmptyRun();
    assert |Name(0)| != |Name(1)|;
    UnreadableRootReturns(Start(NOTHING_REVOKED).shared);
    es := RootMintedAlone([], 0, MintRequest(UNREADABLE, None), DeepEnv(0), Name(1));
    var w := After(DEEP, NOTHING_REVOKED, es);
    v := w.calls[0].vaid;
    ReturnedRootIsItsChain(es, 0);
    DeepConfigIsOne();
    PassesIsExact(DEEP, NOTHING_REVOKED, es, v.Id(), 0);
    IssuedIsOfIssuer(es, v);
    assert EntryContains(v.scopeBoundary[0], "").None?;
  }

  lemma {:induction false} IssuedIsOfIssuer(es: seq<Event>, v: Vaid)
    requires IsRun(DEEP, NOTHING_REVOKED, es)
    requires var w := After(DEEP, NOTHING_REVOKED, es); v.Id() in w.issued && w.issued[v.Id()] == [v]
    ensures Verify.AuthenticityVerdict(DEEP.kernelKey, v) == Verify.Valid
  {
    hide IsRun, After, Verify.AuthenticityVerdict;
    DeepConfigIsOne();
    RunIsSound(DEEP, NOTHING_REVOKED, es);
    var w := After(DEEP, NOTHING_REVOKED, es);
    assert IsGoodChain(DEEP, w.issued, w.recorded, [v]);
    assert OfIssuer(DEEP, [v][0]);
  }
}
