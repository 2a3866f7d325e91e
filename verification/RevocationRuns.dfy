/** Revocation over every run: what passes `verify_vaid`, whatever was lost, and for how long a revocation holds. */
module RevocationRuns {
  import opened Wrappers
  import opened Wire
  import opened Document
  import opened Revocation
  import opened Mint
  import opened Interleaving
  import opened Issuer
  import opened ChainTheorems
  import opened MintRuns
  import ScopeRules
  import Verify

  // ------------------------------------------------------------------
  // The lineage store is a partial view of the truth
  // ------------------------------------------------------------------

  function TruthAbout(issued: map<Uuid, seq<Vaid>>, id: Uuid): ParentResolution {
    if id !in issued || issued[id] == [] then Unknown
    else match Last(issued[id]).Parent()
      case None => Root
      case Some(p) => Parent(p)
  }

  /** Who each issued document's own parent is. */
  function TrueParents(issued: map<Uuid, seq<Vaid>>): Resolver {
    id => TruthAbout(issued, id)
  }

  lemma LineageIsPartialView(w: World)
    requires LineageIsTrue(w)
    ensures IsPartialView(MapResolver(w.shared.lineage), TrueParents(w.issued))
  {
  }

  lemma TrueChainIsAncestry(issued: map<Uuid, seq<Vaid>>, c: seq<Vaid>)
    requires c != [] && IsTrueChain(issued, c)
    ensures IsAncestry(Ids(c), Last(c).Id(), Last(c).Parent(), TrueParents(issued))
  {
    var ids := Ids(c);
    assert LinksUp(c, |c| - 1);
    forall k {:trigger Above(ids, k)} | 0 <= k < |c| - 1
      ensures Agrees(TrueParents(issued)(ids[k]), Above(ids, k))
    {
      assert LinksUp(c, k) && PrefixIssued(issued, c, k);
    }
  }

  predicate ResolvesAt(lineage: LineageMap, c: seq<Vaid>, k: nat)
    requires k < |c|
  {
    c[k].Id() in lineage
  }

  /** The store still knows every document above the last. */
  predicate AncestorsResolve(lineage: LineageMap, c: seq<Vaid>) {
    forall k | 0 <= k < |c| - 1 :: ResolvesAt(lineage, c, k)
  }

  lemma KnownAncestorsAreLineage(w: World, c: seq<Vaid>)
    requires LineageIsTrue(w) && c != [] && IsTrueChain(w.issued, c)
    requires AncestorsResolve(w.shared.lineage, c) && |c| <= MAX_LINEAGE_DEPTH
    ensures IsLineage(Ids(c), Last(c).Id(), Last(c).Parent(), MapResolver(w.shared.lineage))
  {
    var ids := Ids(c);
    TrueChainIsLinked(w.issued, c);
    assert LinksUp(c, |c| - 1);
    forall k {:trigger Above(ids, k)} | 0 <= k < |c| - 1
      ensures Agrees(MapResolver(w.shared.lineage)(ids[k]), Above(ids, k))
    {
      assert ResolvesAt(w.shared.lineage, c, k);
      LineageAnswersTruly(w, c, k);
    }
  }

  lemma LineageIsKnownAncestors(w: World, c: seq<Vaid>)
    requires c != []
    requires IsLineage(Ids(c), Last(c).Id(), Last(c).Parent(), MapResolver(w.shared.lineage))
    ensures AncestorsResolve(w.shared.lineage, c) && |c| <= MAX_LINEAGE_DEPTH
  {
    var ids := Ids(c);
    forall k | 0 <= k < |c| - 1 ensures ResolvesAt(w.shared.lineage, c, k) {
      assert Agrees(MapResolver(w.shared.lineage)(ids[k]), Above(ids, k));
    }
  }

  /** The issuer assembles the true ancestry or nothing, and it does so exactly when it still knows every ancestor. */
  lemma AssemblyIsTheTruth(w: World, c: seq<Vaid>)
    requires LineageIsTrue(w) && c != [] && IsTrueChain(w.issued, c)
    ensures Assembled(Last(c).Id(), Last(c).Parent(), MapResolver(w.shared.lineage))
            == if AncestorsResolve(w.shared.lineage, c)
                && |c| <= MAX_LINEAGE_DEPTH then Complete(Ids(c)) else Incomplete
  {
    var leaf, resolver := Last(c), MapResolver(w.shared.lineage);
    var assembly := Assembled(leaf.Id(), leaf.Parent(), resolver);
    AssemblyIsExact(Ids(c), leaf.Id(), leaf.Parent(), resolver);
    if assembly.Complete? {
      LineageIsPartialView(w);
      TrueChainIsAncestry(w.issued, c);
      PartialViewsNeverMislead(assembly.ids, Ids(c), leaf.Id(), leaf.Parent(), resolver, TrueParents(w.issued));
      LineageIsKnownAncestors(w, c);
    } else if AncestorsResolve(w.shared.lineage, c) && |c| <= MAX_LINEAGE_DEPTH {
      KnownAncestorsAreLineage(w, c);
    }
  }

  // ------------------------------------------------------------------
  // What passes
  // ------------------------------------------------------------------

  predicate IsRevoked(revoked: RevokedState, id: Uuid) {
    revoked.Some? && id in revoked.value
  }

  /** Nothing on the chain is revoked, and the store vouches for that. */
  predicate IsVouchedFor(revoked: RevokedState, c: seq<Vaid>) {
    revoked.Some? && forall k | 0 <= k < |c| :: c[k].Id() !in revoked.value
  }

  predicate Passes(cfg: Config, w: World, id: Uuid, now: Instant)
    requires id in w.issued && w.issued[id] != []
  {
    VerifiesVaid(cfg.kernelKey, w.shared.lineage, w.revoked, Last(w.issued[id]), now)
  }

  lemma CheckedIsVouchedFor(revoked: RevokedState, c: seq<Vaid>)
    ensures CheckedLineage(revoked, Ids(c)) == NotRevoked <==> IsVouchedFor(revoked, c)
  {
  }

  lemma SoundWorldPasses(cfg: Config, w: World, id: Uuid, now: Instant)
    requires IsSound(cfg, w) && id in w.issued
    ensures var c := w.issued[id];
            && c != []
            && (Passes(cfg, w, id, now)
                <==> && !Last(c).IsExpiredAt(now)
                     && IsVouchedFor(w.revoked, c)
                     && AncestorsResolve(w.shared.lineage, c)
                     && |c| <= MAX_LINEAGE_DEPTH)
  {
    hide Assembled, CheckedLineage, IsTrueChain, CallsAreSound, IsContainedChain;
    var c := w.issued[id];
    assert IsGoodChain(cfg, w.issued, w.recorded, c) && OfIssuer(cfg, c[|c| - 1]);
    AssemblyIsTheTruth(w, c);
    CheckedIsVouchedFor(w.revoked, c);
  }

  /**
   Whatever lineage was lost: an issued document passes exactly when it has not
   expired, nothing in its true ancestry is revoked in a store that vouches, and the
   issuer can still assemble that ancestry.
   */
  lemma PassesIsExact(cfg: Config, revoked: RevokedState, es: seq<Event>, id: Uuid, now: Instant)
    requires IsConfig(cfg) && IsRun(cfg, revoked, es) && id in After(cfg, revoked, es).issued
    ensures var w := After(cfg, revoked, es);
            var c := TrueChain(w, id);
            && c != []
            && (Passes(cfg, w, id, now)
                <==> && !Last(c).IsExpiredAt(now)
                     && IsVouchedFor(w.revoked, c)
                     && AncestorsResolve(w.shared.lineage, c)
                     && |c| <= MAX_LINEAGE_DEPTH)
  {
    hide IsSound, Passes;
    RunIsSound(cfg, revoked, es);
    SoundWorldPasses(cfg, After(cfg, revoked, es), id, now);
  }

  /** The three statuses, each exactly when: what cannot be assembled or vouched for is unavailable, never clean. */
  lemma StatusNowIsExact(cfg: Config, revoked: RevokedState, es: seq<Event>, id: Uuid)
    requires IsConfig(cfg) && IsRun(cfg, revoked, es) && id in After(cfg, revoked, es).issued
    ensures var w := After(cfg, revoked, es);
            var c := TrueChain(w, id);
            && c != []
            && StatusOf(w.shared.lineage, w.revoked, Last(c))
               == if !AncestorsResolve(w.shared.lineage, c) || |c| > MAX_LINEAGE_DEPTH
                   || w.revoked.None? then Unavailable
                  else if IsVouchedFor(w.revoked, c) then NotRevoked
                  else Revoked
  {
    hide Assembled, IsTrueChain, IsContainedChain, AllOfIssuer, CallsAreSound, IsRun, After;
    RunIsSound(cfg, revoked, es);
    var w := After(cfg, revoked, es);
    var c := w.issued[id];
    assert IsGoodChain(cfg, w.issued, w.recorded, c);
    AssemblyIsTheTruth(w, c);
    CheckedIsVouchedFor(w.revoked, c);
  }

  lemma {:induction false} NothingLostNothingForgotten(cfg: Config, revoked: RevokedState, es: seq<Event>)
    requires IsRun(cfg, revoked, es) && NeverLosesLineage(es)
    ensures var w := After(cfg, revoked, es); w.recorded == w.shared.lineage.Keys
  {
    if es != [] {
      NothingLostNothingForgotten(cfg, revoked, es[..|es| - 1]);
      assert !Forgets(es[|es| - 1]);
    }
  }

  /** Where lineage is never lost and depth is at most 1023, only expiry and revocation stop a document. */
  lemma WithoutLossOnlyRevocationStops(cfg: Config, revoked: RevokedState, es: seq<Event>, id: Uuid, now: Instant)
    requires IsConfig(cfg) && IsRun(cfg, revoked, es) && id in After(cfg, revoked, es).issued
    requires NeverLosesLineage(es) && cfg.maxDelegationDepth < MAX_LINEAGE_DEPTH
    ensures var w := After(cfg, revoked, es);
            var c := TrueChain(w, id);
            && c != []
            && (Passes(cfg, w, id, now) <==> !Last(c).IsExpiredAt(now) && IsVouchedFor(w.revoked, c))
  {
    var w := After(cfg, revoked, es);
    hide IsRun, After, Passes, IsVouchedFor, IsTrueChain, AllOfIssuer, IsContainedChain, CallsAreSound;
    RunIsSound(cfg, revoked, es);
    PassesIsExact(cfg, revoked, es, id, now);
    NothingLostNothingForgotten(cfg, revoked, es);
    var c := w.issued[id];
    assert IsGoodChain(cfg, w.issued, w.recorded, c);
    forall k | 0 <= k < |c| - 1 ensures ResolvesAt(w.shared.lineage, c, k) {
      assert IsRecordedAt(w.recorded, c, k);
    }
  }

  /** After a restart only roots pass, until their descendants' ancestors are known again, and only by the new store. */
  lemma RestartForgetsAncestors(
    cfg: Config, revoked: RevokedState, es: seq<Event>, anew: RevokedState, id: Uuid, now: Instant)
    requires IsConfig(cfg) && IsRun(cfg, revoked, es) && id in After(cfg, revoked, es).issued
    ensures IsRun(cfg, revoked, es + [Restart(anew)])
    ensures var w := After(cfg, revoked, es + [Restart(anew)]);
            && id in w.issued && w.issued[id] != []
            && (Passes(cfg, w, id, now)
                <==> |w.issued[id]| == 1 && !Last(w.issued[id]).IsExpiredAt(now) && IsVouchedFor(anew, w.issued[id]))
  {
    hide Passes, IsVouchedFor, IsSound;
    assert (es + [Restart(anew)])[..|es|] == es;
    var w := After(cfg, revoked, es + [Restart(anew)]);
    assert w == Restarted(After(cfg, revoked, es), anew);
    PassesIsExact(cfg, revoked, es + [Restart(anew)], id, now);
    if |w.issued[id]| > 1 {
      assert !ResolvesAt(w.shared.lineage, w.issued[id], 0);
    }
  }

  predicate IsReadable(v: Vaid) {
    ScopeRules.BoundaryIsEvaluable(v.scopeBoundary)
  }

  lemma DelegatedIsReadable(c: seq<Vaid>)
    requires |c| > 1 && IsContainedChain(c)
    ensures IsReadable(Last(c))
  {
    assert ContainedAt(c, |c| - 2);
  }

  lemma StandingOfIssued(cfg: Config, w: World, v: Vaid, now: Instant)
    requires OfIssuer(cfg, v)
    ensures var status := StatusOf(w.shared.lineage, w.revoked, v);
            Verify.StandingVerdict(cfg.kernelKey, v, status, now) == Verify.Valid
            <==> VerifiesVaid(cfg.kernelKey, w.shared.lineage, w.revoked, v, now) && IsReadable(v)
  {
    hide StatusOf;
  }

  /**
   The issuer's own check and the public-key standing verdict, given the issuer's
   revocation status, agree on every issued document but one kind: a root whose
   boundary has an entry of an unknown kind passes the first only.
   */
  lemma StandingAgreesWithIssuer(cfg: Config, revoked: RevokedState, es: seq<Event>, id: Uuid, now: Instant)
    requires IsConfig(cfg) && IsRun(cfg, revoked, es) && id in After(cfg, revoked, es).issued
    ensures var w := After(cfg, revoked, es);
            var c := TrueChain(w, id);
            && c != []
            && var status := StatusOf(w.shared.lineage, w.revoked, Last(c));
               && (Verify.StandingVerdict(cfg.kernelKey, Last(c), status, now) == Verify.Valid
                   <==> Passes(cfg, w, id, now) && IsReadable(Last(c)))
               && (|c| > 1 ==> IsReadable(Last(c)))
  {
    hide IsReadable, OfIssuer, Verify.StandingVerdict, IsTrueChain, VerifiesVaid;
    RunIsSound(cfg, revoked, es);
    var w := After(cfg, revoked, es);
    var c := w.issued[id];
    assert IsGoodChain(cfg, w.issued, w.recorded, c);
    assert OfIssuer(cfg, c[|c| - 1]);
    StandingOfIssued(cfg, w, Last(c), now);
    if |c| > 1 {
      DelegatedIsReadable(c);
    }
  }

  // ------------------------------------------------------------------
  // Revocation is permanent
  // ------------------------------------------------------------------

  lemma {:induction false} RevokedStaysRevoked(cfg: Config, revoked: RevokedState, es: seq<Event>, n: nat, x: Uuid)
    requires IsRun(cfg, revoked, es) && n <= |es|
    ensures IsRun(cfg, revoked, es[..n])
    ensures NeverRestarts(es, n) && IsRevoked(After(cfg, revoked, es[..n]).revoked, x)
        ==> IsRevoked(After(cfg, revoked, es).revoked, x)
    decreases |es|
  {
    if n == |es| {
      assert es[..n] == es;
    } else {
      var before := es[..|es| - 1];
      RevokedStaysRevoked(cfg, revoked, before, n, x);
      assert before[..n] == es[..n];
      assert NeverRestarts(es, n) ==> NeverRestarts(before, n) && !es[|es| - 1].Restart?;
    }
  }

  // ------------------------------------------------------------------
  // Checks with others in between
  // ------------------------------------------------------------------

  lemma NextExtends(cfg: Config, w: World, e: Event)
    requires IsPossible(w, e)
    ensures Extends(w, Next(cfg, w, e))
  {
    hide StampedExpiry, ProvesPossession, Checked, AuditOf, HonoursCeiling, Changed;
  }

  lemma {:induction false} RunExtends(cfg: Config, revoked: RevokedState, es: seq<Event>, n: nat)
    requires IsRun(cfg, revoked, es) && n <= |es|
    ensures IsRun(cfg, revoked, es[..n])
    ensures Extends(After(cfg, revoked, es[..n]), After(cfg, revoked, es))
    decreases |es|
  {
    hide Next;
    if n == |es| {
      assert es[..n] == es;
    } else {
      var before := es[..|es| - 1];
      RunExtends(cfg, revoked, before, n);
      assert before[..n] == es[..n];
      NextExtends(cfg, After(cfg, revoked, before), Last(es));
    }
  }

  /** The lineage store, and the revocation store, after the first n events. */
  function LineageAt(cfg: Config, revoked: RevokedState, es: seq<Event>, n: nat): LineageMap {
    if n <= |es| && IsRun(cfg, revoked, es[..n]) then After(cfg, revoked, es[..n]).shared.lineage else map[]
  }

  function RevokedAt(cfg: Config, revoked: RevokedState, es: seq<Event>, n: nat): RevokedState {
    if n <= |es| && IsRun(cfg, revoked, es[..n]) then After(cfg, revoked, es[..n]).revoked else None
  }

  /** A check whose i-th lookup happens after `at(i)` events. */
  function LookupsAt(cfg: Config, revoked: RevokedState, es: seq<Event>, at: nat -> nat): Lookups {
    (i: nat) => LineageAt(cfg, revoked, es, at(i))
  }

  /** Whenever it is looked at, the store says nothing but the truth. */
  lemma LineageAtIsTrue(cfg: Config, revoked: RevokedState, es: seq<Event>, n: nat)
    requires IsConfig(cfg) && IsRun(cfg, revoked, es)
    ensures IsPartialView(MapResolver(LineageAt(cfg, revoked, es, n)), TrueParents(After(cfg, revoked, es).issued))
  {
    hide IsRun, After, ChainsAreGood, CallsAreSound;
    if n <= |es| {
      RunExtends(cfg, revoked, es, n);
      RunIsSound(cfg, revoked, es[..n]);
      LineageIsPartialView(After(cfg, revoked, es[..n]));
    }
  }

  /** The i-th ancestor, counted up from the leaf's parent, was known when it was looked up. */
  predicate IsSeen(stores: Lookups, c: seq<Vaid>, i: nat)
    requires i + 1 < |c|
  {
    c[|c| - 2 - i].Id() in stores(i)
  }

  predicate AncestorsSeen(stores: Lookups, c: seq<Vaid>, from: nat) {
    forall i | from <= i < |c| - 1 :: IsSeen(stores, c, i)
  }

  lemma SeenTruly(stores: Lookups, issued: map<Uuid, seq<Vaid>>, c: seq<Vaid>, i: nat)
    requires IsTrueChain(issued, c) && i + 1 < |c|
    requires IsPartialView(MapResolver(stores(i)), TrueParents(issued))
    ensures var answer := Resolve(stores(i), c[|c| - 2 - i].Id());
            if IsSeen(stores, c, i) then Agrees(answer, Above(Ids(c), |c| - 2 - i)) else answer == Unknown
  {
    var k := |c| - 2 - i;
    assert LinksUp(c, k) && PrefixIssued(issued, c, k);
    assert MapResolver(stores(i))(c[k].Id()) == Unknown
        || MapResolver(stores(i))(c[k].Id()) == TruthAbout(issued, c[k].Id());
  }

  /** From the n-th id on, a walk through changing stores finds the truth or gives up. */
  lemma {:induction false} WalkAcrossIsTheTruth(stores: Lookups, issued: map<Uuid, seq<Vaid>>, c: seq<Vaid>, n: nat)
    requires IsTrueChain(issued, c) && IsLinkedChain(c) && 0 < n <= |c|
    requires forall i | 0 <= i :: IsPartialView(MapResolver(stores(i)), TrueParents(issued))
    ensures WalkAcross(LastReversed(Ids(c), n), Above(Ids(c), |c| - n), stores)
            == if AncestorsSeen(stores, c, n - 1) && (n == |c| || |c| <= MAX_LINEAGE_DEPTH) then Complete(Ids(c))
               else Incomplete
    decreases |c| - n
  {
    hide IsTrueChain, IsPartialView, IsSeen;
    var ids := Ids(c);
    var chain := LastReversed(ids, n);
    if n == |c| {
      assert Reversed(chain) == ids;
    } else {
      var k := |c| - n - 1;
      assert ids[k] !in chain by {
        forall i | 0 <= i < n ensures chain[i] != ids[k] {
          assert chain[i] == c[|c| - 1 - i].Id() && ids[k] == c[k].Id();
        }
      }
      SeenTruly(stores, issued, c, n - 1);
      LastReversedStep(ids, n);
      assert AncestorsSeen(stores, c, n - 1) <==> IsSeen(stores, c, n - 1) && AncestorsSeen(stores, c, n);
      if IsSeen(stores, c, n - 1) && n < MAX_LINEAGE_DEPTH {
        WalkAcrossIsTheTruth(stores, issued, c, n + 1);
      }
    }
  }

  lemma AssemblyAcrossIsTheTruth(stores: Lookups, issued: map<Uuid, seq<Vaid>>, c: seq<Vaid>)
    requires IsTrueChain(issued, c) && c != []
    requires forall i | 0 <= i :: IsPartialView(MapResolver(stores(i)), TrueParents(issued))
    ensures WalkAcross([Last(c).Id()], Last(c).Parent(), stores)
            == if AncestorsSeen(stores, c, 0) && |c| <= MAX_LINEAGE_DEPTH then Complete(Ids(c)) else Incomplete
  {
    TrueChainIsLinked(issued, c);
    LastReversedOne(Ids(c));
    assert LinksUp(c, |c| - 1);
    WalkAcrossIsTheTruth(stores, issued, c, 1);
  }

  /**
   However a check interleaves with mints, revocations, losses and restarts: its status
   is decided by which ancestors were known each when it was looked up, and by the
   revocation store when it was asked.
   */
  lemma StatusIsExact(cfg: Config, revoked: RevokedState, es: seq<Event>, id: Uuid, at: nat -> nat, last: nat)
    requires IsConfig(cfg) && IsRun(cfg, revoked, es) && id in After(cfg, revoked, es).issued
    ensures var stores, asked := LookupsAt(cfg, revoked, es, at), RevokedAt(cfg, revoked, es, last);
            var c := TrueChain(After(cfg, revoked, es), id);
            && c != []
            && StatusAcross(stores, asked, Last(c))
               == if !AncestorsSeen(stores, c, 0) || |c| > MAX_LINEAGE_DEPTH || asked.None? then Unavailable
                  else if IsVouchedFor(asked, c) then NotRevoked
                  else Revoked
  {
    hide IsTrueChain, IsContainedChain, AllOfIssuer, CallsAreSound, IsRun, After, LineageAt, RevokedAt, WalkAcross;
    var w, stores := After(cfg, revoked, es), LookupsAt(cfg, revoked, es, at);
    RunIsSound(cfg, revoked, es);
    var c := w.issued[id];
    assert IsGoodChain(cfg, w.issued, w.recorded, c);
    forall i | 0 <= i ensures IsPartialView(MapResolver(stores(i)), TrueParents(w.issued)) {
      LineageAtIsTrue(cfg, revoked, es, at(i));
    }
    AssemblyAcrossIsTheTruth(stores, w.issued, c);
    CheckedIsVouchedFor(RevokedAt(cfg, revoked, es, last), c);
  }

  /** An issued document passes such a check exactly when it has not expired and that status is clean. */
  lemma VerificationIsExact(
    cfg: Config, revoked: RevokedState, es: seq<Event>, id: Uuid, at: nat -> nat, last: nat, now: Instant)
    requires IsConfig(cfg) && IsRun(cfg, revoked, es) && id in After(cfg, revoked, es).issued
    ensures var stores, asked := LookupsAt(cfg, revoked, es, at), RevokedAt(cfg, revoked, es, last);
            var c := TrueChain(After(cfg, revoked, es), id);
            && c != []
            && (VerifiesAcross(cfg.kernelKey, stores, asked, Last(c), now)
                <==> && !Last(c).IsExpiredAt(now)
                     && AncestorsSeen(stores, c, 0) && |c| <= MAX_LINEAGE_DEPTH
                     && IsVouchedFor(asked, c))
  {
    hide IsTrueChain, IsContainedChain, CallsAreSound, IsRun, After, LookupsAt, RevokedAt, StatusAcross, AncestorsSeen;
    RunIsSound(cfg, revoked, es);
    var w := After(cfg, revoked, es);
    var c := w.issued[id];
    assert IsGoodChain(cfg, w.issued, w.recorded, c) && OfIssuer(cfg, c[|c| - 1]);
    StatusIsExact(cfg, revoked, es, id, at, last);
  }

  /**
   Once `x` has been revoked, and while the process lives, no issued document with `x`
   in its true ancestry, even one minted later, passes a check that asks the revocation
   store afterwards: whenever the lookups before were made, whatever lineage is lost or
   revoked in between, and at no instant.
   */
  lemma RevocationIsPermanent(
    cfg: Config, revoked: RevokedState, es: seq<Event>, n: nat, x: Uuid, id: Uuid, at: nat -> nat, last: nat,
    now: Instant)
    requires IsConfig(cfg) && IsRun(cfg, revoked, es) && n <= last <= |es| && NeverRestarts(es[..last], n)
    requires IsRevoked(RevokedAt(cfg, revoked, es, n), x)
    requires id in After(cfg, revoked, es).issued && x in Ids(TrueChain(After(cfg, revoked, es), id))
    ensures var c := TrueChain(After(cfg, revoked, es), id);
            var stores, asked := LookupsAt(cfg, revoked, es, at), RevokedAt(cfg, revoked, es, last);
            c != [] && !VerifiesAcross(cfg.kernelKey, stores, asked, Last(c), now)
  {
    var w := After(cfg, revoked, es);
    hide IsRun, After, VerifiesAcross, LookupsAt;
    RunExtends(cfg, revoked, es, last);
    assert es[..last][..n] == es[..n];
    RevokedStaysRevoked(cfg, revoked, es[..last], n, x);
    VerificationIsExact(cfg, revoked, es, id, at, last, now);
    var k :| 0 <= k < |w.issued[id]| && Ids(w.issued[id])[k] == x;
    assert w.issued[id][k].Id() == x;
  }
}
