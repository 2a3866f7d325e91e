/** What holds after every run: any interleaving of mint calls, revocations, lineage loss and restarts. */
module MintRuns {
  import opened Wrappers
  import opened Wire
  import opened ScopeRules
  import opened Document
  import opened IssuerIdentity
  import opened Revocation
  import opened Attestation
  import opened Mint
  import opened Interleaving
  import opened Accounts
  import opened Issuer
  import opened ChainTheorems
  import Chain
  import Verify

  // ------------------------------------------------------------------
  // Runs
  // ------------------------------------------------------------------

  /** Events, oldest first, each of them possible where it happens. */
  predicate IsRun(cfg: Config, revoked: RevokedState, es: seq<Event>)
    decreases |es|, 0
  {
    es != [] ==>
      && IsRun(cfg, revoked, es[..|es| - 1])
      && IsPossible(After(cfg, revoked, es[..|es| - 1]), Last(es))
  }

  function After(cfg: Config, revoked: RevokedState, es: seq<Event>): World
    requires IsRun(cfg, revoked, es)
    decreases |es|, 1
  {
    if es == [] then Start(revoked) else Next(cfg, After(cfg, revoked, es[..|es| - 1]), Last(es))
  }

  lemma {:induction false} RunIsSound(cfg: Config, revoked: RevokedState, es: seq<Event>)
    requires IsConfig(cfg) && IsRun(cfg, revoked, es)
    ensures IsSound(cfg, After(cfg, revoked, es))
  {
    hide IsSound, Next, IsPossible;
    if es == [] {
      StartIsSound(cfg, revoked);
    } else {
      RunIsSound(cfg, revoked, es[..|es| - 1]);
      NextIsSound(cfg, After(cfg, revoked, es[..|es| - 1]), Last(es));
    }
  }

  predicate Forgets(e: Event) {
    e.LoseLineage? || e.Restart?
  }

  predicate NeverLosesLineage(es: seq<Event>) {
    forall k | 0 <= k < |es| :: !Forgets(es[k])
  }

  /** From the n-th event on, one process. */
  predicate NeverRestarts(es: seq<Event>, n: nat) {
    forall k | n <= k < |es| :: !es[k].Restart?
  }

  lemma {:induction false} RunIsBounded(cfg: Config, revoked: RevokedState, es: seq<Event>)
    requires IsRun(cfg, revoked, es)
    ensures WritesAreBounded(After(cfg, revoked, es))
  {
    hide WritesAreBounded, Next, IsPossible;
    if es == [] {
      StartIsAccounted(revoked);
    } else {
      RunIsBounded(cfg, revoked, es[..|es| - 1]);
      NextIsBounded(cfg, After(cfg, revoked, es[..|es| - 1]), Last(es));
    }
  }

  lemma {:induction false} RunIsAccounted(cfg: Config, revoked: RevokedState, es: seq<Event>)
    requires IsRun(cfg, revoked, es)
    ensures IsAccounted(After(cfg, revoked, es))
  {
    hide IsAccounted, Next, IsPossible;
    if es == [] {
      StartIsAccounted(revoked);
    } else {
      RunIsAccounted(cfg, revoked, es[..|es| - 1]);
      NextIsAccounted(cfg, After(cfg, revoked, es[..|es| - 1]), Last(es));
    }
  }

  // ------------------------------------------------------------------
  // Nonces, refusals, records
  // ------------------------------------------------------------------

  /** No nonce backs two successful mints of one process. */
  lemma NonceBacksOneMint(cfg: Config, revoked: RevokedState, es: seq<Event>, a: nat, b: nat)
    requires IsRun(cfg, revoked, es)
    requires var w := After(cfg, revoked, es);
             var calls := w.calls;
             && IsCurrent(w, a) && IsCurrent(w, b) && calls[a].Returned? && calls[b].Returned?
             && calls[a].pop.Some? && calls[b].pop.Some?
             && calls[a].pop.value.nonce == calls[b].pop.value.nonce
    ensures a == b
  {
    hide IsRun, After, AuditIsExact;
    RunIsAccounted(cfg, revoked, es);
  }

  /** A refusal raised before the proof is spent has changed no store; the late refusals of this issuer never come. */
  lemma RefusalsLeaveNoTrace(cfg: Config, revoked: RevokedState, es: seq<Event>, call: nat)
    requires IsConfig(cfg) && IsRun(cfg, revoked, es)
    requires call in After(cfg, revoked, es).calls && After(cfg, revoked, es).calls[call].Refused?
    ensures var w := After(cfg, revoked, es);
            var error := w.calls[call].error;
            && call in w.wrote
            && error != Unauthorized(CeilingUnreadable) && error != Unauthorized(IssuerIgnoredCeiling)
            && (error.Unauthorized? ==> w.wrote[call] == {})
            && (error.Identity? && error.fault != BadSignature ==> w.wrote[call] == {})
            && (error == Identity(BadSignature) || error == LineageWriteFailed ==> w.wrote[call] <= {Nonces})
            && (error == AuditWriteFailed ==> w.wrote[call] <= {Nonces, Lineage})
  {
    hide IsRun, After, AuditIsExact, NoncesAreSingleUse, ChainsAreGood, LineageIsTrue;
    RunIsSound(cfg, revoked, es);
    RunIsBounded(cfg, revoked, es);
    var w := After(cfg, revoked, es);
    assert CallIsSound(cfg, w, w.calls[call]);
  }

  /**
   A returned document is recorded; in the process that returned it, one audit entry is this
   mint's and nobody else's.
   */
  lemma ReturnedIsRecordedAndAudited(cfg: Config, revoked: RevokedState, es: seq<Event>, call: nat)
    requires IsConfig(cfg) && IsRun(cfg, revoked, es)
    requires call in After(cfg, revoked, es).calls && After(cfg, revoked, es).calls[call].Returned?
    ensures var w := After(cfg, revoked, es);
            var mint := w.calls[call];
            && mint.vaid.Id() in w.recorded
            && (IsCurrent(w, call) ==>
                  && mint.entry < |w.shared.audit|
                  && w.shared.audit[mint.entry] == AuditOf(mint.seed, mint.vaid, mint.parent)
                  && forall other | OwnsEntry(w, other, mint.entry) :: other == call)
  {
    hide IsRun, After, NoncesAreSingleUse, ChainsAreGood, LineageIsTrue, IsMinted, AuditOf;
    RunIsSound(cfg, revoked, es);
    var w := After(cfg, revoked, es);
    assert CallIsSound(cfg, w, w.calls[call]);
    if IsCurrent(w, call) {
      RunIsAccounted(cfg, revoked, es);
      assert EntryIsOwn(w, call);
    }
  }

  /** And there every audit entry belongs to a mint that returned its document. */
  lemma EveryEntryIsAMint(cfg: Config, revoked: RevokedState, es: seq<Event>, n: nat) returns (call: nat)
    requires IsRun(cfg, revoked, es) && n < |After(cfg, revoked, es).shared.audit|
    ensures OwnsEntry(After(cfg, revoked, es), call, n)
  {
    RunIsAccounted(cfg, revoked, es);
    var w := After(cfg, revoked, es);
    assert IsOwned(w, n);
    call :| OwnsEntry(w, call, n);
  }

  // ------------------------------------------------------------------
  // Chains of issued documents
  // ------------------------------------------------------------------

  /** The documents from a root down to the one issued under `id`. */
  function TrueChain(w: World, id: Uuid): seq<Vaid>
    requires id in w.issued
  {
    w.issued[id]
  }

  /** Linked parent to child from a document naming none, with no id twice. */
  predicate IsLinkedChain(c: seq<Vaid>) {
    && c != []
    && (forall k {:trigger LinksUp(c, k)} | 0 <= k < |c| :: LinksUp(c, k))
    && forall i, j | 0 <= i < j < |c| :: c[i].Id() != c[j].Id()
  }

  lemma TrueChainIsLinked(issued: map<Uuid, seq<Vaid>>, c: seq<Vaid>)
    requires c != [] && IsTrueChain(issued, c)
    ensures IsLinkedChain(c)
  {
    forall i, j | 0 <= i < j < |c| ensures c[i].Id() != c[j].Id() {
      assert PrefixIssued(issued, c, i) && PrefixIssued(issued, c, j);
      assert |c[..i + 1]| != |c[..j + 1]|;
    }
  }

  /**
   However much lineage was lost and when: every document issued has true depth
   within the limit, and holds no more than any document above it.
   */
  lemma DepthAndAuthorityAreSafe(cfg: Config, revoked: RevokedState, es: seq<Event>, id: Uuid)
    requires IsConfig(cfg) && IsRun(cfg, revoked, es) && id in After(cfg, revoked, es).issued
    ensures var c := TrueChain(After(cfg, revoked, es), id);
            && IsLinkedChain(c) && Last(c).Id() == id
            && |c| - 1 <= cfg.maxDelegationDepth
            && forall i, j | 0 <= i < j < |c| :: Holds(c[i], c[j])
  {
    RunIsSound(cfg, revoked, es);
    var w := After(cfg, revoked, es);
    var c := w.issued[id];
    assert IsGoodChain(cfg, w.issued, w.recorded, c);
    TrueChainIsLinked(w.issued, c);
    forall i, j | 0 <= i < j < |c| ensures Holds(c[i], c[j]) {
      ContainmentComposes(c, i, j);
    }
  }

  /** Whatever the resolver answers, a limit of one mints only from a parent that names no parent. */
  lemma LimitOneNeedsARoot(cfg: Config, seed: Seed, parent: Vaid, now: Instant, resolver: Resolver)
    requires cfg.maxDelegationDepth == 1
    requires ChildDenial(cfg, Assembled(parent.Id(), parent.Parent(), resolver), seed, parent, now) == None
    ensures parent.Parent() == None
  {
    var assembly := Assembled(parent.Id(), parent.Parent(), resolver);
    AssemblyIsExact(assembly.ids, parent.Id(), parent.Parent(), resolver);
  }

  // ------------------------------------------------------------------
  // Mint and verifier agree
  // ------------------------------------------------------------------

  lemma OfIssuerIsAuthentic(cfg: Config, v: Vaid)
    requires OfIssuer(cfg, v)
    ensures Chain.Authentic(Chain.SingleKernelKey(cfg.kernelKey), v)
  {
  }

  predicate AllAuthenticIn(keys: Chain.KeyResolver, c: seq<Vaid>) {
    forall k | 0 <= k < |c| :: Chain.Authentic(keys, c[k])
  }

  lemma PresentedAreAuthentic(keys: Chain.KeyResolver, c: seq<Vaid>)
    requires c != [] && AllAuthenticIn(keys, c)
    ensures Chain.AllAuthentic(keys, Last(c), Chain.PresentedBundle(c[..|c| - 1]))
  {
    hide Chain.Authentic;
    var above := c[..|c| - 1];
    var bundle := Chain.PresentedBundle(above);
    forall id | id in bundle ensures Chain.Authentic(keys, bundle[id]) {
      assert bundle[id] in bundle.Values && bundle[id] in above;
      var k :| 0 <= k < |above| && above[k] == bundle[id];
      assert Chain.Authentic(keys, c[k]);
    }
  }

  lemma IssuerIsTrusted(cfg: Config, c: seq<Vaid>)
    requires AllOfIssuer(cfg, c)
    ensures AllAuthenticIn(Chain.SingleKernelKey(cfg.kernelKey), c)
  {
    hide OfIssuer, Chain.Authentic;
    forall k | 0 <= k < |c| ensures Chain.Authentic(Chain.SingleKernelKey(cfg.kernelKey), c[k]) {
      OfIssuerIsAuthentic(cfg, c[k]);
    }
  }

  lemma ChainIsAuthentic(cfg: Config, c: seq<Vaid>)
    requires c != [] && AllOfIssuer(cfg, c)
    ensures Chain.AllAuthentic(Chain.SingleKernelKey(cfg.kernelKey), Last(c), Chain.PresentedBundle(c[..|c| - 1]))
  {
    IssuerIsTrusted(cfg, c);
    PresentedAreAuthentic(Chain.SingleKernelKey(cfg.kernelKey), c);
  }

  /** Presented with its ancestors, a chain is assembled whole, unless it is longer than any assembly may be. */
  lemma LinkedChainIsPresented(c: seq<Vaid>)
    requires IsLinkedChain(c)
    ensures Chain.PresentedChain(Last(c), Chain.PresentedBundle(c[..|c| - 1]))
            == if |c| <= MAX_LINEAGE_DEPTH then Some(c) else None
  {
    var leaf, above := Last(c), c[..|c| - 1];
    var bundle := Chain.PresentedBundle(above);
    forall k | 0 <= k < |c| - 1 ensures IsPresented(bundle, c[k]) {
      PresentedBundleLookup(above, k);
    }
    if |c| <= MAX_LINEAGE_DEPTH {
      PresentedChainIsExact(leaf, bundle, c);
    } else if Chain.PresentedChain(leaf, bundle).Some? {
      var docs := Chain.PresentedChain(leaf, bundle).value;
      PresentedChainIsExact(leaf, bundle, docs);
      PresentedIsLineage(leaf, bundle, docs);
      LinkedChainIsAncestry(c, bundle);
      AncestryIsUnique(Ids(c), Ids(docs), leaf.Id(), leaf.Parent(), Chain.BundleResolver(bundle));
    }
  }

  lemma LinkedChainIsAncestry(c: seq<Vaid>, bundle: Chain.Bundle)
    requires IsLinkedChain(c) && forall k | 0 <= k < |c| - 1 :: IsPresented(bundle, c[k])
    ensures IsAncestry(Ids(c), Last(c).Id(), Last(c).Parent(), Chain.BundleResolver(bundle))
  {
    var ids := Ids(c);
    assert LinksUp(c, |c| - 1);
    forall k {:trigger Above(ids, k)} | 0 <= k < |c| - 1
      ensures Agrees(Chain.BundleResolver(bundle)(ids[k]), Above(ids, k))
    {
      assert LinksUp(c, k) && IsPresented(bundle, c[k]);
    }
  }

  lemma OneIssuerNeverCrossesKeys(cfg: Config, c: seq<Vaid>)
    requires AllOfIssuer(cfg, c)
    ensures NeverCrossesKeys(c)
  {
    forall k | 0 <= k < |c| - 1 ensures !CrossesKeys(c, k) {
      assert OfIssuer(cfg, c[k]) && OfIssuer(cfg, c[k + 1]);
    }
  }

  lemma ContainedUnderOneKeyPasses(keys: Chain.KeyResolver, attestations: AttestationBundle, now: Instant, c: seq<Vaid>)
    requires IsContainedChain(c) && NeverCrossesKeys(c)
    ensures Chain.HopsVerdict(keys, attestations, now, c) == Chain.Attenuated
  {
    HopsPassWhen(keys, attestations, now, c);
    assert forall k | 0 <= k < |c| - 1 ::
        !CrossesKeys(c, k) && ConsentedAt(keys, attestations, c, k) && CurrentAt(attestations, c, k, now);
  }

  /** The verdict on the last of `c`, presented with the rest. */
  function VerdictUnder(
    keys: Chain.KeyResolver, c: seq<Vaid>, attestations: AttestationBundle, now: Instant): Chain.ChainVerification
    requires c != []
  {
    Chain.Verdict(keys, Last(c), Chain.PresentedBundle(c[..|c| - 1]), attestations, now)
  }

  function VerdictOn(key: Key, c: seq<Vaid>, attestations: AttestationBundle, now: Instant): Chain.ChainVerification
    requires c != []
  {
    VerdictUnder(Chain.SingleKernelKey(key), c, attestations, now)
  }

  lemma GoodChainVerdict(cfg: Config, w: World, c: seq<Vaid>, attestations: AttestationBundle, now: Instant)
    requires IsGoodChain(cfg, w.issued, w.recorded, c)
    ensures VerdictOn(cfg.kernelKey, c, attestations, now)
            == if |c| > MAX_LINEAGE_DEPTH then Chain.Unverifiable
               else if !AncestorsLive(c, now) then Chain.Expired
               else Chain.Attenuated
  {
    hide IsTrueChain, IsLinkedChain, OfIssuer, ContainedAt, Chain.AllAuthentic, Chain.PresentedChain, Chain.HopsVerdict;
    TrueChainIsLinked(w.issued, c);
    ChainIsAuthentic(cfg, c);
    LinkedChainIsPresented(c);
    OneIssuerNeverCrossesKeys(cfg, c);
    ContainedUnderOneKeyPasses(Chain.SingleKernelKey(cfg.kernelKey), attestations, now, c);
    LapsedMeans(c, now);
  }

  /**
   The mint and the verifier agree on every run. A document issued, presented with
   its true ancestors under the issuer's key and with whatever attestations, is
   attenuated at every instant no ancestor has lapsed and expired at every other;
   only a chain of more than 1024 documents cannot be verified.
   */
  lemma MintedChainVerdict(
    cfg: Config, revoked: RevokedState, es: seq<Event>, id: Uuid, attestations: AttestationBundle, now: Instant)
    requires IsConfig(cfg) && IsRun(cfg, revoked, es) && id in After(cfg, revoked, es).issued
    ensures var c := TrueChain(After(cfg, revoked, es), id);
            && c != []
            && VerdictOn(cfg.kernelKey, c, attestations, now)
               == (if |c| > MAX_LINEAGE_DEPTH then Chain.Unverifiable
                   else if !AncestorsLive(c, now) then Chain.Expired
                   else Chain.Attenuated)
            && (cfg.maxDelegationDepth < MAX_LINEAGE_DEPTH ==> |c| <= MAX_LINEAGE_DEPTH)
  {
    hide VerdictOn;
    RunIsSound(cfg, revoked, es);
    var w := After(cfg, revoked, es);
    assert IsGoodChain(cfg, w.issued, w.recorded, w.issued[id]);
    GoodChainVerdict(cfg, w, w.issued[id], attestations, now);
  }

  // ------------------------------------------------------------------
  // One document below a chain
  // ------------------------------------------------------------------

  /** `v` names the last of `c` as its parent and is none of them. */
  predicate IsBelow(c: seq<Vaid>, v: Vaid) {
    c != [] && v.Parent() == Some(Last(c).Id()) && forall k | 0 <= k < |c| :: c[k].Id() != v.Id()
  }

  lemma LinkedBelow(c: seq<Vaid>, v: Vaid)
    requires IsLinkedChain(c) && IsBelow(c, v)
    ensures IsLinkedChain(c + [v])
  {
    var longer := c + [v];
    forall k | 0 <= k < |longer| ensures LinksUp(longer, k) {
      assert k < |c| ==> LinksUp(c, k);
    }
  }

  /** Above `v` everything passes, so the hop to it decides. */
  lemma LastHopDecides(keys: Chain.KeyResolver, c: seq<Vaid>, v: Vaid, attestations: AttestationBundle, now: Instant)
    requires c != [] && IsContainedChain(c) && NeverCrossesKeys(c)
    ensures Chain.HopsVerdict(keys, attestations, now, c + [v])
            == Chain.HopVerdict(keys, attestations, now, Last(c), v)
  {
    hide Chain.HopVerdict, IsContained;
    var longer, n := c + [v], |c| - 1;
    forall k | 0 <= k < n ensures HopPasses(keys, attestations, now, longer, k) {
      assert ContainedAt(c, k) && !CrossesKeys(c, k);
      HopMeaning(keys, attestations, now, c[k], c[k + 1]);
    }
    if HopPasses(keys, attestations, now, longer, n) {
      AllHopsPass(keys, attestations, now, longer);
    } else {
      FirstFailingHop(keys, attestations, now, longer, n);
    }
  }

  lemma LapseAboveLast(c: seq<Vaid>, v: Vaid, now: Instant)
    requires c != [] && IsContainedChain(c)
    ensures Chain.AncestorLapsed(c + [v], now) <==> Last(c).IsExpiredAt(now)
  {
    assert (c + [v])[|c| - 1] == Last(c);
    if !Last(c).IsExpiredAt(now) {
      LifeOnlyShrinks(c, now);
    }
  }

  /** The verdict on a document below a sound chain under one key: too deep, a lapsed parent, or that of its own hop. */
  lemma ExtendedChainVerdict(
    keys: Chain.KeyResolver, c: seq<Vaid>, v: Vaid, attestations: AttestationBundle, now: Instant)
    requires IsLinkedChain(c) && IsBelow(c, v) && IsContainedChain(c) && NeverCrossesKeys(c)
    requires AllAuthenticIn(keys, c) && Chain.Authentic(keys, v)
    ensures VerdictUnder(keys, c + [v], attestations, now)
            == if |c| >= MAX_LINEAGE_DEPTH then Chain.Unverifiable
               else if Last(c).IsExpiredAt(now) then Chain.Expired
               else Chain.HopVerdict(keys, attestations, now, Last(c), v)
  {
    hide IsLinkedChain, IsContainedChain, NeverCrossesKeys, Chain.Authentic, Chain.AllAuthentic;
    hide Chain.PresentedChain, Chain.HopsVerdict, Chain.HopVerdict, Chain.AncestorLapsed;
    LinkedBelow(c, v);
    assert AllAuthenticIn(keys, c + [v]);
    PresentedAreAuthentic(keys, c + [v]);
    LinkedChainIsPresented(c + [v]);
    LapseAboveLast(c, v, now);
    LastHopDecides(keys, c, v, attestations, now);
  }
}
