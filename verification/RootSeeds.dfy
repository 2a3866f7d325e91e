/** A root mint forwards the parent its seed names, unchecked: when what it issues still verifies. */
module RootSeeds {
  import opened Wrappers
  import opened Wire
  import opened ScopeRules
  import opened Document
  import opened IssuerIdentity
  import opened Revocation
  import opened Attestation
  import opened Mint
  import opened Interleaving
  import opened ChainTheorems
  import opened MintRuns
  import opened Service
  import opened SoloRuns
  import Chain

  /** The document a root mint issues for a seed: its TTL is the issuer's alone. */
  function RootDocument(cfg: Config, id: Uuid, seed: Seed, key: Octets, issuedAt: Instant): Vaid {
    IssuedVaid(cfg, id, seed, key, issuedAt, StampedExpiry(cfg, issuedAt, None).value)
  }

  lemma RootDocumentIsOfIssuer(cfg: Config, id: Uuid, seed: Seed, key: Octets, issuedAt: Instant)
    requires IsConfig(cfg)
    ensures OfIssuer(cfg, RootDocument(cfg, id, seed, key, issuedAt))
  {
    IssuedIsAuthentic(cfg, id, seed, key, issuedAt, StampedExpiry(cfg, issuedAt, None).value);
  }

  lemma RootDocumentCarriesItsSeed(cfg: Config, id: Uuid, seed: Seed, key: Octets, issuedAt: Instant)
    ensures var v := RootDocument(cfg, id, seed, key, issuedAt);
            && v.Id() == id && v.Parent() == seed.parentVaid
            && v.thumbprint == ThumbprintOf(cfg.kernelKey) && v.trustDomain == cfg.trustDomain
            && v.tenantId == seed.tenantId && v.scopeBoundary == seed.scopeBoundary
                && v.capabilitySet == seed.capabilitySet
            && v.Expiry() == Some(WholeSecond(issuedAt) + cfg.ttlHours * HOUR)
  {
  }

  /** Presented alone, a root mint's document verifies exactly when its seed named no parent. */
  lemma RootVerifiesAlone(
    cfg: Config, id: Uuid, seed: Seed, key: Octets, issuedAt: Instant, attestations: AttestationBundle, now: Instant)
    requires IsConfig(cfg)
    ensures VerdictOn(cfg.kernelKey, [RootDocument(cfg, id, seed, key, issuedAt)], attestations, now)
            == if seed.parentVaid == None then Chain.Attenuated else Chain.Unverifiable
  {
    var v := RootDocument(cfg, id, seed, key, issuedAt);
    RootDocumentIsOfIssuer(cfg, id, seed, key, issuedAt);
    assert [v][..0] == [];
    ChainIsAuthentic(cfg, [v]);
    if seed.parentVaid == None {
      assert LinksUp([v], 0);
      LinkedChainIsPresented([v]);
    } else {
      var bundle := Chain.PresentedBundle([]);
      assert Chain.BundleParent(bundle, seed.parentVaid.value) == Unknown;
    }
  }

  /** What a root mint would have had to check of the parent its seed names. */
  predicate MayDescendFrom(cfg: Config, parent: Vaid, seed: Seed, issuedAt: Instant) {
    && seed.tenantId == parent.tenantId
    && ScopeAttenuates(parent.scopeBoundary, seed.scopeBoundary)
    && CapsAttenuate(parent.capabilitySet, seed.capabilitySet)
    && parent.Expiry().Some? && WholeSecond(issuedAt) + cfg.ttlHours * HOUR <= parent.Expiry().value
  }

  lemma {:induction false} OneKindOfFault(findings: seq<Chain.Finding>, fault: Chain.ChainVerification)
    requires forall k | 0 <= k < |findings| :: findings[k].otherwise == fault
    ensures Chain.FirstFault(findings)
            == if forall k | 0 <= k < |findings| :: findings[k].holds then Chain.Attenuated else fault
  {
    if findings != [] {
      OneKindOfFault(findings[1..], fault);
      assert findings == [findings[0]] + findings[1..];
    }
  }

  lemma RootHopVerdict(
    cfg: Config, id: Uuid, seed: Seed, key: Octets, issuedAt: Instant, parent: Vaid,
    attestations: AttestationBundle, now: Instant)
    requires IsConfig(cfg) && OfIssuer(cfg, parent)
    ensures var v := RootDocument(cfg, id, seed, key, issuedAt);
            Chain.HopVerdict(Chain.SingleKernelKey(cfg.kernelKey), attestations, now, parent, v)
            == if MayDescendFrom(cfg, parent, seed, issuedAt) then Chain.Attenuated else Chain.NotAttenuated
  {
    var keys, v := Chain.SingleKernelKey(cfg.kernelKey), RootDocument(cfg, id, seed, key, issuedAt);
    hide OfIssuer, RootDocument, ScopeAttenuates, CapsAttenuate;
    RootDocumentCarriesItsSeed(cfg, id, seed, key, issuedAt);
    IssuerIsNamed(cfg, parent);
    var findings := Chain.HopFindings(keys, attestations, now, parent, v);
    assert |findings| == 4;
    assert MayDescendFrom(cfg, parent, seed, issuedAt)
           <==> findings[0].holds && findings[1].holds && findings[2].holds && findings[3].holds;
    OneKindOfFault(findings, Chain.NotAttenuated);
  }

  /**
   Presented below the document it names, at any depth: unverifiable if that is 1024
   documents deep, expired if it has lapsed, and otherwise attenuated exactly when the
   seed would have passed as a delegation of it that was not clamped.
   */
  lemma RootNamingAParent(
    cfg: Config, c: seq<Vaid>, id: Uuid, seed: Seed, key: Octets, issuedAt: Instant,
    attestations: AttestationBundle, now: Instant)
    requires IsConfig(cfg) && IsLinkedChain(c) && AllOfIssuer(cfg, c) && IsContainedChain(c)
    requires seed.parentVaid == Some(Last(c).Id()) && forall k | 0 <= k < |c| :: c[k].Id() != id
    ensures VerdictOn(cfg.kernelKey, c + [RootDocument(cfg, id, seed, key, issuedAt)], attestations, now)
            == if |c| >= MAX_LINEAGE_DEPTH then Chain.Unverifiable
               else if Last(c).IsExpiredAt(now) then Chain.Expired
               else if MayDescendFrom(cfg, Last(c), seed, issuedAt) then Chain.Attenuated
               else Chain.NotAttenuated
  {
    hide MayDescendFrom, OfIssuer, RootDocument, IsContainedChain, NeverCrossesKeys, Chain.Authentic, VerdictUnder;
    var v := RootDocument(cfg, id, seed, key, issuedAt);
    RootDocumentIsOfIssuer(cfg, id, seed, key, issuedAt);
    RootDocumentCarriesItsSeed(cfg, id, seed, key, issuedAt);
    IssuerIsTrusted(cfg, c);
    OfIssuerIsAuthentic(cfg, v);
    OneIssuerNeverCrossesKeys(cfg, c);
    ExtendedChainVerdict(Chain.SingleKernelKey(cfg.kernelKey), c, v, attestations, now);
    assert OfIssuer(cfg, c[|c| - 1]);
    RootHopVerdict(cfg, id, seed, key, issuedAt, Last(c), attestations, now);
  }

  /** So it is for every document a run has issued: a later root mint may name it. */
  lemma RootNamingAnIssued(
    cfg: Config, revoked: RevokedState, es: seq<Event>, parent: Uuid, id: Uuid, seed: Seed, key: Octets,
    issuedAt: Instant, attestations: AttestationBundle, now: Instant)
    requires IsConfig(cfg) && IsRun(cfg, revoked, es)
    requires parent in After(cfg, revoked, es).issued && id !in After(cfg, revoked, es).issued
    requires seed.parentVaid == Some(parent)
    ensures var c := TrueChain(After(cfg, revoked, es), parent);
            && c != []
            && VerdictOn(cfg.kernelKey, c + [RootDocument(cfg, id, seed, key, issuedAt)], attestations, now)
               == if |c| >= MAX_LINEAGE_DEPTH then Chain.Unverifiable
                  else if Last(c).IsExpiredAt(now) then Chain.Expired
                  else if MayDescendFrom(cfg, Last(c), seed, issuedAt) then Chain.Attenuated
                  else Chain.NotAttenuated
  {
    hide IsRun, After, MayDescendFrom, OfIssuer, RootDocument, VerdictOn, IsContainedChain, CallsAreSound;
    hide LineageIsTrue;
    RunIsSound(cfg, revoked, es);
    var w := After(cfg, revoked, es);
    var c := w.issued[parent];
    assert IsGoodChain(cfg, w.issued, w.recorded, c);
    TrueChainIsLinked(w.issued, c);
    forall k | 0 <= k < |c| ensures c[k].Id() != id {
      assert PrefixIssued(w.issued, c, k);
    }
    RootNamingAParent(cfg, c, id, seed, key, issuedAt, attestations, now);
  }

  /**
   A root mint may name a parent and claim what that parent never held: the mint returns it, no
   verifier attenuates it.
   */
  lemma RootMayOverreach() returns (parent: Vaid, seed: Seed)
    ensures IsConfig(DEEP) && OfIssuer(DEEP, parent) && parent.Parent() == None && !parent.IsExpiredAt(0)
    ensures var env := DeepEnv(0);
            var (_, phase) := Finish(DEEP, Shared({}, map[], []), BeginRoot(MintRequest(seed, None), env), env);
            && phase.Returned? && phase.vaid.Parent() == Some(parent.Id())
            && forall attestations :: VerdictOn(DEEP.kernelKey, [parent, phase.vaid], attestations, 0)
                == Chain.NotAttenuated
  {
    var narrow := Seed("agent", "1", "tenant", None, [ScopeEntry(SCOPE_KIND_PREFIX, Str("data"))], [], None);
    DeepConfigIsOne();
    parent := RootDocument(DEEP, "p", narrow, Raw("k"), 0);
    RootDocumentIsOfIssuer(DEEP, "p", narrow, Raw("k"), 0);
    seed := Seed("agent", "1", "tenant", Some("p"), [], [], None);
    hide OfIssuer, RootDocument, VerdictOn, Finish, ScopeAttenuates;
    RootDocumentCarriesItsSeed(DEEP, "p", narrow, Raw("k"), 0);
    assert |Name(0)| != |"p"|;
    WiderThanData(parent, seed);
    RootMintIsRootDocument(DEEP, seed, DeepEnv(0));
    RootDocumentCarriesItsSeed(DEEP, Name(0), seed, Raw(""), 0);
    forall attestations
      ensures VerdictOn(DEEP.kernelKey, [parent, RootDocument(DEEP, Name(0), seed, Raw(""), 0)], attestations, 0)
              == Chain.NotAttenuated
    {
      assert LinksUp([parent], 0);
      assert [parent] + [RootDocument(DEEP, Name(0), seed, Raw(""), 0)]
          == [parent, RootDocument(DEEP, Name(0), seed, Raw(""), 0)];
      RootNamingAParent(DEEP, [parent], Name(0), seed, Raw(""), 0, attestations, 0);
    }
  }

  lemma WiderThanData(parent: Vaid, seed: Seed)
    requires |parent.scopeBoundary| == 1 && seed.scopeBoundary == []
    ensures !ScopeAttenuates(parent.scopeBoundary, seed.scopeBoundary)
  {
  }

  /** A permitted root mint of a seed without a key returns exactly that document. */
  lemma RootMintIsRootDocument(cfg: Config, seed: Seed, env: Env)
    requires env.permitted && env.lineageWrites && env.auditWrites && seed.publicKeyDer == None
    ensures var (_, phase) := Finish(cfg, Shared({}, map[], []), BeginRoot(MintRequest(seed, None), env), env);
            && phase.Returned?
            && phase.vaid == RootDocument(cfg, env.freshId, seed, env.generatedKey, env.issuedAt)
  {
    hide Finish, IssuedVaid, AuditOf;
    IssuingFinishes(cfg, Shared({}, map[], []), seed, env.generatedKey, None, None, env);
  }
}
