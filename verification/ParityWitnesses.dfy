/**
 Presentations on which the Rust and the Python chain verifier part: one that conforms, and one
 for each way not to.
 */
module ParityWitnesses {
  import opened Wrappers
  import opened Wire
  import opened ScopeRules
  import opened Document
  import opened IssuerIdentity
  import opened Revocation
  import opened Attestation
  import opened PresentedConsents
  import opened Chain
  import opened ChainTheorems
  import opened PythonChain
  import opened Parity
  import Interleaving
  import Mint
  import RootSeeds
  import SoloRuns
  import Verify

  // ------------------------------------------------------------------
  // A parent and a child under two keys, and consent between them
  // ------------------------------------------------------------------

  const OTHER := SoloRuns.DEEP.(kernelKey := "other")

  function PlainSeed(parent: Option<Uuid>): Mint.Seed {
    Mint.Seed("agent", "1", "tenant", parent, [], [], None)
  }

  function PairParent(): Vaid {
    RootSeeds.RootDocument(SoloRuns.DEEP, "p", PlainSeed(None), Raw("k"), 0)
  }

  function PairChild(): Vaid {
    RootSeeds.RootDocument(OTHER, "c", PlainSeed(Some("p")), Raw("k"), 0)
  }

  function BothKeys(): KeyResolver {
    thumbprint =>
      if thumbprint == ThumbprintOf("kernel") then Some("kernel")
      else if thumbprint == ThumbprintOf("other") then Some("other")
      else None
  }

  /** Any parser for which the two ids are spelled canonically. */
  predicate KnowsPair(parse: UuidParser) {
    parse("p") == Some("p") && parse("c") == Some("c")
  }

  function Body(issuedAt: Timestamp, tenant: string, others: map<string, Json>): ConsentObject {
    ConsentObject(
      ATTESTATION_VERSION, "p", "c", "b.c", tenant, issuedAt, E6(10), [], [], "b.c", ThumbprintOf("kernel"), others)
  }

  function SignedConsent(body: ConsentObject): PresentedConsent {
    PresentedConsent(body, Signature("kernel", AttestationMessage(body)))
  }

  /** The two documents conform and differ only in their keys. */
  predicate IsPair(parent: Vaid, child: Vaid) {
    && Authentic(BothKeys(), parent) && Authentic(BothKeys(), child)
    && !SameKey(parent, child) && IsContained(parent, child)
    && parent.Id() == "p" && child.Id() == "c" && parent.Parent() == None && child.Parent() == Some("p")
    && !parent.IsExpiredAt(0)
    && parent.thumbprint == ThumbprintOf("kernel") && parent.trustDomain == "b.c" && child.trustDomain == "b.c"
    && child.tenantId == "tenant"
    && parent.scopeBoundary == [] && child.scopeBoundary == [] && child.capabilitySet == []
    && Conforms(parent) && Conforms(child)
  }

  lemma PairIsPair()
    ensures IsPair(PairParent(), PairChild())
  {
    hide RootSeeds.RootDocument, Interleaving.OfIssuer, Verify.VerifyVaidAuthenticity, Conforms;
    SoloRuns.DeepConfigIsOne();
    RootSeeds.RootDocumentIsOfIssuer(SoloRuns.DEEP, "p", PlainSeed(None), Raw("k"), 0);
    RootSeeds.RootDocumentIsOfIssuer(OTHER, "c", PlainSeed(Some("p")), Raw("k"), 0);
    RootSeeds.RootDocumentCarriesItsSeed(SoloRuns.DEEP, "p", PlainSeed(None), Raw("k"), 0);
    RootSeeds.RootDocumentCarriesItsSeed(OTHER, "c", PlainSeed(Some("p")), Raw("k"), 0);
    OfIssuerIsAuthenticUnder(SoloRuns.DEEP, PairParent());
    OfIssuerIsAuthenticUnder(OTHER, PairChild());
    PairConforms();
    if ThumbprintOf("kernel") == ThumbprintOf("other") {
      ThumbprintIsInjective("kernel", "other");
    }
  }

  lemma PairConforms()
    ensures Conforms(PairParent()) && Conforms(PairChild())
  {
  }

  lemma OfIssuerIsAuthenticUnder(cfg: Mint.Config, v: Vaid)
    requires Interleaving.OfIssuer(cfg, v) && v.thumbprint == ThumbprintOf(cfg.kernelKey)
    ensures Verify.VerifyVaidAuthenticity(cfg.kernelKey, v)
  {
  }

  lemma PairIsPresented(parent: Vaid, child: Vaid)
    requires IsPair(parent, child)
    ensures AllAuthentic(BothKeys(), child, PresentedBundle([parent]))
    ensures PresentedChain(child, PresentedBundle([parent])) == Some([parent, child])
    ensures !AncestorLapsed([parent, child], 0)
  {
    hide Authentic, IsContained, Conforms;
    var bundle := PresentedBundle([parent]);
    PresentedBundleLookup([parent], 0);
    forall id | id in bundle ensures bundle[id] == parent {
      assert bundle[id] in bundle.Values && bundle[id] in [parent];
    }
    ChildIsPresented(parent, child);
  }

  /** The whole verdict is that of the one hop's consent. */
  lemma PairVerdicts(r: Readers, parse: UuidParser, p: PresentedConsent)
    requires AreReaders(r) && KnowsPair(parse) && IsConsentObject(p, parse)
    requires p.body.parentVaid == "p" && p.body.childVaid == "c"
    ensures AreConsents([p], parse)
    ensures RustVerdict(BothKeys(), PairChild(), [PairParent()], [p], parse, 0)
            == FirstFault(ConsentFindings(BothKeys(), ReadConsent(p, parse), 0, PairParent(), PairChild()))
    ensures PythonVerdict(r, BothKeys(), PairChild(), [PairParent()], [p], 0)
            == FirstFault(PythonConsentFindings(r, BothKeys(), p, 0, PairParent(), PairChild()))
  {
    hide RootSeeds.RootDocument, PairParent, PairChild, AreReaders, AsText, AsRead, Authentic, Conforms;
    hide ConsentFindings, PythonConsentFindings, IsContained, ScopeAttenuates, CapsAttenuate;
    var parent, child := PairParent(), PairChild();
    var a := ReadConsent(p, parse);
    PairIsPair();
    PairIsPresented(parent, child);
    ConformingIsReadAsItIs(r, parent);
    ConformingIsReadAsItIs(r, child);
    AllReadAsTheyAre(r, [parent]);
    ContainmentDecides(parent, child);
    assert ReadAll([p], parse) == [a];
    assert [a][..0] == [] && [p][..0] == [];
    assert BundleAttestations([a]) == map[("p", "c") := a];
    assert FiledConsents([p]) == map[("p", "c") := p];
    FaultOfConcatenation(ContainmentFindings(parent, child), ConsentFindings(BothKeys(), a, 0, parent, child));
    FaultOfConcatenation(ContainmentFindings(parent, child), PythonConsentFindings(r, BothKeys(), p, 0, parent, child));
    assert HopsVerdict(BothKeys(), map[("p", "c") := a], 0, [child]) == Attenuated;
    assert PythonHopsVerdict(r, BothKeys(), map[("p", "c") := p], 0, [child]) == Attenuated;
  }

  /** What the two say of consent between the pair that is wide enough: Rust first, then Python. */
  lemma BodyVerdicts(r: Readers, parse: UuidParser, p: PresentedConsent, issuedAt: Timestamp, tenant: string,
                     others: map<string, Json>)
    requires AreReaders(r) && KnowsPair(parse) && IsConsentObject(p, parse) && p.body == Body(issuedAt, tenant, others)
    ensures AreConsents([p], parse)
    ensures RustVerdict(BothKeys(), PairChild(), [PairParent()], [p], parse, 0)
            == if tenant != "tenant" then NotAttenuated
               else if !AuthenticAsRead("kernel", p, parse) then Inauthentic
               else if !ReadConsent(p, parse).IsCurrent(0) then ConsentExpired
               else Attenuated
    ensures PythonVerdict(r, BothKeys(), PairChild(), [PairParent()], [p], 0)
            == if !AuthenticAsPresented("kernel", p) then Inauthentic
               else if !IsCurrentAsPresented(r, p, 0) then ConsentExpired
               else if tenant != "tenant" then NotAttenuated
               else Attenuated
  {
    hide RootSeeds.RootDocument, PairParent, PairChild, AreReaders, IsContained, Authentic, Conforms, PythonVerdict;
    hide RustVerdict, VerifyAttestationAuthenticity, AuthenticAsPresented, IsCurrentAsPresented;
    PairIsPair();
    PairVerdicts(r, parse, p);
    FaultOfSix(ConsentFindings(BothKeys(), ReadConsent(p, parse), 0, PairParent(), PairChild()));
    FaultOfSix(PythonConsentFindings(r, BothKeys(), p, 0, PairParent(), PairChild()));
  }

  // ------------------------------------------------------------------
  // One that conforms
  // ------------------------------------------------------------------

  /** Conforming, unsigned, and naming a tenant the child does not claim: two different faults. */
  lemma VerdictsMayPart(r: Readers, parse: UuidParser)
    requires AreReaders(r) && KnowsPair(parse)
    ensures var p := PresentedConsent(Body(E6(0), "another tenant", map[]), Raw(""));
            && AllConform(PairChild(), [PairParent()], [p], parse)
            && RustVerdict(BothKeys(), PairChild(), [PairParent()], [p], parse, 0) == NotAttenuated
            && PythonVerdict(r, BothKeys(), PairChild(), [PairParent()], [p], 0) == Inauthentic
  {
    hide RootSeeds.RootDocument, PairParent, PairChild, AreReaders, Conforms, PythonVerdict, RustVerdict;
    hide IsPair, AuthenticAsRead, IsCurrentAsPresented;
    var p := PresentedConsent(Body(E6(0), "another tenant", map[]), Raw(""));
    PairConforms();
    BodyVerdicts(r, parse, p, E6(0), "another tenant", map[]);
    assert "another tenant"[0] != "tenant"[0];
  }

  // ------------------------------------------------------------------
  // Three that do not
  // ------------------------------------------------------------------

  lemma KernelSigns(body: ConsentObject, parse: UuidParser)
    requires body.trustDomain == "b.c" && body.thumbprint == ThumbprintOf("kernel")
    requires body.attVersion == ATTESTATION_VERSION && IsConsentObject(SignedConsent(body), parse)
    ensures AuthenticAsPresented("kernel", SignedConsent(body))
    ensures AuthenticAsRead("kernel", SignedConsent(body), parse) <==> IsAsRendered(SignedConsent(body), parse)
  {
    hide VerifyAttestationAuthenticity, IsAsRendered;
    SoloRuns.DeepConfigIsOne();
    AuthenticityCompared("kernel", SignedConsent(body), parse);
  }

  /** Consent issued half a second in: Rust accepts it, Python cannot read its time. */
  lemma FractionalConsentParts(r: Readers, parse: UuidParser)
    requires AreReaders(r) && KnowsPair(parse)
    ensures var p := SignedConsent(Body(Fractional(500_000_000), "tenant", map[]));
            && AreConsents([p], parse)
            && RustVerdict(BothKeys(), PairChild(), [PairParent()], [p], parse, 0) == Attenuated
            && PythonVerdict(r, BothKeys(), PairChild(), [PairParent()], [p], 0) == ConsentExpired
  {
    hide PairParent, PairChild, PythonVerdict, RustVerdict, AuthenticAsRead, AuthenticAsPresented;
    var body := Body(Fractional(500_000_000), "tenant", map[]);
    KernelSigns(body, parse);
    BodyVerdicts(r, parse, SignedConsent(body), Fractional(500_000_000), "tenant", map[]);
  }

  /** A member added after signing: Rust never sees it, Python finds the signature broken. */
  lemma AddedMemberParts(r: Readers, parse: UuidParser)
    requires AreReaders(r) && KnowsPair(parse)
    ensures var others := map["note" := Null];
            var p := SignedConsent(Body(E6(0), "tenant", map[])).(body := Body(E6(0), "tenant", others));
            && AreConsents([p], parse)
            && RustVerdict(BothKeys(), PairChild(), [PairParent()], [p], parse, 0) == Attenuated
            && PythonVerdict(r, BothKeys(), PairChild(), [PairParent()], [p], 0) == Inauthentic
  {
    hide PairParent, PairChild, PythonVerdict, RustVerdict, AuthenticAsRead, AuthenticAsPresented;
    var plain := SignedConsent(Body(E6(0), "tenant", map[]));
    var p := plain.(body := Body(E6(0), "tenant", map["note" := Null]));
    KernelSigns(plain.body, parse);
    AddedMemberIsUnseen("kernel", plain, parse, "note", Null);
    assert p == plain.(body := plain.body.(others := plain.body.others["note" := Null]));
    BodyVerdicts(r, parse, p, E6(0), "tenant", map["note" := Null]);
  }

  /** The same member signed with the rest: now it is Rust that finds the signature broken. */
  lemma SignedMemberParts(r: Readers, parse: UuidParser)
    requires AreReaders(r) && KnowsPair(parse)
    ensures var p := SignedConsent(Body(E6(0), "tenant", map["note" := Null]));
            && AreConsents([p], parse)
            && RustVerdict(BothKeys(), PairChild(), [PairParent()], [p], parse, 0) == Inauthentic
            && PythonVerdict(r, BothKeys(), PairChild(), [PairParent()], [p], 0) == Attenuated
  {
    hide PairParent, PairChild, PythonVerdict, RustVerdict, AuthenticAsRead, AuthenticAsPresented;
    var body := Body(E6(0), "tenant", map["note" := Null]);
    assert "note" in body.others;
    KernelSigns(body, parse);
    BodyVerdicts(r, parse, SignedConsent(body), E6(0), "tenant", body.others);
  }

  // ------------------------------------------------------------------
  // Documents that do not conform
  // ------------------------------------------------------------------

  /** A lone root whose id is spelled in upper case, under the lineage hash of the canonical spelling. */
  function UpperCaseRoot(): Vaid {
    var id := PresentedUuid("AB", "ab");
    Mint.Signed(SoloRuns.DEEP, RootSeeds.RootDocument(SoloRuns.DEEP, "ab", PlainSeed(None), Raw("k"), 0)
                               .(vaidId := id, agentId := id))
  }

  lemma UpperCaseRootIs()
    ensures var v := UpperCaseRoot();
            && v.Parent() == None && v.thumbprint == ThumbprintOf("kernel")
            && Verify.VerifyVaidAuthenticity("kernel", v)
            && !Verify.VerifyLineageHash(AsText(v)) && AsText(v).thumbprint == v.thumbprint
  {
    SoloRuns.DeepConfigIsOne();
    var v := UpperCaseRoot();
    var unsigned := RootSeeds.RootDocument(SoloRuns.DEEP, "ab", PlainSeed(None), Raw("k"), 0)
                    .(vaidId := v.vaidId, agentId := v.agentId);
    SignatureCoversEverythingElse(unsigned, v.kernelSignature);
    assert "AB"[0] != "ab"[0];
    assert ("GENESIS:" + "AB")[8] == 'A' && ("GENESIS:" + "ab")[8] == 'a';
  }

  /** Rust verifies it; Python, whose lineage hash is over the text presented, does not. */
  lemma UpperCaseIdParts(r: Readers, parse: UuidParser)
    ensures AreConsents([], parse)
    ensures RustVerdict(BothKeys(), UpperCaseRoot(), [], [], parse, 0) == Attenuated
    ensures PythonVerdict(r, BothKeys(), UpperCaseRoot(), [], [], 0) == Inauthentic
  {
    hide UpperCaseRoot, Verify.VerifyVaidAuthenticity, Verify.VerifyLineageHash;
    var v := UpperCaseRoot();
    UpperCaseRootIs();
    LoneRootVerdict(v);
    TextLineageDecides(v);
  }

  lemma LoneRootVerdict(v: Vaid)
    requires v.Parent() == None && v.thumbprint == ThumbprintOf("kernel") && Verify.VerifyVaidAuthenticity("kernel", v)
    ensures Verdict(BothKeys(), v, map[], map[], 0) == Attenuated
  {
    hide Verify.VerifyVaidAuthenticity;
    assert LinksUp([v], 0);
    PresentedChainIsExact(v, map[], [v]);
    assert HopsVerdict(BothKeys(), map[], 0, [v]) == Attenuated;
  }

  lemma TextLineageDecides(v: Vaid)
    requires v.thumbprint == ThumbprintOf("kernel") && !Verify.VerifyLineageHash(AsText(v))
    ensures !Authentic(BothKeys(), AsText(v))
  {
  }

  /** A child of the pair's parent, under the same key, with an expiry in no RFC 3339 spelling. */
  function OddlyTimedChild(text: string): Vaid {
    Mint.IssuedVaid(SoloRuns.DEEP, "c", PlainSeed(Some("p")), Raw("k"), 0, Unreadable(text))
  }

  lemma OddlyTimedChildIs(r: Readers, text: string, expiry: Instant)
    requires r.iso(Unreadable(text)) == Some(expiry) && expiry <= 3600 * SECOND
    ensures var parent, child := PairParent(), OddlyTimedChild(text);
            && child.Id() == "c" && child.Parent() == Some("p") && SameKey(parent, child)
            && Authentic(BothKeys(), child) && AsText(child) == child
            && !IsContained(parent, child) && IsContained(parent, AsRead(r, child))
            && AsRead(r, child).Id() == "c" && AsRead(r, child).Parent() == Some("p")
            && SameKey(parent, AsRead(r, child))
  {
    hide Verify.VerifyVaidAuthenticity;
    SoloRuns.DeepConfigIsOne();
    Mint.IssuedIsAuthentic(SoloRuns.DEEP, "c", PlainSeed(Some("p")), Raw("k"), 0, Unreadable(text));
  }

  /** An expiry only Python's reader can read: Rust finds it contained by nothing, Python lets the hop pass. */
  lemma OddExpiryParts(r: Readers, parse: UuidParser, text: string, expiry: Instant)
    requires AreReaders(r) && r.iso(Unreadable(text)) == Some(expiry) && expiry <= 3600 * SECOND
    ensures AreConsents([], parse)
    ensures RustVerdict(BothKeys(), OddlyTimedChild(text), [PairParent()], [], parse, 0) == NotAttenuated
    ensures PythonVerdict(r, BothKeys(), OddlyTimedChild(text), [PairParent()], [], 0) == Attenuated
  {
    hide RootSeeds.RootDocument, PairParent, OddlyTimedChild, AreReaders, AsText, AsRead, Authentic, Conforms;
    hide IsContained;
    var parent, child := PairParent(), OddlyTimedChild(text);
    PairIsPair();
    OddlyTimedChildIs(r, text, expiry);
    ConformingIsReadAsItIs(r, parent);
    AllReadAsTheyAre(r, [parent]);
    ChildIsPresented(parent, child);
    ChildIsPresented(parent, AsRead(r, child));
    OneKeyHop(r, parent, child);
    OneKeyHop(r, parent, AsRead(r, child));
    assert AllAuthentic(BothKeys(), child, PresentedBundle([parent])) by {
      PairIsPresented(parent, PairChild());
    }
  }

  lemma ChildIsPresented(parent: Vaid, child: Vaid)
    requires parent.Id() == "p" && child.Id() == "c" && parent.Parent() == None && child.Parent() == Some("p")
    requires !parent.IsExpiredAt(0)
    ensures PresentedChain(child, PresentedBundle([parent])) == Some([parent, child])
    ensures !AncestorLapsed([parent, child], 0)
  {
    var c, bundle := [parent, child], PresentedBundle([parent]);
    PresentedBundleLookup([parent], 0);
    assert LinksUp(c, 0) && LinksUp(c, 1);
    assert IsPresented(bundle, parent);
    PresentedChainIsExact(child, bundle, c);
  }

  lemma OneKeyHop(r: Readers, parent: Vaid, child: Vaid)
    requires SameKey(parent, child)
    ensures var verdict := if IsContained(parent, child) then Attenuated else NotAttenuated;
            && HopsVerdict(BothKeys(), map[], 0, [parent, child]) == verdict
            && PythonHopsVerdict(r, BothKeys(), map[], 0, [parent, child]) == verdict
  {
    hide IsContained, ScopeAttenuates, CapsAttenuate;
    var findings := ContainmentFindings(parent, child);
    RootSeeds.OneKindOfFault(findings, NotAttenuated);
    ContainmentDecides(parent, child);
    assert findings + [] == findings;
    assert [parent, child][1..] == [child];
    assert HopVerdict(BothKeys(), map[], 0, parent, child) == FirstFault(findings);
    assert PythonHopVerdict(r, BothKeys(), map[], 0, parent, child) == FirstFault(findings);
    assert HopsVerdict(BothKeys(), map[], 0, [child]) == Attenuated;
    assert PythonHopsVerdict(r, BothKeys(), map[], 0, [child]) == Attenuated;
  }
}
