/** A presentation that stands although one document in it is under no trusted key. */
module PresentationWitness {
  import opened Wrappers
  import opened Wire
  import opened ScopeRules
  import opened Document
  import opened IssuerIdentity
  import opened ChainTheorems
  import opened Trust
  import opened Presentation
  import opened RootSeeds
  import Chain
  import Interleaving
  import MintRuns
  import ParityWitnesses
  import SoloRuns
  import Verify

  /** The trusted root, and a stranger's root under the same id. */
  function Root(): Vaid {
    ParityWitnesses.PairParent()
  }

  function Stranger(): Vaid {
    RootDocument(ParityWitnesses.OTHER, "p", ParityWitnesses.PlainSeed(None), Raw("k"), 0)
  }

  function Child(): Vaid {
    RootDocument(SoloRuns.DEEP, "c", ParityWitnesses.PlainSeed(Some("p")), Raw("k"), 0)
  }

  function OneKey(): TrustedIssuers {
    TrustedIssuers(map[ThumbprintOf("kernel") := TrustedIssuer("kernel", "b.c")])
  }

  function Crowded(): Presented {
    Presented(Child(), [Stranger(), Root()])
  }

  /** Root and child are as the trusted issuer makes them; the stranger is not. */
  lemma WhoTheyAre()
    ensures var root, child, stranger := Root(), Child(), Stranger();
            && Chain.Authentic(OneKey().Resolver(), root) && Chain.Authentic(OneKey().Resolver(), child)
            && IsBound(OneKey(), root) && IsBound(OneKey(), child) && IsContained(root, child)
            && Chain.SameKey(root, child)
            && root.Id() == "p" && child.Id() == "c" && stranger.Id() == "p"
            && root.Parent() == None && child.Parent() == Some("p")
            && root.Expiry() == Some(3600 * SECOND) && child.Expiry() == Some(3600 * SECOND)
            && root.scopeBoundary == [] && child.scopeBoundary == [] && stranger.scopeBoundary == []
            && OneKey().ResolveKey(stranger.thumbprint) == None && stranger.thumbprint != root.thumbprint
  {
    hide RootDocument, Interleaving.OfIssuer, Verify.VerifyVaidAuthenticity;
    SoloRuns.DeepConfigIsOne();
    var none, some := ParityWitnesses.PlainSeed(None), ParityWitnesses.PlainSeed(Some("p"));
    RootDocumentIsOfIssuer(SoloRuns.DEEP, "p", none, Raw("k"), 0);
    RootDocumentIsOfIssuer(SoloRuns.DEEP, "c", some, Raw("k"), 0);
    RootDocumentCarriesItsSeed(SoloRuns.DEEP, "p", none, Raw("k"), 0);
    RootDocumentCarriesItsSeed(SoloRuns.DEEP, "c", some, Raw("k"), 0);
    RootDocumentCarriesItsSeed(ParityWitnesses.OTHER, "p", none, Raw("k"), 0);
    ParityWitnesses.OfIssuerIsAuthenticUnder(SoloRuns.DEEP, Root());
    ParityWitnesses.OfIssuerIsAuthenticUnder(SoloRuns.DEEP, Child());
    if ThumbprintOf("kernel") == ThumbprintOf("other") {
      ThumbprintIsInjective("kernel", "other");
    }
  }

  lemma LaterDisplaces(stranger: Vaid, root: Vaid)
    requires stranger.Id() == root.Id()
    ensures Chain.PresentedBundle([stranger, root]) == map[root.Id() := root]
  {
    assert [stranger, root][..1] == [stranger] && [stranger][..0] == [];
    assert Chain.PresentedBundle([stranger]) == map[stranger.Id() := stranger];
  }

  lemma RootAndChildAreAChain(root: Vaid, child: Vaid)
    requires root.Id() == "p" && child.Id() == "c" && root.Parent() == None && child.Parent() == Some("p")
    ensures IsPresentedChain(child, map["p" := root], [root, child])
  {
    var c := [root, child];
    assert LinksUp(c, 0) && LinksUp(c, 1);
    assert IsPresented(map["p" := root], root);
  }

  lemma RootAndChildStand()
    ensures Stands(OneKey(), Crowded(), 0, [Root(), Child()])
  {
    hide Root, Child, Stranger, IsBound, IsContained, Chain.Authentic, Chain.PresentedBundle;
    var root, child, stranger := Root(), Child(), Stranger();
    var docs, bundle := [root, child], map["p" := root];
    WhoTheyAre();
    LaterDisplaces(stranger, root);
    RootAndChildAreAChain(root, child);
    assert ContainedAt(docs, 0) && !CrossesKeys(docs, 0);
    forall k | 0 <= k < 2 ensures LiveAt(docs, k, 0) && IsBound(OneKey(), docs[k]) {
    }
    assert !IsMisbound(OneKey(), stranger) && !IsMisbound(OneKey(), root);
  }

  /** It stands, and is allowed as far as standing goes, with the stranger's document in it bound to nothing. */
  lemma DisplacedDocumentIsNotLookedAt()
    ensures StandingRefusal(OneKey(), Crowded(), 0) == None
    ensures Crowded().chain[0] == Stranger() && !IsBound(OneKey(), Stranger())
    ensures OneKey().ResolveKey(Stranger().thumbprint) == None
  {
    hide Root, Child, Stranger, Stands, StandingRefusal;
    WhoTheyAre();
    RootAndChildStand();
    WhatStandsIsNotRefused(OneKey(), Crowded(), 0, [Root(), Child()]);
  }
}
