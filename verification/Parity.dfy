/**
 The Rust and the Python chain verifier on the same presentation: where both accept,
 where they name different faults, and what has to be excluded before either is true.
 */
module Parity {
  import opened Wrappers
  import opened Wire
  import opened ScopeRules
  import opened Document
  import opened IssuerIdentity
  import opened Revocation
  import opened Attestation
  import opened PresentedConsents
  import opened Chain
  import opened ChainTheorems
  import opened PythonChain

  // ------------------------------------------------------------------
  // Conforming presentations
  // ------------------------------------------------------------------

  predicate IsCanonical(id: PresentedUuid) {
    id.raw == id.uuid
  }

  /** Canonical id spellings, and an expiry in the whole-second profile. */
  predicate Conforms(v: Vaid) {
    && IsCanonical(v.vaidId) && IsCanonical(v.agentId)
    && (v.parentVaid.Some? && v.parentVaid.value.Some? ==> IsCanonical(v.parentVaid.value.value))
    && v.expiresAt.E6?
  }

  /** Canonical id spellings, whole-second times, and no member the attestation type does not name. */
  predicate ConsentConforms(p: PresentedConsent, parse: UuidParser) {
    && IsConsentObject(p, parse) && IsAsRendered(p, parse)
    && p.body.issuedAt.E6? && p.body.expiresAt.E6?
  }

  predicate AllConform(leaf: Vaid, documents: seq<Vaid>, consents: seq<PresentedConsent>, parse: UuidParser) {
    && Conforms(leaf)
    && (forall k | 0 <= k < |documents| :: Conforms(documents[k]))
    && ConsentsConform(consents, parse)
  }

  predicate ConsentsConform(consents: seq<PresentedConsent>, parse: UuidParser) {
    AreConsents(consents, parse) && forall k | 0 <= k < |consents| :: ConsentConforms(consents[k], parse)
  }

  predicate AreConsents(consents: seq<PresentedConsent>, parse: UuidParser) {
    forall k | 0 <= k < |consents| :: IsConsentObject(consents[k], parse)
  }

  function ReadAll(consents: seq<PresentedConsent>, parse: UuidParser): seq<ConsentAttestation>
    requires AreConsents(consents, parse)
  {
    seq(|consents|, k requires 0 <= k < |consents| => ReadConsent(consents[k], parse))
  }

  /** The Rust verdict on what is presented, once the consents have been read. */
  function RustVerdict(
    keys: KeyResolver, leaf: Vaid, documents: seq<Vaid>, consents: seq<PresentedConsent>, parse: UuidParser,
    now: Instant)
    : ChainVerification
    requires AreConsents(consents, parse)
  {
    Verdict(keys, leaf, PresentedBundle(documents), BundleAttestations(ReadAll(consents, parse)), now)
  }

  lemma ConformingIsReadAsItIs(r: Readers, v: Vaid)
    requires AreReaders(r) && Conforms(v)
    ensures AsText(v) == v && AsRead(r, v) == v
  {
  }

  lemma AllReadAsTheyAre(r: Readers, documents: seq<Vaid>)
    requires AreReaders(r) && forall k | 0 <= k < |documents| :: Conforms(documents[k])
    ensures AllAsText(documents) == documents && AllAsRead(r, documents) == documents
  {
    hide AreReaders, Conforms, AsText, AsRead;
    forall k | 0 <= k < |documents| ensures AsText(documents[k]) == documents[k] == AsRead(r, documents[k]) {
      ConformingIsReadAsItIs(r, documents[k]);
    }
  }

  /** Both sides file the same consents under the same hops. */
  predicate Corresponds(consents: ConsentBundle, attestations: AttestationBundle, parse: UuidParser) {
    && consents.Keys == attestations.Keys
    && forall hop | hop in consents ::
         ConsentConforms(consents[hop], parse) && attestations[hop] == ReadConsent(consents[hop], parse)
  }

  lemma {:induction false} FilingCorresponds(consents: seq<PresentedConsent>, parse: UuidParser)
    requires ConsentsConform(consents, parse)
    ensures Corresponds(FiledConsents(consents), BundleAttestations(ReadAll(consents, parse)), parse)
  {
    if consents != [] {
      var n := |consents| - 1;
      FilingCorresponds(consents[..n], parse);
      assert ReadAll(consents, parse)[..n] == ReadAll(consents[..n], parse);
      assert ReadConsent(consents[n], parse).Hop() == (consents[n].body.parentVaid, consents[n].body.childVaid);
    }
  }

  // ------------------------------------------------------------------
  // First faults
  // ------------------------------------------------------------------

  lemma {:induction false} FaultOfConcatenation(a: seq<Finding>, b: seq<Finding>)
    requires forall k | 0 <= k < |a| :: a[k].otherwise != Attenuated
    ensures FirstFault(a + b) == if FirstFault(a) == Attenuated then FirstFault(b) else FirstFault(a)
  {
    if a == [] {
      assert a + b == b;
    } else {
      assert (a + b)[1..] == a[1..] + b;
      FaultOfConcatenation(a[1..], b);
    }
  }

  lemma FaultOfSix(f: seq<Finding>)
    requires |f| == 6
    ensures FirstFault(f) == if !f[0].holds then f[0].otherwise
                             else if !f[1].holds then f[1].otherwise
                             else if !f[2].holds then f[2].otherwise
                             else if !f[3].holds then f[3].otherwise
                             else if !f[4].holds then f[4].otherwise
                             else if !f[5].holds then f[5].otherwise
                             else Attenuated
  {
    assert f == [f[0], f[1], f[2], f[3], f[4], f[5]];
    if n :| 0 <= n < 6 && !f[n].holds && forall k | 0 <= k < n :: f[k].holds {
      FirstFaultAt(f, n);
    } else {
      NoFirstMeansNone(f, 6);
      FirstFaultAt(f, 6);
    }
  }

  lemma {:induction false} NoFirstMeansNone(f: seq<Finding>, n: nat)
    requires n <= |f|
    requires forall m | 0 <= m < |f| && !f[m].holds :: exists k :: 0 <= k < m && !f[k].holds
    ensures forall k | 0 <= k < n :: f[k].holds
  {
    if n > 0 {
      NoFirstMeansNone(f, n - 1);
    }
  }

  // ------------------------------------------------------------------
  // Comparing the two
  // ------------------------------------------------------------------

  /** A consent naming another child, and besides that forged, foreign or out of its window. */
  predicate NamesAnotherChildToo(keys: KeyResolver, a: ConsentAttestation, now: Instant, parent: Vaid, child: Vaid) {
    && NamesParentIssuer(a.terms, parent)
    && !NamesChildIdentity(a.terms, child)
    && !(AuthenticConsent(keys, a) && a.IsCurrent(now))
  }

  /** On a conforming consent the two ask the same, the third question before the second. */
  lemma SameQuestions(
    r: Readers, keys: KeyResolver, p: PresentedConsent, parse: UuidParser, now: Instant, parent: Vaid, child: Vaid)
    requires AreReaders(r) && ConsentConforms(p, parse)
    ensures var rust := ConsentFindings(keys, ReadConsent(p, parse), now, parent, child);
            PythonConsentFindings(r, keys, p, now, parent, child)
                == [rust[0], rust[2], rust[3], rust[1], rust[4], rust[5]]
  {
    hide ScopeAttenuates, CapsAttenuate, AuthenticAsPresented, VerifyAttestationAuthenticity;
    if keys(p.body.thumbprint).Some? {
      AuthenticityCompared(keys(p.body.thumbprint).value, p, parse);
    }
  }

  lemma ConsentVerdictsCompared(
    r: Readers, keys: KeyResolver, p: PresentedConsent, parse: UuidParser, now: Instant, parent: Vaid, child: Vaid)
    requires AreReaders(r) && ConsentConforms(p, parse)
    ensures var a := ReadConsent(p, parse);
            var rust := FirstFault(ConsentFindings(keys, a, now, parent, child));
            var python := FirstFault(PythonConsentFindings(r, keys, p, now, parent, child));
            && (rust == Attenuated <==> python == Attenuated)
            && (rust != python <==> NamesAnotherChildToo(keys, a, now, parent, child))
            && (rust != python ==> rust == NotAttenuated && (python == Inauthentic || python == ConsentExpired))
  {
    hide AuthenticConsent, ScopeAttenuates, CapsAttenuate, NamesParentIssuer, NamesChildIdentity;
    hide AreReaders, PythonConsentFindings, ReadConsent;
    SameQuestions(r, keys, p, parse, now, parent, child);
    FaultOfSix(ConsentFindings(keys, ReadConsent(p, parse), now, parent, child));
    FaultOfSix(PythonConsentFindings(r, keys, p, now, parent, child));
  }

  predicate HopsPart(keys: KeyResolver, attestations: AttestationBundle, now: Instant, parent: Vaid, child: Vaid) {
    && IsContained(parent, child) && !SameKey(parent, child)
    && (parent.Id(), child.Id()) in attestations
    && NamesAnotherChildToo(keys, attestations[(parent.Id(), child.Id())], now, parent, child)
  }

  /** At one hop the two accept together, and refuse differently exactly on such a consent. */
  lemma HopVerdictsCompared(
    r: Readers, keys: KeyResolver, consents: ConsentBundle, attestations: AttestationBundle, parse: UuidParser,
    now: Instant, parent: Vaid, child: Vaid)
    requires AreReaders(r) && Corresponds(consents, attestations, parse)
    ensures var rust := HopVerdict(keys, attestations, now, parent, child);
            var python := PythonHopVerdict(r, keys, consents, now, parent, child);
            && (rust == Attenuated <==> python == Attenuated)
            && (rust != python <==> HopsPart(keys, attestations, now, parent, child))
  {
    hide AreReaders, NamesAnotherChildToo, ScopeAttenuates, CapsAttenuate, ConsentFindings, PythonConsentFindings;
    var hop := (parent.Id(), child.Id());
    ContainmentDecides(parent, child);
    if !SameKey(parent, child) && hop in consents {
      FaultOfConcatenation(
        ContainmentFindings(parent, child), ConsentFindings(keys, attestations[hop], now, parent, child));
      FaultOfConcatenation(
        ContainmentFindings(parent, child), PythonConsentFindings(r, keys, consents[hop], now, parent, child));
      ConsentVerdictsCompared(r, keys, consents[hop], parse, now, parent, child);
    }
  }

  lemma ContainmentDecides(parent: Vaid, child: Vaid)
    ensures FirstFault(ContainmentFindings(parent, child)) == Attenuated <==> IsContained(parent, child)
  {
    var f := ContainmentFindings(parent, child);
    FaultFree(f);
    assert f[0].holds && f[1].holds && f[2].holds && f[3].holds <==> IsContained(parent, child);
  }

  predicate PartAt(keys: KeyResolver, attestations: AttestationBundle, now: Instant, docs: seq<Vaid>, k: nat)
    requires k + 1 < |docs|
  {
    && HopsPart(keys, attestations, now, docs[k], docs[k + 1])
    && forall j | 0 <= j < k :: HopPasses(keys, attestations, now, docs, j)
  }

  lemma PartAtTail(keys: KeyResolver, attestations: AttestationBundle, now: Instant, docs: seq<Vaid>, k: nat)
    requires k + 2 < |docs| && HopPasses(keys, attestations, now, docs, 0)
    ensures PartAt(keys, attestations, now, docs[1..], k) <==> PartAt(keys, attestations, now, docs, k + 1)
  {
    assert forall j | 0 <= j < k ::
        HopPasses(keys, attestations, now, docs[1..], j) == HopPasses(keys, attestations, now, docs, j + 1);
    if PartAt(keys, attestations, now, docs[1..], k) {
      forall j | 0 <= j < k + 1 ensures HopPasses(keys, attestations, now, docs, j) {
        assert j > 0 ==> HopPasses(keys, attestations, now, docs[1..], j - 1);
      }
    }
  }

  lemma {:induction false} HopsVerdictsCompared(
    r: Readers, keys: KeyResolver, consents: ConsentBundle, attestations: AttestationBundle, parse: UuidParser,
    now: Instant, docs: seq<Vaid>)
    requires AreReaders(r) && Corresponds(consents, attestations, parse)
    ensures var rust := HopsVerdict(keys, attestations, now, docs);
            var python := PythonHopsVerdict(r, keys, consents, now, docs);
            && (rust == Attenuated <==> python == Attenuated)
            && (rust != python <==> exists k | 0 <= k < |docs| - 1 :: PartAt(keys, attestations, now, docs, k))
  {
    hide AreReaders, Corresponds, HopVerdict, PythonHopVerdict, HopsPart;
    if |docs| >= 2 {
      HopVerdictsCompared(r, keys, consents, attestations, parse, now, docs[0], docs[1]);
      HopsVerdictsCompared(r, keys, consents, attestations, parse, now, docs[1..]);
      if HopPasses(keys, attestations, now, docs, 0) {
        if k :| 0 <= k < |docs| - 1 && PartAt(keys, attestations, now, docs, k) {
          PartAtTail(keys, attestations, now, docs, k - 1);
        }
        if k :| 0 <= k < |docs[1..]| - 1 && PartAt(keys, attestations, now, docs[1..], k) {
          PartAtTail(keys, attestations, now, docs, k);
        }
      } else if HopsPart(keys, attestations, now, docs[0], docs[1]) {
        assert PartAt(keys, attestations, now, docs, 0);
      }
    }
  }

  /** The chain is sound, but at some hop past others that pass, the consent is such a one. */
  predicate VerdictsPart(keys: KeyResolver, leaf: Vaid, bundle: Bundle, attestations: AttestationBundle, now: Instant) {
    && AllAuthentic(keys, leaf, bundle)
    && PresentedChain(leaf, bundle).Some?
    && var docs := PresentedChain(leaf, bundle).value;
       && !AncestorLapsed(docs, now)
       && exists k | 0 <= k < |docs| - 1 :: PartAt(keys, attestations, now, docs, k)
  }

  /**
   On every conforming presentation the two verifiers accept together. They name
   different faults exactly when the chain is otherwise sound up to a hop whose
   consent names another child and is also inauthentic or out of its window.
   */
  lemma VerdictsCompared(
    r: Readers, keys: KeyResolver, leaf: Vaid, documents: seq<Vaid>, consents: seq<PresentedConsent>,
    parse: UuidParser, now: Instant)
    requires AreReaders(r) && AllConform(leaf, documents, consents, parse)
    ensures var rust := RustVerdict(keys, leaf, documents, consents, parse, now);
            var python := PythonVerdict(r, keys, leaf, documents, consents, now);
            && (rust == Attenuated <==> python == Attenuated)
            && (rust != python <==>
                  VerdictsPart(keys, leaf, PresentedBundle(documents), BundleAttestations(ReadAll(consents,
                      parse)), now))
  {
    hide AreReaders, Conforms, ConsentConforms, AreConsents, HopsVerdict, PythonHopsVerdict, AllAuthentic;
    hide PresentedChain;
    hide AncestorLapsed, PartAt, Corresponds, AsText, AsRead;
    var bundle, attestations := PresentedBundle(documents), BundleAttestations(ReadAll(consents, parse));
    ConformingIsReadAsItIs(r, leaf);
    AllReadAsTheyAre(r, documents);
    FilingCorresponds(consents, parse);
    if PresentedChain(leaf, bundle).Some? {
      HopsVerdictsCompared(
        r, keys, FiledConsents(consents), attestations, parse, now, PresentedChain(leaf, bundle).value);
    }
  }

  /** With no consent presented, as the Python consumers call it, conforming documents get one and the same verdict. */
  lemma VerdictsAgreeWithoutConsents(r: Readers, keys: KeyResolver, leaf: Vaid, documents: seq<Vaid>, now: Instant)
    requires AreReaders(r) && Conforms(leaf) && forall k | 0 <= k < |documents| :: Conforms(documents[k])
    ensures PythonVerdict(r, keys, leaf, documents, [], now)
        == Verdict(keys, leaf, PresentedBundle(documents), map[], now)
  {
    hide AreReaders, Conforms, PythonVerdict, Verdict;
    VerdictsCompared(r, keys, leaf, documents, [], _ => None, now);
  }
}
