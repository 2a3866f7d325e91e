/** Third-party verification of a presented chain: the loops of chain.rs and what they compute. */
module Chain {
  import opened Wrappers
  import opened Wire
  import opened ScopeRules
  import opened Document
  import opened IssuerIdentity
  import opened Attestation
  import Verify
  import opened Revocation

  // ------------------------------------------------------------------
  // What is presented, and which keys are accepted
  // ------------------------------------------------------------------

  type Bundle = map<Uuid, Vaid>

  /** Filed by each document's own id; a later one with the same id replaces the earlier. */
  function PresentedBundle(documents: seq<Vaid>): (bundle: Bundle)
    ensures IsBundle(bundle)
    ensures forall v :: v in bundle.Values ==> v in documents
    ensures forall v | v in documents :: v.Id() in bundle
  {
    if documents == [] then map[]
    else
      var last := documents[|documents| - 1];
      assert documents == documents[..|documents| - 1] + [last];
      PresentedBundle(documents[..|documents| - 1])[last.Id() := last]
  }

  predicate IsBundle(bundle: Bundle) {
    forall id | id in bundle :: bundle[id].Id() == id
  }

  function BundleParent(bundle: Bundle, id: Uuid): ParentResolution {
    if id !in bundle then Unknown
    else match bundle[id].Parent()
      case None => Root
      case Some(p) => Parent(p)
  }

  function BundleResolver(bundle: Bundle): Resolver {
    id => BundleParent(bundle, id)
  }

  /** Answering for a thumbprint accepts the key it names. */
  type KeyResolver = string -> Option<Key>

  function SingleKernelKey(key: Key): KeyResolver {
    thumbprint => if thumbprint == ThumbprintOf(key) then Some(key) else None
  }

  predicate Authentic(keys: KeyResolver, v: Vaid) {
    match keys(v.thumbprint)
    case None => false
    case Some(key) => Verify.VerifyVaidAuthenticity(key, v)
  }

  // ------------------------------------------------------------------
  // What each step finds
  // ------------------------------------------------------------------

  datatype ChainVerification = Attenuated | Inauthentic | Unverifiable | NotAttenuated | Expired | ConsentExpired

  /** A check, and the verdict if it fails. */
  datatype Finding = Finding(holds: bool, otherwise: ChainVerification)

  function FirstFault(findings: seq<Finding>): ChainVerification {
    if findings == [] then Attenuated
    else if !findings[0].holds then findings[0].otherwise
    else FirstFault(findings[1..])
  }

  predicate SameKey(parent: Vaid, child: Vaid) {
    parent.thumbprint == child.thumbprint
  }

  predicate SameTenant(parent: Vaid, child: Vaid) {
    parent.trustDomain == child.trustDomain && parent.tenantId == child.tenantId
  }

  function ContainmentFindings(parent: Vaid, child: Vaid): seq<Finding> {
    [Finding(SameKey(parent, child) ==> SameTenant(parent, child), NotAttenuated),
     Finding(ScopeAttenuates(parent.scopeBoundary, child.scopeBoundary), NotAttenuated),
     Finding(CapsAttenuate(parent.capabilitySet, child.capabilitySet), NotAttenuated),
     Finding(ExpiryAttenuates(parent.expiresAt, child.expiresAt), NotAttenuated)]
  }

  predicate NamesParentIssuer(t: Terms, parent: Vaid) {
    t.thumbprint == parent.thumbprint && t.trustDomain == parent.trustDomain
  }

  predicate NamesChildIdentity(t: Terms, child: Vaid) {
    t.childTrustDomain == child.trustDomain && t.childTenantId == child.tenantId
  }

  predicate AuthenticConsent(keys: KeyResolver, a: ConsentAttestation) {
    match keys(a.terms.thumbprint)
    case None => false
    case Some(key) => VerifyAttestationAuthenticity(key, a)
  }

  function ConsentFindings(
    keys: KeyResolver, a: ConsentAttestation, now: Instant, parent: Vaid, child: Vaid): seq<Finding> {
    [Finding(NamesParentIssuer(a.terms, parent), Inauthentic),
     Finding(NamesChildIdentity(a.terms, child), NotAttenuated),
     Finding(AuthenticConsent(keys, a), Inauthentic),
     Finding(a.IsCurrent(now), ConsentExpired),
     Finding(ScopeAttenuates(a.terms.scopeBoundary, child.scopeBoundary)
             && CapsAttenuate(a.terms.capabilitySet, child.capabilitySet), NotAttenuated),
     Finding(ScopeAttenuates(parent.scopeBoundary, a.terms.scopeBoundary)
             && CapsAttenuate(parent.capabilitySet, a.terms.capabilitySet), NotAttenuated)]
  }

  /** Consent is looked up by the hop; one minted for another hop is simply not found. */
  function CrossKeyFindings(
    keys: KeyResolver, attestations: AttestationBundle, now: Instant, parent: Vaid, child: Vaid): seq<Finding> {
    if (parent.Id(), child.Id()) !in attestations then [Finding(false, Inauthentic)]
    else ConsentFindings(keys, attestations[(parent.Id(), child.Id())], now, parent, child)
  }

  function HopFindings(
    keys: KeyResolver, attestations: AttestationBundle, now: Instant, parent: Vaid, child: Vaid): seq<Finding> {
    ContainmentFindings(parent, child)
    + if SameKey(parent, child) then [] else CrossKeyFindings(keys, attestations, now, parent, child)
  }

  function HopVerdict(
    keys: KeyResolver, attestations: AttestationBundle, now: Instant, parent: Vaid, child: Vaid): ChainVerification {
    FirstFault(HopFindings(keys, attestations, now, parent, child))
  }

  /** The first hop that fails, root first. */
  function HopsVerdict(
    keys: KeyResolver, attestations: AttestationBundle, now: Instant, docs: seq<Vaid>): ChainVerification {
    if |docs| < 2 then Attenuated
    else
      var first := HopVerdict(keys, attestations, now, docs[0], docs[1]);
      if first != Attenuated then first else HopsVerdict(keys, attestations, now, docs[1..])
  }

  /** Has some document other than the last lapsed? */
  predicate AncestorLapsed(docs: seq<Vaid>, now: Instant) {
    exists k | 0 <= k < |docs| - 1 :: docs[k].IsExpiredAt(now)
  }

  predicate AllAuthentic(keys: KeyResolver, leaf: Vaid, bundle: Bundle) {
    Authentic(keys, leaf) && forall id | id in bundle :: Authentic(keys, bundle[id])
  }

  /** The document behind an id of the chain: the leaf is supplied apart from the bundle. */
  function DocumentOf(leaf: Vaid, bundle: Bundle, id: Uuid): Option<Vaid> {
    if id == leaf.Id() then Some(leaf)
    else if id in bundle then Some(bundle[id])
    else None
  }

  function ChainDocuments(leaf: Vaid, bundle: Bundle, ids: seq<Uuid>): Option<seq<Vaid>> {
    if exists k | 0 <= k < |ids| :: DocumentOf(leaf, bundle, ids[k]) == None then None
    else Some(seq(|ids|, k requires 0 <= k < |ids| && DocumentOf(leaf, bundle, ids[k]) != None =>
                           DocumentOf(leaf, bundle, ids[k]).value))
  }

  /** The assembled chain, root first, if the presentation is complete. */
  function PresentedChain(leaf: Vaid, bundle: Bundle): Option<seq<Vaid>> {
    match Assembled(leaf.Id(), leaf.Parent(), BundleResolver(bundle))
    case Incomplete => None
    case Complete(ids) => ChainDocuments(leaf, bundle, ids)
  }

  /** First fault first: authenticity, assembly, a lapsed ancestor, then the hops root first. */
  function Verdict(
    keys: KeyResolver, leaf: Vaid, bundle: Bundle, attestations: AttestationBundle, now: Instant): ChainVerification {
    if !AllAuthentic(keys, leaf, bundle) then Inauthentic
    else match PresentedChain(leaf, bundle)
      case None => Unverifiable
      case Some(docs) =>
        if AncestorLapsed(docs, now) then Expired
        else HopsVerdict(keys, attestations, now, docs)
  }

  // ------------------------------------------------------------------
  // The verifier
  // ------------------------------------------------------------------

  method Authenticate(keys: KeyResolver, leaf: Vaid, bundle: Bundle) returns (ok: bool)
    ensures ok == AllAuthentic(keys, leaf, bundle)
  {
    if !Authentic(keys, leaf) {
      return false;
    }
    var todo := bundle.Keys;
    while todo != {}
      invariant todo <= bundle.Keys
      invariant forall id | id in bundle && id !in todo :: Authentic(keys, bundle[id])
      decreases todo
    {
      var id :| id in todo;
      if !Authentic(keys, bundle[id]) {
        return false;
      }
      todo := todo - {id};
    }
    return true;
  }

  method CollectDocuments(leaf: Vaid, bundle: Bundle, ids: seq<Uuid>) returns (docs: Option<seq<Vaid>>)
    ensures docs == ChainDocuments(leaf, bundle, ids)
  {
    var found: seq<Vaid> := [];
    for i := 0 to |ids|
      invariant |found| == i
      invariant forall k | 0 <= k < i :: DocumentOf(leaf, bundle, ids[k]) == Some(found[k])
    {
      if ids[i] == leaf.Id() {
        found := found + [leaf];
      } else if ids[i] in bundle {
        found := found + [bundle[ids[i]]];
      } else {
        return None;
      }
    }
    assert found == ChainDocuments(leaf, bundle, ids).value;
    return Some(found);
  }

  method CheckLapse(docs: seq<Vaid>, now: Instant) returns (lapsed: bool)
    ensures lapsed == AncestorLapsed(docs, now)
  {
    var i := 0;
    while i + 1 < |docs|
      invariant i <= |docs|
      invariant forall k | 0 <= k < i :: !docs[k].IsExpiredAt(now)
    {
      if docs[i].IsExpiredAt(now) {
        return true;
      }
      i := i + 1;
    }
    return false;
  }

  method CheckConsent(keys: KeyResolver, attestations: AttestationBundle, now: Instant, parent: Vaid, child: Vaid)
    returns (v: ChainVerification)
    ensures v == FirstFault(CrossKeyFindings(keys, attestations, now, parent, child))
  {
    if (parent.Id(), child.Id()) !in attestations {
      return Inauthentic;
    }
    var a := attestations[(parent.Id(), child.Id())];
    ghost var findings := ConsentFindings(keys, a, now, parent, child);
    if a.terms.thumbprint != parent.thumbprint || a.terms.trustDomain != parent.trustDomain {
      FirstFaultAt(findings, 0);
      return Inauthentic;
    }
    if a.terms.childTrustDomain != child.trustDomain || a.terms.childTenantId != child.tenantId {
      FirstFaultAt(findings, 1);
      return NotAttenuated;
    }
    match keys(a.terms.thumbprint) {
      case None =>
        FirstFaultAt(findings, 2);
        return Inauthentic;
      case Some(key) =>
        if !VerifyAttestationAuthenticity(key, a) {
          FirstFaultAt(findings, 2);
          return Inauthentic;
        }
    }
    if !a.IsCurrent(now) {
      FirstFaultAt(findings, 3);
      return ConsentExpired;
    }
    if !ScopeAttenuates(a.terms.scopeBoundary, child.scopeBoundary)
       || !CapsAttenuate(a.terms.capabilitySet, child.capabilitySet) {
      FirstFaultAt(findings, 4);
      return NotAttenuated;
    }
    if !ScopeAttenuates(parent.scopeBoundary, a.terms.scopeBoundary)
       || !CapsAttenuate(parent.capabilitySet, a.terms.capabilitySet) {
      FirstFaultAt(findings, 5);
      return NotAttenuated;
    }
    FirstFaultAt(findings, 6);
    return Attenuated;
  }

  method CheckHop(keys: KeyResolver, attestations: AttestationBundle, now: Instant, parent: Vaid, child: Vaid)
    returns (v: ChainVerification)
    ensures v == HopVerdict(keys, attestations, now, parent, child)
  {
    ghost var findings := HopFindings(keys, attestations, now, parent, child);
    var sameKey := parent.thumbprint == child.thumbprint;
    if sameKey && !SameTenant(parent, child) {
      FirstFaultAt(findings, 0);
      return NotAttenuated;
    }
    if !ScopeAttenuates(parent.scopeBoundary, child.scopeBoundary) {
      FirstFaultAt(findings, 1);
      return NotAttenuated;
    }
    if !CapsAttenuate(parent.capabilitySet, child.capabilitySet) {
      FirstFaultAt(findings, 2);
      return NotAttenuated;
    }
    if !ExpiryAttenuates(parent.expiresAt, child.expiresAt) {
      FirstFaultAt(findings, 3);
      return NotAttenuated;
    }
    FirstFaultSkips(findings, 4);
    if sameKey {
      return Attenuated;
    }
    assert findings[4..] == CrossKeyFindings(keys, attestations, now, parent, child);
    v := CheckConsent(keys, attestations, now, parent, child);
  }

  method CheckHops(keys: KeyResolver, attestations: AttestationBundle, now: Instant, docs: seq<Vaid>)
    returns (v: ChainVerification)
    ensures v == HopsVerdict(keys, attestations, now, docs)
  {
    var i := 0;
    assert docs[0..] == docs;
    while i + 1 < |docs|
      invariant i <= |docs|
      invariant HopsVerdict(keys, attestations, now, docs) == HopsVerdict(keys, attestations, now, docs[i..])
    {
      assert docs[i..][1..] == docs[i + 1..];
      v := CheckHop(keys, attestations, now, docs[i], docs[i + 1]);
      if v != Attenuated {
        return;
      }
      i := i + 1;
    }
    return Attenuated;
  }

  method VerifyChainAt(keys: KeyResolver, leaf: Vaid, bundle: Bundle, attestations: AttestationBundle, now: Instant)
    returns (v: ChainVerification)
    ensures v == Verdict(keys, leaf, bundle, attestations, now)
  {
    var authentic := Authenticate(keys, leaf, bundle);
    if !authentic {
      return Inauthentic;
    }
    var assembly := AssembleLineage(leaf.Id(), leaf.Parent(), BundleResolver(bundle));
    if assembly.Incomplete? {
      return Unverifiable;
    }
    var docs := CollectDocuments(leaf, bundle, assembly.ids);
    if docs.None? {
      return Unverifiable;
    }
    var lapsed := CheckLapse(docs.value, now);
    if lapsed {
      return Expired;
    }
    v := CheckHops(keys, attestations, now, docs.value);
  }

  // ------------------------------------------------------------------
  // First faults
  // ------------------------------------------------------------------

  lemma {:induction false} FirstFaultSkips(findings: seq<Finding>, n: nat)
    requires n <= |findings| && forall k | 0 <= k < n :: findings[k].holds
    ensures FirstFault(findings) == FirstFault(findings[n..])
  {
    if n == 0 {
      assert findings[0..] == findings;
    } else {
      FirstFaultSkips(findings[1..], n - 1);
      assert findings[1..][n - 1..] == findings[n..];
    }
  }

  /** The verdict is that of the first check that fails; `n` is its index, or the number of checks. */
  lemma FirstFaultAt(findings: seq<Finding>, n: nat)
    requires n <= |findings| && forall k | 0 <= k < n :: findings[k].holds
    requires n < |findings| ==> !findings[n].holds
    ensures FirstFault(findings) == if n == |findings| then Attenuated else findings[n].otherwise
  {
    FirstFaultSkips(findings, n);
  }
}
