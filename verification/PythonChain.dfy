/** The Python chain verifier: the same procedure over the objects presented, with its own readers of times. */
module PythonChain {
  import opened Wrappers
  import opened Wire
  import opened ScopeRules
  import opened Document
  import opened Revocation
  import opened PresentedConsents
  import opened Chain
  import Attestation

  // ------------------------------------------------------------------
  // What Python makes of a document
  // ------------------------------------------------------------------

  type TimeReader = Timestamp -> Option<Instant>

  /** `iso` reads a document's expiry, `e6` a consent's times. */
  datatype Readers = Readers(iso: TimeReader, e6: TimeReader)

  /** Both read the whole-second profile; the strict one reads no fraction. */
  ghost predicate AreReaders(r: Readers) {
    && (forall s: int :: r.iso(E6(s)) == Some(s * SECOND))
    && (forall s: int :: r.e6(E6(s)) == Some(s * SECOND))
    && (forall t: Instant :: r.e6(Fractional(t)) == None)
  }

  function IdAsText(id: PresentedUuid): PresentedUuid {
    PresentedUuid(id.raw, id.raw)
  }

  /** An id is its text. */
  function AsText(v: Vaid): Vaid {
    v.(vaidId := IdAsText(v.vaidId), agentId := IdAsText(v.agentId),
       parentVaid := match v.parentVaid
                     case Some(Some(p)) => Some(Some(IdAsText(p)))
                     case other => other)
  }

  /** A timestamp that denotes what the reader makes of `t`. */
  function ExpiryRead(r: Readers, t: Timestamp): (read: Timestamp)
    ensures ParseRfc3339(read) == r.iso(t)
  {
    if r.iso(t) == ParseRfc3339(t) then t
    else match r.iso(t)
      case None => Unreadable("")
      case Some(instant) => Rfc3339(instant, "")
  }

  function AsRead(r: Readers, v: Vaid): Vaid {
    AsText(v).(expiresAt := ExpiryRead(r, v.expiresAt))
  }

  function AllAsText(documents: seq<Vaid>): seq<Vaid> {
    seq(|documents|, k requires 0 <= k < |documents| => AsText(documents[k]))
  }

  function AllAsRead(r: Readers, documents: seq<Vaid>): seq<Vaid> {
    seq(|documents|, k requires 0 <= k < |documents| => AsRead(r, documents[k]))
  }

  /** Reading ids as text leaves the object that was signed alone. */
  lemma TextKeepsTheObject(v: Vaid)
    ensures SigningMessage(AsText(v)) == SigningMessage(v)
  {
    assert forall name | IsWritten(v, name) :: Written(AsText(v), name) == Written(v, name);
    assert ToObject(AsText(v)) == ToObject(v);
  }

  // ------------------------------------------------------------------
  // Consents
  // ------------------------------------------------------------------

  type ConsentBundle = map<(string, string), PresentedConsent>

  /** Filed by the hop each names, as text; a later one for the same text replaces the earlier. */
  function FiledConsents(consents: seq<PresentedConsent>): ConsentBundle {
    if consents == [] then map[]
    else
      var last := Last(consents);
      FiledConsents(consents[..|consents| - 1])[(last.body.parentVaid, last.body.childVaid) := last]
  }

  /** A time its reader cannot read is outside every window. */
  predicate IsCurrentAsPresented(r: Readers, p: PresentedConsent, now: Instant) {
    match (r.e6(p.body.issuedAt), r.e6(p.body.expiresAt))
    case (Some(issued), Some(expires)) =>
      if expires <= issued then false
      else if now > expires then false
      else now >= issued - Attestation.MINT_POP_FRESHNESS_SECS * SECOND
    case _ => false
  }

  predicate IsAuthenticConsent(keys: KeyResolver, p: PresentedConsent) {
    match keys(p.body.thumbprint)
    case None => false
    case Some(key) => AuthenticAsPresented(key, p)
  }

  /** Authenticity and currency before the child the consent names. */
  function PythonConsentFindings(
    r: Readers, keys: KeyResolver, p: PresentedConsent, now: Instant, parent: Vaid, child: Vaid): seq<Finding>
  {
    var b := p.body;
    [Finding(b.thumbprint == parent.thumbprint && b.trustDomain == parent.trustDomain, Inauthentic),
     Finding(IsAuthenticConsent(keys, p), Inauthentic),
     Finding(IsCurrentAsPresented(r, p, now), ConsentExpired),
     Finding(b.childTrustDomain == child.trustDomain && b.childTenantId == child.tenantId, NotAttenuated),
     Finding(ScopeAttenuates(b.scopeBoundary, child.scopeBoundary)
             && CapsAttenuate(b.capabilitySet, child.capabilitySet), NotAttenuated),
     Finding(ScopeAttenuates(parent.scopeBoundary, b.scopeBoundary)
             && CapsAttenuate(parent.capabilitySet, b.capabilitySet), NotAttenuated)]
  }

  function PythonHopFindings(
    r: Readers, keys: KeyResolver, consents: ConsentBundle, now: Instant, parent: Vaid, child: Vaid): seq<Finding>
  {
    ContainmentFindings(parent, child)
    + if SameKey(parent, child) then []
      else if (parent.Id(), child.Id()) !in consents then [Finding(false, Inauthentic)]
      else PythonConsentFindings(r, keys, consents[(parent.Id(), child.Id())], now, parent, child)
  }

  function PythonHopVerdict(
    r: Readers, keys: KeyResolver, consents: ConsentBundle, now: Instant, parent: Vaid, child: Vaid): ChainVerification
  {
    FirstFault(PythonHopFindings(r, keys, consents, now, parent, child))
  }

  function PythonHopsVerdict(
    r: Readers, keys: KeyResolver, consents: ConsentBundle, now: Instant, docs: seq<Vaid>): ChainVerification
  {
    if |docs| < 2 then Attenuated
    else
      var first := PythonHopVerdict(r, keys, consents, now, docs[0], docs[1]);
      if first != Attenuated then first else PythonHopsVerdict(r, keys, consents, now, docs[1..])
  }

  /** Authenticity is of the objects presented; the chain is of what is read of them. */
  function PythonVerdict(
    r: Readers, keys: KeyResolver, leaf: Vaid, documents: seq<Vaid>, consents: seq<PresentedConsent>, now: Instant)
    : ChainVerification
  {
    if !AllAuthentic(keys, AsText(leaf), PresentedBundle(AllAsText(documents))) then Inauthentic
    else match PresentedChain(AsRead(r, leaf), PresentedBundle(AllAsRead(r, documents)))
      case None => Unverifiable
      case Some(docs) =>
        if AncestorLapsed(docs, now) then Expired
        else PythonHopsVerdict(r, keys, FiledConsents(consents), now, docs)
  }
}
