/** The reference issuer's own verdicts: revocation over the assembled lineage, and `verify_vaid`. */
module Issuer {
  import opened Wrappers
  import opened Wire
  import opened Document
  import opened Revocation
  import opened Mint

  /** An ancestry that cannot be completed is unavailable, whatever the store holds. */
  function StatusOf(lineage: LineageMap, revoked: RevokedState, v: Vaid): RevocationStatus {
    match Assembled(v.Id(), v.Parent(), MapResolver(lineage))
    case Incomplete => Unavailable
    case Complete(ids) => CheckedLineage(revoked, ids)
  }

  predicate VerifiesVaid(key: Key, lineage: LineageMap, revoked: RevokedState, v: Vaid, now: Instant) {
    && v.sigVersion == VAID_SIG_VERSION_V4
    && !v.IsExpiredAt(now)
    && StatusOf(lineage, revoked, v) == NotRevoked
    && Verifies(key, SigningMessage(v), v.kernelSignature)
  }

  /** `ids` is the document's ancestry as the store has it: complete, within the bound, without a repeat. */
  predicate IsLineageOf(ids: seq<Uuid>, lineage: LineageMap, v: Vaid) {
    IsLineage(ids, v.Id(), v.Parent(), MapResolver(lineage))
  }

  /**
   Any document at all passes iff it is of the current scheme, still live, signed under
   this kernel key over all it presents, and of a known ancestry none of which is
   revoked in a store that vouches.
   */
  lemma VerifiesVaidIsExact(key: Key, lineage: LineageMap, revoked: RevokedState, v: Vaid, now: Instant)
    ensures VerifiesVaid(key, lineage, revoked, v, now)
            <==> && v.sigVersion == 4
                 && v.Expiry().Some? && now <= v.Expiry().value
                 && v.kernelSignature == Signature(key, VaidMessage(ToObject(v)[KernelSignature := Null]))
                 && revoked.Some?
                 && exists ids :: IsLineageOf(ids, lineage, v) && forall id | id in ids :: id !in revoked.value
  {
    hide ToObject, Assembled, IsLineage, CheckedLineage, SigningMessage;
    CheckedIsExact(revoked);
    SigningMessageIs(v);
    var resolver := MapResolver(lineage);
    var assembly := Assembled(v.Id(), v.Parent(), resolver);
    if assembly.Complete? {
      AssemblyIsExact(assembly.ids, v.Id(), v.Parent(), resolver);
      assert IsLineageOf(assembly.ids, lineage, v);
    }
    forall ids | IsLineageOf(ids, lineage, v) ensures assembly == Complete(ids) {
      AssemblyIsExact(ids, v.Id(), v.Parent(), resolver);
    }
  }

  /** Nothing is revoked iff the store vouches and holds none of the ids. */
  lemma CheckedIsExact(revoked: RevokedState)
    ensures forall ids {:trigger CheckedLineage(revoked, ids)} ::
              CheckedLineage(revoked, ids) == NotRevoked
              <==> revoked.Some? && forall id | id in ids :: id !in revoked.value
  {
  }

  lemma SigningMessageIs(v: Vaid)
    ensures SigningMessage(v) == VaidMessage(ToObject(v)[KernelSignature := Null])
  {
    hide ToObject;
  }

  // ------------------------------------------------------------------
  // The same, with others in between
  // ------------------------------------------------------------------

  /** What each lookup of a walk finds in the lineage store: the store is locked once per hop. */
  type Lookups = nat -> LineageMap

  function WalkAcross(chain: seq<Uuid>, next: Option<Uuid>, stores: Lookups): LineageAssembly
    requires chain != []
    decreases MAX_LINEAGE_DEPTH - |chain|
  {
    match next
    case None => Complete(Reversed(chain))
    case Some(pid) =>
      if pid in chain || |chain| >= MAX_LINEAGE_DEPTH then Incomplete
      else match Resolve(stores(|chain| - 1), pid)
        case Root => WalkAcross(chain + [pid], None, stores)
        case Parent(grandparent) => WalkAcross(chain + [pid], Some(grandparent), stores)
        case Unknown => Incomplete
  }

  /** The revocation store is asked once, after the walk. */
  function StatusAcross(stores: Lookups, revoked: RevokedState, v: Vaid): RevocationStatus {
    match WalkAcross([v.Id()], v.Parent(), stores)
    case Incomplete => Unavailable
    case Complete(ids) => CheckedLineage(revoked, ids)
  }

  predicate VerifiesAcross(key: Key, stores: Lookups, revoked: RevokedState, v: Vaid, now: Instant) {
    && v.sigVersion == VAID_SIG_VERSION_V4
    && !v.IsExpiredAt(now)
    && StatusAcross(stores, revoked, v) == NotRevoked
    && Verifies(key, SigningMessage(v), v.kernelSignature)
  }

  /** With nobody in between, every lookup sees one store. */
  lemma {:induction false} UndisturbedWalk(chain: seq<Uuid>, next: Option<Uuid>, entries: LineageMap)
    requires chain != []
    ensures WalkAcross(chain, next, _ => entries) == Walk(chain, next, MapResolver(entries))
    decreases MAX_LINEAGE_DEPTH - |chain|
  {
    match next
    case None =>
    case Some(pid) =>
      if pid !in chain && |chain| < MAX_LINEAGE_DEPTH {
        match Resolve(entries, pid)
        case Root => UndisturbedWalk(chain + [pid], None, entries);
        case Parent(grandparent) => UndisturbedWalk(chain + [pid], Some(grandparent), entries);
        case Unknown =>
      }
  }

  lemma UndisturbedCheck(key: Key, entries: LineageMap, revoked: RevokedState, v: Vaid, now: Instant)
    ensures StatusAcross(_ => entries, revoked, v) == StatusOf(entries, revoked, v)
    ensures VerifiesAcross(key, _ => entries, revoked, v, now) == VerifiesVaid(key, entries, revoked, v, now)
  {
    UndisturbedWalk([v.Id()], v.Parent(), entries);
  }
}
