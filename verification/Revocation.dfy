/** Lineage assembly and the in-memory stores of revocation.rs. */
module Revocation {
  import opened Wrappers
  import opened Wire

  const MAX_LINEAGE_DEPTH := 1024

  datatype RevocationStatus = NotRevoked | Revoked | Unavailable

  datatype ParentResolution = Root | Parent(parent: Uuid) | Unknown

  /** Any resolver: the answers need not be consistent with anything. */
  type Resolver = Uuid -> ParentResolution

  /** Root first, leaf last. */
  datatype LineageAssembly = Complete(ids: seq<Uuid>) | Incomplete

  // ------------------------------------------------------------------
  // What an ancestry is
  // ------------------------------------------------------------------

  /** The parent `ids` gives to its k-th member, as far as the list says. */
  function Above(ids: seq<Uuid>, k: nat): Option<Uuid>
    requires k < |ids|
  {
    if k == 0 then None else Some(ids[k - 1])
  }

  predicate Agrees(resolution: ParentResolution, parent: Option<Uuid>) {
    match parent
    case None => resolution == Root
    case Some(p) => resolution == Parent(p)
  }

  /**
   `ids` runs from a known root down to the leaf: the leaf's parent is the one its
   own document names, and every hop above is the resolver's.
   */
  predicate IsAncestry(ids: seq<Uuid>, leaf: Uuid, leafParent: Option<Uuid>, resolver: Resolver) {
    && ids != []
    && ids[|ids| - 1] == leaf
    && leafParent == Above(ids, |ids| - 1)
    && forall k {:trigger Above(ids, k)} | 0 <= k < |ids| - 1 :: Agrees(resolver(ids[k]), Above(ids, k))
  }

  predicate NoRepeats<T(==)>(s: seq<T>) {
    forall i, j | 0 <= i < j < |s| :: s[i] != s[j]
  }

  predicate IsLineage(ids: seq<Uuid>, leaf: Uuid, leafParent: Option<Uuid>, resolver: Resolver) {
    IsAncestry(ids, leaf, leafParent, resolver) && NoRepeats(ids) && |ids| <= MAX_LINEAGE_DEPTH
  }

  // ------------------------------------------------------------------
  // Assembly
  // ------------------------------------------------------------------

  /** The chain walked so far, leaf first, and what is left to resolve. */
  function Walk(chain: seq<Uuid>, next: Option<Uuid>, resolver: Resolver): LineageAssembly
    decreases MAX_LINEAGE_DEPTH - |chain|
  {
    match next
    case None => Complete(Reversed(chain))
    case Some(pid) =>
      if pid in chain || |chain| >= MAX_LINEAGE_DEPTH then Incomplete
      else match resolver(pid)
        case Root => Walk(chain + [pid], None, resolver)
        case Parent(grandparent) => Walk(chain + [pid], Some(grandparent), resolver)
        case Unknown => Incomplete
  }

  function Reversed<T>(s: seq<T>): (r: seq<T>)
    ensures |r| == |s|
    ensures forall k | 0 <= k < |s| :: r[k] == s[|s| - 1 - k]
  {
    seq(|s|, k requires 0 <= k < |s| => s[|s| - 1 - k])
  }

  function Assembled(leaf: Uuid, leafParent: Option<Uuid>, resolver: Resolver): LineageAssembly {
    Walk([leaf], leafParent, resolver)
  }

  method AssembleLineage(leaf: Uuid, leafParent: Option<Uuid>, resolver: Resolver) returns (r: LineageAssembly)
    ensures r == Assembled(leaf, leafParent, resolver)
  {
    var chain := [leaf];
    var nextParent := leafParent;
    while nextParent.Some?
      invariant Walk([leaf], leafParent, resolver) == Walk(chain, nextParent, resolver)
      decreases MAX_LINEAGE_DEPTH - |chain|, if nextParent.Some? then 1 else 0
    {
      var pid := nextParent.value;
      if pid in chain || |chain| >= MAX_LINEAGE_DEPTH {
        return Incomplete;
      }
      match resolver(pid) {
        case Root => nextParent := None;
        case Parent(grandparent) => nextParent := Some(grandparent);
        case Unknown => return Incomplete;
      }
      chain := chain + [pid];
    }
    r := Complete(Reversed(chain));
  }

  /** The last `n` of `ids`, leaf first: what a walk up it holds after n ids. */
  function LastReversed(ids: seq<Uuid>, n: nat): (r: seq<Uuid>)
    requires n <= |ids|
    ensures |r| == n && forall i | 0 <= i < n :: r[i] == ids[|ids| - 1 - i]
  {
    seq(n, i requires 0 <= i < n => ids[|ids| - 1 - i])
  }

  lemma WalkStep(chain: seq<Uuid>, pid: Uuid, after: Option<Uuid>, resolver: Resolver)
    requires pid !in chain && |chain| < MAX_LINEAGE_DEPTH && Agrees(resolver(pid), after)
    ensures Walk(chain, Some(pid), resolver) == Walk(chain + [pid], after, resolver)
  {
  }

  lemma LastReversedOne(ids: seq<Uuid>)
    requires ids != []
    ensures LastReversed(ids, 1) == [ids[|ids| - 1]]
  {
  }

  lemma LastReversedStep(ids: seq<Uuid>, n: nat)
    requires n < |ids|
    ensures LastReversed(ids, n) + [ids[|ids| - n - 1]] == LastReversed(ids, n + 1)
  {
  }

  lemma {:induction false} WalkFindsLineage(n: nat, ids: seq<Uuid>, resolver: Resolver)
    requires 0 < n <= |ids| <= MAX_LINEAGE_DEPTH && NoRepeats(ids)
    requires forall k {:trigger Above(ids, k)} | 0 <= k < |ids| - 1 :: Agrees(resolver(ids[k]), Above(ids, k))
    ensures Walk(LastReversed(ids, n), Above(ids, |ids| - n), resolver) == Complete(ids)
    decreases |ids| - n
  {
    var chain := LastReversed(ids, n);
    if n == |ids| {
      assert Reversed(chain) == ids;
    } else {
      var k := |ids| - n - 1;
      assert ids[k] !in chain by {
        forall i | 0 <= i < n ensures chain[i] != ids[k] {
          assert chain[i] == ids[|ids| - 1 - i];
        }
      }
      WalkStep(chain, ids[k], Above(ids, k), resolver);
      LastReversedStep(ids, n);
      WalkFindsLineage(n + 1, ids, resolver);
    }
  }

  /** What a walk has established about the ids it holds, leaf first. */
  predicate IsWalked(chain: seq<Uuid>, next: Option<Uuid>, leaf: Uuid, leafParent: Option<Uuid>, resolver: Resolver) {
    && 0 < |chain| <= MAX_LINEAGE_DEPTH
    && chain[0] == leaf
    && NoRepeats(chain)
    && (if |chain| == 1 then leafParent == next else leafParent == Some(chain[1]))
    && (forall i | 0 < i < |chain| - 1 :: resolver(chain[i]) == Parent(chain[i + 1]))
    && (|chain| > 1 ==> Agrees(resolver(chain[|chain| - 1]), next))
  }

  lemma FinishedWalkIsLineage(chain: seq<Uuid>, leaf: Uuid, leafParent: Option<Uuid>, resolver: Resolver)
    requires IsWalked(chain, None, leaf, leafParent, resolver)
    ensures IsLineage(Reversed(chain), leaf, leafParent, resolver)
  {
  }

  lemma WalkedStep(
    chain: seq<Uuid>, pid: Uuid, after: Option<Uuid>, leaf: Uuid, leafParent: Option<Uuid>, resolver: Resolver)
    requires IsWalked(chain, Some(pid), leaf, leafParent, resolver)
    requires pid !in chain && |chain| < MAX_LINEAGE_DEPTH && Agrees(resolver(pid), after)
    ensures IsWalked(chain + [pid], after, leaf, leafParent, resolver)
  {
  }

  lemma {:induction false} WalkIsLineage(
    chain: seq<Uuid>, next: Option<Uuid>, leaf: Uuid, leafParent: Option<Uuid>, resolver: Resolver)
    requires IsWalked(chain, next, leaf, leafParent, resolver)
    ensures var r := Walk(chain, next, resolver);
            r.Complete? ==> IsLineage(r.ids, leaf, leafParent, resolver)
    decreases MAX_LINEAGE_DEPTH - |chain|
  {
    match next
    case None =>
      FinishedWalkIsLineage(chain, leaf, leafParent, resolver);
    case Some(pid) =>
      if pid !in chain && |chain| < MAX_LINEAGE_DEPTH && !resolver(pid).Unknown? {
        var after := if resolver(pid).Root? then None else Some(resolver(pid).parent);
        WalkedStep(chain, pid, after, leaf, leafParent, resolver);
        WalkIsLineage(chain + [pid], after, leaf, leafParent, resolver);
      }
  }

  /** Assembly completes with a list iff that list is the lineage, within the bound and without a repeat. */
  lemma AssemblyIsExact(ids: seq<Uuid>, leaf: Uuid, leafParent: Option<Uuid>, resolver: Resolver)
    ensures Assembled(leaf, leafParent, resolver) == Complete(ids) <==> IsLineage(ids, leaf, leafParent, resolver)
  {
    WalkIsLineage([leaf], leafParent, leaf, leafParent, resolver);
    if IsLineage(ids, leaf, leafParent, resolver) {
      LastReversedOne(ids);
      WalkFindsLineage(1, ids, resolver);
    }
  }

  // ------------------------------------------------------------------
  // Ancestries, however they are resolved
  // ------------------------------------------------------------------

  /** Every answer `partial` gives is `full`'s. */
  ghost predicate IsPartialView(partial: Resolver, full: Resolver) {
    forall id :: partial(id) == Unknown || partial(id) == full(id)
  }

  function ParentIn(resolution: ParentResolution): Option<Uuid> {
    if resolution.Parent? then Some(resolution.parent) else None
  }

  lemma ShorterAncestry(ids: seq<Uuid>, leaf: Uuid, leafParent: Option<Uuid>, resolver: Resolver)
    requires IsAncestry(ids, leaf, leafParent, resolver) && |ids| > 1
    ensures var up := ids[..|ids| - 1];
            leafParent == Some(Last(up)) && IsAncestry(up, Last(up), ParentIn(resolver(Last(up))), resolver)
  {
    var n := |ids|;
    assert Agrees(resolver(ids[n - 2]), Above(ids, n - 2));
    forall k {:trigger Above(ids[..n - 1], k)} | 0 <= k < n - 2
      ensures Agrees(resolver(ids[..n - 1][k]), Above(ids[..n - 1], k))
    {
      assert Agrees(resolver(ids[k]), Above(ids, k));
    }
  }

  /** A leaf has at most one ancestry, of whatever length. */
  lemma {:induction false} AncestryIsUnique(
    ids: seq<Uuid>, other: seq<Uuid>, leaf: Uuid, leafParent: Option<Uuid>, resolver: Resolver)
    requires IsAncestry(ids, leaf, leafParent, resolver) && IsAncestry(other, leaf, leafParent, resolver)
    ensures ids == other
  {
    if leafParent == None {
      assert ids == [leaf] == other;
    } else {
      ShorterAncestry(ids, leaf, leafParent, resolver);
      ShorterAncestry(other, leaf, leafParent, resolver);
      var up, otherUp := ids[..|ids| - 1], other[..|other| - 1];
      AncestryIsUnique(up, otherUp, Last(up), ParentIn(resolver(Last(up))), resolver);
      assert ids == up + [leaf] && other == otherUp + [leaf];
    }
  }

  /** Losing lineage can only make an assembly incomplete; it never makes it wrong. */
  lemma PartialViewsNeverMislead(
    ids: seq<Uuid>, truth: seq<Uuid>, leaf: Uuid, leafParent: Option<Uuid>, partial: Resolver, full: Resolver)
    requires IsPartialView(partial, full) && IsAncestry(truth, leaf, leafParent, full)
    requires Assembled(leaf, leafParent, partial) == Complete(ids)
    ensures ids == truth
  {
    AssemblyIsExact(ids, leaf, leafParent, partial);
    forall k {:trigger Above(ids, k)} | 0 <= k < |ids| - 1 ensures Agrees(full(ids[k]), Above(ids, k)) {
      assert Agrees(partial(ids[k]), Above(ids, k));
    }
    AncestryIsUnique(ids, truth, leaf, leafParent, full);
  }

  // ------------------------------------------------------------------
  // The stores
  // ------------------------------------------------------------------

  type RevokedState = Option<set<Uuid>>

  function CheckedLineage(state: RevokedState, lineage: seq<Uuid>): RevocationStatus {
    match state
    case None => Unavailable
    case Some(revoked) =>
      if exists k | 0 <= k < |lineage| :: lineage[k] in revoked then Revoked else NotRevoked
  }

  function WithRevoked(state: RevokedState, id: Uuid): RevokedState {
    match state
    case None => Some({id})
    case Some(revoked) => Some(revoked + {id})
  }

  /** Absent (None) or vouching for its contents. */
  class InMemoryRevocationList {
    var state: RevokedState

    constructor Absent()
      ensures state == None
    {
      state := None;
    }

    constructor AssumeNothingRevoked()
      ensures state == Some({})
    {
      state := Some({});
    }

    method Revoke(id: Uuid)
      modifies this
      ensures state == WithRevoked(old(state), id)
    {
      if state.None? {
        state := Some({});
        assert {} + {id} == {id};
      }
      state := Some(state.value + {id});
    }

    method MarkUnavailable()
      modifies this
      ensures state == None
    {
      state := None;
    }

    method CheckLineage(lineage: seq<Uuid>) returns (status: RevocationStatus)
      ensures status == CheckedLineage(state, lineage)
    {
      if state.None? {
        return Unavailable;
      }
      for i := 0 to |lineage|
        invariant forall k | 0 <= k < i :: lineage[k] !in state.value
      {
        if lineage[i] in state.value {
          return Revoked;
        }
      }
      return NotRevoked;
    }
  }

  type LineageMap = map<Uuid, Option<Uuid>>

  function Resolve(entries: LineageMap, id: Uuid): ParentResolution {
    if id !in entries then Unknown
    else match entries[id]
      case None => Root
      case Some(p) => Parent(p)
  }

  function MapResolver(entries: LineageMap): Resolver {
    id => Resolve(entries, id)
  }

  class InMemoryLineageStore {
    var entries: LineageMap

    constructor ()
      ensures entries == map[]
    {
      entries := map[];
    }

    method Record(id: Uuid, parent: Option<Uuid>)
      modifies this
      ensures entries == old(entries)[id := parent]
    {
      entries := entries[id := parent];
    }

    method Clear()
      modifies this
      ensures entries == map[]
    {
      entries := map[];
    }

    method ResolveParent(id: Uuid) returns (r: ParentResolution)
      ensures r == Resolve(entries, id)
    {
      if id !in entries {
        return Unknown;
      }
      match entries[id] {
        case None => return Root;
        case Some(p) => return Parent(p);
      }
    }
  }
}
