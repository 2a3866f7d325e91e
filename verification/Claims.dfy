/** The claims a verified chain becomes: `sub`, nested `act`, and the `vaid` claim. */
module Claims {
  import opened Wrappers
  import opened Wire
  import opened Document

  /** An `act` claim: the actor, and the actor before it. */
  datatype Actor = Actor(sub: string, act: Option<Actor>)

  /** SHA-256 of the canonical chain is idealized: the digest is the chain. */
  datatype VaidClaim = VaidClaim(
    vaidId: string,
    trustDomain: string,
    scopeBoundary: Scope,
    capabilitySet: seq<string>,
    chainSha256: seq<Object>)

  /** The ids as presented, in chain order. */
  function RawIds(docs: seq<Vaid>): (ids: seq<string>)
    ensures |ids| == |docs| && forall k | 0 <= k < |docs| :: ids[k] == docs[k].vaidId.raw
  {
    seq(|docs|, k requires 0 <= k < |docs| => docs[k].vaidId.raw)
  }

  /** Latest actor outermost: the last id, over what the ids before it nest to. */
  function Nested(actors: seq<string>): Option<Actor> {
    if actors == [] then None else Some(Actor(Last(actors), Nested(actors[..|actors| - 1])))
  }

  /** An `act` claim read back, oldest actor first. */
  function Unnested(act: Option<Actor>): seq<string> {
    match act
    case None => []
    case Some(actor) => Unnested(actor.act) + [actor.sub]
  }

  /** Every party a token names, from the root to the presenter. */
  function Flattened(sub: string, act: Option<Actor>): seq<string> {
    [sub] + Unnested(act)
  }

  method BuildSubAndAct(docs: seq<Vaid>) returns (sub: string, act: Option<Actor>)
    requires docs != []
    ensures Flattened(sub, act) == RawIds(docs)
  {
    sub := docs[0].vaidId.raw;
    var actors := docs[1..];
    if actors == [] {
      return sub, None;
    }
    var node := Actor(actors[0].vaidId.raw, None);
    for i := 1 to |actors|
      invariant Unnested(Some(node)) == RawIds(actors[..i])
    {
      node := Actor(actors[i].vaidId.raw, Some(node));
      assert RawIds(actors[..i + 1]) == RawIds(actors[..i]) + [actors[i].vaidId.raw];
    }
    assert actors[..|actors|] == actors;
    assert RawIds(docs) == [sub] + RawIds(actors);
    return sub, Some(node);
  }

  lemma {:induction false} UnnestedNested(actors: seq<string>)
    ensures Unnested(Nested(actors)) == actors
  {
    if actors != [] {
      UnnestedNested(actors[..|actors| - 1]);
    }
  }

  lemma {:induction false} NestedUnnested(act: Option<Actor>)
    ensures Nested(Unnested(act)) == act
    decreases act
  {
    if act.Some? {
      NestedUnnested(act.value.act);
      var actors := Unnested(act);
      assert actors[..|actors| - 1] == Unnested(act.value.act);
    }
  }

  /** The encoding is invertible: `sub` and `act` are fixed by the list of ids, and any such list has them. */
  lemma FlatteningIsInvertible(ids: seq<string>, sub: string, act: Option<Actor>)
    requires ids != []
    ensures Flattened(sub, act) == ids <==> sub == ids[0] && act == Nested(ids[1..])
    ensures Flattened(sub, act) == ids ==>
              if |ids| == 1 then act.None?
              else act.Some? && act.value.sub == Last(ids) && Flattened(sub, act.value.act) == ids[..|ids| - 1]
  {
    UnnestedNested(ids[1..]);
    NestedUnnested(act);
    if Flattened(sub, act) == ids {
      assert ids[1..] == Unnested(act);
    }
  }

  function Objects(docs: seq<Vaid>): seq<Object> {
    seq(|docs|, k requires 0 <= k < |docs| => ToObject(docs[k]))
  }

  function BuildVaidClaim(leaf: Vaid, docs: seq<Vaid>): VaidClaim {
    VaidClaim(leaf.vaidId.raw, leaf.trustDomain, leaf.scopeBoundary, leaf.capabilitySet, Objects(docs))
  }

  /** An auditor holding documents with the same digest holds the very documents that were verified. */
  lemma ChainDigestFixesDocuments(docs: seq<Vaid>, held: seq<Vaid>, parse: UuidParser)
    requires forall k | 0 <= k < |docs| :: IsParsed(docs[k], parse)
    requires forall k | 0 <= k < |held| :: IsParsed(held[k], parse)
    ensures Objects(docs) == Objects(held) <==> docs == held
  {
    if Objects(docs) == Objects(held) {
      assert |docs| == |Objects(docs)| == |Objects(held)| == |held|;
      forall k | 0 <= k < |docs| ensures docs[k] == held[k] {
        assert ToObject(docs[k]) == Objects(docs)[k] == Objects(held)[k] == ToObject(held[k]);
        DocumentRoundTrip(docs[k], parse);
        DocumentRoundTrip(held[k], parse);
      }
    }
  }
}
